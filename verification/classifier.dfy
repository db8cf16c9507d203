/** The second pass: every pulse width becomes a symbol.  A width in the
    1200 Hz band becomes 0, a width in the 2400 Hz band becomes 1, a long
    width is passed on as the raw number, and everything else is dropped.
    Symbols stay plain integers, so a raw width and a data symbol are only
    told apart by value. */
module Classifier {

  /** What one width contributes to the symbol stream: the three independent
      tests of ProcessTape.py, appended in their order there.  That is at most
      one symbol: 0, 1, or the width itself when it is above 25. */
  function SymbolsOf(c: int): (r: seq<int>)
    ensures |r| <= 1
    ensures forall k :: 0 <= k < |r| ==> r[k] == 0 || r[k] == 1 || (r[k] == c && c > 25)
  {
    (if c > 15 && c < 25 then [0] else [])
    + (if c < 15 && c > 5 then [1] else [])
    + (if c > 25 then [c] else [])
  }

  /** The three bands are disjoint, so a width yields at most one symbol:
      0 exactly for 15 < c < 25, 1 exactly for 5 < c < 15, the width itself
      exactly for c > 25, and nothing for c <= 5, c == 15 and c == 25. */
  lemma SymbolCases(c: int)
    ensures |SymbolsOf(c)| <= 1
    ensures SymbolsOf(c) == [0] <==> 15 < c < 25
    ensures SymbolsOf(c) == [1] <==> 5 < c < 15
    ensures SymbolsOf(c) == [c] <==> c > 25
    ensures SymbolsOf(c) == [] <==> c <= 5 || c == 15 || c == 25
  {
    if 15 < c < 25 {
      assert SymbolsOf(c) == [0];
    } else if 5 < c < 15 {
      assert SymbolsOf(c) == [1];
    } else if c > 25 {
      assert SymbolsOf(c) == [c];
      assert [c] != [0] && [c] != [1] by {
        assert [c][0] == c;
      }
    } else {
      assert SymbolsOf(c) == [];
    }
  }

  /** A symbol the classifier can produce: a data symbol or a raw long width. */
  predicate IsSymbol(x: int)
  {
    x == 0 || x == 1 || x > 25
  }

  /** The symbol stream of a width sequence, built left to right. */
  function Classify(ws: seq<int>): (r: seq<int>)
    ensures |r| <= |ws|
    ensures forall k :: 0 <= k < |r| ==> IsSymbol(r[k])
  {
    if ws == [] then []
    else
      var c := ws[|ws| - 1];
      SymbolCases(c);
      Classify(ws[..|ws| - 1]) + SymbolsOf(c)
  }

  /** The classifier loop. */
  method ClassifyWidths(crossings: seq<int>) returns (bstream: seq<int>)
    ensures bstream == Classify(crossings)
  {
    bstream := [];
    var i := 0;
    while i < |crossings|
      invariant 0 <= i <= |crossings|
      invariant bstream == Classify(crossings[..i])
    {
      var c := crossings[i];
      assert crossings[..i + 1][..i] == crossings[..i];
      if c > 15 && c < 25 {
        bstream := bstream + [0];
      }
      if c < 15 && c > 5 {
        bstream := bstream + [1];
      }
      if c > 25 {
        bstream := bstream + [c];
      }
      i := i + 1;
    }
    assert crossings[..|crossings|] == crossings;
  }

  /** Classification works width by width: the symbols of a concatenation are
      the concatenation of the symbols, so order is preserved. */
  lemma {:induction false} ClassifyAppend(a: seq<int>, b: seq<int>)
    ensures Classify(a + b) == Classify(a) + Classify(b)
    decreases |b|
  {
    if b == [] {
      assert a + b == a;
    } else {
      var b', x := b[..|b| - 1], b[|b| - 1];
      calc {
        Classify(a + b);
      == { assert a + b == (a + b') + [x]; ClassifyLast(a + b', x); }
        Classify(a + b') + SymbolsOf(x);
      == { ClassifyAppend(a, b'); }
        Classify(a) + Classify(b') + SymbolsOf(x);
      == { assert b == b' + [x]; ClassifyLast(b', x); }
        Classify(a) + Classify(b);
      }
    }
  }

  lemma ClassifyLast(ws: seq<int>, c: int)
    ensures Classify(ws + [c]) == Classify(ws) + SymbolsOf(c)
  {
    assert (ws + [c])[..|ws|] == ws;
  }

  /** When every width falls in one of the three bands nothing is dropped, and
      each symbol sits at the position of its width. */
  lemma {:induction false} ClassifyInBand(ws: seq<int>)
    requires forall k :: 0 <= k < |ws| ==> 5 < ws[k] < 15 || 15 < ws[k] < 25 || ws[k] > 25
    ensures |Classify(ws)| == |ws|
    ensures forall k :: 0 <= k < |ws| ==> Classify(ws)[k] == SymbolsOf(ws[k])[0]
  {
    if ws != [] {
      var init := ws[..|ws| - 1];
      ClassifyInBand(init);
      SymbolCases(ws[|ws| - 1]);
    }
  }

  /** Every symbol stays below any bound above 1 that all the widths stay
      below: data symbols are 0 and 1, and a raw symbol is one of the
      widths. */
  lemma {:induction false} ClassifyBelow(ws: seq<int>, hi: int)
    requires 1 < hi
    requires forall k :: 0 <= k < |ws| ==> ws[k] < hi
    ensures forall k :: 0 <= k < |Classify(ws)| ==> Classify(ws)[k] < hi
  {
    if ws != [] {
      var init := ws[..|ws| - 1];
      ClassifyBelow(init, hi);
      SymbolCases(ws[|ws| - 1]);
    }
  }
}
