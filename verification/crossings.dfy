/** The first pass of the tape decoder: a polarity flag with hysteresis is run
    over the audio samples, and the distance between successive flips of the
    flag is recorded as a pulse width.  Widths of 100 samples or more are
    silence between bursts and are dropped, but the reference point for the
    next width still moves to the dropped flip. */
module Crossings {

  /** A sample must rise above this to raise the flag, or fall below its
      negation to lower it. */
  const Threshold: int := 4000

  /** Widths at or above this many samples are not kept. */
  const MaxWidth: int := 100

  /** The flag after one sample: first the raising test, then the lowering
      test, in that order.  The flag changes at most once, and only when the
      sample lies beyond the threshold on the side opposite the flag. */
  function Hysteresis(high: bool, s: int): (h: bool)
    ensures h != high <==> (!high && s > Threshold) || (high && s < -Threshold)
    ensures -Threshold <= s <= Threshold ==> h == high
  {
    var raised := if !high && s > Threshold then true else high;
    if raised && s < -Threshold then false else raised
  }

  /** The flag after the first `n` samples; it starts low. */
  function Level(p: seq<int>, n: nat): bool
    requires n <= |p|
  {
    if n == 0 then false else Hysteresis(Level(p, n - 1), p[n - 1])
  }

  /** Sample `i` flips the flag. */
  predicate IsCrossing(p: seq<int>, i: nat)
    requires i < |p|
  {
    Level(p, i + 1) != Level(p, i)
  }

  /** The indices among the first `n` samples that flip the flag, in order. */
  function CrossingsUpTo(p: seq<int>, n: nat): seq<nat>
    requires n <= |p|
  {
    if n == 0 then []
    else CrossingsUpTo(p, n - 1) + (if IsCrossing(p, n - 1) then [n - 1] else [])
  }

  /** The most recent crossing, or sample 0 when there has been none. */
  function LastCrossing(cs: seq<nat>): nat
  {
    if cs == [] then 0 else cs[|cs| - 1]
  }

  /** The distance of every crossing from the crossing before it; the first
      is measured from sample 0. */
  function Gaps(cs: seq<nat>): seq<int>
  {
    if cs == [] then []
    else Gaps(cs[..|cs| - 1]) + [cs[|cs| - 1] - LastCrossing(cs[..|cs| - 1])]
  }

  /** The widths below `MaxWidth`, in their original order. */
  function KeepShort(ws: seq<int>): seq<int>
  {
    if ws == [] then []
    else KeepShort(ws[..|ws| - 1]) + (if ws[|ws| - 1] < MaxWidth then [ws[|ws| - 1]] else [])
  }

  /** The pulse widths of a sample sequence: the gaps between consecutive
      crossings, short ones only.  Every width lies in 0 .. 99, and there
      are no more widths than crossings, nor crossings than samples. */
  function Widths(p: seq<int>): (r: seq<int>)
    ensures forall k :: 0 <= k < |r| ==> 0 <= r[k] < MaxWidth
    ensures |r| <= |CrossingsUpTo(p, |p|)| <= |p|
  {
    var cs := CrossingsUpTo(p, |p|);
    CrossingsExact(p, |p|);
    GapsNonNegative(cs);
    KeepShortBounded(Gaps(cs));
    CrossingCount(p, |p|);
    var r := KeepShort(Gaps(cs));
    assert forall k :: 0 <= k < |r| ==> r[k] in Gaps(cs);
    r
  }

  lemma GapsAppend(cs: seq<nat>, c: nat)
    ensures Gaps(cs + [c]) == Gaps(cs) + [c - LastCrossing(cs)]
  {
    var d := cs + [c];
    assert d[..|cs|] == cs;
    assert d[|cs|] == c;
  }

  lemma KeepShortAppend(ws: seq<int>, w: int)
    ensures KeepShort(ws + [w]) == KeepShort(ws) + (if w < MaxWidth then [w] else [])
  {
    assert (ws + [w])[..|ws|] == ws;
  }

  /** The detector loop: `oldcrossing` moves to every crossing, including the
      ones whose width is too long to keep. */
  method DetectCrossings(p: seq<int>) returns (crossings: seq<int>)
    ensures crossings == Widths(p)
  {
    var curdat := false;
    var oldcrossing: nat := 0;
    crossings := [];
    var i := 0;
    while i < |p|
      invariant 0 <= i <= |p|
      invariant curdat == Level(p, i)
      invariant oldcrossing == LastCrossing(CrossingsUpTo(p, i))
      invariant crossings == KeepShort(Gaps(CrossingsUpTo(p, i)))
    {
      curdat, oldcrossing, crossings := DetectSample(p, i, curdat, oldcrossing, crossings);
      i := i + 1;
    }
  }

  /** One pass of the detector loop body at sample `i`: apply hysteresis and,
      when the flag flipped, measure the width since the previous flip. */
  method DetectSample(p: seq<int>, i: nat, curdat: bool, oldcrossing: nat, crossings: seq<int>)
    returns (curdat': bool, oldcrossing': nat, crossings': seq<int>)
    requires i < |p|
    requires curdat == Level(p, i)
    requires oldcrossing == LastCrossing(CrossingsUpTo(p, i))
    requires crossings == KeepShort(Gaps(CrossingsUpTo(p, i)))
    ensures curdat' == Level(p, i + 1)
    ensures oldcrossing' == LastCrossing(CrossingsUpTo(p, i + 1))
    ensures crossings' == KeepShort(Gaps(CrossingsUpTo(p, i + 1)))
  {
    var s := p[i];
    var curdatPrev := curdat;
    curdat' := curdat;
    if !curdat' && s > Threshold {
      curdat' := true;
    }
    if curdat' && s < -Threshold {
      curdat' := false;
    }
    assert curdat' == Hysteresis(curdatPrev, s);
    oldcrossing', crossings' := oldcrossing, crossings;
    if curdat' != curdatPrev {
      var pulsewidth := i - oldcrossing;
      CrossingStep(p, i);
      oldcrossing' := i;
      if pulsewidth < MaxWidth {
        crossings' := crossings + [pulsewidth];
      }
    } else {
      QuietStep(p, i);
    }
  }

  /** A sample that leaves the flag alone adds nothing. */
  lemma QuietStep(p: seq<int>, i: nat)
    requires i < |p| && !IsCrossing(p, i)
    ensures CrossingsUpTo(p, i + 1) == CrossingsUpTo(p, i)
  {
  }

  /** What a flipping sample adds: itself as the last crossing, and its gap
      when that gap is short. */
  lemma CrossingStep(p: seq<int>, i: nat)
    requires i < |p| && IsCrossing(p, i)
    ensures CrossingsUpTo(p, i + 1) == CrossingsUpTo(p, i) + [i]
    ensures LastCrossing(CrossingsUpTo(p, i + 1)) == i
    ensures var w := i - LastCrossing(CrossingsUpTo(p, i));
      KeepShort(Gaps(CrossingsUpTo(p, i + 1)))
        == KeepShort(Gaps(CrossingsUpTo(p, i))) + (if w < MaxWidth then [w] else [])
  {
    var cs := CrossingsUpTo(p, i);
    GapsAppend(cs, i);
    KeepShortAppend(Gaps(cs), i - LastCrossing(cs));
  }

  /** The crossing list is strictly increasing and holds exactly the samples
      below `n` that flip the flag. */
  lemma {:induction false} CrossingsExact(p: seq<int>, n: nat)
    requires n <= |p|
    ensures forall a, b :: 0 <= a < b < |CrossingsUpTo(p, n)| ==> CrossingsUpTo(p, n)[a] < CrossingsUpTo(p, n)[b]
    ensures forall j :: j in CrossingsUpTo(p, n) <==> 0 <= j < n && IsCrossing(p, j)
  {
    if n > 0 {
      CrossingsExact(p, n - 1);
      var init := CrossingsUpTo(p, n - 1);
      assert forall a :: 0 <= a < |init| ==> init[a] in init;
    }
  }

  /** Every gap between increasing crossings is non-negative. */
  lemma {:induction false} GapsNonNegative(cs: seq<nat>)
    requires forall a, b :: 0 <= a < b < |cs| ==> cs[a] < cs[b]
    ensures |Gaps(cs)| == |cs|
    ensures forall k :: 0 <= k < |Gaps(cs)| ==> Gaps(cs)[k] >= 0
  {
    if cs != [] {
      var init := cs[..|cs| - 1];
      GapsNonNegative(init);
      assert init == [] || init[|init| - 1] < cs[|cs| - 1];
    }
  }

  lemma {:induction false} KeepShortBounded(ws: seq<int>)
    ensures |KeepShort(ws)| <= |ws|
    ensures forall k :: 0 <= k < |KeepShort(ws)| ==> KeepShort(ws)[k] < MaxWidth
    ensures forall k :: 0 <= k < |KeepShort(ws)| ==> KeepShort(ws)[k] in ws
  {
    if ws != [] {
      var init := ws[..|ws| - 1];
      KeepShortBounded(init);
      forall k | 0 <= k < |KeepShort(init)|
        ensures KeepShort(init)[k] in ws
      {
        assert KeepShort(init)[k] in init;
      }
    }
  }

  lemma {:induction false} CrossingCount(p: seq<int>, n: nat)
    requires n <= |p|
    ensures |CrossingsUpTo(p, n)| <= n
  {
    if n > 0 {
      CrossingCount(p, n - 1);
    }
  }

  /** A signal that never leaves the hysteresis band [-4000, 4000] never flips
      the flag, so it yields no widths at all. */
  lemma QuietSignal(p: seq<int>)
    requires forall k :: 0 <= k < |p| ==> -Threshold <= p[k] <= Threshold
    ensures CrossingsUpTo(p, |p|) == []
    ensures Widths(p) == []
  {
    QuietPrefix(p, |p|);
  }

  lemma {:induction false} QuietPrefix(p: seq<int>, n: nat)
    requires n <= |p|
    requires forall k :: 0 <= k < |p| ==> -Threshold <= p[k] <= Threshold
    ensures !Level(p, n)
    ensures CrossingsUpTo(p, n) == []
  {
    if n > 0 {
      QuietPrefix(p, n - 1);
    }
  }
}
