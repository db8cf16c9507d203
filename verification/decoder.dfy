/** The third pass: a single cursor walks the symbol stream.  At every cursor
    position the 56 symbols just before it are compared with the preamble;
    a match (re)starts a block.  While synchronised, two equal symbols clock
    one data bit into the byte accumulator and move the cursor two places;
    two unequal symbols end the block, which is emitted with its index and
    the distance from the previous loss of sync.  The console output of the
    source becomes a list of events. */
module Decoder {
  import opened ByteClock

  /** `n` zero symbols. */
  function Zeros(n: nat): (r: seq<int>)
    ensures |r| == n
    ensures forall t :: 0 <= t < n ==> r[t] == 0
  {
    seq(n, _ => 0)
  }

  /** The preamble in symbols: twenty zero bits and then 1,0,1,0,1,0,1,0,
      every bit doubled because one carrier cycle has two crossings.  That
      is forty zero symbols followed by 1,1,0,0 four times, 56 in all. */
  const SyncBits: seq<int> := Zeros(40) + [1, 1, 0, 0, 1, 1, 0, 0, 1, 1, 0, 0, 1, 1, 0, 0]

  /** The shape of the preamble the proofs rely on. */
  lemma PreambleShape()
    ensures |SyncBits| == 56
    ensures forall t :: 0 <= t < 40 ==> SyncBits[t] == 0
    ensures SyncBits[40] == 1 && SyncBits[|SyncBits| - 1] == 0
  {
  }

  /** Where the cursor starts; also the initial reference point of the
      loss-of-sync distance. */
  const FirstCursor: int := 32

  /** A slice bound normalised the way Python does: a negative bound counts
      from the end, and the result is clipped to 0 .. n. */
  function SliceBound(k: int, n: nat): (r: nat)
    ensures r <= n
  {
    if k < 0 then (if k + n < 0 then 0 else k + n)
    else if k > n then n
    else k
  }

  /** Python's `s[lo:hi]`. */
  function PySlice(s: seq<int>, lo: int, hi: int): seq<int>
  {
    var a := SliceBound(lo, |s|);
    var b := SliceBound(hi, |s|);
    if a < b then s[a..b] else []
  }

  /** Python's slice is never longer than the list; with both bounds inside
      the list it is the plain slice, and a negative start down to `-|s|`
      counts from the end. */
  lemma PySliceCases(s: seq<int>, lo: int, hi: int)
    ensures |PySlice(s, lo, hi)| <= |s|
    ensures 0 <= lo <= hi <= |s| ==> PySlice(s, lo, hi) == s[lo..hi]
    ensures -|s| <= lo < 0 && 0 <= hi <= |s| && lo + |s| <= hi ==> PySlice(s, lo, hi) == s[lo + |s|..hi]
  {
  }

  /** The test `syncbits == bstream[i-len(syncbits):i]`. */
  predicate SyncAt(bs: seq<int>, i: int)
  {
    PySlice(bs, i - |SyncBits|, i) == SyncBits
  }

  /** Sync fires at cursor `i` exactly when the 56 symbols just before `i`
      are the preamble.  For `i < 56` the slice start is negative and Python
      counts it from the end, but the slice is then always shorter than the
      preamble, so sync can never fire there. */
  lemma SyncAtExact(bs: seq<int>, i: int)
    requires 0 <= i <= |bs|
    ensures SyncAt(bs, i) <==> |SyncBits| <= i && bs[i - |SyncBits|..i] == SyncBits
  {
    if i < |SyncBits| {
      assert |PySlice(bs, i - |SyncBits|, i)| < |SyncBits|;
    }
  }

  /** What ProcessTape.py prints: a sync at a cursor position, and a loss of sync
      with the distance from the previous loss, the block number and the
      bytes of the block. */
  datatype Event =
    | SyncFound(pos: int)
    | SyncLost(diff: int, index: nat, block: seq<int>)

  /** Why decoding stopped: the cursor ran off the end, or the decoder was
      synchronised on the last symbol and the read of the symbol after it
      failed (an IndexError in ProcessTape.py). */
  datatype Halt = Exhausted | PairPastEnd(pos: int)

  datatype Outcome = Outcome(events: seq<Event>, halt: Halt)

  /** The decoder's variables: `synced`, the cursor `i`, the block counter
      `bcount`, `lasti`, `bitcount`, the accumulator `cbyte`, the open
      `block`, and the events printed so far. */
  datatype Frame = Frame(
    synced: bool,
    cursor: int,
    blockCount: nat,
    lastLoss: int,
    bitCount: int,
    acc: int,
    block: seq<int>,
    events: seq<Event>)

  const Initial: Frame := Frame(false, FirstCursor, 0, FirstCursor, 0, 0, [], [])

  /** The sync test at the cursor.  A match resets the bit counter, the
      accumulator and the block, even when a block was already open. */
  function Resync(bs: seq<int>, f: Frame): (r: Frame)
    requires 0 <= f.cursor <= |bs|
    ensures r.cursor == f.cursor && r.blockCount == f.blockCount && r.lastLoss == f.lastLoss
    ensures SyncAt(bs, f.cursor) ==>
      && r.synced && r.bitCount == 0 && r.acc == 0 && r.block == []
      && r.events == f.events + [SyncFound(f.cursor)]
    ensures !SyncAt(bs, f.cursor) ==> r == f
  {
    if SyncAt(bs, f.cursor) then
      f.(synced := true, bitCount := 0, acc := 0, block := [],
         events := f.events + [SyncFound(f.cursor)])
    else f
  }

  /** The pair test while synchronised.  Equality alone accepts a pair: a
      (1,1) pair shifts in a one and a (0,0) pair a zero, while two equal
      raw widths count as a bit without shifting anything.  The eighth bit
      appends the accumulator to the block.  An unequal pair emits the block
      of completed bytes and drops sync. */
  function Clock(bs: seq<int>, f: Frame): (r: Frame)
    requires f.synced ==> 0 <= f.cursor && f.cursor + 1 < |bs|
    ensures if !f.synced then r == f
      else if bs[f.cursor] == bs[f.cursor + 1] then
        var acc := if bs[f.cursor] == 0 || bs[f.cursor] == 1 then ShiftIn(f.acc, bs[f.cursor] == 1) else f.acc;
        && r.synced && r.cursor == f.cursor + 1 && r.events == f.events
        && r.blockCount == f.blockCount && r.lastLoss == f.lastLoss
        && (if f.bitCount + 1 == 8 then r.bitCount == 0 && r.acc == 0 && r.block == f.block + [acc]
            else r.bitCount == f.bitCount + 1 && r.acc == acc && r.block == f.block)
      else
        && !r.synced && r.cursor == f.cursor && r.lastLoss == f.cursor
        && r.blockCount == f.blockCount + 1 && r.block == f.block
        && r.events == f.events + [SyncLost(f.cursor - f.lastLoss, f.blockCount, f.block)]
  {
    if !f.synced then f
    else
      var c := f.cursor;
      if bs[c] == bs[c + 1] then
        var acc :=
          if bs[c] == 1 && bs[c + 1] == 1 then ShiftIn(f.acc, true)
          else if bs[c] == 0 && bs[c + 1] == 0 then ShiftIn(f.acc, false)
          else f.acc;
        var bits := f.bitCount + 1;
        if bits == 8 then f.(cursor := c + 1, bitCount := 0, block := f.block + [acc], acc := 0)
        else f.(cursor := c + 1, bitCount := bits, acc := acc)
      else
        f.(events := f.events + [SyncLost(c - f.lastLoss, f.blockCount, f.block)],
           lastLoss := c, synced := false, blockCount := f.blockCount + 1)
  }

  /** One loop iteration either continues with a new frame or stops on the
      out-of-range read. */
  datatype Tick = Next(frame: Frame) | Overrun(frame: Frame)

  /** True when the pair at the cursor is read: the decoder is synchronised
      already or the sync test fires here. */
  predicate Live(bs: seq<int>, f: Frame)
    requires 0 <= f.cursor <= |bs|
  {
    f.synced || SyncAt(bs, f.cursor)
  }

  /** One iteration of the decoding loop.  The read past the end happens
      exactly when the pair is read at the last symbol; otherwise the cursor
      moves by two after an accepted equal pair and by one in every other
      case, so the symbol after a mismatch is checked for sync at once. */
  function Step(bs: seq<int>, f: Frame): (t: Tick)
    requires 0 <= f.cursor < |bs|
    ensures t.Overrun? <==> Live(bs, f) && f.cursor + 1 == |bs|
    ensures t.Next? && Live(bs, f) && bs[f.cursor] == bs[f.cursor + 1] ==> t.frame.cursor == f.cursor + 2
    ensures t.Next? && !(Live(bs, f) && bs[f.cursor] == bs[f.cursor + 1]) ==> t.frame.cursor == f.cursor + 1
  {
    var g := Resync(bs, f);
    assert g.synced == Live(bs, f) && g.cursor == f.cursor;
    if g.synced && g.cursor + 1 >= |bs| then Overrun(g)
    else
      var h := Clock(bs, g);
      assert h.cursor == if g.synced && bs[f.cursor] == bs[f.cursor + 1] then f.cursor + 1 else f.cursor;
      Next(h.(cursor := h.cursor + 1))
  }

  /** The decoding loop from frame `f` to the end of the stream.  Events
      are only ever appended, and the only failing read is the one after
      the last symbol. */
  function Run(bs: seq<int>, f: Frame): (o: Outcome)
    requires 0 <= f.cursor
    ensures f.events <= o.events
    ensures o.halt.PairPastEnd? ==> o.halt.pos == |bs| - 1
    decreases |bs| - f.cursor
  {
    if f.cursor >= |bs| then Outcome(f.events, Exhausted)
    else
      StepExtends(bs, f);
      match Step(bs, f)
      case Overrun(g) => Outcome(g.events, PairPastEnd(g.cursor))
      case Next(g) => Run(bs, g)
  }

  /** One iteration only appends events. */
  lemma StepExtends(bs: seq<int>, f: Frame)
    requires 0 <= f.cursor < |bs|
    ensures f.events <= Step(bs, f).frame.events
  {
  }

  /** One iteration that continues leaves the rest of the run to the new
      frame. */
  lemma RunNext(bs: seq<int>, f: Frame)
    requires 0 <= f.cursor < |bs|
    ensures Step(bs, f).Next? ==> Run(bs, f) == Run(bs, Step(bs, f).frame)
  {
  }

  /** Decoding a whole symbol stream; it can only fail on the read after
      the last symbol. */
  function Decode(bs: seq<int>): (o: Outcome)
    ensures o.halt.PairPastEnd? ==> o.halt.pos == |bs| - 1
  {
    Run(bs, Initial)
  }

  /** The decoding loop as ProcessTape.py writes it; the loop body is
      DecodeIteration. */
  method DecodeSymbols(bstream: seq<int>) returns (events: seq<Event>, halt: Halt)
    ensures Outcome(events, halt) == Decode(bstream)
  {
    var f := Initial;
    while f.cursor < |bstream|
      invariant FirstCursor <= f.cursor
      invariant Run(bstream, f) == Decode(bstream)
      decreases |bstream| - f.cursor
    {
      var g, overrun := DecodeIteration(bstream, f);
      if overrun {
        return g.events, PairPastEnd(g.cursor);
      }
      f := g;
    }
    events, halt := f.events, Exhausted;
  }

  /** One pass of the loop body: the sync test, then the pair test when
      synchronised, then the cursor increment.  `overrun` reports the read
      of `bstream[i+1]` past the end. */
  method DecodeIteration(bstream: seq<int>, f: Frame) returns (g: Frame, overrun: bool)
    requires 0 <= f.cursor < |bstream|
    ensures overrun ==> Step(bstream, f) == Overrun(g)
    ensures !overrun ==> Step(bstream, f) == Next(g)
  {
    var synced, i, bcount, lasti := f.synced, f.cursor, f.blockCount, f.lastLoss;
    var bitcount, cbyte, block, events := f.bitCount, f.acc, f.block, f.events;
    if SyncAt(bstream, i) {
      bitcount := 0;
      cbyte := 0;
      synced := true;
      events := events + [SyncFound(i)];
      block := [];
    }
    var r := Frame(synced, i, bcount, lasti, bitcount, cbyte, block, events);
    assert r == Resync(bstream, f);
    if synced && i + 1 >= |bstream| {
      assert Step(bstream, f) == Overrun(r);
      return r, true;
    }
    ghost var h := Clock(bstream, r);
    assert Step(bstream, f) == Next(h.(cursor := h.cursor + 1));
    if synced {
      if bstream[i] == bstream[i + 1] {
        if bstream[i] == 1 && bstream[i + 1] == 1 {
          cbyte := ShiftIn(cbyte, true);
        } else if bstream[i] == 0 && bstream[i + 1] == 0 {
          cbyte := ShiftIn(cbyte, false);
        }
        bitcount := bitcount + 1;
        i := i + 1;
        if bitcount == 8 {
          bitcount := 0;
          block := block + [cbyte];
          cbyte := 0;
        }
        assert Frame(synced, i, bcount, lasti, bitcount, cbyte, block, events) == h;
      } else {
        events := events + [SyncLost(i - lasti, bcount, block)];
        lasti := i;
        synced := false;
        bcount := bcount + 1;
        assert Frame(synced, i, bcount, lasti, bitcount, cbyte, block, events) == h;
      }
    }
    g, overrun := Frame(synced, i + 1, bcount, lasti, bitcount, cbyte, block, events), false;
  }
}
