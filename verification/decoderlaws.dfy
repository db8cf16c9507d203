/** What the decoding loop guarantees about the events it prints, and what
    one iteration does in each of the cases of ProcessTape.py. */
module DecoderLaws {
  import opened ByteClock
  import opened Decoder

  /** The block numbers of the loss events, in order. */
  function LossIndices(es: seq<Event>): seq<nat>
  {
    if es == [] then []
    else LossIndices(es[..|es| - 1]) + (if es[|es| - 1].SyncLost? then [es[|es| - 1].index] else [])
  }

  /** Every sync position ends a true preamble. */
  predicate SyncsGenuine(bs: seq<int>, es: seq<Event>)
  {
    forall j :: 0 <= j < |es| && es[j].SyncFound? ==>
      |SyncBits| <= es[j].pos < |bs| && bs[es[j].pos - |SyncBits|..es[j].pos] == SyncBits
  }

  /** Every loss directly follows a sync and is at a positive distance from
      the previous loss. */
  predicate LossesAfterSync(es: seq<Event>)
  {
    forall j :: 0 <= j < |es| && es[j].SyncLost? ==> 0 < j && es[j - 1].SyncFound? && es[j].diff > 0
  }

  /** Every emitted block holds bytes only. */
  predicate BlocksOfBytes(es: seq<Event>)
  {
    forall j, k :: 0 <= j < |es| && es[j].SyncLost? && 0 <= k < |es[j].block| ==> IsByte(es[j].block[k])
  }

  /** The blocks are numbered 0, 1, 2, ... in the order they are emitted. */
  predicate BlocksNumbered(es: seq<Event>)
  {
    forall m :: 0 <= m < |LossIndices(es)| ==> LossIndices(es)[m] == m
  }

  /** The guarantees on the printed events. */
  predicate EventsOk(bs: seq<int>, es: seq<Event>)
  {
    SyncsGenuine(bs, es) && LossesAfterSync(es) && BlocksOfBytes(es) && BlocksNumbered(es)
  }

  /** The loop invariant of the decoder: the cursor never falls behind the
      last loss; while synchronised the last event is a sync; between
      iterations the bit counter is 0 .. 7 and the accumulator and the open
      block hold bytes; the block counter counts the loss events. */
  predicate Wf(bs: seq<int>, f: Frame)
  {
    && FirstCursor <= f.lastLoss <= f.cursor
    && (f.lastLoss == FirstCursor || f.lastLoss < f.cursor)
    && (f.synced ==> |SyncBits| <= f.cursor && |f.events| > 0 && f.events[|f.events| - 1].SyncFound?)
    && 0 <= f.bitCount < 8
    && IsByte(f.acc)
    && (forall k :: 0 <= k < |f.block| ==> IsByte(f.block[k]))
    && |LossIndices(f.events)| == f.blockCount
    && EventsOk(bs, f.events)
  }

  lemma LossIndicesAppend(es: seq<Event>, e: Event)
    ensures LossIndices(es + [e]) == LossIndices(es) + (if e.SyncLost? then [e.index] else [])
  {
    assert (es + [e])[..|es|] == es;
  }

  lemma InitialWf(bs: seq<int>)
    ensures Wf(bs, Initial)
  {
  }

  /** The conditions under which printing one more event keeps EventsOk. */
  predicate EventFits(bs: seq<int>, es: seq<Event>, e: Event)
  {
    match e
    case SyncFound(p) => |SyncBits| <= p < |bs| && bs[p - |SyncBits|..p] == SyncBits
    case SyncLost(diff, index, block) =>
      && |es| > 0 && es[|es| - 1].SyncFound?
      && diff > 0
      && (forall k :: 0 <= k < |block| ==> IsByte(block[k]))
      && index == |LossIndices(es)|
  }

  lemma EventsOkAppend(bs: seq<int>, es: seq<Event>, e: Event)
    requires EventsOk(bs, es)
    requires EventFits(bs, es, e)
    ensures EventsOk(bs, es + [e])
    ensures |LossIndices(es + [e])| == |LossIndices(es)| + (if e.SyncLost? then 1 else 0)
  {
    LossIndicesAppend(es, e);
    SyncsGenuineAppend(bs, es, e);
    LossesAfterSyncAppend(bs, es, e);
    BlocksOfBytesAppend(bs, es, e);
  }

  lemma SyncsGenuineAppend(bs: seq<int>, es: seq<Event>, e: Event)
    requires SyncsGenuine(bs, es) && EventFits(bs, es, e)
    ensures SyncsGenuine(bs, es + [e])
  {
    var es' := es + [e];
    assert forall j :: 0 <= j < |es| ==> es'[j] == es[j];
  }

  lemma LossesAfterSyncAppend(bs: seq<int>, es: seq<Event>, e: Event)
    requires LossesAfterSync(es) && EventFits(bs, es, e)
    ensures LossesAfterSync(es + [e])
  {
    var es' := es + [e];
    assert forall j :: 0 <= j < |es| ==> es'[j] == es[j];
  }

  lemma BlocksOfBytesAppend(bs: seq<int>, es: seq<Event>, e: Event)
    requires BlocksOfBytes(es) && EventFits(bs, es, e)
    ensures BlocksOfBytes(es + [e])
  {
    var es' := es + [e];
    assert forall j :: 0 <= j < |es| ==> es'[j] == es[j];
  }

  /** The sync test keeps the invariant. */
  lemma ResyncWf(bs: seq<int>, f: Frame)
    requires 0 <= f.cursor < |bs|
    requires Wf(bs, f)
    ensures Wf(bs, Resync(bs, f))
  {
    if SyncAt(bs, f.cursor) {
      SyncAtExact(bs, f.cursor);
      EventsOkAppend(bs, f.events, SyncFound(f.cursor));
    }
  }

  /** The pair test keeps the invariant, cursor increment included. */
  lemma ClockWf(bs: seq<int>, f: Frame)
    requires f.synced ==> 0 <= f.cursor && f.cursor + 1 < |bs|
    requires Wf(bs, f)
    ensures var h := Clock(bs, f); Wf(bs, h.(cursor := h.cursor + 1))
  {
    if f.synced {
      var c := f.cursor;
      if bs[c] != bs[c + 1] {
        LossWf(bs, f);
      } else {
        AcceptWf(bs, f);
      }
    }
  }

  /** An unequal pair keeps the invariant. */
  lemma LossWf(bs: seq<int>, f: Frame)
    requires f.synced && 0 <= f.cursor && f.cursor + 1 < |bs|
    requires bs[f.cursor] != bs[f.cursor + 1]
    requires Wf(bs, f)
    ensures var h := Clock(bs, f); Wf(bs, h.(cursor := h.cursor + 1))
  {
    var c := f.cursor;
    var e := SyncLost(c - f.lastLoss, f.blockCount, f.block);
    EventsOkAppend(bs, f.events, e);
    var g := f.(events := f.events + [e], lastLoss := c, synced := false,
                blockCount := f.blockCount + 1, cursor := c + 1);
    assert Clock(bs, f).(cursor := c + 1) == g;
  }

  /** An accepted pair keeps the invariant. */
  lemma AcceptWf(bs: seq<int>, f: Frame)
    requires f.synced && 0 <= f.cursor && f.cursor + 1 < |bs|
    requires bs[f.cursor] == bs[f.cursor + 1]
    requires Wf(bs, f)
    ensures var h := Clock(bs, f); Wf(bs, h.(cursor := h.cursor + 1))
  {
    var h := Clock(bs, f);
    var g := h.(cursor := h.cursor + 1);
    assert g.events == f.events && g.lastLoss == f.lastLoss && g.blockCount == f.blockCount;
    assert g.synced && g.cursor == f.cursor + 2;
    assert IsByte(g.acc) && 0 <= g.bitCount < 8;
    var c := f.cursor;
    var acc := if bs[c] == 1 then ShiftIn(f.acc, true) else if bs[c] == 0 then ShiftIn(f.acc, false) else f.acc;
    assert IsByte(acc);
    assert g.block == f.block || g.block == f.block + [acc];
    assert forall k :: 0 <= k < |g.block| ==> IsByte(g.block[k]);
  }

  /** One iteration keeps the invariant. */
  lemma StepWf(bs: seq<int>, f: Frame)
    requires 0 <= f.cursor < |bs|
    requires Wf(bs, f)
    ensures Wf(bs, Step(bs, f).frame)
  {
    ResyncWf(bs, f);
    var g := Resync(bs, f);
    if !(g.synced && g.cursor + 1 >= |bs|) {
      ClockWf(bs, g);
    }
  }

  /** From any frame that satisfies the invariant, the events printed by the
      rest of the run satisfy EventsOk, and the only failure is reading past
      the last symbol. */
  lemma {:induction false} RunOk(bs: seq<int>, f: Frame)
    requires 0 <= f.cursor
    requires Wf(bs, f)
    ensures EventsOk(bs, Run(bs, f).events)
    ensures Run(bs, f).halt.PairPastEnd? ==> Run(bs, f).halt.pos == |bs| - 1
    decreases |bs| - f.cursor
  {
    if f.cursor < |bs| {
      StepWf(bs, f);
      match Step(bs, f)
      case Overrun(g) =>
      case Next(g) =>
        RunOk(bs, g);
    }
  }

  /** The events of a whole decoding run satisfy EventsOk: a sync is only
      reported where the preamble really ends, a block is only emitted on a
      loss of sync after a sync, it holds bytes only, and blocks are
      numbered 0, 1, 2, ... */
  lemma DecodeOk(bs: seq<int>)
    ensures EventsOk(bs, Decode(bs).events)
    ensures Decode(bs).halt.PairPastEnd? ==> Decode(bs).halt.pos == |bs| - 1
  {
    InitialWf(bs);
    RunOk(bs, Initial);
  }

  /** Without a preamble match at any cursor position, nothing is ever
      printed and the run ends at the end of the stream. */
  lemma {:induction false} UnsyncedRun(bs: seq<int>, f: Frame)
    requires 0 <= f.cursor
    requires !f.synced
    requires forall c :: f.cursor <= c < |bs| ==> !SyncAt(bs, c)
    ensures Run(bs, f) == Outcome(f.events, Exhausted)
    decreases |bs| - f.cursor
  {
    if f.cursor < |bs| {
      assert !SyncAt(bs, f.cursor);
      assert Step(bs, f) == Next(f.(cursor := f.cursor + 1));
      UnsyncedRun(bs, f.(cursor := f.cursor + 1));
    }
  }

  /** A stream with no preamble anywhere decodes to no events; in particular
      a stream of at most 56 symbols never synchronises, since the preamble
      must end strictly before the last cursor position. */
  lemma NoPreambleNoEvents(bs: seq<int>)
    requires |bs| <= |SyncBits| || forall c :: FirstCursor <= c < |bs| ==> !SyncAt(bs, c)
    ensures Decode(bs) == Outcome([], Exhausted)
  {
    forall c | FirstCursor <= c < |bs|
      ensures !SyncAt(bs, c)
    {
      if |bs| <= |SyncBits| {
        SyncAtExact(bs, c);
      }
    }
    UnsyncedRun(bs, Initial);
  }

  /** A preamble match discards any open block: if the pair right after the
      match is unequal, the block emitted is empty; if it is equal, the new
      block is empty with one bit counted. */
  lemma ResyncDiscardsOpenBlock(bs: seq<int>, f: Frame)
    requires 0 <= f.cursor && f.cursor + 1 < |bs|
    requires SyncAt(bs, f.cursor)
    ensures Step(bs, f).Next?
    ensures var c := f.cursor; var g := Step(bs, f).frame;
      if bs[c] == bs[c + 1] then
        g.synced && g.block == [] && g.bitCount == 1 && g.events == f.events + [SyncFound(c)]
      else
        !g.synced && g.events == f.events + [SyncFound(c), SyncLost(c - f.lastLoss, f.blockCount, [])]
  {
  }

  /** An equal pair of raw widths (neither 0 nor 1) is accepted as a bit:
      the cursor moves by two and the bit counter advances, but nothing is
      shifted into the accumulator. */
  lemma RawPairCountsWithoutShift(bs: seq<int>, f: Frame)
    requires 0 <= f.cursor && f.cursor + 1 < |bs|
    requires f.synced && !SyncAt(bs, f.cursor)
    requires bs[f.cursor] == bs[f.cursor + 1] && bs[f.cursor] != 0 && bs[f.cursor] != 1
    ensures Step(bs, f).Next?
    ensures var g := Step(bs, f).frame;
      && g.synced && g.cursor == f.cursor + 2 && g.events == f.events
      && (if f.bitCount + 1 == 8 then g.bitCount == 0 && g.acc == 0 && g.block == f.block + [f.acc]
          else g.bitCount == f.bitCount + 1 && g.acc == f.acc && g.block == f.block)
  {
  }

  /** An equal data pair clocks its bit in, least significant first, and the
      eighth bit completes a byte. */
  lemma DataPairShifts(bs: seq<int>, f: Frame)
    requires 0 <= f.cursor && f.cursor + 1 < |bs|
    requires f.synced && !SyncAt(bs, f.cursor)
    requires bs[f.cursor] == bs[f.cursor + 1] && (bs[f.cursor] == 0 || bs[f.cursor] == 1)
    requires IsByte(f.acc)
    ensures Step(bs, f).Next?
    ensures var g := Step(bs, f).frame;
      var acc := f.acc / 2 + (if bs[f.cursor] == 1 then 128 else 0);
      && g.synced && g.cursor == f.cursor + 2 && g.events == f.events
      && (if f.bitCount + 1 == 8 then g.bitCount == 0 && g.acc == 0 && g.block == f.block + [acc]
          else g.bitCount == f.bitCount + 1 && g.acc == acc && g.block == f.block)
  {
  }

  /** An unequal pair while synchronised emits the completed bytes of the
      block with the next block number and the distance from the previous
      loss, drops sync, and moves the cursor by one. */
  lemma LossEmitsBlock(bs: seq<int>, f: Frame)
    requires 0 <= f.cursor && f.cursor + 1 < |bs|
    requires f.synced && !SyncAt(bs, f.cursor)
    requires bs[f.cursor] != bs[f.cursor + 1]
    ensures Step(bs, f).Next?
    ensures var g := Step(bs, f).frame;
      && !g.synced && g.cursor == f.cursor + 1 && g.lastLoss == f.cursor
      && g.blockCount == f.blockCount + 1
      && g.events == f.events + [SyncLost(f.cursor - f.lastLoss, f.blockCount, f.block)]
  {
  }
}
