/** What the decoder makes of a well-formed recording: a preamble, then the
    bytes of a block, each sent least significant bit first with every bit
    as a pair of equal symbols, then a mismatched pair.  The main results
    are the round trip (the block comes back intact, as block 0), the fact
    that an unterminated block is never emitted, and the fact that a stray
    symbol right after the preamble runs the decoder off the end of the
    stream. */
module FrameEncoding {
  import opened ByteClock
  import opened Decoder

  /** The symbol of a data bit. */
  function Sym(b: bool): int
  {
    if b then 1 else 0
  }

  /** Each bit as a pair of equal symbols. */
  function EncodeBits(bits: seq<bool>): (r: seq<int>)
    ensures |r| == 2 * |bits|
  {
    if bits == [] then [] else [Sym(bits[0]), Sym(bits[0])] + EncodeBits(bits[1..])
  }

  /** The symbols of a block of bytes, each byte least significant bit
      first. */
  function Encode(data: seq<nat>): (r: seq<int>)
    ensures |r| == 16 * |data|
  {
    if data == [] then [] else EncodeBits(ByteBits(data[0], 8)) + Encode(data[1..])
  }

  /** The symbol stream of a recording: preamble, block, trailer. */
  function Tape(data: seq<nat>, trailer: seq<int>): seq<int>
  {
    SyncBits + Encode(data) + trailer
  }

  predicate AllBytes(data: seq<nat>)
  {
    forall q :: 0 <= q < |data| ==> IsByte(data[q])
  }

  /** Bit `m` of byte `q` of the block, or the end of a block of `n` bytes. */
  predicate InBlock(n: nat, q: nat, m: nat)
  {
    (q < n && m < 8) || (q == n && m == 0)
  }

  /** Where the pair of bit `m` of byte `q` starts on the tape. */
  function BitCursor(q: nat, m: nat): int
  {
    |SyncBits| + 16 * q + 2 * m
  }

  /** No cursor position the decoder visits inside a block of `n` bytes,
      after the preamble up to and including the end of the block, ends a
      copy of the preamble. */
  ghost predicate NoFalseSync(bs: seq<int>, n: nat)
  {
    forall q, m :: InBlock(n, q, m) && 0 < q + m ==> !SyncAt(bs, BitCursor(q, m))
  }

  /** No cursor position the decoder visits while reading the bits of a
      block of `n` bytes, after the preamble, ends a copy of the preamble.
      Unlike NoFalseSync this leaves out the end of the block, where the
      pair after the data is read only when the tape goes on. */
  ghost predicate NoSyncInData(bs: seq<int>, n: nat)
  {
    forall q: nat, m: nat :: q < n && m < 8 && 0 < q + m ==> !SyncAt(bs, BitCursor(q, m))
  }

  /** The data part of the block is part of the block. */
  lemma NoFalseSyncInData(bs: seq<int>, n: nat)
    requires NoFalseSync(bs, n)
    ensures NoSyncInData(bs, n)
  {
    forall q: nat, m: nat | q < n && m < 8 && 0 < q + m
      ensures !SyncAt(bs, BitCursor(q, m))
    {
      assert InBlock(n, q, m);
    }
  }

  lemma {:induction false} EncodeBitsAt(bits: seq<bool>, m: nat)
    requires m < |bits|
    ensures EncodeBits(bits)[2 * m] == Sym(bits[m])
    ensures EncodeBits(bits)[2 * m + 1] == Sym(bits[m])
  {
    if m > 0 {
      EncodeBitsAt(bits[1..], m - 1);
    }
  }

  /** Bit `m` of byte `q` sits at symbols 16q + 2m and 16q + 2m + 1 of the
      encoded block. */
  lemma {:induction false} EncodeAt(data: seq<nat>, q: nat, m: nat)
    requires q < |data| && m < 8
    ensures Encode(data)[16 * q + 2 * m] == Sym(ByteBits(data[q], 8)[m])
    ensures Encode(data)[16 * q + 2 * m + 1] == Sym(ByteBits(data[q], 8)[m])
  {
    if q == 0 {
      EncodeBitsAt(ByteBits(data[0], 8), m);
      EncodeHead(data, 2 * m);
      EncodeHead(data, 2 * m + 1);
    } else {
      var rest := data[1..];
      var i := 16 * (q - 1) + 2 * m;
      EncodeAt(rest, q - 1, m);
      EncodeTail(data, i);
      EncodeTail(data, i + 1);
      assert rest[q - 1] == data[q];
    }
  }

  /** The first sixteen symbols belong to the first byte. */
  lemma EncodeHead(data: seq<nat>, i: nat)
    requires 0 < |data| && i < 16
    ensures Encode(data)[i] == EncodeBits(ByteBits(data[0], 8))[i]
  {
  }

  /** Symbols past the first byte belong to the rest of the block. */
  lemma EncodeTail(data: seq<nat>, i: nat)
    requires 0 < |data| && i < 16 * (|data| - 1)
    ensures Encode(data)[16 + i] == Encode(data[1..])[i]
  {
    var head := EncodeBits(ByteBits(data[0], 8));
    assert Encode(data) == head + Encode(data[1..]);
    assert |head| == 16;
  }

  /** The two symbols of bit `m` of byte `q` on the tape. */
  lemma TapeData(data: seq<nat>, trailer: seq<int>, q: nat, m: nat)
    requires q < |data| && m < 8
    ensures Tape(data, trailer)[BitCursor(q, m)] == Sym(ByteBits(data[q], 8)[m])
    ensures Tape(data, trailer)[BitCursor(q, m) + 1] == Sym(ByteBits(data[q], 8)[m])
  {
    EncodeAt(data, q, m);
  }

  /** The decoder before bit `m` of byte `q`: synchronised at the preamble,
      the bytes before `q` in the block and the first `m` bits of byte `q`
      in the accumulator. */
  function Mid(data: seq<nat>, q: nat, m: nat): Frame
    requires InBlock(|data|, q, m)
  {
    Frame(true, BitCursor(q, m), 0, FirstCursor, m,
          if q < |data| then Assemble(ByteBits(data[q], 8)[..m]) else 0,
          data[..q], [SyncFound(|SyncBits|)])
  }

  /** An equal pair of data symbols clocks its bit into the accumulator. */
  lemma ClockDataPair(bs: seq<int>, f: Frame, b: bool)
    requires f.synced && 0 <= f.cursor && f.cursor + 1 < |bs|
    requires bs[f.cursor] == Sym(b) && bs[f.cursor + 1] == Sym(b)
    ensures var acc := ShiftIn(f.acc, b);
      Clock(bs, f) == if f.bitCount + 1 == 8
        then f.(cursor := f.cursor + 1, bitCount := 0, block := f.block + [acc], acc := 0)
        else f.(cursor := f.cursor + 1, bitCount := f.bitCount + 1, acc := acc)
  {
  }

  /** Clocking in bit `m` of byte `x` extends the partial byte, and the
      eighth bit gives `x` itself. */
  lemma AccStep(x: nat, m: nat)
    requires IsByte(x) && m < 8
    ensures var bits := ByteBits(x, 8);
      ShiftIn(Assemble(bits[..m]), bits[m]) == if m == 7 then x else Assemble(bits[..m + 1])
  {
    var bits := ByteBits(x, 8);
    assert bits[..m + 1][..m] == bits[..m];
    assert Assemble(bits[..m + 1]) == ShiftIn(Assemble(bits[..m]), bits[m]);
    if m == 7 {
      assert bits[..m + 1] == bits;
      ByteRoundTrip(x);
    }
  }

  /** The byte of the bit position after bit `m` of byte `q`. */
  function NextQ(q: nat, m: nat): nat
  {
    if m == 7 then q + 1 else q
  }

  /** The bit of the bit position after bit `m`. */
  function NextM(m: nat): nat
  {
    if m == 7 then 0 else m + 1
  }

  /** Clocking one data bit moves the decoder to the next bit position; the
      eighth bit of a byte appends the byte to the block. */
  lemma BitStep(bs: seq<int>, data: seq<nat>, q: nat, m: nat)
    requires AllBytes(data)
    requires q < |data| && m < 8
    requires BitCursor(q, m) + 1 < |bs|
    requires bs[BitCursor(q, m)] == Sym(ByteBits(data[q], 8)[m])
    requires bs[BitCursor(q, m) + 1] == Sym(ByteBits(data[q], 8)[m])
    ensures var h := Clock(bs, Mid(data, q, m));
      h.(cursor := h.cursor + 1) == Mid(data, NextQ(q, m), NextM(m))
  {
    var f := Mid(data, q, m);
    ClockDataPair(bs, f, ByteBits(data[q], 8)[m]);
    AccStep(data[q], m);
    if m == 7 {
      ByteEndStep(bs, data, q);
    } else {
      InByteStep(bs, data, q, m);
    }
  }

  /** A bit inside a byte only grows the accumulator. */
  lemma InByteStep(bs: seq<int>, data: seq<nat>, q: nat, m: nat)
    requires q < |data| && m < 7
    requires BitCursor(q, m) + 1 < |bs|
    requires Clock(bs, Mid(data, q, m)) ==
      Mid(data, q, m).(cursor := BitCursor(q, m) + 1, bitCount := m + 1,
                       acc := Assemble(ByteBits(data[q], 8)[..m + 1]))
    ensures var h := Clock(bs, Mid(data, q, m));
      h.(cursor := h.cursor + 1) == Mid(data, q, m + 1)
  {
  }

  /** The eighth bit of a byte appends the byte to the block. */
  lemma ByteEndStep(bs: seq<int>, data: seq<nat>, q: nat)
    requires q < |data|
    requires BitCursor(q, 7) + 1 < |bs|
    requires Clock(bs, Mid(data, q, 7)) ==
      Mid(data, q, 7).(cursor := BitCursor(q, 7) + 1, bitCount := 0,
                       block := data[..q] + [data[q]], acc := 0)
    ensures var h := Clock(bs, Mid(data, q, 7));
      h.(cursor := h.cursor + 1) == Mid(data, q + 1, 0)
  {
    assert data[..q] + [data[q]] == data[..q + 1];
  }

  /** The two data symbols of bit `m` of byte `q` clock that bit. */
  lemma TapeBitStep(data: seq<nat>, trailer: seq<int>, q: nat, m: nat)
    requires AllBytes(data)
    requires q < |data| && m < 8
    ensures var h := Clock(Tape(data, trailer), Mid(data, q, m));
      h.(cursor := h.cursor + 1) == Mid(data, NextQ(q, m), NextM(m))
  {
    TapeData(data, trailer, q, m);
    BitStep(Tape(data, trailer), data, q, m);
  }

  /** A synchronised iteration at a cursor where no preamble ends clocks
      the pair and moves on. */
  lemma SyncedStep(bs: seq<int>, f: Frame)
    requires f.synced && 0 <= f.cursor && f.cursor + 1 < |bs|
    requires !SyncAt(bs, f.cursor)
    ensures var h := Clock(bs, f); Step(bs, f) == Next(h.(cursor := h.cursor + 1))
  {
  }

  /** Inside the block, with no false sync, one loop iteration moves the
      decoder to the next bit position. */
  lemma MidStep(data: seq<nat>, trailer: seq<int>, q: nat, m: nat)
    requires AllBytes(data)
    requires q < |data| && m < 8 && 0 < q + m
    requires NoSyncInData(Tape(data, trailer), |data|)
    ensures Step(Tape(data, trailer), Mid(data, q, m)) == Next(Mid(data, NextQ(q, m), NextM(m)))
  {
    var bs := Tape(data, trailer);
    assert !SyncAt(bs, BitCursor(q, m));
    SyncedStep(bs, Mid(data, q, m));
    TapeBitStep(data, trailer, q, m);
  }

  lemma {:induction false} RunMid(data: seq<nat>, trailer: seq<int>, q: nat, m: nat)
    requires AllBytes(data)
    requires InBlock(|data|, q, m) && 0 < q + m
    requires NoSyncInData(Tape(data, trailer), |data|)
    ensures Run(Tape(data, trailer), Mid(data, q, m)) == Run(Tape(data, trailer), Mid(data, |data|, 0))
    decreases |data| - q, 8 - m
  {
    if q < |data| {
      MidStep(data, trailer, q, m);
      RunNext(Tape(data, trailer), Mid(data, q, m));
      RunMid(data, trailer, NextQ(q, m), NextM(m));
    }
  }

  /** Before the preamble is complete nothing happens but the cursor
      moving on. */
  lemma {:induction false} ScanToPreamble(bs: seq<int>, c: int)
    requires FirstCursor <= c <= |SyncBits| <= |bs|
    ensures Run(bs, Initial.(cursor := c)) == Run(bs, Initial.(cursor := |SyncBits|))
    decreases |SyncBits| - c
  {
    if c < |SyncBits| {
      SyncAtExact(bs, c);
      assert Step(bs, Initial.(cursor := c)) == Next(Initial.(cursor := c + 1));
      ScanToPreamble(bs, c + 1);
    }
  }

  /** The preamble at the start of a tape fires sync at cursor 56, which
      leaves the decoder in Mid(0, 0) before the first pair is read. */
  lemma PreambleFires(data: seq<nat>, trailer: seq<int>)
    requires 0 < |data| || 2 <= |trailer|
    ensures var bs := Tape(data, trailer);
      var h := Clock(bs, Mid(data, 0, 0));
      Decode(bs) == Run(bs, h.(cursor := h.cursor + 1))
  {
    var bs := Tape(data, trailer);
    ScanToPreamble(bs, FirstCursor);
    assert bs[..|SyncBits|] == SyncBits;
    SyncAtExact(bs, |SyncBits|);
    assert Resync(bs, Initial.(cursor := |SyncBits|)) == Mid(data, 0, 0);
  }

  /** With no false sync in the data of the block, decoding a tape whose block has
      at least one byte reaches the end of the block synchronised, with all
      the bytes in the open block. */
  lemma ReachBlockEnd(data: seq<nat>, trailer: seq<int>)
    requires AllBytes(data)
    requires |data| >= 1
    requires NoSyncInData(Tape(data, trailer), |data|)
    ensures Decode(Tape(data, trailer)) == Run(Tape(data, trailer), Mid(data, |data|, 0))
  {
    PreambleFires(data, trailer);
    TapeBitStep(data, trailer, 0, 0);
    RunMid(data, trailer, 0, 1);
  }

  /** A decoder that has lost sync on the last symbol stops there with the
      events it has: the last 56 symbols cannot be the preamble, since the
      one before the last is not 0. */
  lemma LastSymbolQuiet(bs: seq<int>, f: Frame)
    requires !f.synced && f.cursor + 1 == |bs| && |SyncBits| <= f.cursor
    requires bs[|bs| - 2] != 0
    ensures Run(bs, f) == Outcome(f.events, Exhausted)
  {
    PreambleShape();
    SyncAtExact(bs, f.cursor);
    assert bs[f.cursor - |SyncBits|..f.cursor][|SyncBits| - 1] == bs[|bs| - 2];
    assert Step(bs, f) == Next(f.(cursor := |bs|));
  }

  /** The mismatched pair at the end of the block emits the block. */
  lemma BlockEndLoss(data: seq<nat>, trailer: seq<int>)
    requires 2 <= |trailer| && trailer[0] != trailer[1]
    ensures var n := |data|;
      var h := Clock(Tape(data, trailer), Mid(data, n, 0));
      h.(cursor := h.cursor + 1) ==
        Frame(false, BitCursor(n, 0) + 1, 1, BitCursor(n, 0), 0, 0, data,
              [SyncFound(|SyncBits|), SyncLost(24 + 16 * n, 0, data)])
  {
    var bs := Tape(data, trailer);
    var n := |data|;
    assert data[..n] == data;
    assert bs[BitCursor(n, 0)] == trailer[0] && bs[BitCursor(n, 0) + 1] == trailer[1];
  }

  /** Round trip: a preamble, the bytes of a block and the mismatched pair
      (1, 0) decode to exactly one sync at 56 and one loss that emits the
      whole block as block 0, at distance 24 + 16 * |data| from the start
      cursor 32.  The precondition asks that no copy of the preamble ends
      inside the block or at its end, where the pair (1, 0) is read;
      NonzeroBytesNoFalseSync discharges it for blocks without zero
      bytes. */
  lemma RoundTrip(data: seq<nat>)
    requires AllBytes(data)
    requires NoFalseSync(Tape(data, [1, 0]), |data|)
    ensures Decode(Tape(data, [1, 0]))
      == Outcome([SyncFound(|SyncBits|), SyncLost(24 + 16 * |data|, 0, data)], Exhausted)
  {
    var bs := Tape(data, [1, 0]);
    var n := |data|;
    var end := Mid(data, n, 0);
    var lost := Frame(false, BitCursor(n, 0) + 1, 1, BitCursor(n, 0), 0, 0, data,
                      [SyncFound(|SyncBits|), SyncLost(24 + 16 * n, 0, data)]);
    BlockEndLoss(data, [1, 0]);
    if n == 0 {
      PreambleFires(data, [1, 0]);
    } else {
      NoFalseSyncInData(bs, n);
      ReachBlockEnd(data, [1, 0]);
      assert !SyncAt(bs, BitCursor(n, 0));
      SyncedStep(bs, end);
      RunNext(bs, end);
    }
    assert bs[|bs| - 2] == 1;
    LastSymbolQuiet(bs, lost);
  }

  /** A block still open when the symbols run out is never emitted: without
      a trailing mismatch, the tape decodes to the sync event alone. */
  lemma OpenBlockDropped(data: seq<nat>)
    requires AllBytes(data)
    requires |data| >= 1
    requires NoSyncInData(Tape(data, []), |data|)
    ensures Decode(Tape(data, [])) == Outcome([SyncFound(|SyncBits|)], Exhausted)
  {
    ReachBlockEnd(data, []);
  }

  /** The preamble followed by a single stray symbol: sync fires at 56 and
      the pair read then runs past the end of the stream. */
  lemma StraySymbolOverruns(w: int)
    ensures Decode(SyncBits + [w]) == Outcome([SyncFound(|SyncBits|)], PairPastEnd(|SyncBits|))
  {
    var bs := SyncBits + [w];
    ScanToPreamble(bs, FirstCursor);
    assert bs[..|SyncBits|] == SyncBits;
    SyncAtExact(bs, |SyncBits|);
  }

  predicate NonzeroBytes(data: seq<nat>)
  {
    forall q :: 0 <= q < |data| ==> data[q] != 0 && IsByte(data[q])
  }

  /** A nonzero number has a one among its binary digits. */
  lemma {:induction false} SomeOne(bits: seq<bool>) returns (i: nat)
    requires LsbValue(bits) != 0
    ensures i < |bits| && bits[i]
  {
    if bits[0] {
      i := 0;
    } else {
      var j := SomeOne(bits[1..]);
      i := j + 1;
    }
  }

  /** One symbol that differs from the preamble rules out sync. */
  lemma MismatchNoSync(bs: seq<int>, c: int, t: int)
    requires |SyncBits| <= c <= |bs|
    requires 0 <= t < |SyncBits| && bs[c - |SyncBits| + t] != SyncBits[t]
    ensures !SyncAt(bs, c)
  {
    SyncAtExact(bs, c);
    SliceDiffers(bs, c - |SyncBits|, c, SyncBits, t);
  }

  /** A slice that differs from a pattern at one index is not that pattern. */
  lemma SliceDiffers(bs: seq<int>, lo: int, hi: int, p: seq<int>, t: int)
    requires 0 <= lo <= hi <= |bs| && 0 <= t < |p| && t < hi - lo
    requires bs[lo + t] != p[t]
    ensures bs[lo..hi] != p
  {
    assert bs[lo..hi][t] == bs[lo + t];
  }

  /** A copy of the preamble ending within 30 symbols after the real one
      would need symbol 40, the real preamble's first one, to be a zero. */
  lemma EarlyNoSync(bs: seq<int>, c: int)
    requires |SyncBits| < c <= |SyncBits| + 30 && c <= |bs|
    requires bs[40] == 1
    ensures !SyncAt(bs, c)
  {
    PreambleShape();
    MismatchNoSync(bs, c, 96 - c);
  }

  /** A copy of the preamble ending at bit `m` of byte `q`, for q >= 2,
      covers all of byte q - 2 with its zero run. */
  lemma LateNoSync(bs: seq<int>, q: nat, m: nat, k: nat)
    requires 2 <= q && m < 8 && k < 8
    requires BitCursor(q, m) <= |bs|
    requires bs[BitCursor(q - 2, k)] == 1
    ensures !SyncAt(bs, BitCursor(q, m))
  {
    PreambleShape();
    MismatchNoSync(bs, BitCursor(q, m), 24 + 2 * k - 2 * m);
  }

  /** In a block without zero bytes no copy of the preamble ends at a bit
      position after the preamble.  Within the first two bytes, the preamble's
      first one symbol (tape symbol 40) falls in the forty-zero run of any
      copy ending there; from the third byte on, the byte two back lies
      wholly inside that run and has a one bit. */
  lemma NoSyncInBlock(data: seq<nat>, trailer: seq<int>, q: nat, m: nat)
    requires NonzeroBytes(data)
    requires InBlock(|data|, q, m) && 0 < q + m
    ensures !SyncAt(Tape(data, trailer), BitCursor(q, m))
  {
    var bs := Tape(data, trailer);
    assert |bs| == |SyncBits| + 16 * |data| + |trailer|;
    if q <= 1 {
      PreambleShape();
      assert bs[40] == SyncBits[40];
      EarlyNoSync(bs, BitCursor(q, m));
    } else {
      var bits := ByteBits(data[q - 2], 8);
      ByteBitsValue(data[q - 2], 8);
      var k := SomeOne(bits);
      TapeData(data, trailer, q - 2, k);
      LateNoSync(bs, q, m, k);
    }
  }

  /** Blocks without zero bytes never fake a preamble. */
  lemma NonzeroBytesNoFalseSync(data: seq<nat>, trailer: seq<int>)
    requires NonzeroBytes(data)
    ensures NoFalseSync(Tape(data, trailer), |data|)
  {
    forall q, m | InBlock(|data|, q, m) && 0 < q + m
      ensures !SyncAt(Tape(data, trailer), BitCursor(q, m))
    {
      NoSyncInBlock(data, trailer, q, m);
    }
  }

  /** The round trip for every block without zero bytes. */
  lemma RoundTripNonzero(data: seq<nat>)
    requires NonzeroBytes(data)
    ensures Decode(Tape(data, [1, 0]))
      == Outcome([SyncFound(|SyncBits|), SyncLost(24 + 16 * |data|, 0, data)], Exhausted)
  {
    NonzeroBytesNoFalseSync(data, [1, 0]);
    RoundTrip(data);
  }

  /** The byte 0x05 is sent as the bits 1,0,1,0,0,0,0,0. */
  lemma FiveBits()
    ensures ByteBits(5, 8) == [true, false, true, false, false, false, false, false]
  {
  }

  /** The byte 0x05 comes back as block 0 of length one. */
  lemma ExampleFive()
    ensures Decode(Tape([5], [1, 0])) == Outcome([SyncFound(56), SyncLost(40, 0, [5])], Exhausted)
  {
    PreambleShape();
    RoundTripNonzero([5]);
  }
}
