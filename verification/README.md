# Cassette tape decoder, modelled in Dafny

`ProcessTape.py` reads a recording of a computer cassette tape and recovers
the data blocks on it. The recording is frequency-shift keyed: a 1200 Hz
cycle is a 0 bit and a 2400 Hz cycle is a 1 bit. The script runs three passes
over the 16-bit samples:

1. **Zero-crossing detection** (`ProcessTape.py:32-51`). A polarity flag with
   hysteresis is raised when a sample exceeds +4000 and lowered when a
   sample falls below -4000. Every flip of the flag records the distance in
   samples from the previous flip. Distances of 100 or more are silence and
   are dropped, but the reference point still moves.
2. **Classification** (`ProcessTape.py:62-74`). A width strictly between 15
   and 25 becomes symbol 0. A width strictly between 5 and 15 becomes
   symbol 1. A width above 25 is passed on as the raw number. Every other
   width (at most 5, exactly 15, exactly 25) is dropped.
3. **Synchronisation and framing** (`ProcessTape.py:100-162`). One cursor
   walks the symbol stream from position 32. At every position:
   - The 56 symbols just before the cursor are compared with the preamble.
     The preamble is 40 zeros and then 1,1,0,0 four times. A match starts a
     fresh block.
   - While synchronised, two equal symbols clock one bit into a byte
     accumulator, least significant bit first, by `(cbyte >> 1) | 0x80` or
     `cbyte >> 1`. The cursor then moves two places, and every eighth bit
     appends a byte to the block.
   - Two unequal symbols end the block. The block is reported with its
     number and the distance from the previous loss of sync. The cursor
     moves one place, so that position is at once checked for a new
     preamble.

The model keeps the three passes as separate modules:

- **`Crossings`**: detection, as the functions `Level`, `CrossingsUpTo` and
  `Widths`, and as the loop `DetectCrossings`.
- **`Classifier`**: classification, as `SymbolsOf` and `Classify`, and as the
  loop `ClassifyWidths`.
- **`ByteClock`**: the accumulator arithmetic.
- **`Decoder`**: the decoding loop. `Step` is one iteration. `Run` and
  `Decode` are the whole loop. The `DecodeSymbols` method follows the
  source's loop.
- **`DecoderLaws`**: the guarantees that hold for every symbol stream, and
  one lemma per case of a loop iteration.
- **`FrameEncoding`**: the preamble-plus-block recordings the decoder is
  meant to read, and the round trip over them.
- **`Pipeline`**: the three passes chained together.

What the script prints becomes a list of `Event` values:

- `SyncFound(pos)` for "Sync at";
- `SyncLost(diff, index, block)` for the loss-of-sync report, the block
  number and the block bytes.

How the loop ends becomes a `Halt` value:

- `Exhausted` when the cursor runs off the end;
- `PairPastEnd(pos)` when the decoder is synchronised on the last symbol.
  In that case `bstream[i+1]` is read out of range, which raises an
  `IndexError` in Python.

Python details are written out explicitly:

- The slice `bstream[i-56:i]` counts a negative start from the end of the
  list (`PySlice`). `SyncAtExact` shows this can never produce a match.
- `>> 1` is floor division by two.
- `| 0x80` sets bit 7 (`OrHigh`).

## Behaviour worth knowing

- **Dropped widths.** Widths of at most 5, and widths of exactly 15 or 25,
  fall in none of the three tests of `ProcessTape.py:68-74` and leave no
  symbol. The symbol stream can therefore be shorter than the width list
  (`Classifier.SymbolCases`).
- **Preamble length.** The comment at `ProcessTape.py:98-99` describes
  twenty 0 bits followed by 1,0,1,0,1,0,1,0, each bit doubled. The list at
  lines 100-103 spells out 40 zero symbols and then 1,1,0,0 four times:
  56 symbols in all (`Decoder.PreambleShape`).
- **Raw pairs accepted.** The comment at `ProcessTape.py:126-127` says
  that only 11 or 00 is a bit and anything else loses sync. The test at
  line 128, however, only asks that the two symbols be equal. Two equal
  raw widths (say 40, 40) therefore count as a bit that shifts nothing
  into the accumulator, and they do not end the block
  (`DecoderLaws.RawPairCountsWithoutShift`).
- **Sync checked while synchronised.** The preamble test at
  `ProcessTape.py:112` runs at every position the cursor visits, even
  while a block is open, and a match silently discards the open block
  (`DecoderLaws.ResyncDiscardsOpenBlock`). While synchronised, though, the
  cursor moves two places per accepted pair. A preamble that ends at a
  position skipped that way is never detected (`Decoder.Step`).
- **Stray symbol after the preamble.** The preamble followed by one more
  symbol reports the sync, and then the pair read at line 128 runs past the
  end of the list (`FrameEncoding.StraySymbolOverruns`).
- **Zero first width.** The first width is measured from sample 0
  (`oldcrossing = 0` at `ProcessTape.py:34`). It is 0 when sample 0 itself
  raises the flag, so widths lie in 0 .. 99 (`Crossings.Widths`).

## Model

| member | source | states |
|---|---|---|
| Crossings.Hysteresis | ProcessTape.py:40-43 | the flag flips exactly when a sample lies beyond the threshold on the side opposite the flag; a sample within [-4000, 4000] never flips it |
| Crossings.DetectCrossings | ProcessTape.py:32-51 | the detector loop produces exactly the gaps between consecutive flag flips that are below 100, in order |
| Crossings.DetectSample | ProcessTape.py:37-51 | one sample keeps the loop's flag, last crossing and width list in step with the flips of the flag |
| Crossings.CrossingStep | ProcessTape.py:46-51 | a flip becomes the new reference point, and its gap is kept only when it is below 100 |
| Crossings.CrossingsExact | ProcessTape.py:46-49 | the crossing positions are strictly increasing and are exactly the samples that flip the flag |
| Crossings.Widths | ProcessTape.py:32-51 | every retained width is in 0 .. 99; there are no more widths than crossings, and no more crossings than samples |
| Crossings.QuietSignal | ProcessTape.py:36-43 | samples that stay within the hysteresis band give no crossings and no widths |
| Classifier.SymbolsOf | ProcessTape.py:68-74 | one width contributes at most one symbol: 0, 1, or the width itself when it is above 25 |
| Classifier.SymbolCases | ProcessTape.py:68-74 | the three bands are disjoint: 0 exactly for 15 < c < 25, 1 exactly for 5 < c < 15, the width itself exactly for c > 25, nothing otherwise |
| Classifier.Classify | ProcessTape.py:62-74 | the symbol stream is no longer than the widths, and every symbol is 0, 1 or a width above 25 |
| Classifier.ClassifyWidths | ProcessTape.py:62-78 | the classifier loop computes the symbol stream of the widths |
| Classifier.ClassifyAppend | ProcessTape.py:65-74 | classification distributes over concatenation, so symbol order follows width order |
| Classifier.ClassifyInBand | ProcessTape.py:68-74 | when every width is in a band, nothing is dropped, and symbol k comes from width k |
| Classifier.ClassifyBelow | ProcessTape.py:73-74 | a raw symbol is one of the widths, so the symbols obey any upper bound above 1 that the widths obey |
| ByteClock.OrHigh | ProcessTape.py:132 | `v \| 0x80` has bit 7 set and adds 128 exactly when bit 7 was clear |
| ByteClock.ShiftIn | ProcessTape.py:131-134 | clocking a bit into a byte gives a byte: half the old value, plus 128 for a one |
| ByteClock.Assemble | ProcessTape.py:131-134 | the accumulator always holds a byte, and its bit 7 is the bit clocked in last |
| ByteClock.AssemblePartial | ProcessTape.py:131-137 | after m bits the accumulator holds them in its top m positions, the first bit lowest |
| ByteClock.AssembleByte | ProcessTape.py:128-143 | after eight bits the accumulator is the sum of bit k times 2^k, so bits arrive least significant first |
| ByteClock.ByteRoundTrip | ProcessTape.py:128-143 | clocking in a byte's eight bits, least significant first, reproduces the byte |
| ByteClock.BitsRoundTrip | ProcessTape.py:128-143 | the eight bits of an assembled byte are exactly the bits clocked in, so no two bit sequences give the same byte |
| Decoder.PreambleShape | ProcessTape.py:100-103 | the preamble has 56 symbols: forty zeros, then a one first and a zero last |
| Decoder.PySliceCases | ProcessTape.py:112 | Python's slice is never longer than the list; with bounds in range it is the plain slice, and a negative start counts from the end |
| Decoder.SyncAtExact | ProcessTape.py:110-112 | sync fires at cursor i exactly when i >= 56 and the 56 symbols before i are the preamble; the negative-start slice for i < 56 never matches |
| Decoder.Resync | ProcessTape.py:112-119 | a preamble match sets sync, clears bit count, accumulator and block, and reports the cursor; without a match nothing changes; the cursor, block count and last loss are never touched |
| Decoder.Clock | ProcessTape.py:125-155 | unsynchronised: nothing changes. Equal pair: the cursor moves one extra place, the bit is shifted in for a 0/0 or 1/1 pair and not at all for raw widths, and the eighth bit appends the byte and clears the counter and accumulator. Unequal pair: the loss event carries the distance from the last loss, the block number and the open block; sync drops; the block number advances; the last loss moves to the cursor |
| Decoder.Step | ProcessTape.py:110-162 | one iteration reads past the end exactly when the decoder is live at the last symbol; otherwise the cursor advances by two after an accepted pair and by one in every other case |
| Decoder.Run | ProcessTape.py:110-162 | the loop from any frame only appends to the events printed so far, and the only failing read is the one after the last symbol |
| Decoder.Decode | ProcessTape.py:106-162 | decoding a whole stream can only fail on the read after the last symbol |
| Decoder.DecodeSymbols | ProcessTape.py:106-162 | the decoding loop yields the events and halt of `Decode` |
| Decoder.DecodeIteration | ProcessTape.py:112-162 | one loop body (sync test, pair test, cursor increment) is one `Step`, and its overrun flag is the out-of-range read |
| DecoderLaws.DecodeOk | ProcessTape.py:106-162 | for every symbol stream: each sync position ends a genuine preamble; each loss directly follows a sync, at a positive distance; every block holds bytes; blocks are numbered 0, 1, 2 in order; an overrun happens at the last symbol |
| DecoderLaws.RunOk | ProcessTape.py:110-162 | from any frame satisfying the loop invariant, the rest of the run prints events satisfying the event guarantees and overruns only at the last symbol |
| DecoderLaws.StepWf | ProcessTape.py:110-162 | one iteration keeps the loop invariant: counters and byte ranges, the block count, and the event guarantees |
| DecoderLaws.UnsyncedRun | ProcessTape.py:110-125 | an unsynchronised run that meets no preamble prints nothing and ends at the end of the stream |
| DecoderLaws.NoPreambleNoEvents | ProcessTape.py:106-125 | a stream with no preamble, and in particular any stream of at most 56 symbols, decodes to no events |
| DecoderLaws.ResyncDiscardsOpenBlock | ProcessTape.py:112-147 | a preamble match discards the open block: the next loss emits an empty block, or the new block starts with one bit counted |
| DecoderLaws.RawPairCountsWithoutShift | ProcessTape.py:128-143 | two equal raw widths count as a bit and advance the cursor by two, but shift nothing in |
| DecoderLaws.DataPairShifts | ProcessTape.py:128-143 | an equal 0/0 or 1/1 pair clocks its bit in, and the eighth bit appends the byte and clears the accumulator |
| DecoderLaws.LossEmitsBlock | ProcessTape.py:144-155 | an unequal pair emits the open block with the next block number and the distance from the last loss, drops sync, and advances by one |
| FrameEncoding.RoundTrip | ProcessTape.py:106-162 | preamble, then a block of bytes sent least significant bit first, then the pair (1, 0): this decodes to one sync at 56 and one loss that emits the whole block as block 0 |
| FrameEncoding.NonzeroBytesNoFalseSync | ProcessTape.py:110-112 | a block without zero bytes never contains a copy of the preamble ending inside it |
| FrameEncoding.RoundTripNonzero | ProcessTape.py:106-162 | the round trip holds for every block without zero bytes, with no further condition |
| FrameEncoding.OpenBlockDropped | ProcessTape.py:110-162 | a block still open when the symbols run out is never emitted; only the sync is reported. The condition is only that no copy of the preamble ends at a bit position inside the data, since the block end is never visited |
| FrameEncoding.StraySymbolOverruns | ProcessTape.py:110-128 | the preamble plus one stray symbol reports the sync and then reads past the end of the list |
| FrameEncoding.FiveBits | ProcessTape.py:129-132 | the byte 0x05 is sent as the bits 1,0,1,0,0,0,0,0 |
| FrameEncoding.ExampleFive | ProcessTape.py:128-155 | the symbols for byte 0x05 followed by a mismatch decode to block 0 holding exactly 0x05 |
| Pipeline.ProcessTape | ProcessTape.py:32-162 | for any samples, the printed events satisfy the event guarantees, and an overrun happens at the last symbol |
| Pipeline.ProcessSamples | ProcessTape.py:32-162 | the three passes in order compute `ProcessTape` |
| Pipeline.SymbolAlphabet | ProcessTape.py:32-74 | there are no more symbols than samples, and every symbol is 0, 1 or a raw width strictly between 25 and 100 |
| Pipeline.ShortTape | ProcessTape.py:106-112 | 56 samples or fewer, the empty recording included, give no events |
| Pipeline.QuietTape | ProcessTape.py:36-51 | a recording that never leaves the hysteresis band gives no events |

## Left out

- Command-line handling and file reading (`ProcessTape.py:17-24`): I/O. The
  model starts from the list of samples.
- The `struct.unpack` of the file and the skipped 22-sample header
  (`ProcessTape.py:29`): byte parsing outside the decoding core. The samples
  are plain integers, and nothing in the model depends on their 16-bit
  range.
- The width histogram (`ProcessTape.py:54-56`): plotting, and switched off.
- `pblock` and `pblock2` (`ProcessTape.py:81-96`): text formatting of a
  block. The block itself is carried in the `SyncLost` event.
- The printed text: "Block length", the hex length and the block number
  are all derived from the `SyncLost` event.
- The `if 0:` branches (`ProcessTape.py:121-123`, `153-154`, `158-160`):
  dead code.
- The variables `prevc`, `previ`, `start` and `curdat_prev`: they are
  either never read, or kept equal to state the model already has.
- FrameEncoding.RoundTrip: requires that no copy of the preamble ends at a
  bit position inside the block or at its end, where the pair (1, 0) is
  read. Without that, the decoder resynchronises in the middle of the
  block. `RoundTripNonzero` discharges the condition for blocks without
  zero bytes. Blocks with zero bytes are covered only by
  the general guarantees of `DecoderLaws.DecodeOk` and the per-case step
  lemmas.
- FrameEncoding.OpenBlockDropped: requires that no copy of the preamble
  ends at a bit position inside the data. Otherwise the decoder
  resynchronises in the middle of the block and reports a second sync.
- Two separate recordings on one tape, giving blocks 0 and 1: this has no
  concrete lemma. The numbering holds in general through the
  `BlocksNumbered` part of `DecoderLaws.DecodeOk`.
- Pipeline.ProcessTape: states the general guarantees of the events rather
  than the exact events. The exact events for well-formed recordings are
  given at the symbol level by the `FrameEncoding` lemmas.
