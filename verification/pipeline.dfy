/** The whole program: samples to pulse widths, widths to symbols, symbols
    to sync and block events, in three passes as ProcessTape.py runs them. */
module Pipeline {
  import opened Crossings
  import opened Classifier
  import opened Decoder
  import opened DecoderLaws

  /** The symbol stream the decoder reads for a list of samples. */
  function Symbols(samples: seq<int>): seq<int>
  {
    Classify(Widths(samples))
  }

  /** The events printed for a list of samples, and how the run ended.
      Whatever the samples, the events are well formed (see EventsOk) and
      a run that stops on the out-of-range read stops at the last symbol. */
  function ProcessTape(samples: seq<int>): (o: Outcome)
    ensures EventsOk(Symbols(samples), o.events)
    ensures o.halt.PairPastEnd? ==> o.halt.pos == |Symbols(samples)| - 1
  {
    DecodeOk(Symbols(samples));
    Decode(Symbols(samples))
  }

  /** The three passes in order, as ProcessTape.py runs them. */
  method ProcessSamples(samples: seq<int>) returns (events: seq<Event>, halt: Halt)
    ensures Outcome(events, halt) == ProcessTape(samples)
  {
    var crossings := DetectCrossings(samples);
    var bstream := ClassifyWidths(crossings);
    events, halt := DecodeSymbols(bstream);
  }

  /** The symbol stream holds data symbols 0 and 1 and raw widths strictly
      between 25 and the width cap 100, and no more symbols than samples. */
  lemma SymbolAlphabet(samples: seq<int>)
    ensures |Symbols(samples)| <= |samples|
    ensures forall k :: 0 <= k < |Symbols(samples)| ==>
      Symbols(samples)[k] == 0 || Symbols(samples)[k] == 1 || 25 < Symbols(samples)[k] < MaxWidth
  {
    ClassifyBelow(Widths(samples), MaxWidth);
  }

  /** Too few samples to hold a preamble give no events at all. */
  lemma ShortTape(samples: seq<int>)
    requires |samples| <= |SyncBits|
    ensures ProcessTape(samples) == Outcome([], Exhausted)
  {
    SymbolAlphabet(samples);
    NoPreambleNoEvents(Symbols(samples));
  }

  /** Samples that never leave the hysteresis band give no crossings and so
      no events. */
  lemma QuietTape(samples: seq<int>)
    requires forall k :: 0 <= k < |samples| ==> -Threshold <= samples[k] <= Threshold
    ensures ProcessTape(samples) == Outcome([], Exhausted)
  {
    QuietSignal(samples);
    assert Symbols(samples) == [];
    NoPreambleNoEvents([]);
  }
}
