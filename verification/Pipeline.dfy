/** The event pipeline over the tracker, for an arbitrary decoder and analysis. */
module Pipeline {
  import opened Words
  import opened Model
  import opened Engine
  import opened Decoder
  import Mempool

  datatype PipelineEvent =
    | Observed(tx: PendingTransaction)
    | Included(txHash: string, blockNumber: u64)
    | Dropped(txHash: string)
    | NewHead(blockNumber: u64)

  datatype PipelineEffect =
    | TrackingUpdated(outcome: Mempool.ObserveOutcome)
    | DecodeFailed(txHash: string, error: DecodeError)
    | Analyzed(report: AnalysisReport)
    | InclusionRecorded(txHash: string, blockNumber: u64)
    | DropRecorded(txHash: string)
    | HeadAdvanced(blockNumber: u64, activeTransactions: nat)

  /** The stages the pipeline calls, and what it remembers. */
  datatype Stages = Stages(decode: PendingTransaction -> DecodeOutcome, analyze: VictimTransaction -> AnalysisReport)

  datatype PipelineState = PipelineState(tracked: Mempool.Tracked, latestBlock: Option<u64>)

  function DecodeEffects(stages: Stages, tx: PendingTransaction): seq<PipelineEffect> {
    match stages.decode(tx)
    case Success(Some(victim)) => [Analyzed(stages.analyze(victim))]
    case Success(None) => []
    case Failure(error) => [DecodeFailed(tx.txHash, error)]
  }

  predicate IsNews(outcome: Mempool.ObserveOutcome) {
    outcome.NewActive? || outcome.ReplacedActive?
  }

  /** One event, as a function of what the pipeline remembers. */
  function Handled(stages: Stages, s: PipelineState, event: PipelineEvent): (PipelineState, seq<PipelineEffect>) {
    match event
    case Observed(tx) =>
      var (tracked, outcome) := Mempool.Observed(s.tracked, tx);
      (s.(tracked := tracked), [TrackingUpdated(outcome)] + if IsNews(outcome) then DecodeEffects(stages, tx) else [])
    case Included(txHash, blockNumber) =>
      var (tracked, known) := Mempool.Retired(s.tracked, txHash, Mempool.Included(blockNumber));
      (s.(tracked := tracked), if known then [InclusionRecorded(txHash, blockNumber)] else [])
    case Dropped(txHash) =>
      var (tracked, known) := Mempool.Retired(s.tracked, txHash, Mempool.Dropped);
      (s.(tracked := tracked), if known then [DropRecorded(txHash)] else [])
    case NewHead(blockNumber) =>
      if s.latestBlock.Some? && blockNumber <= s.latestBlock.value then (s, [])
      else (s.(latestBlock := Some(blockNumber)), [HeadAdvanced(blockNumber, |s.tracked.activeByIdentity|)])
  }

  class AnalysisPipeline {
    const stages: Stages
    const tracker: Mempool.MempoolTracker
    var latestBlock: Option<u64>

    ghost predicate Valid()
      reads this, tracker
    {
      tracker.Valid()
    }

    ghost function Contents(): PipelineState
      reads this, tracker
    {
      PipelineState(tracker.Contents(), latestBlock)
    }

    constructor (stages: Stages)
      ensures Valid() && fresh(tracker) && this.stages == stages && Contents() == PipelineState(Mempool.EMPTY, None)
    {
      this.stages := stages;
      tracker := new Mempool.MempoolTracker();
      latestBlock := None;
    }

    method HandleEvent(event: PipelineEvent) returns (effects: seq<PipelineEffect>)
      requires Valid()
      modifies this, tracker
      ensures Valid()
      ensures (Contents(), effects) == Handled(stages, old(Contents()), event)
    {
      match event {
        case Observed(tx) => effects := HandleObserved(tx);
        case Included(txHash, blockNumber) => effects := HandleIncluded(txHash, blockNumber);
        case Dropped(txHash) => effects := HandleDropped(txHash);
        case NewHead(blockNumber) => effects := HandleNewHead(blockNumber);
      }
    }

    method HandleObserved(tx: PendingTransaction) returns (effects: seq<PipelineEffect>)
      requires Valid()
      modifies tracker
      ensures Valid()
      ensures (Contents(), effects) == Handled(stages, old(Contents()), Observed(tx))
    {
      hide Mempool.Observed, Mempool.Consistent;
      var outcome := tracker.Observe(tx);
      effects := [TrackingUpdated(outcome)];
      assert effects + [] == effects;
      if !IsNews(outcome) {
        return;
      }
      match stages.decode(tx) {
        case Success(Some(victim)) => effects := effects + [Analyzed(stages.analyze(victim))];
        case Success(None) =>
        case Failure(error) => effects := effects + [DecodeFailed(tx.txHash, error)];
      }
    }

    method HandleIncluded(txHash: string, blockNumber: u64) returns (effects: seq<PipelineEffect>)
      requires Valid()
      modifies tracker
      ensures Valid()
      ensures (Contents(), effects) == Handled(stages, old(Contents()), Included(txHash, blockNumber))
    {
      var known := tracker.MarkIncluded(txHash, blockNumber);
      effects := if known then [InclusionRecorded(txHash, blockNumber)] else [];
    }

    method HandleDropped(txHash: string) returns (effects: seq<PipelineEffect>)
      requires Valid()
      modifies tracker
      ensures Valid()
      ensures (Contents(), effects) == Handled(stages, old(Contents()), Dropped(txHash))
    {
      var known := tracker.MarkDropped(txHash);
      effects := if known then [DropRecorded(txHash)] else [];
    }

    method HandleNewHead(blockNumber: u64) returns (effects: seq<PipelineEffect>)
      requires Valid()
      modifies this`latestBlock
      ensures Valid()
      ensures (Contents(), effects) == Handled(stages, old(Contents()), NewHead(blockNumber))
    {
      if latestBlock.Some? && blockNumber <= latestBlock.value {
        return [];
      }
      latestBlock := Some(blockNumber);
      var count := tracker.ActiveLen();
      Mempool.ActiveCount(tracker.Contents());
      effects := [HeadAdvanced(blockNumber, count)];
    }
  }

  // ----- What each event answers

  /** An observation is answered by the tracker's outcome, and by a report or a decoding fault exactly
      when its hash was unknown and is active afterwards. */
  lemma ObservationAnswered(stages: Stages, s: PipelineState, tx: PendingTransaction)
    requires Mempool.Consistent(s.tracked)
    ensures var (after, effects) := Handled(stages, s, Observed(tx));
            && after == PipelineState(Mempool.Observed(s.tracked, tx).0, s.latestBlock)
            && effects != [] && effects[0] == TrackingUpdated(Mempool.Observed(s.tracked, tx).1)
            && effects[1..]
               == if && tx.txHash !in s.tracked.records && tx.txHash in after.tracked.records
                     && after.tracked.records[tx.txHash].state == Mempool.Active
                  then match stages.decode(tx)
                       case Success(Some(victim)) => [Analyzed(stages.analyze(victim))]
                       case Success(None) => []
                       case Failure(error) => [DecodeFailed(tx.txHash, error)]
                  else []
  {
    hide Mempool.Observed, Mempool.Consistent;
    Mempool.ObserveAnswer(s.tracked, tx);
  }

  /** An inclusion or a drop of a known hash is recorded, once, and leaves the record in that state;
      of an unknown hash, nothing is announced and no record changes. */
  lemma RetirementAnswered(stages: Stages, s: PipelineState, txHash: string, blockNumber: u64)
    requires Mempool.Consistent(s.tracked)
    ensures var (after, effects) := Handled(stages, s, Included(txHash, blockNumber));
            && effects == (if txHash in s.tracked.records then [InclusionRecorded(txHash, blockNumber)] else [])
            && after.latestBlock == s.latestBlock && after.tracked.records.Keys == s.tracked.records.Keys
            && (txHash in s.tracked.records ==>
                  after.tracked.records[txHash].state == Mempool.PendingState.Included(blockNumber))
            && forall h :: h in s.tracked.records && h != txHash ==> after.tracked.records[h] == s.tracked.records[h]
    ensures var (after, effects) := Handled(stages, s, Dropped(txHash));
            && effects == (if txHash in s.tracked.records then [DropRecorded(txHash)] else [])
            && after.latestBlock == s.latestBlock && after.tracked.records.Keys == s.tracked.records.Keys
            && (txHash in s.tracked.records ==>
                  after.tracked.records[txHash].state == Mempool.PendingState.Dropped)
            && forall h :: h in s.tracked.records && h != txHash ==> after.tracked.records[h] == s.tracked.records[h]
  {
    hide Mempool.Retired, Mempool.Consistent;
    Mempool.RetireAnswer(s.tracked, txHash, Mempool.PendingState.Included(blockNumber));
    Mempool.RetireAnswer(s.tracked, txHash, Mempool.PendingState.Dropped);
  }

  /** The first head and every higher one is announced with the count of active records and kept as
      the latest; any other changes nothing. */
  lemma HeadAnswered(stages: Stages, s: PipelineState, blockNumber: u64)
    requires Mempool.Consistent(s.tracked)
    ensures Handled(stages, s, NewHead(blockNumber))
         == if s.latestBlock == None || s.latestBlock.value < blockNumber then
              (PipelineState(s.tracked, Some(blockNumber)),
               [HeadAdvanced(blockNumber, |Mempool.ActiveHashes(s.tracked)|)])
            else (s, [])
  {
    Mempool.ActiveCount(s.tracked);
  }

  // ----- Runs

  /** The effects of each event of a run. */
  function Effects(stages: Stages, s: PipelineState, events: seq<PipelineEvent>): (log: seq<seq<PipelineEffect>>)
    ensures |log| == |events|
    decreases |events|
  {
    if events == [] then [] else
    var (after, effects) := Handled(stages, s, events[0]);
    [effects] + Effects(stages, after, events[1..])
  }

  /** The event makes the pipeline decode, and perhaps analyze, the transaction with this hash. */
  predicate Decodes(event: PipelineEvent, effects: seq<PipelineEffect>, txHash: string) {
    && event.Observed? && event.tx.txHash == txHash
    && exists e :: e in effects && e.TrackingUpdated? && IsNews(e.outcome)
  }

  lemma HandledKeeps(stages: Stages, s: PipelineState, event: PipelineEvent, txHash: string)
    requires Mempool.Consistent(s.tracked)
    ensures Mempool.Consistent(Handled(stages, s, event).0.tracked)
    ensures txHash in s.tracked.records ==> txHash in Handled(stages, s, event).0.tracked.records
    ensures Decodes(event, Handled(stages, s, event).1, txHash) ==>
              txHash !in s.tracked.records && txHash in Handled(stages, s, event).0.tracked.records
  {
    hide Mempool.Consistent;
    match event {
      case Observed(tx) => Mempool.ObserveConsistent(s.tracked, tx);
      case Included(h, n) => Mempool.RetireConsistent(s.tracked, h, Mempool.Included(n));
      case Dropped(h) => Mempool.RetireConsistent(s.tracked, h, Mempool.Dropped);
      case NewHead(n) =>
    }
  }

  lemma {:induction false} RecordedNotDecoded(stages: Stages, s: PipelineState, events: seq<PipelineEvent>,
                                              txHash: string, j: nat)
    requires Mempool.Consistent(s.tracked) && txHash in s.tracked.records && j < |events|
    ensures !Decodes(events[j], Effects(stages, s, events)[j], txHash)
    decreases |events|
  {
    hide Mempool.Consistent, Handled, Decodes;
    HandledKeeps(stages, s, events[0], txHash);
    if j > 0 {
      RecordedNotDecoded(stages, Handled(stages, s, events[0]).0, events[1..], txHash, j - 1);
    }
  }

  /** Over any run, each transaction hash is decoded and analyzed at most once. */
  lemma {:induction false} DecodedOnce(stages: Stages, s: PipelineState, events: seq<PipelineEvent>,
                                       txHash: string, i: nat, j: nat)
    requires Mempool.Consistent(s.tracked) && i < j < |events|
    requires Decodes(events[i], Effects(stages, s, events)[i], txHash)
    ensures !Decodes(events[j], Effects(stages, s, events)[j], txHash)
    decreases |events|
  {
    hide Mempool.Consistent, Handled, Decodes;
    HandledKeeps(stages, s, events[0], txHash);
    if i > 0 {
      DecodedOnce(stages, Handled(stages, s, events[0]).0, events[1..], txHash, i - 1, j - 1);
    } else {
      RecordedNotDecoded(stages, Handled(stages, s, events[0]).0, events[1..], txHash, j - 1);
    }
  }

  /** Analysis and decode failures are reported only by events that decode. */
  lemma AnalyzedMeansDecoded(stages: Stages, s: PipelineState, event: PipelineEvent, e: PipelineEffect)
    requires e in Handled(stages, s, event).1 && (e.Analyzed? || e.DecodeFailed?)
    ensures event.Observed? && Decodes(event, Handled(stages, s, event).1, event.tx.txHash)
    ensures e.DecodeFailed? ==> e.txHash == event.tx.txHash
  {
    assert Handled(stages, s, event).1[0].TrackingUpdated?;
  }

  lemma {:induction false} HeadsAbove(stages: Stages, s: PipelineState, events: seq<PipelineEvent>,
                                      j: nat, e: PipelineEffect)
    requires Mempool.Consistent(s.tracked) && j < |events| && e in Effects(stages, s, events)[j] && e.HeadAdvanced?
    ensures s.latestBlock.Some? ==> s.latestBlock.value < e.blockNumber
    decreases |events|
  {
    hide Mempool.Consistent, Mempool.Observed, Mempool.Retired;
    HandledKeeps(stages, s, events[0], "");
    if j > 0 {
      HeadsAbove(stages, Handled(stages, s, events[0]).0, events[1..], j - 1, e);
    }
  }

  /** Over any run, the announced block numbers strictly increase. */
  lemma {:induction false} HeadsIncrease(stages: Stages, s: PipelineState, events: seq<PipelineEvent>,
                                         i: nat, j: nat, d: PipelineEffect, e: PipelineEffect)
    requires Mempool.Consistent(s.tracked) && i < j < |events|
    requires d in Effects(stages, s, events)[i] && d.HeadAdvanced?
    requires e in Effects(stages, s, events)[j] && e.HeadAdvanced?
    ensures d.blockNumber < e.blockNumber
    decreases |events|
  {
    hide Mempool.Consistent, Mempool.Observed, Mempool.Retired;
    HandledKeeps(stages, s, events[0], "");
    if i > 0 {
      HeadsIncrease(stages, Handled(stages, s, events[0]).0, events[1..], i - 1, j - 1, d, e);
    } else {
      HeadsAbove(stages, Handled(stages, s, events[0]).0, events[1..], j - 1, e);
    }
  }

  /** A head announcement counts exactly the records in the active state. */
  lemma HeadCountsActive(stages: Stages, s: PipelineState, event: PipelineEvent, e: PipelineEffect)
    requires Mempool.Consistent(s.tracked) && e in Handled(stages, s, event).1 && e.HeadAdvanced?
    ensures e.activeTransactions == |Mempool.ActiveHashes(s.tracked)|
  {
    Mempool.ActiveCount(s.tracked);
  }
}
