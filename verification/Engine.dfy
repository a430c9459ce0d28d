/** The bounded search over attacker inputs, for an arbitrary simulator, against a declarative
    account of what its report must contain. Counters and profits wrap as release builds do. */
module Engine {
  import opened Words
  import opened FixedPoint
  import opened Model
  import opened Simulator
  import opened Rounding

  const MAX_U128: nat := TWO_128 - 1

  datatype SearchConfig =
    SearchConfig(minAttackerInput: u128, maxAttackerInput: u128, attackerInputStep: u128, minNetProfit: i128)

  datatype SearchConfigError = EmptySearchRange | ZeroSearchStep | InvalidProfitThreshold

  function ValidateConfig(config: SearchConfig): Result<SearchConfig, SearchConfigError> {
    if config.minAttackerInput > config.maxAttackerInput then Failure(EmptySearchRange)
    else if config.attackerInputStep == 0 then Failure(ZeroSearchStep)
    else if config.minNetProfit < 0 then Failure(InvalidProfitThreshold)
    else Success(config)
  }

  /** A configuration is accepted as it is exactly when its range is not empty, its step positive and
      its threshold not negative; the first of these that fails is the fault. */
  lemma ConfigExact(config: SearchConfig)
    ensures ValidateConfig(config) == Success(config)
       <==> && config.minAttackerInput <= config.maxAttackerInput
            && 0 < config.attackerInputStep && 0 <= config.minNetProfit
    ensures ValidateConfig(config) == Failure(EmptySearchRange) <==> config.maxAttackerInput < config.minAttackerInput
    ensures ValidateConfig(config) == Failure(ZeroSearchStep)
       <==> config.minAttackerInput <= config.maxAttackerInput && config.attackerInputStep == 0
    ensures ValidateConfig(config) == Failure(InvalidProfitThreshold)
       <==> && config.minAttackerInput <= config.maxAttackerInput
            && 0 < config.attackerInputStep && config.minNetProfit < 0
  {
  }

  datatype CandidateMetrics =
    CandidateMetrics(strategy: StrategyKind, attackerInput: u128, attackerRequiredCapital: u128, victimOutput: u128,
                     victimLoss: u128, preventableLossBps: u32, grossProfit: i128, gasCost: u128, netProfit: i128,
                     breakEvenPriorityFee: u128, touchedPools: seq<PoolKey>)

  datatype RiskClassification = Safe | Vulnerable | Inconclusive

  /** What an explanation tells, in place of its wording. */
  datatype Explanation =
    | BaselineFailed(error: SimulationError)
    | BestCandidate(strategy: StrategyKind, attackerInput: u128, netProfit: i128)
    | NothingProfitable
    | NothingEvaluated

  datatype AnalysisReport =
    AnalysisReport(txHash: string, classification: RiskClassification, confidenceBps: u32, baselineOutput: u128,
                   maxVictimLoss: u128, preventableLossBps: u32, maxFeasibleAttackerProfit: i128,
                   minAttackerCapital: Option<u128>, breakEvenPriorityFee: Option<u128>,
                   revertThresholdInput: Option<u128>, bestCandidate: Option<CandidateMetrics>,
                   evaluatedCandidates: u32, rejectedCandidates: u32, explanation: Explanation)

  function ComputeBps(numerator: u128, denominator: u128): u32 {
    if denominator == 0 then 0 else
    var scaled := if numerator * 10_000 < TWO_128 then numerator * 10_000 else MAX_U128;
    if scaled / denominator < TWO_32 then scaled / denominator else TWO_32 - 1
  }

  /** A loss that is no more than the baseline is at most 10000 basis points, and exactly the
      floored share while its multiplication does not saturate. */
  lemma BpsMeans(loss: u128, baseline: u128)
    requires loss <= baseline && baseline > 0
    ensures ComputeBps(loss, baseline) <= 10_000
    ensures loss * 10_000 < TWO_128 ==> ComputeBps(loss, baseline) == loss * 10_000 / baseline
  {
    var scaled := if loss * 10_000 < TWO_128 then loss * 10_000 else MAX_U128;
    FloorGalois(scaled, baseline, 10_001);
  }

  /** The running answers of a search. */
  datatype Tally =
    Tally(best: Option<CandidateMetrics>, minCapital: Option<u128>, breakEvenFee: Option<u128>,
          revertThreshold: Option<u128>, evaluated: u32, rejected: u32)

  function Confidence(classification: RiskClassification, nothingRejected: bool): u32 {
    match classification
    case Vulnerable => if nothingRejected then 10_000 else 8_500
    case Safe => if nothingRejected then 9_500 else 7_500
    case Inconclusive => 2_500
  }

  // ----- Arithmetic of one candidate

  function WrapI128(x: int): i128 {
    (x + TWO_127) % TWO_128 - TWO_127
  }

  function NetProfit(simulation: BundleSimulation): i128 {
    WrapI128(simulation.attackerGrossProfit - WrapI128(simulation.gasCost))
  }

  function FeeOf(netProfit: i128): u128 {
    if netProfit < 0 then 0 else netProfit
  }

  function BreakEvenFee(simulation: BundleSimulation): u128 {
    FeeOf(NetProfit(simulation))
  }

  /** With a gas cost below 2^127 and a difference in range, the net profit is the true one. */
  lemma NetProfitExact(simulation: BundleSimulation)
    requires simulation.gasCost < TWO_127 && -TWO_127 <= simulation.attackerGrossProfit - simulation.gasCost
    ensures NetProfit(simulation) == simulation.attackerGrossProfit - simulation.gasCost
  {
  }

  function SaturatingSub(a: u128, b: u128): u128 {
    if b <= a then a - b else 0
  }

  /** b is strictly preferable to a: more net profit, or as much with less capital. */
  predicate Preferable(a: CandidateMetrics, b: CandidateMetrics) {
    a.netProfit < b.netProfit || (a.netProfit == b.netProfit && b.attackerRequiredCapital < a.attackerRequiredCapital)
  }

  // ----- One search problem and what its answers mean

  /** A configuration, the victim's baseline output, and a simulator for candidates. */
  datatype Search = Search(config: SearchConfig, baseline: u128, simulate: BundleCandidate -> Outcome<BundleSimulation>)
  {
    predicate Reverts(c: BundleCandidate) {
      simulate(c).Success? && simulate(c).value.status == VictimReverted
    }

    /** Feasible, and profitable enough to report. */
    predicate Qualifies(c: BundleCandidate) {
      && simulate(c).Success? && simulate(c).value.status == Feasible
      && config.minNetProfit <= NetProfit(simulate(c).value)
    }

    function Metrics(c: BundleCandidate): CandidateMetrics
      requires Qualifies(c)
    {
      var s := simulate(c).value;
      var victimOutput := if s.victimOutput.Some? then s.victimOutput.value else 0;
      var victimLoss := SaturatingSub(baseline, victimOutput);
      CandidateMetrics(c.strategy, c.attackerInput, s.attackerRequiredCapital, victimOutput, victimLoss,
                       ComputeBps(victimLoss, baseline), s.attackerGrossProfit, s.gasCost, NetProfit(s),
                       BreakEvenFee(s), s.touchedPools)
    }

    predicate Better(a: BundleCandidate, b: BundleCandidate)
      requires Qualifies(a) && Qualifies(b)
    {
      Preferable(Metrics(a), Metrics(b))
    }

    ghost predicate SomeQualifies(tried: seq<BundleCandidate>) {
      exists i :: 0 <= i < |tried| && Qualifies(tried[i])
    }

    /** Position j holds the first of the best: nothing beats it and it beats everything before. */
    ghost predicate FirstBest(tried: seq<BundleCandidate>, j: int) {
      && 0 <= j < |tried| && Qualifies(tried[j])
      && (forall i :: 0 <= i < |tried| && Qualifies(tried[i]) ==> !Better(tried[j], tried[i]))
      && (forall i :: 0 <= i < j && Qualifies(tried[i]) ==> Better(tried[i], tried[j]))
    }

    ghost predicate IsBest(best: Option<CandidateMetrics>, tried: seq<BundleCandidate>) {
      match best
      case None => !SomeQualifies(tried)
      case Some(m) => exists j :: FirstBest(tried, j) && m == Metrics(tried[j])
    }

    ghost predicate IsMinCapital(capital: Option<u128>, tried: seq<BundleCandidate>) {
      match capital
      case None => !SomeQualifies(tried)
      case Some(v) =>
        && (exists j :: 0 <= j < |tried| && Qualifies(tried[j]) && Metrics(tried[j]).attackerRequiredCapital == v)
        && (forall i :: 0 <= i < |tried| && Qualifies(tried[i]) ==> v <= Metrics(tried[i]).attackerRequiredCapital)
    }

    ghost predicate IsMaxFee(fee: Option<u128>, tried: seq<BundleCandidate>) {
      match fee
      case None => !SomeQualifies(tried)
      case Some(v) =>
        && (exists j :: 0 <= j < |tried| && Qualifies(tried[j]) && Metrics(tried[j]).breakEvenPriorityFee == v)
        && (forall i :: 0 <= i < |tried| && Qualifies(tried[i]) ==> Metrics(tried[i]).breakEvenPriorityFee <= v)
    }

    ghost predicate IsRevertThreshold(input: Option<u128>, tried: seq<BundleCandidate>) {
      match input
      case None => forall i :: 0 <= i < |tried| ==> !Reverts(tried[i])
      case Some(v) =>
        && (exists j :: 0 <= j < |tried| && Reverts(tried[j]) && tried[j].attackerInput == v)
        && (forall i :: 0 <= i < |tried| && Reverts(tried[i]) ==> v <= tried[i].attackerInput)
    }

    ghost function Evaluated(tried: seq<BundleCandidate>): nat {
      if tried == [] then 0 else
      Evaluated(tried[..|tried| - 1]) + if simulate(tried[|tried| - 1]).Success? then 1 else 0
    }

    /** A tally that answers for exactly the candidates tried. */
    ghost predicate Tallied(tally: Tally, tried: seq<BundleCandidate>) {
      && IsBest(tally.best, tried) && IsMinCapital(tally.minCapital, tried)
      && IsMaxFee(tally.breakEvenFee, tried) && IsRevertThreshold(tally.revertThreshold, tried)
      && tally.evaluated == Evaluated(tried) % TWO_32
      && Evaluated(tried) <= |tried| && tally.rejected == (|tried| - Evaluated(tried)) % TWO_32
    }

    /** Everything a completed search reports about the candidates it tried. */
    ghost predicate Reports(report: AnalysisReport, tried: seq<BundleCandidate>) {
      && report.baselineOutput == baseline
      && Tallied(Tally(report.bestCandidate, report.minAttackerCapital, report.breakEvenPriorityFee,
                       report.revertThresholdInput, report.evaluatedCandidates, report.rejectedCandidates), tried)
      && report.classification ==
           (if SomeQualifies(tried) then Vulnerable else if report.evaluatedCandidates > 0 then Safe else Inconclusive)
      && report.confidenceBps == Confidence(report.classification, report.rejectedCandidates == 0)
      && match report.bestCandidate
         case Some(best) =>
           && report.maxVictimLoss == best.victimLoss && report.preventableLossBps == best.preventableLossBps
           && report.maxFeasibleAttackerProfit == best.netProfit
           && report.explanation == BestCandidate(best.strategy, best.attackerInput, best.netProfit)
         case None =>
           && report.maxVictimLoss == 0 && report.preventableLossBps == 0 && report.maxFeasibleAttackerProfit == 0
           && report.explanation == if report.evaluatedCandidates > 0 then NothingProfitable else NothingEvaluated
    }
  }

  // ----- The candidates tried

  function NextInput(config: SearchConfig, current: u128): Option<u128> {
    var next := if current + config.attackerInputStep <= MAX_U128 then current + config.attackerInputStep else MAX_U128;
    if next <= config.maxAttackerInput then Some(next) else None
  }

  function InputCount(config: SearchConfig): nat
    requires ValidateConfig(config).Success?
  {
    (config.maxAttackerInput - config.minAttackerInput) / config.attackerInputStep + 1
  }

  lemma InputInRange(config: SearchConfig, k: nat)
    requires ValidateConfig(config).Success?
    ensures k < InputCount(config)
       <==> config.minAttackerInput + k * config.attackerInputStep <= config.maxAttackerInput
  {
    FloorGalois(config.maxAttackerInput - config.minAttackerInput, config.attackerInputStep, k);
  }

  /** The k-th grid point, if it does not pass the upper bound. */
  function GridInput(config: SearchConfig, k: nat): Option<u128>
    requires ValidateConfig(config).Success?
  {
    if k < InputCount(config) then
      InputInRange(config, k);
      Some(config.minAttackerInput + k * config.attackerInputStep)
    else None
  }

  /** Both strategies for each input, smallest input first. */
  ghost function Grid(config: SearchConfig, inputs: nat): (grid: seq<BundleCandidate>)
    requires ValidateConfig(config).Success? && inputs <= InputCount(config)
    ensures |grid| == 2 * inputs
  {
    if inputs == 0 then [] else
    var input := GridInput(config, inputs - 1).value;
    Grid(config, inputs - 1) + [BundleCandidate(Sandwich, input)] + [BundleCandidate(PressureToRevert, input)]
  }

  // ----- How one more candidate changes each answer

  lemma BestReplaced(search: Search, tried: seq<BundleCandidate>, c: BundleCandidate, best: Option<CandidateMetrics>)
    requires search.IsBest(best, tried) && search.Qualifies(c)
    requires best == None || Preferable(best.value, search.Metrics(c))
    ensures search.IsBest(Some(search.Metrics(c)), tried + [c])
  {
    hide NetProfit, SaturatingSub, ComputeBps;
    var after := tried + [c];
    forall i | 0 <= i < |tried| && search.Qualifies(tried[i])
      ensures Preferable(search.Metrics(tried[i]), search.Metrics(c))
    {
      var j :| search.FirstBest(tried, j) && best.value == search.Metrics(tried[j]);
    }
    assert search.FirstBest(after, |tried|);
  }

  lemma BestExtends(search: Search, tried: seq<BundleCandidate>, c: BundleCandidate, best: Option<CandidateMetrics>)
    requires search.IsBest(best, tried)
    ensures !search.Qualifies(c) ==> search.IsBest(best, tried + [c])
    ensures search.Qualifies(c) ==>
              var own := search.Metrics(c);
              search.IsBest(if best == None || Preferable(best.value, own) then Some(own) else best, tried + [c])
  {
    hide NetProfit, SaturatingSub, ComputeBps;
    var after := tried + [c];
    if search.Qualifies(c) && (best == None || Preferable(best.value, search.Metrics(c))) {
      BestReplaced(search, tried, c, best);
    } else if best.Some? {
      var j :| search.FirstBest(tried, j) && best.value == search.Metrics(tried[j]);
      assert search.FirstBest(after, j);
    }
  }

  lemma CapitalExtends(search: Search, tried: seq<BundleCandidate>, c: BundleCandidate, capital: Option<u128>)
    requires search.IsMinCapital(capital, tried)
    ensures !search.Qualifies(c) ==> search.IsMinCapital(capital, tried + [c])
    ensures search.Qualifies(c) ==>
              var own := search.Metrics(c).attackerRequiredCapital;
              search.IsMinCapital(Some(if capital.Some? && capital.value <= own then capital.value else own),
                                  tried + [c])
  {
    hide NetProfit, SaturatingSub, ComputeBps;
    var after := tried + [c];
    assert after[|tried|] == c;
    assert forall i :: 0 <= i < |tried| ==> after[i] == tried[i];
  }

  lemma FeeExtends(search: Search, tried: seq<BundleCandidate>, c: BundleCandidate, fee: Option<u128>)
    requires search.IsMaxFee(fee, tried)
    ensures !search.Qualifies(c) ==> search.IsMaxFee(fee, tried + [c])
    ensures search.Qualifies(c) ==>
              var own := search.Metrics(c).breakEvenPriorityFee;
              search.IsMaxFee(Some(if fee.Some? && own <= fee.value then fee.value else own), tried + [c])
  {
    hide NetProfit, SaturatingSub, ComputeBps;
    var after := tried + [c];
    assert after[|tried|] == c;
    assert forall i :: 0 <= i < |tried| ==> after[i] == tried[i];
  }

  lemma ThresholdExtends(search: Search, tried: seq<BundleCandidate>, c: BundleCandidate, threshold: Option<u128>)
    requires search.IsRevertThreshold(threshold, tried)
    ensures !search.Reverts(c) ==> search.IsRevertThreshold(threshold, tried + [c])
    ensures search.Reverts(c) ==>
              var own := c.attackerInput;
              search.IsRevertThreshold(Some(if threshold.Some? && threshold.value <= own then threshold.value else own),
                                       tried + [c])
  {
    var after := tried + [c];
    assert after[|tried|] == c;
    assert forall i :: 0 <= i < |tried| ==> after[i] == tried[i];
  }

  lemma CountExtends(search: Search, tried: seq<BundleCandidate>, c: BundleCandidate)
    ensures search.Evaluated(tried + [c]) == search.Evaluated(tried) + (if search.simulate(c).Success? then 1 else 0)
  {
    assert (tried + [c])[..|tried|] == tried;
  }

  /** A refused candidate changes nothing but the count of refusals. */
  lemma RefusedExtends(search: Search, tried: seq<BundleCandidate>, c: BundleCandidate, tally: Tally)
    requires search.Tallied(tally, tried) && search.simulate(c).Failure?
    ensures search.Tallied(tally.(rejected := (tally.rejected + 1) % TWO_32), tried + [c])
  {
    hide Search.Evaluated, Preferable, Search.Metrics;
    hide Search.IsBest, Search.IsMinCapital, Search.IsMaxFee, Search.IsRevertThreshold;
    BestExtends(search, tried, c, tally.best);
    CapitalExtends(search, tried, c, tally.minCapital);
    FeeExtends(search, tried, c, tally.breakEvenFee);
    ThresholdExtends(search, tried, c, tally.revertThreshold);
    CountExtends(search, tried, c);
  }

  // ----- The search

  method TrackOutcome(search: Search, ghost tried: seq<BundleCandidate>, candidate: BundleCandidate,
                      outcome: BundleSimulation, tally: Tally)
      returns (tally': Tally)
    requires search.simulate(candidate) == Success(outcome) && search.Tallied(tally, tried)
    ensures search.Tallied(tally'.(evaluated := (tally.evaluated + 1) % TWO_32), tried + [candidate])
    ensures tally'.evaluated == tally.evaluated
  {
    hide NetProfit, SaturatingSub, ComputeBps, Preferable, Search.Evaluated;
    hide Search.IsBest, Search.IsMinCapital, Search.IsMaxFee, Search.IsRevertThreshold;
    BestExtends(search, tried, candidate, tally.best);
    CapitalExtends(search, tried, candidate, tally.minCapital);
    FeeExtends(search, tried, candidate, tally.breakEvenFee);
    ThresholdExtends(search, tried, candidate, tally.revertThreshold);
    CountExtends(search, tried, candidate);
    tally' := tally;
    if outcome.status == VictimReverted {
      var seen, input := tally.revertThreshold, candidate.attackerInput;
      tally' := tally.(revertThreshold := Some(if seen.Some? && seen.value <= input then seen.value else input));
      return;
    }
    var victimOutput := if outcome.victimOutput.Some? then outcome.victimOutput.value else 0;
    var victimLoss := SaturatingSub(search.baseline, victimOutput);
    var netProfit := NetProfit(outcome);
    if netProfit < search.config.minNetProfit {
      return;
    }
    var metrics := CandidateMetrics(candidate.strategy, candidate.attackerInput, outcome.attackerRequiredCapital,
                                    victimOutput, victimLoss, ComputeBps(victimLoss, search.baseline),
                                    outcome.attackerGrossProfit, outcome.gasCost, netProfit, BreakEvenFee(outcome),
                                    outcome.touchedPools);
    var capital, own := tally.minCapital, metrics.attackerRequiredCapital;
    tally' := tally'.(minCapital := Some(if capital.Some? && capital.value <= own then capital.value else own));
    var fee, ownFee := tally.breakEvenFee, metrics.breakEvenPriorityFee;
    tally' := tally'.(breakEvenFee := Some(if fee.Some? && ownFee <= fee.value then fee.value else ownFee));
    if tally.best == None || Preferable(tally.best.value, metrics) {
      tally' := tally'.(best := Some(metrics));
    }
  }

  const STRATEGIES: seq<StrategyKind> := [Sandwich, PressureToRevert]

  /** Both strategies on one attacker input. */
  method TryInput(search: Search, ghost before: seq<BundleCandidate>, input: u128, tally: Tally) returns (tally': Tally)
    requires search.Tallied(tally, before)
    ensures search.Tallied(tally',
                           before + [BundleCandidate(Sandwich, input)] + [BundleCandidate(PressureToRevert, input)])
  {
    hide Search.Tallied;
    tally' := tally;
    ghost var tried := before;
    for s := 0 to |STRATEGIES|
      invariant tried == before + (if s == 0 then [] else [BundleCandidate(Sandwich, input)])
                         + (if s < 2 then [] else [BundleCandidate(PressureToRevert, input)])
      invariant search.Tallied(tally', tried)
    {
      var candidate := BundleCandidate(STRATEGIES[s], input);
      var outcome := search.simulate(candidate);
      if outcome.Success? {
        var tracked := TrackOutcome(search, tried, candidate, outcome.value, tally');
        tally' := tracked.(evaluated := (tracked.evaluated + 1) % TWO_32);
      } else {
        RefusedExtends(search, tried, candidate, tally');
        tally' := tally'.(rejected := (tally'.rejected + 1) % TWO_32);
      }
      tried := tried + [candidate];
    }
  }

  lemma NothingTried(search: Search)
    ensures search.Tallied(Tally(None, None, None, None, 0, 0), [])
  {
  }

  lemma FirstInput(config: SearchConfig)
    requires ValidateConfig(config).Success?
    ensures GridInput(config, 0) == Some(config.minAttackerInput) && 0 < InputCount(config)
  {
    InputInRange(config, 0);
  }

  lemma BestMeansSome(search: Search, tried: seq<BundleCandidate>, best: Option<CandidateMetrics>)
    requires search.IsBest(best, tried)
    ensures best.Some? <==> search.SomeQualifies(tried)
  {
    hide Search.Qualifies;
    if best.Some? {
      var j :| search.FirstBest(tried, j) && best.value == search.Metrics(tried[j]);
    }
  }

  method BuildReport(search: Search, ghost tried: seq<BundleCandidate>, txHash: string, tally: Tally)
      returns (report: AnalysisReport)
    requires search.Tallied(tally, tried)
    ensures search.Reports(report, tried) && report.txHash == txHash
  {
    hide Search.IsMinCapital, Search.IsMaxFee, Search.IsRevertThreshold, Search.Qualifies, Search.FirstBest;
    var classification := if tally.best.Some? then Vulnerable else if tally.evaluated > 0 then Safe else Inconclusive;
    BestMeansSome(search, tried, tally.best);
    var explanation := if tally.evaluated > 0 then NothingProfitable else NothingEvaluated;
    report := AnalysisReport(txHash, classification, Confidence(classification, tally.rejected == 0), search.baseline,
                             0, 0, 0, tally.minCapital, tally.breakEvenFee, tally.revertThreshold, tally.best,
                             tally.evaluated, tally.rejected, explanation);
    match tally.best {
      case None =>
      case Some(m) =>
        report := report.(maxVictimLoss := m.victimLoss, preventableLossBps := m.preventableLossBps,
                          maxFeasibleAttackerProfit := m.netProfit,
                          explanation := BestCandidate(m.strategy, m.attackerInput, m.netProfit));
    }
  }

  /** The input after position k of the grid is the next grid point, and there is none exactly
      after the last, although the addition saturates. */
  lemma NextInputExact(config: SearchConfig, k: nat)
    requires ValidateConfig(config).Success? && config.maxAttackerInput < MAX_U128 && k < InputCount(config)
    ensures GridInput(config, k).Some? && NextInput(config, GridInput(config, k).value) == GridInput(config, k + 1)
    ensures GridInput(config, k + 1) == None <==> k + 1 == InputCount(config)
  {
    hide InputCount;
    InputInRange(config, k);
    InputInRange(config, k + 1);
    assert (k + 1) * config.attackerInputStep == k * config.attackerInputStep + config.attackerInputStep;
  }

  /** Tries both strategies on every attacker input in turn. An upper bound of 2^128-1 would make
      the saturating input sequence endless; see SearchTerminates. */
  method Analyze(config: SearchConfig, txHash: string, baseline: Outcome<BaselineSimulation>,
                 simulate: BundleCandidate -> Outcome<BundleSimulation>)
      returns (report: AnalysisReport)
    requires ValidateConfig(config).Success? && config.maxAttackerInput < MAX_U128
    ensures report.txHash == txHash
    ensures baseline.Failure? ==>
              report == AnalysisReport(txHash, Inconclusive, 0, 0, 0, 0, 0, None, None, None, None, 0, 0,
                                       BaselineFailed(baseline.error))
    ensures baseline.Success? ==>
              Search(config, baseline.value.victimOutput, simulate).Reports(report, Grid(config, InputCount(config)))
  {
    if baseline.Failure? {
      return AnalysisReport(txHash, Inconclusive, 0, 0, 0, 0, 0, None, None, None, None, 0, 0,
                            BaselineFailed(baseline.error));
    }
    hide Search.Tallied, Search.Reports, NextInput, GridInput;
    var search := Search(config, baseline.value.victimOutput, simulate);
    var tally := Tally(None, None, None, None, 0, 0);
    NothingTried(search);
    FirstInput(config);
    var next := Some(config.minAttackerInput);
    ghost var k := 0;
    while next.Some?
      invariant k <= InputCount(config) && next == GridInput(config, k) && (next == None <==> k == InputCount(config))
      invariant search.Tallied(tally, Grid(config, k))
      decreases InputCount(config) - k
    {
      tally := TryInput(search, Grid(config, k), next.value, tally);
      NextInputExact(config, k);
      next, k := NextInput(config, next.value), k + 1;
    }
    report := BuildReport(search, Grid(config, k), txHash, tally);
  }

  // ----- Enumeration

  /** The input sequence itself, endless or not. */
  ghost function InputAt(config: SearchConfig, k: nat): Option<u128> {
    if k == 0 then Some(config.minAttackerInput)
    else if InputAt(config, k - 1) == None then None
    else NextInput(config, InputAt(config, k - 1).value)
  }

  lemma PastTheGrid(config: SearchConfig, k: nat)
    requires ValidateConfig(config).Success? && InputCount(config) <= k
    ensures GridInput(config, k) == None && GridInput(config, k + 1) == None
  {
  }

  lemma {:induction false} InputsBelowMax(config: SearchConfig, k: nat)
    requires ValidateConfig(config).Success? && config.maxAttackerInput < MAX_U128
    ensures InputAt(config, k) == GridInput(config, k)
  {
    hide GridInput, NextInput, InputCount;
    if k == 0 {
      FirstInput(config);
    } else {
      InputsBelowMax(config, k - 1);
      if k - 1 < InputCount(config) {
        NextInputExact(config, k - 1);
      } else {
        PastTheGrid(config, k - 1);
      }
    }
  }

  lemma {:induction false} InputsAtMax(config: SearchConfig, k: nat)
    requires config.maxAttackerInput == MAX_U128
    ensures InputAt(config, k).Some?
  {
    if k > 0 {
      InputsAtMax(config, k - 1);
    }
  }

  /** A validated search ends exactly when its upper bound is below 2^128-1. */
  lemma SearchTerminates(config: SearchConfig)
    requires ValidateConfig(config).Success?
    ensures (exists k: nat :: InputAt(config, k) == None) <==> config.maxAttackerInput < MAX_U128
  {
    if config.maxAttackerInput < MAX_U128 {
      InputsBelowMax(config, InputCount(config));
      PastTheGrid(config, InputCount(config));
    } else {
      forall k: nat
        ensures InputAt(config, k) != None
      {
        InputsAtMax(config, k);
      }
    }
  }

  lemma GridCons(config: SearchConfig, inputs: nat, c: BundleCandidate)
    requires ValidateConfig(config).Success? && 0 < inputs <= InputCount(config)
    ensures c in Grid(config, inputs)
       <==> c in Grid(config, inputs - 1) || GridInput(config, inputs - 1) == Some(c.attackerInput)
  {
    var input := GridInput(config, inputs - 1).value;
    assert c.strategy == Sandwich || c.strategy == PressureToRevert;
    assert c == BundleCandidate(c.strategy, c.attackerInput);
    var before := Grid(config, inputs - 1);
    var last := [BundleCandidate(Sandwich, input), BundleCandidate(PressureToRevert, input)];
    assert Grid(config, inputs) == before + last;
    assert c in last <==> c == last[0] || c == last[1];
  }

  /** The grid holds exactly both strategies at every whole step from the lower bound that does
      not pass the upper bound. */
  lemma {:induction false} GridExact(config: SearchConfig, inputs: nat, c: BundleCandidate)
    requires ValidateConfig(config).Success? && inputs <= InputCount(config)
    ensures c in Grid(config, inputs)
       <==> exists k: nat {:trigger GridInput(config, k)} :: k < inputs && GridInput(config, k) == Some(c.attackerInput)
  {
    hide GridInput, InputCount;
    if inputs > 0 {
      GridExact(config, inputs - 1, c);
      GridCons(config, inputs, c);
    }
  }

  /** The order of the search: smallest input first, the sandwich before the pressure. */
  lemma {:induction false} GridAt(config: SearchConfig, inputs: nat, k: nat)
    requires ValidateConfig(config).Success? && k < inputs <= InputCount(config)
    ensures config.minAttackerInput + k * config.attackerInputStep < TWO_128
    ensures var input := config.minAttackerInput + k * config.attackerInputStep;
            && Grid(config, inputs)[2 * k] == BundleCandidate(Sandwich, input)
            && Grid(config, inputs)[2 * k + 1] == BundleCandidate(PressureToRevert, input)
  {
    hide InputCount;
    InputInRange(config, k);
    if k + 1 < inputs {
      GridAt(config, inputs - 1, k);
    }
  }

  ghost function Multiple(config: SearchConfig, k: nat): nat {
    k * config.attackerInputStep
  }

  lemma PointExact(config: SearchConfig, k: nat, input: u128)
    requires ValidateConfig(config).Success?
    ensures k < InputCount(config) && GridInput(config, k) == Some(input)
       <==> input <= config.maxAttackerInput && input == config.minAttackerInput + Multiple(config, k)
  {
    hide InputCount;
    InputInRange(config, k);
  }

  /** The whole grid, from the bounds and the step alone. */
  lemma GridMeans(config: SearchConfig, c: BundleCandidate)
    requires ValidateConfig(config).Success?
    ensures c in Grid(config, InputCount(config))
       <==> && c.attackerInput <= config.maxAttackerInput
            && exists k: nat {:trigger Multiple(config, k)} ::
                 c.attackerInput == config.minAttackerInput + Multiple(config, k)
  {
    hide GridInput, InputCount;
    GridExact(config, InputCount(config), c);
    forall k: nat
      ensures k < InputCount(config) && GridInput(config, k) == Some(c.attackerInput)
         <==> && c.attackerInput <= config.maxAttackerInput
              && c.attackerInput == config.minAttackerInput + Multiple(config, k)
    {
      PointExact(config, k, c.attackerInput);
    }
  }

  // ----- What a report says

  /** The account of the best candidate leaves no choice. */
  lemma BestUnique(search: Search, tried: seq<BundleCandidate>, a: Option<CandidateMetrics>,
                   b: Option<CandidateMetrics>)
    requires search.IsBest(a, tried) && search.IsBest(b, tried)
    ensures a == b
  {
    if a.Some? && b.Some? {
      var i :| search.FirstBest(tried, i) && a.value == search.Metrics(tried[i]);
      var j :| search.FirstBest(tried, j) && b.value == search.Metrics(tried[j]);
    }
  }

  lemma {:induction false} AllEvaluated(search: Search, tried: seq<BundleCandidate>)
    ensures search.Evaluated(tried) <= |tried|
    ensures search.Evaluated(tried) == |tried| <==> forall i :: 0 <= i < |tried| ==> search.simulate(tried[i]).Success?
  {
    if tried != [] {
      AllEvaluated(search, tried[..|tried| - 1]);
    }
  }

  lemma BestPosition(search: Search, tried: seq<BundleCandidate>, best: CandidateMetrics) returns (j: int)
    requires search.IsBest(Some(best), tried)
    ensures 0 <= j < |tried| && search.Qualifies(tried[j]) && best == search.Metrics(tried[j])
  {
    hide Search.Metrics, Search.Qualifies, Search.Better;
    j :| search.FirstBest(tried, j) && best == search.Metrics(tried[j]);
  }

  lemma BestNet(search: Search, tried: seq<BundleCandidate>, best: CandidateMetrics, i: int)
    requires search.IsBest(Some(best), tried) && 0 <= i < |tried| && search.Qualifies(tried[i])
    ensures search.Metrics(tried[i]).netProfit <= best.netProfit
  {
    hide Search.Metrics, Search.Qualifies;
    var j :| search.FirstBest(tried, j) && best == search.Metrics(tried[j]);
    assert !search.Better(tried[j], tried[i]);
  }

  lemma FeePosition(search: Search, tried: seq<BundleCandidate>, fee: u128, j: int) returns (i: int)
    requires search.IsMaxFee(Some(fee), tried) && 0 <= j < |tried| && search.Qualifies(tried[j])
    ensures search.Metrics(tried[j]).breakEvenPriorityFee <= fee
    ensures 0 <= i < |tried| && search.Qualifies(tried[i]) && search.Metrics(tried[i]).breakEvenPriorityFee == fee
  {
    hide Search.Metrics, Search.Qualifies;
    i :| 0 <= i < |tried| && search.Qualifies(tried[i]) && search.Metrics(tried[i]).breakEvenPriorityFee == fee;
  }

  lemma FeeOfMetrics(search: Search, c: BundleCandidate, bound: i128)
    requires search.Qualifies(c) && search.Metrics(c).netProfit <= bound
    ensures search.Metrics(c).breakEvenPriorityFee == FeeOf(search.Metrics(c).netProfit) <= FeeOf(bound)
  {
    hide NetProfit, SaturatingSub, ComputeBps;
  }

  lemma FeeOfBest(search: Search, tried: seq<BundleCandidate>, best: Option<CandidateMetrics>, fee: Option<u128>)
    requires search.IsBest(best, tried) && search.IsMaxFee(fee, tried)
    ensures fee == if best == None then None else Some(FeeOf(best.value.netProfit))
  {
    hide Search.Metrics, Search.Qualifies, Search.FirstBest, FeeOf;
    BestMeansSome(search, tried, best);
    if best.Some? {
      var j := BestPosition(search, tried, best.value);
      var i := FeePosition(search, tried, fee.value, j);
      BestNet(search, tried, best.value, i);
      FeeOfMetrics(search, tried[i], best.value.netProfit);
      FeeOfMetrics(search, tried[j], best.value.netProfit);
    }
  }

  lemma {:induction false} NoneEvaluated(search: Search, tried: seq<BundleCandidate>)
    ensures search.Evaluated(tried) == 0 <==> forall i :: 0 <= i < |tried| ==> search.simulate(tried[i]).Failure?
    ensures search.SomeQualifies(tried) ==> search.Evaluated(tried) > 0
  {
    if tried != [] {
      NoneEvaluated(search, tried[..|tried| - 1]);
    }
  }

  /** The reported fee is what the best candidate can afford, and a search over fewer than 2^32
      candidates accounts for every one of them. */
  lemma ReportMeans(search: Search, tried: seq<BundleCandidate>, report: AnalysisReport)
    requires search.Reports(report, tried)
    ensures report.classification == Vulnerable <==> search.SomeQualifies(tried)
    ensures report.breakEvenPriorityFee ==
              if report.bestCandidate == None then None
              else Some(FeeOf(report.bestCandidate.value.netProfit))
    ensures |tried| < TWO_32 ==> report.evaluatedCandidates + report.rejectedCandidates == |tried|
    ensures |tried| < TWO_32 ==>
              (report.classification == Inconclusive
               <==> forall i :: 0 <= i < |tried| ==> search.simulate(tried[i]).Failure?)
    ensures |tried| < TWO_32 && report.classification != Inconclusive ==>
              (report.confidenceBps >= 9_500 <==> forall i :: 0 <= i < |tried| ==> search.simulate(tried[i]).Success?)
  {
    hide Search.IsBest, Search.IsMinCapital, Search.IsMaxFee, Search.IsRevertThreshold;
    hide Search.SomeQualifies, Search.Evaluated;
    BestMeansSome(search, tried, report.bestCandidate);
    FeeOfBest(search, tried, report.bestCandidate, report.breakEvenPriorityFee);
    NoneEvaluated(search, tried);
    AllEvaluated(search, tried);
  }

  /** A vulnerable victim's report claims at least the configured threshold. */
  lemma VulnerableProfit(search: Search, tried: seq<BundleCandidate>, report: AnalysisReport)
    requires search.Reports(report, tried) && report.classification == Vulnerable
    ensures search.config.minNetProfit <= report.maxFeasibleAttackerProfit
  {
    hide Search.IsBest, Search.IsMinCapital, Search.IsMaxFee, Search.IsRevertThreshold, Search.SomeQualifies;
    BestMeansSome(search, tried, report.bestCandidate);
    var j := BestPosition(search, tried, report.bestCandidate.value);
  }

  /** One more qualifying candidate, in every answer. */
  lemma QualifiedExtends(search: Search, tried: seq<BundleCandidate>, c: BundleCandidate, tally: Tally)
    requires search.Tallied(tally, tried) && search.Qualifies(c)
    ensures var own, capital, fee := search.Metrics(c), tally.minCapital, tally.breakEvenFee;
            var ownCapital, ownFee := own.attackerRequiredCapital, own.breakEvenPriorityFee;
            var best := if tally.best == None || Preferable(tally.best.value, own) then Some(own) else tally.best;
            var least := if capital.Some? && capital.value <= ownCapital then capital.value else ownCapital;
            var most := if fee.Some? && ownFee <= fee.value then fee.value else ownFee;
            search.Tallied(Tally(best, Some(least), Some(most), tally.revertThreshold,
                                 (tally.evaluated + 1) % TWO_32, tally.rejected), tried + [c])
  {
    hide Search.Metrics, Search.Evaluated, Preferable;
    hide Search.IsBest, Search.IsMinCapital, Search.IsMaxFee, Search.IsRevertThreshold;
    BestExtends(search, tried, c, tally.best);
    CapitalExtends(search, tried, c, tally.minCapital);
    FeeExtends(search, tried, c, tally.breakEvenFee);
    ThresholdExtends(search, tried, c, tally.revertThreshold);
    CountExtends(search, tried, c);
  }

  /** A single bundle without profit is enough at a threshold of zero. */
  lemma VulnerableAtZero(config: SearchConfig)
      returns (search: Search, tried: seq<BundleCandidate>, report: AnalysisReport)
    requires config.minNetProfit == 0
    ensures search.config == config && search.Reports(report, tried)
    ensures report.classification == Vulnerable && report.maxFeasibleAttackerProfit == 0
  {
    hide Search.Tallied;
    var candidate := BundleCandidate(PressureToRevert, config.minAttackerInput);
    var idle := BundleSimulation(Feasible, Some(0), candidate.attackerInput, 0, 0, []);
    search := Search(config, 0, (_: BundleCandidate) => Success(idle));
    tried := [candidate];
    var best := search.Metrics(candidate);
    NothingTried(search);
    assert [] + tried == tried;
    QualifiedExtends(search, [], candidate, Tally(None, None, None, None, 0, 0));
    assert search.Qualifies(tried[0]);
    report := AnalysisReport("", Vulnerable, Confidence(Vulnerable, true), 0, best.victimLoss, best.preventableLossBps,
                             0, Some(best.attackerRequiredCapital), Some(best.breakEvenPriorityFee), None, Some(best),
                             1, 0, BestCandidate(best.strategy, best.attackerInput, best.netProfit));
  }

  /** The reported loss is the best candidate's, which another qualifying candidate may exceed. */
  lemma LossIsNotMaximum()
      returns (search: Search, tried: seq<BundleCandidate>, report: AnalysisReport, worse: BundleCandidate)
    ensures search.Reports(report, tried) && worse in tried && search.Qualifies(worse)
    ensures report.maxVictimLoss < search.Metrics(worse).victimLoss
  {
    hide Search.Tallied;
    var better := BundleCandidate(Sandwich, 1);
    worse := BundleCandidate(PressureToRevert, 1);
    search := Search(SearchConfig(1, 1, 1, 0), 5, (c: BundleCandidate) =>
      Success(if c.strategy == Sandwich then BundleSimulation(Feasible, Some(5), 1, 1, 0, [])
              else BundleSimulation(Feasible, Some(0), 1, 0, 0, [])));
    tried := [better, worse];
    var best := search.Metrics(better);
    NothingTried(search);
    assert [] + [better] == [better] && [better] + [worse] == tried;
    QualifiedExtends(search, [], better, Tally(None, None, None, None, 0, 0));
    QualifiedExtends(search, [better], worse, Tally(Some(best), Some(1), Some(1), None, 1, 0));
    assert search.Qualifies(tried[0]);
    report := AnalysisReport("", Vulnerable, Confidence(Vulnerable, true), 5, best.victimLoss, best.preventableLossBps,
                             1, Some(1), Some(1), None, Some(best), 2, 0, BestCandidate(Sandwich, 1, 1));
  }

  /** Reports that call a victim vulnerable claim a positive profit exactly under a positive
      threshold. */
  lemma ThresholdDecides(config: SearchConfig)
    requires ValidateConfig(config).Success?
    ensures 0 < config.minNetProfit
       <==> forall search: Search, tried: seq<BundleCandidate>, report: AnalysisReport ::
              search.config == config && search.Reports(report, tried) && report.classification == Vulnerable ==>
                0 < report.maxFeasibleAttackerProfit
  {
    hide Search.Reports;
    forall search: Search, tried: seq<BundleCandidate>, report: AnalysisReport
      | search.config == config && search.Reports(report, tried) && report.classification == Vulnerable
      ensures config.minNetProfit <= report.maxFeasibleAttackerProfit
    {
      VulnerableProfit(search, tried, report);
    }
    if config.minNetProfit == 0 {
      var search, tried, report := VulnerableAtZero(config);
    }
  }

  /** What a report takes from its best candidate, and that its threshold is the least reverting input. */
  lemma ReportParts(search: Search, tried: seq<BundleCandidate>, report: AnalysisReport)
    requires search.Reports(report, tried)
    ensures report.baselineOutput == search.baseline && search.IsBest(report.bestCandidate, tried)
    ensures report.bestCandidate.Some? ==> report.maxVictimLoss == report.bestCandidate.value.victimLoss
    ensures search.IsRevertThreshold(report.revertThresholdInput, tried)
  {
    hide Search.IsBest, Search.IsMinCapital, Search.IsMaxFee, Search.IsRevertThreshold, Search.SomeQualifies;
  }

  // ----- The report in terms of the simulations alone

  /** The net profit of a simulation in the program's 128-bit words: the gross profit less the gas
      cost, up to a multiple of 2^128. */
  ghost predicate IsNet(simulation: BundleSimulation, net: i128) {
    (simulation.attackerGrossProfit - simulation.gasCost - net) % TWO_128 == 0
  }

  /** The candidate can be simulated, does not revert, and nets at least the threshold. */
  ghost predicate Nets(search: Search, c: BundleCandidate, net: i128) {
    && search.simulate(c).Success? && search.simulate(c).value.status == Feasible
    && IsNet(search.simulate(c).value, net) && search.config.minNetProfit <= net
  }

  lemma WrapExact(x: int, net: i128)
    ensures WrapI128(x) == net <==> (x - net) % TWO_128 == 0
  {
  }

  lemma NetExact(simulation: BundleSimulation, net: i128)
    ensures IsNet(simulation, net) <==> net == NetProfit(simulation)
  {
    var difference: int, cost: int := simulation.attackerGrossProfit - simulation.gasCost, WrapI128(simulation.gasCost);
    assert cost == simulation.gasCost || cost == simulation.gasCost - TWO_128;
    WrapExact(difference, net);
    WrapExact(simulation.attackerGrossProfit - cost, net);
  }

  /** Qualifying is netting at least the threshold. */
  lemma QualifiesExact(search: Search, c: BundleCandidate, net: i128)
    ensures Nets(search, c, net) <==> search.Qualifies(c) && net == search.Metrics(c).netProfit
  {
    hide NetProfit, IsNet, ComputeBps, SaturatingSub;
    if search.simulate(c).Success? {
      NetExact(search.simulate(c).value, net);
    }
  }

  /** Basis points of a positive baseline: at most 10000, and the floored share of the loss; a product
      of 2^128 or more counts as 2^128-1. */
  ghost predicate IsBps(bps: u32, loss: u128, baseline: u128) {
    var scaled := if loss * 10_000 < TWO_128 then loss * 10_000 else TWO_128 - 1;
    if baseline == 0 then bps == 0 else bps <= 10_000 && bps * baseline <= scaled < (bps + 1) * baseline
  }

  lemma BpsExact(loss: u128, baseline: u128)
    requires loss <= baseline
    ensures IsBps(ComputeBps(loss, baseline), loss, baseline)
  {
    if baseline > 0 {
      BpsMeans(loss, baseline);
      var scaled: nat := if loss * 10_000 < TWO_128 then loss * 10_000 else TWO_128 - 1;
      FloorGalois(scaled, baseline, scaled / baseline);
      FloorGalois(scaled, baseline, scaled / baseline + 1);
      FloorGalois(scaled, baseline, 10_001);
    }
  }

  /** What is kept of a candidate, from its simulation and the baseline. */
  ghost predicate Describes(search: Search, c: BundleCandidate, m: CandidateMetrics) {
    && search.simulate(c).Success?
    && var s := search.simulate(c).value;
       && m.strategy == c.strategy && m.attackerInput == c.attackerInput
       && m.attackerRequiredCapital == s.attackerRequiredCapital && m.touchedPools == s.touchedPools
       && m.grossProfit == s.attackerGrossProfit && m.gasCost == s.gasCost && IsNet(s, m.netProfit)
       && m.breakEvenPriorityFee == (if m.netProfit < 0 then 0 else m.netProfit)
       && m.victimOutput == (if s.victimOutput.Some? then s.victimOutput.value else 0)
       && m.victimLoss == (if m.victimOutput <= search.baseline then search.baseline - m.victimOutput else 0)
       && IsBps(m.preventableLossBps, m.victimLoss, search.baseline)
  }

  lemma MetricsDescribe(search: Search, c: BundleCandidate)
    requires search.Qualifies(c)
    ensures Describes(search, c, search.Metrics(c))
  {
    hide NetProfit, IsNet, ComputeBps, IsBps;
    var s := search.simulate(c).value;
    NetExact(s, NetProfit(s));
    BpsExact(search.Metrics(c).victimLoss, search.baseline);
  }

  lemma CapitalOf(search: Search, c: BundleCandidate)
    requires search.Qualifies(c)
    ensures search.simulate(c).Success?
    ensures search.Metrics(c).attackerRequiredCapital == search.simulate(c).value.attackerRequiredCapital
  {
    hide NetProfit, ComputeBps;
  }

  /** If the candidate nets the threshold, it nets less than the best one, or as much with at least
      its capital; an earlier one with more. */
  ghost predicate Trails(search: Search, c: BundleCandidate, best: CandidateMetrics, earlier: bool) {
    forall net: i128 :: Nets(search, c, net) ==>
      var capital := search.simulate(c).value.attackerRequiredCapital;
      || net < best.netProfit
      || (net == best.netProfit
          && if earlier then best.attackerRequiredCapital < capital else best.attackerRequiredCapital <= capital)
  }

  lemma TrailsBest(search: Search, c: BundleCandidate, best: CandidateMetrics, earlier: bool)
    requires search.Qualifies(c) ==> !Preferable(best, search.Metrics(c))
    requires search.Qualifies(c) && earlier ==> Preferable(search.Metrics(c), best)
    ensures Trails(search, c, best, earlier)
  {
    hide Search.Metrics, Search.Qualifies, Nets;
    forall net: i128 | Nets(search, c, net)
      ensures search.simulate(c).Success?
      ensures search.Qualifies(c) && net == search.Metrics(c).netProfit
      ensures search.Metrics(c).attackerRequiredCapital == search.simulate(c).value.attackerRequiredCapital
    {
      QualifiesExact(search, c, net);
      CapitalOf(search, c);
    }
  }

  /** The best candidate of a report is described by its simulation and nets the threshold; every
      candidate trails it, and those before it do so strictly. */
  lemma BestAnswer(search: Search, tried: seq<BundleCandidate>, report: AnalysisReport) returns (j: int)
    requires search.Reports(report, tried)
    ensures report.bestCandidate.Some? ==>
              var best := report.bestCandidate.value;
              && 0 <= j < |tried| && Describes(search, tried[j], best) && Nets(search, tried[j], best.netProfit)
              && forall i :: 0 <= i < |tried| ==> Trails(search, tried[i], best, i < j)
    ensures report.bestCandidate == None ==> forall i, net: i128 :: 0 <= i < |tried| ==> !Nets(search, tried[i], net)
  {
    hide Search.Metrics, Search.Qualifies, Search.IsMinCapital, Search.IsMaxFee, Search.IsRevertThreshold;
    hide Nets, Describes, Trails, Preferable;
    j := 0;
    if report.bestCandidate.Some? {
      var best := report.bestCandidate.value;
      j :| search.FirstBest(tried, j) && best == search.Metrics(tried[j]);
      MetricsDescribe(search, tried[j]);
      QualifiesExact(search, tried[j], best.netProfit);
      forall i | 0 <= i < |tried|
        ensures Trails(search, tried[i], best, i < j)
      {
        TrailsBest(search, tried[i], best, i < j);
      }
    } else {
      forall i, net: i128 | 0 <= i < |tried|
        ensures !Nets(search, tried[i], net)
      {
        QualifiesExact(search, tried[i], net);
      }
    }
  }

  /** The capital of a report is the least that a candidate netting the threshold requires. */
  lemma CapitalAnswer(search: Search, tried: seq<BundleCandidate>, report: AnalysisReport, capital: u128)
    requires search.Reports(report, tried)
    ensures report.minAttackerCapital == Some(capital)
       <==> && (exists i, net: i128 :: && 0 <= i < |tried| && Nets(search, tried[i], net)
                                 && search.simulate(tried[i]).value.attackerRequiredCapital == capital)
            && (forall i, net: i128 :: 0 <= i < |tried| && Nets(search, tried[i], net) ==>
                  capital <= search.simulate(tried[i]).value.attackerRequiredCapital)
  {
    hide Search.Metrics, Search.Qualifies, Search.IsBest, Search.IsMaxFee, Search.IsRevertThreshold, Nets;
    forall i, net: i128 | 0 <= i < |tried|
      ensures Nets(search, tried[i], net)
         <==> search.Qualifies(tried[i]) && net == search.Metrics(tried[i]).netProfit
    {
      QualifiesExact(search, tried[i], net);
    }
    forall i | 0 <= i < |tried| && search.Qualifies(tried[i])
      ensures Nets(search, tried[i], search.Metrics(tried[i]).netProfit)
      ensures search.simulate(tried[i]).Success?
              && search.Metrics(tried[i]).attackerRequiredCapital
                 == search.simulate(tried[i]).value.attackerRequiredCapital
    {
      CapitalOf(search, tried[i]);
    }
  }

  /** The revert threshold of a report is the least attacker input that reverts the victim. */
  lemma ThresholdAnswer(search: Search, tried: seq<BundleCandidate>, report: AnalysisReport, input: u128)
    requires search.Reports(report, tried)
    ensures report.revertThresholdInput == Some(input)
       <==> && (exists i :: && 0 <= i < |tried| && tried[i].attackerInput == input
                            && search.simulate(tried[i]).Success?
                            && search.simulate(tried[i]).value.status == VictimReverted)
            && (forall i :: && 0 <= i < |tried| && search.simulate(tried[i]).Success?
                            && search.simulate(tried[i]).value.status == VictimReverted ==>
                              input <= tried[i].attackerInput)
  {
    hide Search.Metrics, Search.Qualifies, Search.IsBest, Search.IsMaxFee, Search.IsMinCapital;
  }

  /** The positions of the candidates that could, or could not, be simulated. */
  ghost function Positions(search: Search, tried: seq<BundleCandidate>, simulated: bool): set<int> {
    set i | 0 <= i < |tried| && search.simulate(tried[i]).Success? == simulated
  }

  lemma PositionsSnoc(search: Search, tried: seq<BundleCandidate>)
    requires tried != []
    ensures var last := |tried| - 1;
            Positions(search, tried, true) == Positions(search, tried[..last], true)
                                              + if search.simulate(tried[last]).Success? then {last} else {}
    ensures |tried| - 1 !in Positions(search, tried[..|tried| - 1], true)
  {
    var last := |tried| - 1;
    assert forall i :: 0 <= i < last ==> tried[..last][i] == tried[i];
  }

  lemma {:induction false} CountSimulated(search: Search, tried: seq<BundleCandidate>)
    ensures search.Evaluated(tried) == |Positions(search, tried, true)|
  {
    if tried == [] {
      assert Positions(search, tried, true) == {};
    } else {
      hide Positions;
      CountSimulated(search, tried[..|tried| - 1]);
      PositionsSnoc(search, tried);
    }
  }

  lemma {:induction false} CountUpTo(n: nat, positions: set<int>)
    requires forall i :: i in positions <==> 0 <= i < n
    ensures |positions| == n
  {
    if n == 0 {
      assert forall i: int :: i !in positions;
    } else {
      CountUpTo(n - 1, positions - {n - 1});
    }
  }

  lemma CountRejected(search: Search, tried: seq<BundleCandidate>)
    ensures |tried| - search.Evaluated(tried) == |Positions(search, tried, false)|
  {
    hide Search.Evaluated;
    CountSimulated(search, tried);
    CountUpTo(|tried|, Positions(search, tried, true) + Positions(search, tried, false));
  }

  /** The counters of a report are those of the candidates that could and could not be simulated, up
      to a multiple of 2^32. */
  lemma CountAnswer(search: Search, tried: seq<BundleCandidate>, report: AnalysisReport)
    requires search.Reports(report, tried)
    ensures report.evaluatedCandidates == |Positions(search, tried, true)| % TWO_32
    ensures report.rejectedCandidates == |Positions(search, tried, false)| % TWO_32
  {
    hide Search.Metrics, Search.Qualifies;
    hide Search.IsBest, Search.IsMaxFee, Search.IsMinCapital, Search.IsRevertThreshold, Search.Evaluated;
    CountSimulated(search, tried);
    CountRejected(search, tried);
  }

  lemma NoneMeansNone(search: Search, tried: seq<BundleCandidate>, capital: Option<u128>)
    requires search.IsMinCapital(capital, tried) && !search.SomeQualifies(tried)
    ensures capital == None
  {
    hide Search.Metrics, Search.Qualifies;
  }

  /** The verdict of a report, its confidence and its explanation, from its own answers and counters. */
  lemma VerdictAnswer(search: Search, tried: seq<BundleCandidate>, report: AnalysisReport)
    requires search.Reports(report, tried)
    ensures report.baselineOutput == search.baseline
    ensures match report.bestCandidate
            case Some(best) =>
              && report.classification == Vulnerable
              && report.confidenceBps == (if report.rejectedCandidates == 0 then 10_000 else 8_500)
              && report.maxVictimLoss == best.victimLoss && report.preventableLossBps == best.preventableLossBps
              && report.maxFeasibleAttackerProfit == best.netProfit
              && report.breakEvenPriorityFee == Some(best.breakEvenPriorityFee)
              && report.explanation == BestCandidate(best.strategy, best.attackerInput, best.netProfit)
            case None =>
              && report.maxVictimLoss == 0 && report.preventableLossBps == 0 && report.maxFeasibleAttackerProfit == 0
              && report.minAttackerCapital == None && report.breakEvenPriorityFee == None
              && if report.evaluatedCandidates > 0 then
                   && report.classification == Safe && report.explanation == NothingProfitable
                   && report.confidenceBps == (if report.rejectedCandidates == 0 then 9_500 else 7_500)
                 else
                   && report.classification == Inconclusive && report.explanation == NothingEvaluated
                   && report.confidenceBps == 2_500
  {
    hide Search.Metrics, Search.Qualifies, Search.FirstBest, FeeOf, Search.Evaluated;
    hide Search.IsMinCapital, Search.IsMaxFee, Search.IsRevertThreshold;
    BestMeansSome(search, tried, report.bestCandidate);
    ReportMeans(search, tried, report);
    if report.bestCandidate.Some? {
      var j := BestPosition(search, tried, report.bestCandidate.value);
      FeeOfMetrics(search, tried[j], report.bestCandidate.value.netProfit);
    } else {
      NoneMeansNone(search, tried, report.minAttackerCapital);
    }
  }
}
