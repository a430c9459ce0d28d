/** The engine over the Uniswap simulator: what a finished analysis can report. */
module Analysis {
  import opened Words
  import opened Model
  import opened Simulator
  import opened Routes
  import opened Sandwiches
  import opened Bundles
  import opened Harm
  import opened Engine

  /** The search the engine runs for a victim on a registry snapshot. */
  ghost function VictimSearch(pools: Registry, victim: VictimTransaction, config: SearchConfig,
                              baseline: BaselineSimulation): Search
    requires AllSorted(pools)
  {
    Search(config, baseline.victimOutput, (c: BundleCandidate) => CandidateOutcome(pools, victim, c))
  }

  // ----- Profit

  lemma NoGas(pools: Registry, victim: VictimTransaction, c: BundleCandidate)
    requires AllSorted(pools) && CandidateOutcome(pools, victim, c).Success?
    ensures CandidateOutcome(pools, victim, c).value.gasCost == 0
  {
    hide RunRoute, AllSorted;
  }

  lemma QualifyingBound(pools: Registry, victim: VictimTransaction, config: SearchConfig, baseline: BaselineSimulation,
                        c: BundleCandidate)
    requires AllPlaced(pools) && Grouped(victim.route)
    requires VictimSearch(pools, victim, config, baseline).Qualifies(c)
    ensures VictimSearch(pools, victim, config, baseline).Metrics(c).netProfit <= victim.amountIn
    ensures config.minNetProfit <= victim.amountIn
  {
    hide AllSorted, Grouped, SaturatingSub, ComputeBps;
    var simulation := CandidateOutcome(pools, victim, c).value;
    SandwichBound(pools, victim, c, simulation);
    NoGas(pools, victim, c);
    NetProfitExact(simulation);
  }

  /** On a grouped route, no report claims a profit or a break-even fee above the
      victim's input, and a victim smaller than the profit threshold is never called vulnerable. */
  lemma ReportedProfitBound(pools: Registry, victim: VictimTransaction, config: SearchConfig,
                            baseline: BaselineSimulation, tried: seq<BundleCandidate>, report: AnalysisReport)
    requires AllPlaced(pools) && Grouped(victim.route)
    requires VictimSearch(pools, victim, config, baseline).Reports(report, tried)
    ensures report.maxFeasibleAttackerProfit <= victim.amountIn
    ensures report.breakEvenPriorityFee.Some? ==> report.breakEvenPriorityFee.value <= victim.amountIn
    ensures victim.amountIn < config.minNetProfit ==> report.classification != Vulnerable
  {
    hide VictimSearch, AllSorted, Grouped;
    hide Search.Metrics, Search.Qualifies, Search.IsMinCapital, Search.IsRevertThreshold, Search.IsMaxFee;
    var search := VictimSearch(pools, victim, config, baseline);
    ReportMeans(search, tried, report);
    if report.bestCandidate.Some? {
      var j := BestPosition(search, tried, report.bestCandidate.value);
      QualifyingBound(pools, victim, config, baseline, tried[j]);
    } else {
      BestMeansSome(search, tried, report.bestCandidate);
    }
  }

  // ----- Harm

  /** A victim and candidates whose every swap stays inside its range, on a route of distinct pools. */
  ghost predicate InsideRanges(pools: Registry, victim: VictimTransaction, tried: seq<BundleCandidate>) {
    && AllPlaced(pools) && DistinctPools(victim.route) && StaysInside(pools, victim.route, victim.amountIn)
    && forall i :: 0 <= i < |tried| ==> BundleStaysInside(pools, victim, tried[i].attackerInput)
  }

  /** Inside ranges the loss of a qualifying candidate is the whole difference to the baseline: the
      subtraction is never cut off at zero. */
  lemma LossExact(pools: Registry, victim: VictimTransaction, config: SearchConfig, baseline: BaselineSimulation,
                  c: BundleCandidate)
    requires InsideRanges(pools, victim, [c]) && Baseline(pools, victim) == Success(baseline)
    requires VictimSearch(pools, victim, config, baseline).Qualifies(c)
    ensures var metrics := VictimSearch(pools, victim, config, baseline).Metrics(c);
            && metrics.victimOutput <= baseline.victimOutput
            && metrics.victimLoss == baseline.victimOutput - metrics.victimOutput
  {
    hide AllSorted, DistinctPools, StaysInside, BundleStaysInside, Baseline, FrontThenVictim, RunRoute;
    hide ComputeBps, NetProfit;
    assert BundleStaysInside(pools, victim, [c][0].attackerInput);
    FrontHurts(pools, victim, c.attackerInput);
  }

  lemma SearchBaseline(pools: Registry, victim: VictimTransaction, config: SearchConfig, baseline: BaselineSimulation)
    requires AllSorted(pools)
    ensures VictimSearch(pools, victim, config, baseline).baseline == baseline.victimOutput
  {
  }

  /** Inside ranges, a report's loss is what its best candidate takes from the baseline. */
  lemma ReportedLossExact(pools: Registry, victim: VictimTransaction, config: SearchConfig,
                          baseline: BaselineSimulation, tried: seq<BundleCandidate>, report: AnalysisReport)
    requires InsideRanges(pools, victim, tried) && Baseline(pools, victim) == Success(baseline)
    requires VictimSearch(pools, victim, config, baseline).Reports(report, tried) && report.bestCandidate.Some?
    ensures report.maxVictimLoss == report.baselineOutput - report.bestCandidate.value.victimOutput
  {
    hide VictimSearch, AllSorted, DistinctPools, StaysInside, BundleStaysInside;
    hide Search.Reports, Search.IsBest, Search.Metrics, Search.Qualifies;
    var search := VictimSearch(pools, victim, config, baseline);
    SearchBaseline(pools, victim, config, baseline);
    ReportParts(search, tried, report);
    var j := BestPosition(search, tried, report.bestCandidate.value);
    LossExact(pools, victim, config, baseline, tried[j]);
  }

  /** What the account of the threshold means where reverting inputs are upward closed. */
  lemma ThresholdDivides(pools: Registry, victim: VictimTransaction, config: SearchConfig, baseline: BaselineSimulation,
                         tried: seq<BundleCandidate>, threshold: Option<u128>, i: nat)
    requires InsideRanges(pools, victim, tried) && i < |tried| && CandidateOutcome(pools, victim, tried[i]).Success?
    requires VictimSearch(pools, victim, config, baseline).IsRevertThreshold(threshold, tried)
    ensures CandidateOutcome(pools, victim, tried[i]).value.status == VictimReverted
       <==> threshold.Some? && threshold.value <= tried[i].attackerInput
  {
    hide AllSorted, DistinctPools, StaysInside, BundleStaysInside, CandidateOutcome;
    var search := VictimSearch(pools, victim, config, baseline);
    assert search.Reverts(tried[i]) <==> CandidateOutcome(pools, victim, tried[i]).value.status == VictimReverted;
    if threshold.Some? && threshold.value <= tried[i].attackerInput {
      var j :| 0 <= j < |tried| && search.Reverts(tried[j]) && tried[j].attackerInput == threshold.value;
      RevertingUpwardClosed(pools, victim, tried[j], tried[i]);
    }
  }

  /** Inside ranges, the reported threshold divides the inputs: of the candidates tried that could
      be simulated, exactly those of at least the threshold revert the victim, and without a
      threshold none does. */
  lemma RevertThresholdExact(pools: Registry, victim: VictimTransaction, config: SearchConfig,
                             baseline: BaselineSimulation, tried: seq<BundleCandidate>, report: AnalysisReport, i: nat)
    requires InsideRanges(pools, victim, tried) && i < |tried| && CandidateOutcome(pools, victim, tried[i]).Success?
    requires VictimSearch(pools, victim, config, baseline).Reports(report, tried)
    ensures CandidateOutcome(pools, victim, tried[i]).value.status == VictimReverted
       <==> report.revertThresholdInput.Some? && report.revertThresholdInput.value <= tried[i].attackerInput
  {
    hide VictimSearch, AllSorted, DistinctPools, StaysInside, BundleStaysInside, CandidateOutcome;
    hide Search.Reports, Search.IsBest, Search.IsRevertThreshold;
    ReportParts(VictimSearch(pools, victim, config, baseline), tried, report);
    ThresholdDivides(pools, victim, config, baseline, tried, report.revertThresholdInput, i);
  }
}
