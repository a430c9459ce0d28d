/** What a bundle simulation is asked and what it answers. Pools are identified by their keys. */
module Simulator {
  import opened Words
  import opened Model

  datatype StrategyKind = Sandwich | PressureToRevert

  datatype BundleCandidate = BundleCandidate(strategy: StrategyKind, attackerInput: u128)

  datatype CandidateStatus = Feasible | VictimReverted

  datatype BaselineSimulation = BaselineSimulation(victimOutput: u128, touchedPools: seq<PoolKey>)

  datatype BundleSimulation =
    BundleSimulation(status: CandidateStatus, victimOutput: Option<u128>, attackerRequiredCapital: u128,
                     attackerGrossProfit: i128, gasCost: u128, touchedPools: seq<PoolKey>)
}
