/** Baseline and bundle simulation over a registry of validated pools, and what no bundle can
    achieve: a sandwich never earns more than its victim put in. */
module Bundles {
  import opened Words
  import opened Curve
  import opened FixedPoint
  import opened Model
  import opened Pool
  import opened Simulator
  import opened Routes
  import opened Flows
  import opened Sandwiches

  // ----- Touched pools

  function WithUnique(target: seq<PoolKey>, additional: seq<PoolKey>): seq<PoolKey>
    decreases |additional|
  {
    if additional == [] then target
    else WithUnique(if additional[0] in target then target else target + [additional[0]], additional[1..])
  }

  method AppendUnique(target: seq<PoolKey>, additional: seq<PoolKey>) returns (appended: seq<PoolKey>)
    ensures appended == WithUnique(target, additional)
  {
    appended := target;
    for i := 0 to |additional|
      invariant WithUnique(appended, additional[i..]) == WithUnique(target, additional)
    {
      assert additional[i..][0] == additional[i] && additional[i..][1..] == additional[i + 1..];
      if additional[i] !in appended {
        appended := appended + [additional[i]];
      }
    }
  }

  /** The list starts as it was and holds what it held and what is added; what is added is listed
      behind it once at most, and not at all if it was there. */
  lemma {:induction false} UniqueMeans(target: seq<PoolKey>, additional: seq<PoolKey>)
    ensures target <= WithUnique(target, additional)
    ensures forall key :: key in WithUnique(target, additional) <==> key in target || key in additional
    ensures var all := WithUnique(target, additional);
            forall i, j :: 0 <= i < j < |all| && |target| <= j ==> all[i] != all[j]
    decreases |additional|
  {
    if additional != [] {
      var next := if additional[0] in target then target else target + [additional[0]];
      UniqueMeans(next, additional[1..]);
      assert target <= next && additional == [additional[0]] + additional[1..];
      assert WithUnique(target, additional) == WithUnique(next, additional[1..]);
      assert WithUnique(target, additional)[..|next|] == next;
    }
  }

  /** Pools that were touched already are not listed again. */
  lemma {:induction false} NothingNew(target: seq<PoolKey>, additional: seq<PoolKey>)
    requires forall key :: key in additional ==> key in target
    ensures WithUnique(target, additional) == target
  {
    if additional != [] {
      NothingNew(target, additional[1..]);
    }
  }

  lemma WayBackTouchesSame(route: seq<RouteHop>)
    ensures WithUnique(PoolsOf(route), PoolsOf(route)) == PoolsOf(route)
    ensures WithUnique(PoolsOf(route), PoolsOf(ReverseRoute(route))) == PoolsOf(route)
  {
    var keys, back := PoolsOf(route), PoolsOf(ReverseRoute(route));
    forall i | 0 <= i < |back|
      ensures back[i] in keys
    {
      assert back[i] == keys[|route| - 1 - i];
    }
    NothingNew(keys, keys);
    NothingNew(keys, back);
  }

  // ----- The registry

  /** Every pool passed validation and sits under its own key. */
  ghost predicate Registered(pools: Registry) {
    forall key :: key in pools ==> pools[key].key == key && Validate(pools[key]).Success?
  }

  lemma RegisteredSorted(pools: Registry)
    requires Registered(pools)
    ensures AllSorted(pools)
  {
    hide Validate, TicksSorted;
    forall key | key in pools
      ensures TicksSorted(pools[key].ticks)
    {
      ValidateExact(pools[key]);
    }
  }

  /** A registry is well placed throughout exactly when none of its fees is above one million. */
  lemma RegisteredPlaced(pools: Registry)
    requires Registered(pools)
    ensures AllPlaced(pools) <==> forall key :: key in pools ==> key.feePips <= FEE_DENOMINATOR
  {
    hide Validate, InPlace, TicksSorted;
    RegisteredSorted(pools);
    forall key | key in pools
      ensures InPlace(pools[key]) && pools[key].key == key
    {
      ValidateExact(pools[key]);
    }
  }

  /** Pools that can be registered together: all valid, no key twice. */
  ghost predicate Registrable(pools: seq<UniswapV3Pool>) {
    && (forall i :: 0 <= i < |pools| ==> Validate(pools[i]).Success?)
    && (forall i, j :: 0 <= i < j < |pools| ==> pools[i].key != pools[j].key)
  }

  /** The pool at position i is invalid, or repeats a key, behind pools that could be registered. */
  ghost predicate FirstFault(pools: seq<UniswapV3Pool>, i: nat, error: SimulationError) {
    && i < |pools| && Registrable(pools[..i])
    && match Validate(pools[i])
       case Failure(fault) => error == fault
       case Success(_) =>
         error == InvalidInput("duplicate pool") && exists j :: 0 <= j < i && pools[j].key == pools[i].key
  }

  lemma RegistrableSnoc(pools: seq<UniswapV3Pool>, i: nat)
    requires i < |pools| && Registrable(pools[..i]) && Validate(pools[i]).Success?
    requires forall j :: 0 <= j < i ==> pools[j].key != pools[i].key
    ensures Registrable(pools[..i + 1])
  {
    hide Validate;
    assert pools[..i + 1] == pools[..i] + [pools[i]];
  }

  method BuildRegistry(pools: seq<UniswapV3Pool>) returns (result: Outcome<Registry>)
    ensures result.Success? <==> Registrable(pools)
    ensures result.Failure? ==> exists i :: FirstFault(pools, i, result.error)
    ensures result.Success? ==>
              && Registered(result.value)
              && (forall i :: 0 <= i < |pools| ==>
                    pools[i].key in result.value && result.value[pools[i].key] == pools[i])
              && (forall key :: key in result.value ==> exists i :: 0 <= i < |pools| && pools[i].key == key)
  {
    hide Validate;
    var registry: Registry := map[];
    for i := 0 to |pools|
      invariant Registered(registry) && Registrable(pools[..i])
      invariant forall j :: 0 <= j < i ==> pools[j].key in registry && registry[pools[j].key] == pools[j]
      invariant forall key :: key in registry ==> exists j :: 0 <= j < i && pools[j].key == key
    {
      var checked := Validate(pools[i]);
      if checked.Failure? {
        assert FirstFault(pools, i, checked.error);
        return Failure(checked.error);
      }
      if pools[i].key in registry {
        assert FirstFault(pools, i, InvalidInput("duplicate pool"));
        return Failure(InvalidInput("duplicate pool"));
      }
      RegistrableSnoc(pools, i);
      registry := registry[pools[i].key := pools[i]];
    }
    assert pools[..|pools|] == pools;
    result := Success(registry);
  }

  // ----- Simulation as functions of a registry snapshot

  function VictimError(error: VictimTransactionError): SimulationError {
    match error
    case EmptyRoute => InvalidInput("victim route must not be empty")
    case DisconnectedRoute => InvalidInput("victim route must be token-contiguous")
  }

  function CheckVictim(victim: VictimTransaction): Outcome<()> {
    if victim.route == [] then Failure(VictimError(EmptyRoute))
    else if !Contiguous(victim.route) then Failure(VictimError(DisconnectedRoute))
    else Success(())
  }

  /** What the victim is paid with nobody in front. */
  function Baseline(pools: Registry, victim: VictimTransaction): Outcome<BaselineSimulation>
    requires AllSorted(pools)
  {
    hide RunRoute;
    var _ :- CheckVictim(victim);
    var run :- RunRoute(pools, victim.route, victim.amountIn);
    if run.amountOut < victim.minAmountOut then
      Failure(InvalidInput("victim does not satisfy min amount out at baseline"))
    else Success(BaselineSimulation(run.amountOut, PoolsOf(victim.route)))
  }

  /** The attacker's input and then the victim's, over the same route. */
  function FrontThenVictim(pools: Registry, victim: VictimTransaction, attackerInput: u128)
    : Outcome<(RouteRun, RouteRun)>
    requires AllSorted(pools)
  {
    hide RunRoute;
    var _ :- CheckVictim(victim);
    var front :- RunRoute(pools, victim.route, attackerInput);
    var run :- RunRoute(front.pools, victim.route, victim.amountIn);
    Success((front, run))
  }

  /** The legs of a bundle in turn. Whichever legs run, the pools touched are the route's own. */
  function CandidateOutcome(pools: Registry, victim: VictimTransaction, candidate: BundleCandidate)
    : Outcome<BundleSimulation>
    requires AllSorted(pools)
  {
    hide RunRoute;
    var (front, run) :- FrontThenVictim(pools, victim, candidate.attackerInput);
    if run.amountOut < victim.minAmountOut then
      Success(BundleSimulation(VictimReverted, None, candidate.attackerInput, 0, 0, PoolsOf(victim.route)))
    else
      var grossProfit: i128 :- match candidate.strategy
        case PressureToRevert => Success(0)
        case Sandwich =>
          var back :- RunRoute(run.pools, ReverseRoute(victim.route), front.amountOut);
          if back.amountOut >= TWO_127 || candidate.attackerInput >= TWO_127 then Failure(ArithmeticOverflow)
          else Success(back.amountOut - candidate.attackerInput);
      Success(BundleSimulation(Feasible, Some(run.amountOut), candidate.attackerInput, grossProfit, 0,
                               PoolsOf(victim.route)))
  }

  /** The baseline of a victim with a contiguous route is the fault of its run, a refusal when the
      run is paid less than the minimum, and else what the run is paid and the pools it meets. */
  lemma BaselineExact(pools: Registry, victim: VictimTransaction)
    requires AllSorted(pools)
    ensures victim.route == [] ==>
              Baseline(pools, victim) == Failure(InvalidInput("victim route must not be empty"))
    ensures victim.route != [] && !Contiguous(victim.route) ==>
              Baseline(pools, victim) == Failure(InvalidInput("victim route must be token-contiguous"))
    ensures victim.route != [] && Contiguous(victim.route) ==>
              match RunRoute(pools, victim.route, victim.amountIn)
              case Failure(error) => Baseline(pools, victim) == Failure(error)
              case Success(run) =>
                if run.amountOut < victim.minAmountOut then
                  Baseline(pools, victim)
                  == Failure(InvalidInput("victim does not satisfy min amount out at baseline"))
                else
                  && Baseline(pools, victim).Success?
                  && var answer := Baseline(pools, victim).value;
                     && answer.victimOutput == run.amountOut && |answer.touchedPools| == |victim.route|
                     && forall i :: 0 <= i < |victim.route| ==> answer.touchedPools[i] == victim.route[i].pool
  {
    hide RunRoute, Contiguous, AllSorted, PoolsOf;
  }

  /** When the legs of a bundle can be run: a contiguous route, the front-run, the victim behind it,
      and for a sandwich around a victim that does not revert, the way back, with both ends of the
      profit below 2^127. */
  ghost predicate BundleRuns(pools: Registry, victim: VictimTransaction, candidate: BundleCandidate)
    requires AllSorted(pools)
  {
    && victim.route != [] && Contiguous(victim.route)
    && var front := RunRoute(pools, victim.route, candidate.attackerInput);
       && front.Success?
       && var run := RunRoute(front.value.pools, victim.route, victim.amountIn);
          && run.Success?
          && (candidate.strategy == Sandwich && victim.minAmountOut <= run.value.amountOut ==>
                var back := RunRoute(run.value.pools, ReverseRoute(victim.route), front.value.amountOut);
                back.Success? && back.value.amountOut < TWO_127 && candidate.attackerInput < TWO_127)
  }

  /** A simulation succeeds exactly when the legs of its bundle can be run. */
  lemma CandidateSucceeds(pools: Registry, victim: VictimTransaction, candidate: BundleCandidate)
    requires AllSorted(pools)
    ensures CandidateOutcome(pools, victim, candidate).Success? <==> BundleRuns(pools, victim, candidate)
  {
    hide RunRoute, Contiguous, AllSorted, PoolsOf, ReverseRoute;
  }

  /** What a simulation that succeeds answers, from the legs of the bundle alone. */
  lemma CandidateAnswer(pools: Registry, victim: VictimTransaction, candidate: BundleCandidate,
                        front: RouteRun, run: RouteRun, back: Option<RouteRun>)
    requires AllSorted(pools) && victim.route != [] && Contiguous(victim.route)
    requires RunRoute(pools, victim.route, candidate.attackerInput) == Success(front)
    requires RunRoute(front.pools, victim.route, victim.amountIn) == Success(run)
    requires back.Some? ==> RunRoute(run.pools, ReverseRoute(victim.route), front.amountOut) == Success(back.value)
    requires CandidateOutcome(pools, victim, candidate).Success?
    ensures var answer := CandidateOutcome(pools, victim, candidate).value;
            && answer.attackerRequiredCapital == candidate.attackerInput && answer.gasCost == 0
            && (answer.status == VictimReverted <==> run.amountOut < victim.minAmountOut)
            && answer.victimOutput == (if run.amountOut < victim.minAmountOut then None else Some(run.amountOut))
            && (run.amountOut < victim.minAmountOut || candidate.strategy == PressureToRevert ==>
                  answer.attackerGrossProfit == 0)
            && (victim.minAmountOut <= run.amountOut && candidate.strategy == Sandwich && back.Some? ==>
                  answer.attackerGrossProfit == back.value.amountOut - candidate.attackerInput)
            && |answer.touchedPools| == |victim.route|
            && forall i :: 0 <= i < |victim.route| ==> answer.touchedPools[i] == victim.route[i].pool
  {
    hide RunRoute, Contiguous, AllSorted, ReverseRoute;
  }

  /** The fault of a simulation is that of the victim's route, then of the first leg that fails, then
      of a profit out of range. */
  lemma CandidateFault(pools: Registry, victim: VictimTransaction, candidate: BundleCandidate, error: SimulationError)
    requires AllSorted(pools) && CandidateOutcome(pools, victim, candidate) == Failure(error)
    ensures victim.route == [] ==> error == InvalidInput("victim route must not be empty")
    ensures victim.route != [] && !Contiguous(victim.route) ==>
              error == InvalidInput("victim route must be token-contiguous")
    ensures victim.route != [] && Contiguous(victim.route) ==>
              var front := RunRoute(pools, victim.route, candidate.attackerInput);
              if front.Failure? then error == front.error else
              var run := RunRoute(front.value.pools, victim.route, victim.amountIn);
              if run.Failure? then error == run.error else
              var back := RunRoute(run.value.pools, ReverseRoute(victim.route), front.value.amountOut);
              if back.Failure? then error == back.error else error == ArithmeticOverflow
  {
    hide RunRoute, Contiguous, AllSorted, PoolsOf, ReverseRoute;
  }

  /** The two strategies agree on the victim: a candidate reverts it exactly when its run is paid
      less than its minimum, and a feasible candidate reports what it is paid. */
  lemma StrategiesAgree(pools: Registry, victim: VictimTransaction, a: BundleCandidate, b: BundleCandidate)
    requires AllSorted(pools) && a.attackerInput == b.attackerInput
    requires CandidateOutcome(pools, victim, a).Success? && CandidateOutcome(pools, victim, b).Success?
    ensures var x, y := CandidateOutcome(pools, victim, a).value, CandidateOutcome(pools, victim, b).value;
            && x.status == y.status && x.victimOutput == y.victimOutput
            && (x.status == Feasible <==> x.victimOutput.Some?)
            && (x.victimOutput.Some? ==> victim.minAmountOut <= x.victimOutput.value)
            && (x.status == VictimReverted
                <==> FrontThenVictim(pools, victim, a.attackerInput).value.1.amountOut < victim.minAmountOut)
  {
    hide RunRoute, FrontThenVictim;
  }

  // ----- The simulator

  class UniswapV3SinglePoolSimulator {
    var pools: Registry

    ghost predicate Valid()
      reads this
    {
      Registered(pools) && AllSorted(pools)
    }

    constructor (registry: Registry)
      requires Registered(registry)
      ensures Valid() && pools == registry
    {
      RegisteredSorted(registry);
      pools := registry;
    }

    /** Replaces the whole registry, or leaves it untouched when any new pool is refused. */
    method ReplacePools(replacement: seq<UniswapV3Pool>) returns (result: Outcome<()>)
      requires Valid()
      modifies this
      ensures Valid()
      ensures result.Success? <==> Registrable(replacement)
      ensures result.Failure? ==> pools == old(pools) && exists i :: FirstFault(replacement, i, result.error)
      ensures result.Success? ==> pools.Keys == (set i | 0 <= i < |replacement| :: replacement[i].key)
      ensures result.Success? ==> forall i :: 0 <= i < |replacement| ==> pools[replacement[i].key] == replacement[i]
    {
      var registry :- BuildRegistry(replacement);
      RegisteredSorted(registry);
      pools := registry;
      result := Success(());
    }

    method SimulateBaseline(victim: VictimTransaction) returns (result: Outcome<BaselineSimulation>)
      requires Valid()
      ensures result == Baseline(pools, victim)
    {
      hide Swap, TicksSorted;
      var error := ValidateVictim(victim);
      if error.Some? {
        return Failure(VictimError(error.value));
      }
      var run, touchedPools :- SimulateRoute(pools, victim.route, victim.amountIn);
      if run.amountOut < victim.minAmountOut {
        return Failure(InvalidInput("victim does not satisfy min amount out at baseline"));
      }
      result := Success(BaselineSimulation(run.amountOut, touchedPools));
    }

    method SimulateCandidate(victim: VictimTransaction, candidate: BundleCandidate)
        returns (result: Outcome<BundleSimulation>)
      requires Valid()
      ensures result == CandidateOutcome(pools, victim, candidate)
    {
      hide Swap, AllSorted, RunRoute, WithUnique, PoolsOf, ReverseRoute, Contiguous, Registered;
      var error := ValidateVictim(victim);
      if error.Some? {
        return Failure(VictimError(error.value));
      }
      var front, touchedPools :- SimulateRoute(pools, victim.route, candidate.attackerInput);
      var run, victimPools :- SimulateRoute(front.pools, victim.route, victim.amountIn);
      touchedPools := AppendUnique(touchedPools, victimPools);
      WayBackTouchesSame(victim.route);
      if run.amountOut < victim.minAmountOut {
        return Success(BundleSimulation(VictimReverted, None, candidate.attackerInput, 0, 0, touchedPools));
      }
      var grossProfit: i128 := 0;
      if candidate.strategy == Sandwich {
        var back, backPools :- SimulateRoute(run.pools, ReverseRoute(victim.route), front.amountOut);
        touchedPools := AppendUnique(touchedPools, backPools);
        if back.amountOut >= TWO_127 || candidate.attackerInput >= TWO_127 {
          return Failure(ArithmeticOverflow);
        }
        grossProfit := back.amountOut - candidate.attackerInput;
      }
      result := Success(BundleSimulation(Feasible, Some(run.amountOut), candidate.attackerInput, grossProfit, 0,
                                         touchedPools));
    }
  }

  // ----- The sandwich bound

  /** The legs of a bundle whose front-run and victim both find their way. */
  lemma BundleLegs(pools: Registry, victim: VictimTransaction, attackerInput: u128)
      returns (front: RouteRun, run: RouteRun)
    requires AllPlaced(pools) && FrontThenVictim(pools, victim, attackerInput).Success?
    ensures FrontThenVictim(pools, victim, attackerInput).value == (front, run)
    ensures AllPlaced(front.pools) && RunRoute(pools, victim.route, attackerInput) == Success(front)
    ensures AllPlaced(run.pools) && RunRoute(front.pools, victim.route, victim.amountIn) == Success(run)
    ensures forall hop :: hop in victim.route ==> hop.pool in pools
    ensures front.pools.Keys == pools.Keys && run.pools.Keys == pools.Keys
  {
    hide RunRoute, WellPlaced;
    var legs := FrontThenVictim(pools, victim, attackerInput).value;
    front, run := legs.0, legs.1;
    RouteFrame(pools, victim.route, attackerInput, front);
    RouteFrame(front.pools, victim.route, victim.amountIn, run);
  }

  /** On a grouped route, whatever ticks the three legs cross, no bundle earns more than the victim
      put in. */
  lemma SandwichBound(pools: Registry, victim: VictimTransaction, candidate: BundleCandidate,
                      simulation: BundleSimulation)
    requires AllPlaced(pools) && Grouped(victim.route)
    requires CandidateOutcome(pools, victim, candidate) == Success(simulation)
    ensures simulation.attackerGrossProfit <= victim.amountIn
  {
    hide RunRoute, Swap, WellPlaced, TicksSorted;
    if simulation.status == Feasible && candidate.strategy == Sandwich {
      var front, run := BundleLegs(pools, victim, candidate.attackerInput);
      var back := RunRoute(run.pools, ReverseRoute(victim.route), front.amountOut).value;
      SandwichLegs(victim.route, pools, candidate.attackerInput, front, front.pools, victim.amountIn, run,
                   run.pools, front.amountOut, back);
    }
  }

  /** The bundle's back-run, and then the victim's output sold back over the same route. */
  function BackThenSale(pools: Registry, victim: VictimTransaction, attackerInput: u128): Outcome<(RouteRun, RouteRun)>
    requires AllSorted(pools)
  {
    hide RunRoute;
    var (front, run) :- FrontThenVictim(pools, victim, attackerInput);
    var back :- RunRoute(run.pools, ReverseRoute(victim.route), front.amountOut);
    var sale :- RunRoute(back.pools, ReverseRoute(victim.route), run.amountOut);
    Success((back, sale))
  }

  /** A sandwich earns at most what its victim really lost: its gross profit and what the victim's
      output fetches when sold right behind the bundle together stay within the victim's input. */
  lemma SandwichWithinLoss(pools: Registry, victim: VictimTransaction, candidate: BundleCandidate,
                           simulation: BundleSimulation)
    requires AllPlaced(pools) && Grouped(victim.route) && candidate.strategy == Sandwich
    requires CandidateOutcome(pools, victim, candidate) == Success(simulation) && simulation.status == Feasible
    requires BackThenSale(pools, victim, candidate.attackerInput).Success?
    ensures simulation.attackerGrossProfit + BackThenSale(pools, victim, candidate.attackerInput).value.1.amountOut
         <= victim.amountIn
  {
    hide RunRoute, Swap, WellPlaced, TicksSorted;
    var (back, sale) := BackThenSale(pools, victim, candidate.attackerInput).value;
    var front, run := BundleLegs(pools, victim, candidate.attackerInput);
    RouteFrame(run.pools, ReverseRoute(victim.route), front.amountOut, back);
    SandwichThenSale(victim.route, pools, candidate.attackerInput, front, front.pools, victim.amountIn, run,
                     run.pools, front.amountOut, back, back.pools, run.amountOut, sale);
  }

  /** A front-run and the victim behind it are together paid at most what one run of both inputs,
      or more, is paid. */
  lemma TogetherAtMostJoint(pools: Registry, victim: VictimTransaction, attackerInput: u128, joint: u128,
                            whole: RouteRun)
    requires AllPlaced(pools) && DistinctPools(victim.route) && attackerInput + victim.amountIn <= joint
    requires FrontThenVictim(pools, victim, attackerInput).Success?
    requires RunRoute(pools, victim.route, joint) == Success(whole)
    ensures var (front, run) := FrontThenVictim(pools, victim, attackerInput).value;
            front.amountOut + run.amountOut <= whole.amountOut
  {
    hide RunRoute, Swap, WellPlaced, TicksSorted;
    var front, run := BundleLegs(pools, victim, attackerInput);
    RouteSplit(victim.route, pools, attackerInput, front, front.pools, victim.amountIn, run, pools, joint, whole);
  }

  /** The legs of a sandwich, on any route, are three orders. */
  lemma BundleIsOrders(pools: Registry, victim: VictimTransaction, attackerInput: u128, back: RouteRun)
    requires AllSorted(pools) && FrontThenVictim(pools, victim, attackerInput).Success?
    requires var (front, run) := FrontThenVictim(pools, victim, attackerInput).value;
             RunRoute(run.pools, ReverseRoute(victim.route), front.amountOut) == Success(back)
    ensures var (front, run) := FrontThenVictim(pools, victim, attackerInput).value;
            RunOrders(pools, [Order(victim.route, attackerInput), Order(victim.route, victim.amountIn),
                              Order(ReverseRoute(victim.route), front.amountOut)]) == Success(back.pools)
  {
    hide RunRoute, TicksSorted, ReverseRoute, Contiguous;
    var (front, run) := FrontThenVictim(pools, victim, attackerInput).value;
    var first, second := Order(victim.route, attackerInput), Order(victim.route, victim.amountIn);
    var third := Order(ReverseRoute(victim.route), front.amountOut);
    assert [first, second, third][1..] == [second, third] && [second, third][1..] == [third] && [third][1..] == [];
    assert RunOrders(run.pools, [third]) == Success(back.pools);
    assert RunOrders(front.pools, [second, third]) == Success(back.pools);
  }
}
