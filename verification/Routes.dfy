/** Routes over a registry of pools, and what runs of a route one behind another are paid. */
module Routes {
  import opened Words
  import opened FixedPoint
  import opened Model
  import opened Pool
  import opened Trades

  type Registry = map<PoolKey, UniswapV3Pool>

  /** What running a swap needs of every pool. */
  ghost predicate AllSorted(pools: Registry) {
    forall key :: key in pools ==> TicksSorted(pools[key].ticks)
  }

  /** What the laws of swaps need of every pool. */
  ghost predicate AllPlaced(pools: Registry) {
    AllSorted(pools) && forall key :: key in pools ==> WellPlaced(pools[key])
  }

  datatype RouteRun = RouteRun(pools: Registry, amountOut: u128)

  /** The hops of a route, one after another, each paying the next. */
  function RunRoute(pools: Registry, route: seq<RouteHop>, amount: u128): (run: Outcome<RouteRun>)
    requires AllSorted(pools)
    ensures run.Success? ==> AllSorted(run.value.pools) && run.value.pools.Keys == pools.Keys
    decreases |route|
  {
    hide Swap, TicksSorted;
    if route == [] then Success(RouteRun(pools, amount)) else
    var hop := route[0];
    if hop.pool !in pools then Failure(PoolNotFound) else
    var outcome :- Swap(pools[hop.pool], hop.direction, amount);
    RunRoute(pools[hop.pool := outcome.nextPool], route[1..], outcome.amountOut)
  }

  /** The pools of a route in the order of its hops. */
  function PoolsOf(route: seq<RouteHop>): (keys: seq<PoolKey>)
    ensures |keys| == |route| && forall i :: 0 <= i < |route| ==> keys[i] == route[i].pool
  {
    if route == [] then [] else [route[0].pool] + PoolsOf(route[1..])
  }

  /** A route run hop by hop over a pool map that each hop updates. */
  method SimulateRoute(registry: Registry, route: seq<RouteHop>, amountIn: u128)
      returns (result: Outcome<RouteRun>, touchedPools: seq<PoolKey>)
    requires AllSorted(registry)
    ensures result == if route == [] then Failure(InvalidInput("victim route must not be empty"))
                      else RunRoute(registry, route, amountIn)
    ensures result.Success? ==> touchedPools == PoolsOf(route)
  {
    hide Swap, TicksSorted, PoolsOf;
    touchedPools := [];
    if route == [] {
      return Failure(InvalidInput("victim route must not be empty")), touchedPools;
    }
    var pools, amount: u128 := registry, amountIn;
    for i := 0 to |route|
      invariant AllSorted(pools)
      invariant RunRoute(registry, route, amountIn) == RunRoute(pools, route[i..], amount)
      invariant touchedPools == PoolsOf(route)[..i]
    {
      var hop := route[i];
      assert route[i..][0] == hop && route[i..][1..] == route[i + 1..];
      if hop.pool !in pools {
        return Failure(PoolNotFound), touchedPools;
      }
      var swapped := SwapExactInput(pools[hop.pool], hop.direction, amount);
      if swapped.Failure? {
        return Failure(swapped.error), touchedPools;
      }
      pools, amount := pools[hop.pool := swapped.value.nextPool], swapped.value.amountOut;
      touchedPools := touchedPools + [hop.pool];
    }
    result := Success(RouteRun(pools, amount));
  }

  // ----- A route followed step by step

  /** One hop, from a registry and an amount to the next. */
  ghost predicate HopsTo(before: RouteRun, hop: RouteHop, after: RouteRun) {
    && hop.pool in before.pools && TicksSorted(before.pools[hop.pool].ticks)
    && var swapped := Swap(before.pools[hop.pool], hop.direction, before.amountOut);
       && swapped.Success?
       && after == RouteRun(before.pools[hop.pool := swapped.value.nextPool], swapped.value.amountOut)
  }

  /** The registry and the amount before each hop of a route, and after the last. */
  ghost predicate Follows(route: seq<RouteHop>, states: seq<RouteRun>) {
    |states| == |route| + 1 && forall i :: 0 <= i < |route| ==> HopsTo(states[i], route[i], states[i + 1])
  }

  lemma {:induction false} RunFollows(pools: Registry, route: seq<RouteHop>, amount: u128, run: RouteRun)
      returns (states: seq<RouteRun>)
    requires AllSorted(pools) && RunRoute(pools, route, amount) == Success(run)
    ensures Follows(route, states) && states[0] == RouteRun(pools, amount) && states[|route|] == run
    decreases |route|
  {
    hide Swap, TicksSorted;
    var start := RouteRun(pools, amount);
    if route == [] {
      states := [start];
    } else {
      var outcome := Swap(pools[route[0].pool], route[0].direction, amount).value;
      var rest := RunFollows(pools[route[0].pool := outcome.nextPool], route[1..], outcome.amountOut, run);
      states := [start] + rest;
      assert HopsTo(states[0], route[0], states[1]);
      forall i | 0 <= i < |route|
        ensures HopsTo(states[i], route[i], states[i + 1])
      {
        if i > 0 {
          assert HopsTo(rest[i - 1], route[1..][i - 1], rest[i]);
        }
      }
    }
  }

  lemma {:induction false} FollowedRuns(route: seq<RouteHop>, states: seq<RouteRun>)
    requires Follows(route, states) && AllSorted(states[0].pools)
    ensures RunRoute(states[0].pools, route, states[0].amountOut) == Success(states[|route|])
    decreases |route|
  {
    hide Swap, TicksSorted;
    if route != [] {
      assert HopsTo(states[0], route[0], states[1]);
      forall i | 0 <= i < |route[1..]|
        ensures HopsTo(states[1..][i], route[1..][i], states[1..][i + 1])
      {
        assert HopsTo(states[i + 1], route[i + 1], states[i + 2]);
      }
      FollowedRuns(route[1..], states[1..]);
    }
  }

  /** A run succeeds exactly when its route can be followed from hop to hop, each swap taking what
      the hop before it paid and meeting what the hops before it left, and ends where that ends. */
  lemma RouteExact(pools: Registry, route: seq<RouteHop>, amount: u128, run: RouteRun)
    requires AllSorted(pools)
    ensures RunRoute(pools, route, amount) == Success(run)
       <==> exists states :: Follows(route, states) && states[0] == RouteRun(pools, amount) && states[|route|] == run
  {
    hide RunRoute, HopsTo, TicksSorted;
    if RunRoute(pools, route, amount) == Success(run) {
      var states := RunFollows(pools, route, amount, run);
    }
    forall states | Follows(route, states) && |states| == |route| + 1 && states[0] == RouteRun(pools, amount)
                    && states[|route|] == run
      ensures RunRoute(pools, route, amount) == Success(run)
    {
      FollowedRuns(route, states);
    }
  }

  /** A run that fails has followed some of its route, and fails for a missing pool or with the
      fault of the next swap. */
  lemma {:induction false} RouteFault(pools: Registry, route: seq<RouteHop>, amount: u128, error: SimulationError)
      returns (k: nat, states: seq<RouteRun>)
    requires AllSorted(pools) && RunRoute(pools, route, amount) == Failure(error)
    ensures k < |route| && Follows(route[..k], states) && states[0] == RouteRun(pools, amount)
    ensures var hop, before := route[k], states[k];
            if hop.pool !in before.pools then error == PoolNotFound
            else TicksSorted(before.pools[hop.pool].ticks)
                 && Swap(before.pools[hop.pool], hop.direction, before.amountOut) == Failure(error)
    decreases |route|
  {
    hide Swap, TicksSorted;
    var start := RouteRun(pools, amount);
    if route[0].pool in pools && Swap(pools[route[0].pool], route[0].direction, amount).Success? {
      var outcome := Swap(pools[route[0].pool], route[0].direction, amount).value;
      var j, rest := RouteFault(pools[route[0].pool := outcome.nextPool], route[1..], outcome.amountOut, error);
      k, states := j + 1, [start] + rest;
      assert HopsTo(states[0], route[0], states[1]);
      forall i | 0 <= i < k
        ensures HopsTo(states[i], route[..k][i], states[i + 1])
      {
        if i > 0 {
          assert HopsTo(rest[i - 1], route[1..][..j][i - 1], rest[i]);
        }
      }
    } else {
      k, states := 0, [start];
    }
  }

  // ----- What a route leaves alone

  ghost predicate Uses(route: seq<RouteHop>, key: PoolKey) {
    exists hop :: hop in route && hop.pool == key
  }

  ghost predicate DistinctPools(route: seq<RouteHop>) {
    forall i, j :: 0 <= i < j < |route| ==> route[i].pool != route[j].pool
  }

  /** The first hop of a run: the pool it meets, what it leaves, and the rest of the run. */
  lemma RouteHead(pools: Registry, route: seq<RouteHop>, amount: u128, run: RouteRun) returns (outcome: SwapOutcome)
    requires AllPlaced(pools) && route != [] && RunRoute(pools, route, amount) == Success(run)
    ensures route[0].pool in pools && WellPlaced(pools[route[0].pool]) && WellPlaced(outcome.nextPool)
    ensures outcome.amountOut < TWO_128 && AllPlaced(pools[route[0].pool := outcome.nextPool])
    ensures Swap(pools[route[0].pool], route[0].direction, amount) == Success(outcome)
    ensures RunRoute(pools[route[0].pool := outcome.nextPool], route[1..], outcome.amountOut) == Success(run)
  {
    hide Swap, WellPlaced, TicksSorted;
    var pool := pools[route[0].pool];
    outcome := Swap(pool, route[0].direction, amount).value;
    SwapKeeps(pool, route[0].direction, amount);
    assert route[0].pool in pools[route[0].pool := outcome.nextPool];
  }

  lemma EmptyRun(pools: Registry, amount: u128)
    requires AllPlaced(pools)
    ensures RunRoute(pools, [], amount) == Success(RouteRun(pools, amount))
  {
  }

  /** A run keeps the registry well placed, finds every pool of its route, and touches no other. */
  lemma {:induction false} RouteFrame(pools: Registry, route: seq<RouteHop>, amount: u128, run: RouteRun)
    requires AllPlaced(pools) && RunRoute(pools, route, amount) == Success(run)
    ensures AllPlaced(run.pools) && run.pools.Keys == pools.Keys
    ensures forall hop :: hop in route ==> hop.pool in pools
    ensures forall key :: key in pools && !Uses(route, key) ==> run.pools[key] == pools[key]
    decreases |route|
  {
    hide Swap, WellPlaced, TicksSorted;
    if route == [] {
      EmptyRun(pools, amount);
    } else {
      var outcome := RouteHead(pools, route, amount, run);
      RouteFrame(pools[route[0].pool := outcome.nextPool], route[1..], outcome.amountOut, run);
    }
  }

  lemma {:induction false} RouteConcat(pools: Registry, first: seq<RouteHop>, second: seq<RouteHop>, amount: u128,
                                       whole: RouteRun) returns (middle: RouteRun)
    requires AllPlaced(pools) && RunRoute(pools, first + second, amount) == Success(whole)
    ensures RunRoute(pools, first, amount) == Success(middle)
    ensures AllPlaced(middle.pools) && RunRoute(middle.pools, second, middle.amountOut) == Success(whole)
    decreases |first|
  {
    hide Swap, WellPlaced, TicksSorted;
    if first == [] {
      assert first + second == second;
      middle := RouteRun(pools, amount);
    } else {
      assert (first + second)[0] == first[0] && (first + second)[1..] == first[1..] + second;
      var outcome := RouteHead(pools, first + second, amount, whole);
      middle := RouteConcat(pools[first[0].pool := outcome.nextPool], first[1..], second, outcome.amountOut, whole);
    }
  }

  // ----- Registries that agree on a route

  ghost predicate Agree(a: Registry, b: Registry, route: seq<RouteHop>) {
    forall hop :: hop in route ==> hop.pool in a && hop.pool in b && a[hop.pool] == b[hop.pool]
  }

  /** The pool of the first hop may differ when only the rest of the route matters. */
  lemma RestAgrees(a: Registry, b: Registry, route: seq<RouteHop>, x: UniswapV3Pool, y: UniswapV3Pool)
    requires route != [] && Agree(a, b, route) && !Uses(route[1..], route[0].pool)
    ensures Agree(a[route[0].pool := x], b, route[1..])
    ensures Agree(a, b[route[0].pool := y], route[1..])
    ensures Agree(a[route[0].pool := x], b[route[0].pool := y], route[1..])
  {
  }

  lemma HeadUnused(route: seq<RouteHop>)
    requires route != [] && DistinctPools(route)
    ensures !Uses(route[1..], route[0].pool) && DistinctPools(route[1..])
  {
  }

  // ----- Runs of one route, whatever ticks they cross

  /** On a route of distinct pools, a larger input is paid at least as much. */
  lemma {:induction false} RouteMonotone(route: seq<RouteHop>, p: Registry, x: u128, small: RouteRun,
                                         q: Registry, y: u128, large: RouteRun)
    requires AllPlaced(p) && AllPlaced(q) && DistinctPools(route) && Agree(p, q, route) && x <= y
    requires RunRoute(p, route, x) == Success(small) && RunRoute(q, route, y) == Success(large)
    ensures small.amountOut <= large.amountOut
    decreases |route|
  {
    hide Swap, WellPlaced, TicksSorted, Uses, RunRoute;
    if route == [] {
      EmptyRun(p, x);
      EmptyRun(q, y);
    } else {
      var hop, rest := route[0], route[1..];
      HeadUnused(route);
      assert hop in route;
      var first: SwapOutcome := RouteHead(p, route, x, small);
      var second: SwapOutcome := RouteHead(q, route, y, large);
      SwapMonotone(p[hop.pool], hop.direction, x, y);
      RestAgrees(p, q, route, first.nextPool, second.nextPool);
      RouteMonotone(rest, p[hop.pool := first.nextPool], first.amountOut, small,
                    q[hop.pool := second.nextPool], second.amountOut, large);
    }
  }

  /** On a route of distinct pools, a front-run and the victim behind it are together paid at most
      what one run of both inputs is paid. */
  lemma {:induction false} RouteSplit(route: seq<RouteHop>, p: Registry, x: u128, front: RouteRun,
                                      p': Registry, y: u128, victim: RouteRun, q: Registry, z: u128, joint: RouteRun)
    requires AllPlaced(p) && AllPlaced(p') && AllPlaced(q) && DistinctPools(route) && x + y <= z
    requires RunRoute(p, route, x) == Success(front) && Agree(p', front.pools, route)
    requires RunRoute(p', route, y) == Success(victim)
    requires Agree(p, q, route) && RunRoute(q, route, z) == Success(joint)
    ensures front.amountOut + victim.amountOut <= joint.amountOut
    decreases |route|
  {
    hide Swap, WellPlaced, TicksSorted, Uses, RunRoute;
    if route == [] {
      EmptyRun(p, x);
      EmptyRun(p', y);
      EmptyRun(q, z);
    } else {
      var hop, rest := route[0], route[1..];
      HeadUnused(route);
      assert hop in route;
      var first: SwapOutcome := RouteHead(p, route, x, front);
      RouteFrame(p[hop.pool := first.nextPool], rest, first.amountOut, front);
      var second: SwapOutcome := RouteHead(p', route, y, victim);
      var whole: SwapOutcome := RouteHead(q, route, z, joint);
      SwapSplit(p[hop.pool], hop.direction, x, y, z, first.nextPool);
      RestAgrees(p', front.pools, route, second.nextPool, second.nextPool);
      RestAgrees(p, q, route, first.nextPool, whole.nextPool);
      RouteSplit(rest, p[hop.pool := first.nextPool], first.amountOut, front,
                 p'[hop.pool := second.nextPool], second.amountOut, victim,
                 q[hop.pool := whole.nextPool], whole.amountOut, joint);
    }
  }
}
