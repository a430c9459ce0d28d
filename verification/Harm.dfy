/** Front-running as monotone harm: while no swap leaves its liquidity range, a larger attacker
    input never leaves the victim better off. Across ticks either can happen; see FrontRunCanHelp and
    CrossingCanHurt. */
module Harm {
  import opened Words
  import opened Curve
  import opened Model
  import opened Pool
  import opened Range
  import opened Trades
  import opened Simulator
  import opened Routes
  import opened Bundles

  /** Every hop of the run stops strictly inside the range it starts in. */
  ghost predicate StaysInside(pools: Registry, route: seq<RouteHop>, amount: u128)
    requires AllSorted(pools)
    decreases |route|
  {
    route == [] ||
    (&& route[0].pool in pools && Faces(pools[route[0].pool], route[0].direction)
     && !Reaches(pools[route[0].pool], route[0].direction, amount)
     && var swapped := Swap(pools[route[0].pool], route[0].direction, amount);
        swapped.Success? ==>
          StaysInside(pools[route[0].pool := swapped.value.nextPool], route[1..], swapped.value.amountOut))
  }

  /** The same pool with its price at or beyond where it was, in the direction of the swap. */
  ghost predicate Further(pool: UniswapV3Pool, ahead: UniswapV3Pool, direction: SwapDirection) {
    ahead == pool.(sqrtPrice := ahead.sqrtPrice) && Ahead(direction, pool.sqrtPrice, ahead.sqrtPrice)
  }

  ghost predicate AllFurther(pools: Registry, ahead: Registry, route: seq<RouteHop>) {
    forall hop :: hop in route ==>
      hop.pool in pools && hop.pool in ahead && Further(pools[hop.pool], ahead[hop.pool], hop.direction)
  }

  /** A swap that stays inside its range moves the price ahead and is paid the stop's pay. */
  lemma InsideSwap(pool: UniswapV3Pool, direction: SwapDirection, amount: u128)
    requires Faces(pool, direction) && !Reaches(pool, direction, amount) && Swap(pool, direction, amount).Success?
    ensures var outcome := Swap(pool, direction, amount).value;
            && outcome.nextPool == Stopped(pool, direction, amount)
            && outcome.amountOut == StopPay(pool, direction, amount)
            && Further(pool, outcome.nextPool, direction)
  {
    hide Swap, SwapLoop, Reaches, StopPay, Stopped, StopPrice, TicksSorted, TicksBelow;
    SwapIsLoop(pool, direction, amount);
    IterationStops(pool, direction, amount, 0);
    var _ := StopPrice(pool, direction, amount);
  }

  /** The first hop of a run that stays inside, and the rest of it. */
  lemma InsideHead(pools: Registry, route: seq<RouteHop>, amount: u128, run: RouteRun) returns (outcome: SwapOutcome)
    requires AllPlaced(pools) && route != [] && RunRoute(pools, route, amount) == Success(run)
    requires StaysInside(pools, route, amount)
    ensures var key, direction := route[0].pool, route[0].direction;
            && key in pools && Faces(pools[key], direction) && !Reaches(pools[key], direction, amount)
            && outcome.nextPool == Stopped(pools[key], direction, amount)
            && outcome.amountOut == StopPay(pools[key], direction, amount)
            && Further(pools[key], outcome.nextPool, direction)
            && AllPlaced(pools[key := outcome.nextPool]) && outcome.amountOut < TWO_128
            && RunRoute(pools[key := outcome.nextPool], route[1..], outcome.amountOut) == Success(run)
            && StaysInside(pools[key := outcome.nextPool], route[1..], outcome.amountOut)
  {
    hide Swap, Reaches, StopPay, Stopped, Faces, Further, RunRoute, WellPlaced, TicksSorted;
    outcome := RouteHead(pools, route, amount, run);
    InsideSwap(pools[route[0].pool], route[0].direction, amount);
  }

  lemma FurtherCons(pools: Registry, pool: UniswapV3Pool, ahead: Registry, route: seq<RouteHop>)
    requires route != [] && !Uses(route[1..], route[0].pool) && route[0].pool in pools && route[0].pool in ahead
    requires Further(pools[route[0].pool], ahead[route[0].pool], route[0].direction)
    requires AllFurther(pools[route[0].pool := pool], ahead, route[1..])
    ensures AllFurther(pools, ahead, route)
  {
    hide Further;
    forall hop | hop in route
      ensures hop.pool in pools && hop.pool in ahead && Further(pools[hop.pool], ahead[hop.pool], hop.direction)
    {
      if hop != route[0] {
        assert hop in route[1..];
      }
    }
  }

  /** A larger front-run leaves every pool of the route at least as far along, and is itself paid
      at least as much; each leaves every pool at least as far along as it was. */
  lemma {:induction false} LargerFront(p: Registry, q: Registry, route: seq<RouteHop>, x: u128, small: RouteRun,
                                       y: u128, large: RouteRun)
    requires AllPlaced(p) && AllPlaced(q) && DistinctPools(route) && x <= y && Agree(p, q, route)
    requires RunRoute(p, route, x) == Success(small) && StaysInside(p, route, x)
    requires RunRoute(q, route, y) == Success(large) && StaysInside(q, route, y)
    ensures AllFurther(p, small.pools, route) && AllFurther(small.pools, large.pools, route)
    ensures small.amountOut <= large.amountOut
    decreases |route|
  {
    hide Swap, Reaches, StopPay, Faces, RunRoute, WellPlaced, TicksSorted, StaysInside, Uses, Ahead;
    if route == [] {
      EmptyRun(p, x);
      EmptyRun(q, y);
    } else {
      var key, direction, rest := route[0].pool, route[0].direction, route[1..];
      assert route[0] in route;
      var first: SwapOutcome := InsideHead(p, route, x, small);
      var second: SwapOutcome := InsideHead(q, route, y, large);
      StopMono(p[key], direction, x, y);
      HeadUnused(route);
      RestAgrees(p, q, route, first.nextPool, second.nextPool);
      LargerFront(p[key := first.nextPool], q[key := second.nextPool], rest, first.amountOut, small,
                  second.amountOut, large);
      RouteFrame(p[key := first.nextPool], rest, first.amountOut, small);
      RouteFrame(q[key := second.nextPool], rest, second.amountOut, large);
      FurtherCons(p, first.nextPool, small.pools, route);
      assert small.pools[key := small.pools[key]] == small.pools;
      FurtherCons(small.pools, small.pools[key], large.pools, route);
    }
  }

  lemma RestFurther(a: Registry, b: Registry, route: seq<RouteHop>, x: UniswapV3Pool, y: UniswapV3Pool)
    requires route != [] && AllFurther(a, b, route) && !Uses(route[1..], route[0].pool)
    ensures AllFurther(a[route[0].pool := x], b[route[0].pool := y], route[1..])
  {
  }

  /** Behind pools that are further along, and with no larger an input, a run is paid no more. */
  lemma {:induction false} FurtherPaysLess(p: Registry, q: Registry, route: seq<RouteHop>, x: u128, better: RouteRun,
                                           y: u128, worse: RouteRun)
    requires AllPlaced(p) && AllPlaced(q) && DistinctPools(route) && y <= x && AllFurther(p, q, route)
    requires RunRoute(p, route, x) == Success(better) && StaysInside(p, route, x)
    requires RunRoute(q, route, y) == Success(worse) && StaysInside(q, route, y)
    ensures worse.amountOut <= better.amountOut
    decreases |route|
  {
    hide Swap, Reaches, StopPay, Faces, RunRoute, WellPlaced, TicksSorted, StaysInside, Uses, Ahead;
    if route == [] {
      EmptyRun(p, x);
      EmptyRun(q, y);
    } else {
      var key, direction := route[0].pool, route[0].direction;
      assert route[0] in route;
      var first: SwapOutcome := InsideHead(p, route, x, better);
      var second: SwapOutcome := InsideHead(q, route, y, worse);
      StopAfterHeadStart(p[key], q[key], direction, x, y);
      HeadUnused(route);
      RestFurther(p, q, route, first.nextPool, second.nextPool);
      FurtherPaysLess(p[key := first.nextPool], q[key := second.nextPool], route[1..], first.amountOut, better,
                      second.amountOut, worse);
    }
  }

  // ----- Bundles

  /** The attacker's and the victim's runs both stay inside their ranges. */
  ghost predicate BundleStaysInside(pools: Registry, victim: VictimTransaction, attackerInput: u128)
    requires AllSorted(pools)
  {
    && StaysInside(pools, victim.route, attackerInput)
    && var legs := FrontThenVictim(pools, victim, attackerInput);
       legs.Success? ==> StaysInside(legs.value.0.pools, victim.route, victim.amountIn)
  }

  /** On a route of distinct pools, with every swap inside its range, the victim behind a larger
      front-run is paid no more. */
  lemma LargerFrontHurts(pools: Registry, victim: VictimTransaction, x: u128, y: u128)
    requires AllPlaced(pools) && DistinctPools(victim.route) && x <= y
    requires FrontThenVictim(pools, victim, x).Success? && BundleStaysInside(pools, victim, x)
    requires FrontThenVictim(pools, victim, y).Success? && BundleStaysInside(pools, victim, y)
    ensures FrontThenVictim(pools, victim, y).value.1.amountOut <= FrontThenVictim(pools, victim, x).value.1.amountOut
  {
    hide RunRoute, StaysInside, FrontThenVictim, WellPlaced, TicksSorted, Further;
    var front, run := BundleLegs(pools, victim, x);
    var front', run' := BundleLegs(pools, victim, y);
    LargerFront(pools, pools, victim.route, x, front, y, front');
    FurtherPaysLess(front.pools, front'.pools, victim.route, victim.amountIn, run, victim.amountIn, run');
  }

  /** Nor is the victim behind any front-run paid more than at baseline. */
  lemma FrontHurts(pools: Registry, victim: VictimTransaction, x: u128)
    requires AllPlaced(pools) && DistinctPools(victim.route)
    requires Baseline(pools, victim).Success? && StaysInside(pools, victim.route, victim.amountIn)
    requires FrontThenVictim(pools, victim, x).Success? && BundleStaysInside(pools, victim, x)
    ensures FrontThenVictim(pools, victim, x).value.1.amountOut <= Baseline(pools, victim).value.victimOutput
  {
    hide RunRoute, StaysInside, FrontThenVictim, WellPlaced, TicksSorted, Further;
    var front, run := BundleLegs(pools, victim, x);
    var alone := RunRoute(pools, victim.route, victim.amountIn).value;
    LargerFront(pools, pools, victim.route, x, front, x, front);
    FurtherPaysLess(pools, front.pools, victim.route, victim.amountIn, alone, victim.amountIn, run);
  }

  /** The attacker inputs that make the victim revert are upward closed. */
  lemma RevertingUpwardClosed(pools: Registry, victim: VictimTransaction, small: BundleCandidate,
                              large: BundleCandidate)
    requires AllPlaced(pools) && DistinctPools(victim.route) && small.attackerInput <= large.attackerInput
    requires BundleStaysInside(pools, victim, small.attackerInput)
    requires BundleStaysInside(pools, victim, large.attackerInput)
    requires CandidateOutcome(pools, victim, small).Success? && CandidateOutcome(pools, victim, large).Success?
    requires CandidateOutcome(pools, victim, small).value.status == VictimReverted
    ensures CandidateOutcome(pools, victim, large).value.status == VictimReverted
  {
    hide RunRoute, StaysInside, BundleStaysInside, FrontThenVictim, WellPlaced, TicksSorted;
    LargerFrontHurts(pools, victim, small.attackerInput, large.attackerInput);
  }
}
