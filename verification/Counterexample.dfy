/** Concrete inputs at the edges of the laws: a front-run across a tick that helps its victim, one
    that hurts it, and a swap that leaves a pool validation refuses. */
module Counterexample {
  import opened Words
  import opened Curve
  import opened SwapStep
  import opened Model
  import opened Pool
  import opened Range
  import opened Capacity
  import opened Simulator
  import opened Routes
  import opened Bundles
  import opened Harm

  function Key(): PoolKey {
    PoolKey(seq(20, _ => 0), seq(20, _ => 1), 0)
  }

  /** Prices 1, 2 and 3, a liquidity for each of the two ranges, no fee, and the price at 1. */
  function TwoRanges(first: u32, second: u32): UniswapV3Pool {
    UniswapV3Pool(Key(), TWO_96, 0, first,
                  [InitializedTick(0, TWO_96, first), InitializedTick(1, 2 * TWO_96, second - first),
                   InitializedTick(2, 3 * TWO_96, 0 - second)])
  }

  function BehindFirst(first: u32, second: u32): UniswapV3Pool {
    TwoRanges(first, second).(sqrtPrice := 2 * TWO_96, currentTick := 1, liquidity := second)
  }

  function BehindSecond(first: u32, second: u32): UniswapV3Pool {
    TwoRanges(first, second).(sqrtPrice := 3 * TWO_96, currentTick := 2, liquidity := 0)
  }

  lemma Sorted(first: u32, second: u32)
    ensures TicksSorted(TwoRanges(first, second).ticks)
  {
  }

  lemma Shape(first: u32, second: u32)
    ensures TicksSorted(TwoRanges(first, second).ticks) && Validate(TwoRanges(first, second)).Success?
    ensures TicksBelow(TwoRanges(first, second)) == 1 && TicksBelow(BehindFirst(first, second)) == 2
    ensures Validate(BehindSecond(first, second)).Failure?
  {
    hide TicksSorted, TicksBelow, Validate;
    Sorted(first, second);
    TicksBelowExact(TwoRanges(first, second), 1);
    TicksBelowExact(BehindFirst(first, second), 2);
    TicksBelowExact(BehindSecond(first, second), 3);
    ValidateExact(TwoRanges(first, second));
    ValidateExact(BehindSecond(first, second));
  }

  // ----- The steps

  lemma ThinFirstStep(remaining: u256)
    requires remaining == 1 || remaining == 6 || remaining == 7
    ensures ComputeSwapStep(TWO_96, 2 * TWO_96, 1, remaining, 0, OneForZero) == Success(Step(2 * TWO_96, 1, 0, 0))
  {
  }

  lemma ThinSecondStep()
    ensures ComputeSwapStep(2 * TWO_96, 3 * TWO_96, 6, 6, 0, OneForZero) == Success(Step(3 * TWO_96, 6, 1, 0))
  {
  }

  lemma ThinShortStep()
    ensures var step := ComputeSwapStep(2 * TWO_96, 3 * TWO_96, 6, 5, 0, OneForZero);
            && step.Success? && step.value.amountOut == 0 && step.value.amountIn + step.value.feeAmount == 5
            && step.value.priceNext != 3 * TWO_96
  {
  }

  lemma EvenFirstStep()
    ensures ComputeSwapStep(TWO_96, 2 * TWO_96, 6, 6, 0, OneForZero) == Success(Step(2 * TWO_96, 6, 3, 0))
  {
  }

  // ----- The swaps

  /** Crossing the first tick, and the second. */
  lemma Crossings(first: u32, second: u32)
    ensures var tick := InitializedTick(1, 2 * TWO_96, second - first);
            && NextInitializedTick(TwoRanges(first, second), OneForZero) == Some(tick)
            && CrossTick(TwoRanges(first, second), tick, OneForZero) == Success(BehindFirst(first, second))
    ensures var tick := InitializedTick(2, 3 * TWO_96, 0 - second);
            && NextInitializedTick(BehindFirst(first, second), OneForZero) == Some(tick)
            && CrossTick(BehindFirst(first, second), tick, OneForZero) == Success(BehindSecond(first, second))
  {
    hide TicksSorted, TicksBelow, Validate;
    Shape(first, second);
  }

  /** The rest of a loop behind a step that uses up the first range. */
  lemma PastFirst(first: u32, second: u32, x: u256, cost: u256, pay: u256, total: u256)
    requires 0 < x < TWO_128 && cost <= x && pay < TWO_128 && total < TWO_128
    requires ComputeSwapStep(TWO_96, 2 * TWO_96, first, x, 0, OneForZero) == Success(Step(2 * TWO_96, cost, pay, 0))
    ensures TicksSorted(TwoRanges(first, second).ticks)
    ensures SwapLoop(TwoRanges(first, second), OneForZero, x, total)
         == SwapLoop(BehindFirst(first, second), OneForZero, x - cost, total + pay)
  {
    hide ComputeSwapStep, TicksSorted, TicksBelow, CrossTick, NextInitializedTick;
    Sorted(first, second);
    Crossings(first, second);
    LoopTakesStep(TwoRanges(first, second), OneForZero, x, total);
  }

  lemma PastSecond(first: u32, second: u32, x: u256, cost: u256, pay: u256, total: u256)
    requires 0 < x < TWO_128 && cost <= x && pay < TWO_128 && total < TWO_128
    requires ComputeSwapStep(2 * TWO_96, 3 * TWO_96, second, x, 0, OneForZero)
          == Success(Step(3 * TWO_96, cost, pay, 0))
    ensures TicksSorted(BehindFirst(first, second).ticks)
    ensures SwapLoop(BehindFirst(first, second), OneForZero, x, total)
         == SwapLoop(BehindSecond(first, second), OneForZero, x - cost, total + pay)
  {
    hide ComputeSwapStep, TicksSorted, TicksBelow, CrossTick, NextInitializedTick;
    Sorted(first, second);
    Crossings(first, second);
    LoopTakesStep(BehindFirst(first, second), OneForZero, x, total);
  }

  lemma ThinShortRun()
    ensures TicksSorted(BehindFirst(1, 6).ticks)
    ensures SwapLoop(BehindFirst(1, 6), OneForZero, 5, 0).Success?
    ensures SwapLoop(BehindFirst(1, 6), OneForZero, 5, 0).value.amountOut == 0
  {
    hide ComputeSwapStep, TicksSorted, TicksBelow, CrossTick, NextInitializedTick;
    Sorted(1, 6);
    Crossings(1, 6);
    ThinShortStep();
    LoopTakesStep(BehindFirst(1, 6), OneForZero, 5, 0);
  }

  lemma ThinSwaps()
    ensures TicksSorted(TwoRanges(1, 6).ticks)
    ensures Swap(TwoRanges(1, 6), OneForZero, 1) == Success(SwapOutcome(BehindFirst(1, 6), 0))
    ensures Swap(TwoRanges(1, 6), OneForZero, 6).Success? && Swap(TwoRanges(1, 6), OneForZero, 6).value.amountOut == 0
    ensures Swap(TwoRanges(1, 6), OneForZero, 7) == Success(SwapOutcome(BehindSecond(1, 6), 1))
    ensures Swap(BehindFirst(1, 6), OneForZero, 6) == Success(SwapOutcome(BehindSecond(1, 6), 1))
  {
    hide ComputeSwapStep, TicksSorted, TicksBelow, TowardsNextTick;
    ThinFirstStep(1);
    ThinFirstStep(6);
    ThinFirstStep(7);
    ThinSecondStep();
    ThinShortRun();
    PastFirst(1, 6, 1, 1, 0, 0);
    PastFirst(1, 6, 6, 1, 0, 0);
    PastFirst(1, 6, 7, 1, 0, 0);
    PastSecond(1, 6, 6, 6, 1, 0);
  }

  lemma EvenSwaps()
    ensures TicksSorted(TwoRanges(6, 6).ticks)
    ensures Swap(TwoRanges(6, 6), OneForZero, 6) == Success(SwapOutcome(BehindFirst(6, 6), 3))
    ensures Swap(BehindFirst(6, 6), OneForZero, 6) == Success(SwapOutcome(BehindSecond(6, 6), 1))
  {
    hide ComputeSwapStep, TicksSorted, TicksBelow, TowardsNextTick;
    EvenFirstStep();
    ThinSecondStep();
    PastFirst(6, 6, 6, 6, 3, 0);
    PastSecond(6, 6, 6, 6, 1, 0);
  }

  // ----- The edges

  /** A swap of the whole capacity leaves a valid pool invalid. */
  lemma SwapCanInvalidate()
    ensures WellPlaced(TwoRanges(1, 6)) && Validate(TwoRanges(1, 6)).Success?
    ensures AllCross(TwoRanges(1, 6), OneForZero) && InputCapacity(TwoRanges(1, 6), OneForZero) == 7
    ensures Swap(TwoRanges(1, 6), OneForZero, 7).Success?
    ensures Validate(Swap(TwoRanges(1, 6), OneForZero, 7).value.nextPool).Failure?
  {
    hide Swap, TicksSorted, TicksBelow, Validate, AllCross, InputCapacity, LastCost;
    Shape(1, 6);
    ValidateExact(TwoRanges(1, 6));
    ThinSwaps();
    SwapStaysValid(TwoRanges(1, 6), OneForZero, 7);
  }

  function Market(first: u32, second: u32): Registry {
    map[Key() := TwoRanges(first, second)]
  }

  function Trader(amountIn: u128): VictimTransaction {
    VictimTransaction("", [RouteHop(Key(), OneForZero)], amountIn, 0)
  }

  lemma MarketRegistered(first: u32, second: u32, amountIn: u128)
    ensures Registered(Market(first, second)) && AllSorted(Market(first, second)) && AllPlaced(Market(first, second))
    ensures DistinctPools(Trader(amountIn).route) && CheckVictim(Trader(amountIn)).Success?
  {
    hide Validate, TicksSorted, InPlace;
    Shape(first, second);
    RegisteredSorted(Market(first, second));
    RegisteredPlaced(Market(first, second));
  }

  /** A run of the one hop is its swap. */
  lemma OneHop(pools: Registry, amount: u128, outcome: SwapOutcome)
    requires AllSorted(pools) && Key() in pools && Swap(pools[Key()], OneForZero, amount) == Success(outcome)
    ensures outcome.amountOut < TWO_128
    ensures RunRoute(pools, Trader(amount).route, amount)
         == Success(RouteRun(pools[Key() := outcome.nextPool], outcome.amountOut))
  {
    hide Swap, TicksSorted;
    assert Trader(amount).route[1..] == [];
    assert RunRoute(pools[Key() := outcome.nextPool], [], outcome.amountOut).Success?;
  }

  /** The victim alone, and behind a front-run, on the one pool. */
  lemma OneHopBundle(pools: Registry, a: u128, b: u128, alone: SwapOutcome, first: SwapOutcome, second: SwapOutcome)
    requires AllSorted(pools) && Key() in pools && TicksSorted(first.nextPool.ticks)
    requires Swap(pools[Key()], OneForZero, b) == Success(alone)
    requires Swap(pools[Key()], OneForZero, a) == Success(first)
    requires Swap(first.nextPool, OneForZero, b) == Success(second)
    ensures Baseline(pools, Trader(b)) == Success(BaselineSimulation(alone.amountOut, [Key()]))
    ensures FrontThenVictim(pools, Trader(b), a).Success?
    ensures FrontThenVictim(pools, Trader(b), a).value.1.amountOut == second.amountOut
  {
    hide Swap, TicksSorted, RunRoute;
    OneHop(pools, b, alone);
    OneHop(pools, a, first);
    OneHop(pools[Key() := first.nextPool], b, second);
    assert Trader(a).route == Trader(b).route && PoolsOf(Trader(b).route) == [Key()];
  }

  lemma FirstRangeCost(first: u32)
    ensures AmountIn(OneForZero, TWO_96, 2 * TWO_96, first) == first
  {
    assert first * TWO_96 % TWO_96 == 0;
  }

  /** An input of at least the first range's liquidity uses that range up. */
  lemma NotInside(first: u32, second: u32, x: u128)
    requires first <= x && AllSorted(Market(first, second))
    ensures !StaysInside(Market(first, second), Trader(x).route, x)
  {
    hide Swap, TicksSorted, TicksBelow, InPlace;
    Shape(first, second);
    var pool := TwoRanges(first, second);
    if Faces(pool, OneForZero) {
      FirstRangeCost(first);
      assert Reaches(pool, OneForZero, x);
    }
  }

  /** A victim of 6 is paid nothing at baseline, and 1 behind a front-run of 1 that uses up the
      first range. */
  lemma FrontRunCanHelp()
    ensures Registered(Market(1, 6)) && AllPlaced(Market(1, 6)) && DistinctPools(Trader(6).route)
    ensures Baseline(Market(1, 6), Trader(6)) == Success(BaselineSimulation(0, [Key()]))
    ensures FrontThenVictim(Market(1, 6), Trader(6), 1).Success?
    ensures FrontThenVictim(Market(1, 6), Trader(6), 1).value.1.amountOut == 1
    ensures !BundleStaysInside(Market(1, 6), Trader(6), 1)
  {
    hide Swap, TicksSorted, Validate, RunRoute, InPlace, FrontThenVictim, Baseline, StaysInside;
    MarketRegistered(1, 6, 6);
    ThinSwaps();
    OneHopBundle(Market(1, 6), 1, 6, Swap(TwoRanges(1, 6), OneForZero, 6).value,
                 SwapOutcome(BehindFirst(1, 6), 0), SwapOutcome(BehindSecond(1, 6), 1));
    NotInside(1, 6, 1);
  }

  /** A victim of 6 is paid 3 at baseline, and 1 behind a front-run of 6 that also uses up the
      first range. */
  lemma CrossingCanHurt()
    ensures Registered(Market(6, 6)) && AllPlaced(Market(6, 6)) && DistinctPools(Trader(6).route)
    ensures Baseline(Market(6, 6), Trader(6)) == Success(BaselineSimulation(3, [Key()]))
    ensures FrontThenVictim(Market(6, 6), Trader(6), 6).Success?
    ensures FrontThenVictim(Market(6, 6), Trader(6), 6).value.1.amountOut == 1
    ensures !BundleStaysInside(Market(6, 6), Trader(6), 6)
  {
    hide Swap, TicksSorted, Validate, RunRoute, InPlace, FrontThenVictim, Baseline, StaysInside;
    MarketRegistered(6, 6, 6);
    EvenSwaps();
    OneHopBundle(Market(6, 6), 6, 6, SwapOutcome(BehindFirst(6, 6), 3),
                 SwapOutcome(BehindFirst(6, 6), 3), SwapOutcome(BehindSecond(6, 6), 1));
    NotInside(6, 6, 6);
  }
}
