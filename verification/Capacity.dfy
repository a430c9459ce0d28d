/** What the ranges ahead of a pool take and pay in all, exactly when a swap stays within them, and
    exactly when it leaves a pool that validation refuses. */
module Capacity {
  import opened Words
  import opened Curve
  import opened FixedPoint
  import opened SwapStep
  import opened Pool
  import opened Range
  import opened SwapLaws
  import opened Trades
  import opened Completion

  /** Every tick ahead can be crossed. */
  ghost predicate AllCross(pool: UniswapV3Pool, direction: SwapDirection)
    requires WellPlaced(pool)
    decreases TicksAhead(pool, direction)
  {
    NextInitializedTick(pool, direction) == None
    || (CanCross(pool, direction) && AllCross(Behind(pool, direction), direction))
  }

  /** The total input, fees included, that uses up every range ahead. */
  ghost function InputCapacity(pool: UniswapV3Pool, direction: SwapDirection): nat
    requires WellPlaced(pool) && AllCross(pool, direction)
    decreases TicksAhead(pool, direction)
  {
    if NextInitializedTick(pool, direction) == None then 0
    else RangeCost(pool, direction) + InputCapacity(Behind(pool, direction), direction)
  }

  /** The total output of every range ahead. */
  ghost function OutputCapacity(pool: UniswapV3Pool, direction: SwapDirection): nat
    requires WellPlaced(pool) && AllCross(pool, direction)
    decreases TicksAhead(pool, direction)
  {
    if NextInitializedTick(pool, direction) == None then 0
    else RangePay(pool, direction) + OutputCapacity(Behind(pool, direction), direction)
  }

  /** The cost of the outermost range ahead. */
  ghost function LastCost(pool: UniswapV3Pool, direction: SwapDirection): nat
    requires WellPlaced(pool) && AllCross(pool, direction) && NextInitializedTick(pool, direction).Some?
    decreases TicksAhead(pool, direction)
  {
    var behind := Behind(pool, direction);
    if NextInitializedTick(behind, direction) == None then RangeCost(pool, direction) else LastCost(behind, direction)
  }

  lemma CapacityUnfolds(pool: UniswapV3Pool, direction: SwapDirection)
    requires WellPlaced(pool)
    ensures NextInitializedTick(pool, direction) == None ==>
              && AllCross(pool, direction)
              && InputCapacity(pool, direction) == 0 && OutputCapacity(pool, direction) == 0
    ensures NextInitializedTick(pool, direction).Some? ==>
              && Faces(pool, direction)
              && (AllCross(pool, direction)
                  <==> CanCross(pool, direction) && AllCross(Behind(pool, direction), direction))
    ensures NextInitializedTick(pool, direction).Some? && AllCross(pool, direction) ==>
              var behind := Behind(pool, direction);
              && InputCapacity(pool, direction) == RangeCost(pool, direction) + InputCapacity(behind, direction)
              && OutputCapacity(pool, direction) == RangePay(pool, direction) + OutputCapacity(behind, direction)
              && LastCost(pool, direction) == (if NextInitializedTick(behind, direction) == None
                                               then RangeCost(pool, direction) else LastCost(behind, direction))
  {
    hide InPlace, TicksBelow, TicksSorted, RangePay, RangeCost, Behind;
  }

  lemma {:induction false} LastCostWithin(pool: UniswapV3Pool, direction: SwapDirection)
    requires WellPlaced(pool) && AllCross(pool, direction) && NextInitializedTick(pool, direction).Some?
    ensures LastCost(pool, direction) <= InputCapacity(pool, direction)
    decreases TicksAhead(pool, direction)
  {
    hide *;
    CapacityUnfolds(pool, direction);
    if NextInitializedTick(Behind(pool, direction), direction).Some? {
      LastCostWithin(Behind(pool, direction), direction);
    }
  }

  // ----- What a run that succeeds uses up

  lemma StopFaces(pool: UniswapV3Pool, direction: SwapDirection, remaining: nat)
    requires Faces(pool, direction) && !Reaches(pool, direction, remaining)
    ensures NextInitializedTick(Stopped(pool, direction, remaining), direction).Some?
  {
    hide Reaches, StopPrice, InPlace;
  }

  /** The whole capacity is used up, and what was used last was a range that costs something, if
      there was any range at all. */
  ghost predicate UsesUp(pool: UniswapV3Pool, direction: SwapDirection, remaining: nat)
    requires WellPlaced(pool)
  {
    && AllCross(pool, direction) && remaining == InputCapacity(pool, direction)
    && (NextInitializedTick(pool, direction) == None || LastCost(pool, direction) > 0)
  }

  lemma UsesUpUnfolds(pool: UniswapV3Pool, direction: SwapDirection, remaining: nat)
    requires WellPlaced(pool)
    ensures UsesUp(pool, direction, remaining)
       <==> && AllCross(pool, direction) && remaining == InputCapacity(pool, direction)
            && (NextInitializedTick(pool, direction) == None || LastCost(pool, direction) > 0)
  {
  }

  /** A loop that succeeds from a pool whose ticks ahead can all be crossed stays within both
      capacities; from any well-placed pool, it ends past the outermost tick exactly when it uses
      the capacity up. */
  lemma {:induction false} LoopWithinCapacity(pool: UniswapV3Pool, direction: SwapDirection,
                                              remaining: u256, total: u256)
    requires WellPlaced(pool) && SwapLoop(pool, direction, remaining, total).Success?
    ensures AllCross(pool, direction) ==> remaining <= InputCapacity(pool, direction)
    ensures AllCross(pool, direction) ==>
              SwapLoop(pool, direction, remaining, total).value.amountOut - total <= OutputCapacity(pool, direction)
    ensures NextInitializedTick(SwapLoop(pool, direction, remaining, total).value.nextPool, direction) == None
       <==> UsesUp(pool, direction, remaining)
    decreases TicksAhead(pool, direction)
  {
    hide *;
    CapacityUnfolds(pool, direction);
    UsesUpUnfolds(pool, direction, remaining);
    if remaining == 0 {
      LoopEnds(pool, direction, total);
      if NextInitializedTick(pool, direction).Some? && AllCross(pool, direction) {
        LastCostWithin(pool, direction);
      }
    } else if NextInitializedTick(pool, direction) == None {
      NoTickAhead(pool, direction, remaining, total);
    } else {
      if Reaches(pool, direction, remaining) {
        IterationCrosses(pool, direction, remaining, total);
        var left := remaining - RangeCost(pool, direction);
        LoopWithinCapacity(Behind(pool, direction), direction, left, total + RangePay(pool, direction));
        CapacityUnfolds(Behind(pool, direction), direction);
        UsesUpUnfolds(Behind(pool, direction), direction, left);
      } else {
        IterationStops(pool, direction, remaining, total);
        StopBelowRange(pool, direction, remaining);
        StopFaces(pool, direction, remaining);
        if CanCross(pool, direction) {
          ReachesMeansAffords(pool, direction, remaining);
        }
      }
    }
  }

  /** Validation of the pool a swap leaves, decided before the swap: a valid pool stays valid
      unless every tick ahead can be crossed, the input uses up the whole capacity, and the last
      range costs something. Then the price rests on the outermost tick with nothing left ahead,
      which validation refuses. */
  lemma SwapStaysValid(pool: UniswapV3Pool, direction: SwapDirection, amountIn: u128)
    requires WellPlaced(pool) && Validate(pool).Success? && Swap(pool, direction, amountIn).Success?
    ensures Validate(Swap(pool, direction, amountIn).value.nextPool).Success?
       <==> !(&& AllCross(pool, direction) && amountIn == InputCapacity(pool, direction)
              && LastCost(pool, direction) > 0)
  {
    hide Swap, SwapLoop, AllCross, InputCapacity, LastCost, Validate, TicksSorted, TicksBelow;
    ValidateExact(pool);
    SwapKeepsValid(pool, direction, amountIn);
    SwapIsLoop(pool, direction, amountIn);
    LoopWithinCapacity(pool, direction, amountIn, 0);
  }

  // ----- When an input succeeds

  /** The numbers of a whole range, and of any stop inside it, fit. */
  ghost predicate RangeFits(pool: UniswapV3Pool, direction: SwapDirection)
    requires Faces(pool, direction)
  {
    match direction
    case OneForZero => Fits(pool.liquidity, BoundaryPrice(pool, direction) - pool.sqrtPrice)
    case ZeroForOne => Fits(pool.liquidity, pool.sqrtPrice)
  }

  /** Every range ahead can be used up, or stopped in anywhere. */
  ghost predicate Clear(pool: UniswapV3Pool, direction: SwapDirection): (clear: bool)
    requires WellPlaced(pool)
    ensures clear ==> AllCross(pool, direction)
    decreases TicksAhead(pool, direction)
  {
    NextInitializedTick(pool, direction) == None
    || (&& CanCross(pool, direction) && RangeFits(pool, direction) && Clear(Behind(pool, direction), direction))
  }

  lemma ClearRuns(pool: UniswapV3Pool, direction: SwapDirection, remaining: nat)
    requires CanCross(pool, direction) && RangeFits(pool, direction)
    ensures StepRuns(pool, direction, remaining)
  {
    hide InPlace, AmountIn, AmountOut, LessFee, NextPrice;
    var p, b, liquidity := pool.sqrtPrice, BoundaryPrice(pool, direction), pool.liquidity;
    var next := Landing(direction, p, b, liquidity, LessFee(remaining, pool.key.feePips));
    if direction.OneForZero? {
      FitsExact(liquidity, b - p);
      FitsBelow(liquidity, next - p, b - p);
    } else {
      FitsBelow(liquidity, p - b, p);
    }
  }

  /** From a clear pool, with totals that leave room for what the ranges ahead can pay, the loop
      succeeds exactly up to the input capacity, and above it runs out of ticks. */
  lemma {:induction false} LoopSucceeds(pool: UniswapV3Pool, direction: SwapDirection, remaining: u128, total: u256)
    requires WellPlaced(pool) && Clear(pool, direction)
    requires total + TicksAhead(pool, direction) * PAY_BOUND <= TWO_256
    ensures if remaining <= InputCapacity(pool, direction) then SwapLoop(pool, direction, remaining, total).Success?
            else SwapLoop(pool, direction, remaining, total) == Failure(Unsupported)
    decreases TicksAhead(pool, direction)
  {
    hide SwapLoop, InPlace, RangeFits, StepRuns, Reaches, CrossTick, TicksBelow, TicksSorted;
    hide RangePay, RangeCost, StopPay, Stopped;
    if remaining == 0 {
      LoopEnds(pool, direction, total);
    } else if NextInitializedTick(pool, direction) == None {
      NoTickAhead(pool, direction, remaining, total);
    } else {
      ClearRuns(pool, direction, remaining);
      ReachesMeansAffords(pool, direction, remaining);
      if Reaches(pool, direction, remaining) {
        TurnCrosses(pool, direction, remaining, total);
        LoopSucceeds(Behind(pool, direction), direction,
                     remaining - RangeCost(pool, direction), total + RangePay(pool, direction));
      } else {
        TurnStops(pool, direction, remaining, total);
      }
    }
  }

  /** A swap from a clear pool succeeds exactly when its input is positive, within the pool's
      capacity in its direction, and paid an output below 2^128. */
  lemma SwapSucceeds(pool: UniswapV3Pool, direction: SwapDirection, amountIn: u128)
    requires WellPlaced(pool) && Clear(pool, direction)
    ensures amountIn > InputCapacity(pool, direction) ==> Swap(pool, direction, amountIn) == Failure(Unsupported)
    ensures amountIn <= InputCapacity(pool, direction) ==> SwapLoop(pool, direction, amountIn, 0).Success?
    ensures Swap(pool, direction, amountIn).Success? <==>
              && 0 < amountIn <= InputCapacity(pool, direction)
              && SwapLoop(pool, direction, amountIn, 0).value.amountOut < TWO_128
  {
    hide SwapLoop, InputCapacity, Clear, AllCross, TicksSorted;
    RoomForAll(pool, direction);
    LoopSucceeds(pool, direction, amountIn, 0);
  }

  /** Where the ranges ahead pay less than 2^128 together, success can be read off the input:
      it is positive and within the capacity. */
  lemma SwapSucceedsWithin(pool: UniswapV3Pool, direction: SwapDirection, amountIn: u128)
    requires WellPlaced(pool) && Clear(pool, direction)
    requires OutputCapacity(pool, direction) < TWO_128
    ensures Swap(pool, direction, amountIn).Success? <==> 0 < amountIn <= InputCapacity(pool, direction)
  {
    hide Swap, SwapLoop, InputCapacity, OutputCapacity, Clear, AllCross, TicksSorted;
    SwapSucceeds(pool, direction, amountIn);
    if 0 < amountIn <= InputCapacity(pool, direction) {
      LoopWithinCapacity(pool, direction, amountIn, 0);
    }
  }
}
