/** Laws of whole swaps, over any number of crossed ticks. The loop's running total is a
    parameter, so each law compares what two runs add to their totals. */
module SwapLaws {
  import opened Words
  import opened Curve
  import opened SwapStep
  import opened Pool
  import opened Range

  lemma LoopEnds(pool: UniswapV3Pool, direction: SwapDirection, total: u256)
    requires WellPlaced(pool)
    ensures TicksSorted(pool.ticks)
    ensures SwapLoop(pool, direction, 0, total) == Success(SwapOutcome(pool, total))
    ensures Ahead(direction, pool.sqrtPrice, pool.sqrtPrice)
  {
  }

  /** Every successful swap keeps the pool's key, ticks and base liquidity, leaves it well
      placed, moves its price only ahead, and only adds to the output. */
  lemma {:induction false} LoopPreserves(pool: UniswapV3Pool, direction: SwapDirection, remaining: u256, total: u256)
    requires WellPlaced(pool) && SwapLoop(pool, direction, remaining, total).Success?
    ensures var after := SwapLoop(pool, direction, remaining, total).value;
            && after.nextPool.key == pool.key && after.nextPool.ticks == pool.ticks
            && WellPlaced(after.nextPool) && BaseLiquidity(after.nextPool) == BaseLiquidity(pool)
            && Ahead(direction, pool.sqrtPrice, after.nextPool.sqrtPrice) && total <= after.amountOut
            && TicksAhead(after.nextPool, direction) <= TicksAhead(pool, direction)
    decreases TicksAhead(pool, direction)
  {
    hide *;
    if remaining == 0 {
      LoopEnds(pool, direction, total);
    } else {
      LoopFaces(pool, direction, remaining, total);
      if Reaches(pool, direction, remaining) {
        IterationCrosses(pool, direction, remaining, total);
        var behind := Behind(pool, direction);
        var left, paid := remaining - RangeCost(pool, direction), total + RangePay(pool, direction);
        LoopPreserves(behind, direction, left, paid);
        AheadOrder(direction, pool.sqrtPrice, behind.sqrtPrice,
                   SwapLoop(behind, direction, left, paid).value.nextPool.sqrtPrice);
      } else {
        IterationStops(pool, direction, remaining, total);
        StoppedAhead(pool, direction, remaining);
        var _ := StopPrice(pool, direction, remaining);
      }
    }
  }

  // ----- Monotonicity

  /** The smaller input stops in the first range; the larger may leave it. */
  lemma StoppedRunIsSmaller(pool: UniswapV3Pool, direction: SwapDirection, x: u256, xTotal: u256, y: u256, yTotal: u256)
    requires WellPlaced(pool) && 0 < x <= y
    requires SwapLoop(pool, direction, x, xTotal).Success? && SwapLoop(pool, direction, y, yTotal).Success?
    requires Faces(pool, direction) && !Reaches(pool, direction, x)
    ensures var rx, ry := SwapLoop(pool, direction, x, xTotal).value, SwapLoop(pool, direction, y, yTotal).value;
            && rx.amountOut - xTotal <= ry.amountOut - yTotal
            && Ahead(direction, rx.nextPool.sqrtPrice, ry.nextPool.sqrtPrice)
  {
    hide *;
    IterationStops(pool, direction, x, xTotal);
    if Reaches(pool, direction, y) {
      IterationCrosses(pool, direction, y, yTotal);
      StopBelowRange(pool, direction, x);
      var left, paid := y - RangeCost(pool, direction), yTotal + RangePay(pool, direction);
      LoopPreserves(Behind(pool, direction), direction, left, paid);
      AheadOrder(direction, StopPrice(pool, direction, x), BoundaryPrice(pool, direction),
                 SwapLoop(Behind(pool, direction), direction, left, paid).value.nextPool.sqrtPrice);
    } else {
      IterationStops(pool, direction, y, yTotal);
      StopMono(pool, direction, x, y);
    }
  }

  /** A larger input is paid at least as much and carries the price at least as far, however
      many ticks each run crosses. */
  lemma {:induction false} LoopMonotone(pool: UniswapV3Pool, direction: SwapDirection,
                                        x: u256, xTotal: u256, y: u256, yTotal: u256)
    requires WellPlaced(pool) && x <= y
    requires SwapLoop(pool, direction, x, xTotal).Success? && SwapLoop(pool, direction, y, yTotal).Success?
    ensures var rx, ry := SwapLoop(pool, direction, x, xTotal).value, SwapLoop(pool, direction, y, yTotal).value;
            && rx.amountOut - xTotal <= ry.amountOut - yTotal
            && Ahead(direction, rx.nextPool.sqrtPrice, ry.nextPool.sqrtPrice)
    decreases TicksAhead(pool, direction)
  {
    hide *;
    if x == 0 {
      LoopEnds(pool, direction, xTotal);
      LoopPreserves(pool, direction, y, yTotal);
    } else {
      LoopFaces(pool, direction, x, xTotal);
      if Reaches(pool, direction, x) {
        ReachMono(pool, direction, x, y);
        IterationCrosses(pool, direction, x, xTotal);
        IterationCrosses(pool, direction, y, yTotal);
        var cost, paid := RangeCost(pool, direction), RangePay(pool, direction);
        LoopMonotone(Behind(pool, direction), direction, x - cost, xTotal + paid, y - cost, yTotal + paid);
      } else {
        StoppedRunIsSmaller(pool, direction, x, xTotal, y, yTotal);
      }
    }
  }

  // ----- Splitting an input never gains

  /** Splitting, when the first part stops inside the first range. */
  lemma SplitAfterStop(pool: UniswapV3Pool, direction: SwapDirection,
                       x: u256, xTotal: u256, y: u256, yTotal: u256, z: u256, zTotal: u256)
    requires WellPlaced(pool) && 0 < x && 0 < y && x + y <= z
    requires Faces(pool, direction) && !Reaches(pool, direction, x)
    requires SwapLoop(pool, direction, z, zTotal).Success?
    requires SwapLoop(Stopped(pool, direction, x), direction, y, yTotal).Success?
    ensures StopPay(pool, direction, x)
          + (SwapLoop(Stopped(pool, direction, x), direction, y, yTotal).value.amountOut - yTotal)
         <= SwapLoop(pool, direction, z, zTotal).value.amountOut - zTotal
  {
    hide *;
    var stopped := Stopped(pool, direction, x);
    StoppedAhead(pool, direction, x);
    if Reaches(stopped, direction, y) {
      IterationCrosses(stopped, direction, y, yTotal);
      JointReaches(pool, direction, x, y, z);
      IterationCrosses(pool, direction, z, zTotal);
      LoopMonotone(Behind(pool, direction), direction,
                   y - RangeCost(stopped, direction), yTotal + RangePay(stopped, direction),
                   z - RangeCost(pool, direction), zTotal + RangePay(pool, direction));
    } else if Reaches(pool, direction, z) {
      IterationStops(stopped, direction, y, yTotal);
      IterationCrosses(pool, direction, z, zTotal);
      TwoStopsBelowRange(pool, direction, x, y);
      LoopPreserves(Behind(pool, direction), direction,
                    z - RangeCost(pool, direction), zTotal + RangePay(pool, direction));
    } else {
      IterationStops(stopped, direction, y, yTotal);
      IterationStops(pool, direction, z, zTotal);
      TwoStopsBelowOne(pool, direction, x, y, z);
    }
  }

  /** An input swapped in two parts is paid no more than the same input swapped at once. */
  lemma {:induction false} LoopSplit(pool: UniswapV3Pool, direction: SwapDirection,
                                     x: u256, xTotal: u256, y: u256, yTotal: u256, z: u256, zTotal: u256,
                                     middle: UniswapV3Pool)
    requires WellPlaced(pool) && x + y <= z && SwapLoop(pool, direction, x, xTotal).Success?
    requires SwapLoop(pool, direction, x, xTotal).value.nextPool == middle
    requires SwapLoop(middle, direction, y, yTotal).Success? && SwapLoop(pool, direction, z, zTotal).Success?
    ensures (SwapLoop(pool, direction, x, xTotal).value.amountOut - xTotal)
          + (SwapLoop(middle, direction, y, yTotal).value.amountOut - yTotal)
         <= SwapLoop(pool, direction, z, zTotal).value.amountOut - zTotal
    decreases TicksAhead(pool, direction)
  {
    hide *;
    LoopPreserves(pool, direction, x, xTotal);
    if x == 0 {
      LoopEnds(pool, direction, xTotal);
      LoopMonotone(pool, direction, y, yTotal, z, zTotal);
    } else if y == 0 {
      LoopEnds(middle, direction, yTotal);
      LoopMonotone(pool, direction, x, xTotal, z, zTotal);
    } else {
      LoopFaces(pool, direction, x, xTotal);
      if Reaches(pool, direction, x) {
        ReachMono(pool, direction, x, z);
        IterationCrosses(pool, direction, x, xTotal);
        IterationCrosses(pool, direction, z, zTotal);
        var cost, paid := RangeCost(pool, direction), RangePay(pool, direction);
        LoopSplit(Behind(pool, direction), direction, x - cost, xTotal + paid, y, yTotal,
                  z - cost, zTotal + paid, middle);
      } else {
        IterationStops(pool, direction, x, xTotal);
        SplitAfterStop(pool, direction, x, xTotal, y, yTotal, z, zTotal);
      }
    }
  }

  // ----- Conservation of the input

  /** The step the program computes first, and what it takes and pays. */
  lemma FirstStepExact(pool: UniswapV3Pool, direction: SwapDirection, remaining: u256, total: u256)
    requires WellPlaced(pool) && remaining > 0 && SwapLoop(pool, direction, remaining, total).Success?
    ensures Faces(pool, direction)
    ensures var step := ComputeSwapStep(pool.sqrtPrice, BoundaryPrice(pool, direction), pool.liquidity, remaining,
                                        pool.key.feePips, direction);
            && step.Success?
            && (Reaches(pool, direction, remaining) ==>
                  && CanCross(pool, direction)
                  && step.value.amountIn + step.value.feeAmount == RangeCost(pool, direction)
                  && step.value.amountOut == RangePay(pool, direction))
            && (!Reaches(pool, direction, remaining) ==>
                  && step.value.amountIn + step.value.feeAmount == remaining
                  && step.value.amountOut == StopPay(pool, direction, remaining))
  {
    hide ComputeSwapStep, SwapLoop, AmountIn, AmountOut, NextPrice, WithFee, LessFee;
    LoopUnfolds(pool, direction, remaining, total);
    StepExact(pool.sqrtPrice, BoundaryPrice(pool, direction), pool.liquidity, remaining, pool.key.feePips, direction);
  }

  /** A list of steps the program computes one after another, each from where the last one left
      the pool, until nothing is left or a step stops short of its tick. */
  ghost predicate StepsOf(pool: UniswapV3Pool, direction: SwapDirection, remaining: u256, steps: seq<Step>)
    requires WellPlaced(pool)
    decreases |steps|
  {
    if remaining == 0 then steps == [] else
    && steps != [] && Faces(pool, direction)
    && ComputeSwapStep(pool.sqrtPrice, BoundaryPrice(pool, direction), pool.liquidity, remaining,
                       pool.key.feePips, direction) == Success(steps[0])
    && if steps[0].priceNext == BoundaryPrice(pool, direction) then
         && CanCross(pool, direction) && steps[0].amountIn + steps[0].feeAmount <= remaining
         && StepsOf(Behind(pool, direction), direction, remaining - steps[0].amountIn - steps[0].feeAmount, steps[1..])
       else |steps| == 1
  }

  ghost function TakenBy(steps: seq<Step>): nat {
    if steps == [] then 0 else steps[0].amountIn + steps[0].feeAmount + TakenBy(steps[1..])
  }

  ghost function PaidBy(steps: seq<Step>): nat {
    if steps == [] then 0 else steps[0].amountOut + PaidBy(steps[1..])
  }

  lemma StepsCons(pool: UniswapV3Pool, direction: SwapDirection, remaining: u256, total: u256, rest: seq<Step>)
      returns (steps: seq<Step>)
    requires WellPlaced(pool) && remaining > 0 && SwapLoop(pool, direction, remaining, total).Success?
    requires Faces(pool, direction)
    requires Reaches(pool, direction, remaining) ==>
               && CanCross(pool, direction) && RangeCost(pool, direction) <= remaining
               && StepsOf(Behind(pool, direction), direction, remaining - RangeCost(pool, direction), rest)
    requires !Reaches(pool, direction, remaining) ==> rest == []
    ensures StepsOf(pool, direction, remaining, steps)
    ensures TakenBy(steps)
         == (if Reaches(pool, direction, remaining) then RangeCost(pool, direction) else remaining) + TakenBy(rest)
    ensures PaidBy(steps)
         == (if Reaches(pool, direction, remaining) then RangePay(pool, direction)
             else StopPay(pool, direction, remaining)) + PaidBy(rest)
  {
    hide ComputeSwapStep, SwapLoop, AmountIn, AmountOut, NextPrice, WithFee, LessFee, InPlace, TicksBelow;
    hide Behind, RangeCost, RangePay, StopPay, CrossTick, CanCross;
    FirstStepExact(pool, direction, remaining, total);
    var step := ComputeSwapStep(pool.sqrtPrice, BoundaryPrice(pool, direction), pool.liquidity, remaining,
                                pool.key.feePips, direction).value;
    StepExact(pool.sqrtPrice, BoundaryPrice(pool, direction), pool.liquidity, remaining, pool.key.feePips, direction);
    steps := [step] + rest;
    assert steps[1..] == rest;
  }

  lemma NoSteps(pool: UniswapV3Pool, direction: SwapDirection)
    requires WellPlaced(pool)
    ensures StepsOf(pool, direction, 0, []) && TakenBy([]) == 0 && PaidBy([]) == 0
  {
  }

  /** A successful swap takes exactly its input, fees included, and pays exactly what its steps
      pay, whether it ends on a tick or inside a range. */
  lemma {:induction false} InputConserved(pool: UniswapV3Pool, direction: SwapDirection, remaining: u256, total: u256)
      returns (steps: seq<Step>)
    requires WellPlaced(pool) && SwapLoop(pool, direction, remaining, total).Success?
    ensures StepsOf(pool, direction, remaining, steps)
    ensures TakenBy(steps) == remaining
    ensures total + PaidBy(steps) == SwapLoop(pool, direction, remaining, total).value.amountOut
    decreases TicksAhead(pool, direction)
  {
    hide *;
    steps := [];
    if remaining == 0 {
      LoopEnds(pool, direction, total);
      NoSteps(pool, direction);
    } else {
      LoopFaces(pool, direction, remaining, total);
      NoSteps(pool, direction);
      var rest := [];
      if Reaches(pool, direction, remaining) {
        IterationCrosses(pool, direction, remaining, total);
        rest := InputConserved(Behind(pool, direction), direction,
                               remaining - RangeCost(pool, direction), total + RangePay(pool, direction));
      } else {
        IterationStops(pool, direction, remaining, total);
      }
      steps := StepsCons(pool, direction, remaining, total, rest);
    }
  }
}
