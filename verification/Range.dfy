/** One turn of the swap loop: the liquidity range between a pool's price and the next tick.
    An input either uses the range up at a fixed cost and pay, or stops strictly inside it. */
module Range {
  import opened Words
  import opened Curve
  import opened SwapStep
  import opened Pool

  /** A well-placed pool with a tick in front of it. */
  ghost predicate Faces(pool: UniswapV3Pool, direction: SwapDirection) {
    WellPlaced(pool) && NextInitializedTick(pool, direction).Some?
  }

  ghost function BoundaryPrice(pool: UniswapV3Pool, direction: SwapDirection): (b: nat)
    requires Faces(pool, direction)
    ensures 0 < pool.sqrtPrice && 0 < b < TWO_256 && Ahead(direction, pool.sqrtPrice, b)
  {
    NextInitializedTick(pool, direction).value.sqrtPrice
  }

  /** The input, before fees, that carries the pool to the next tick. */
  ghost function ToBoundary(pool: UniswapV3Pool, direction: SwapDirection): nat
    requires Faces(pool, direction)
  {
    AmountIn(direction, pool.sqrtPrice, BoundaryPrice(pool, direction), pool.liquidity)
  }

  ghost predicate Reaches(pool: UniswapV3Pool, direction: SwapDirection, remaining: nat)
    requires Faces(pool, direction)
  {
    ToBoundary(pool, direction) <= LessFee(remaining, pool.key.feePips)
  }

  // ----- Using the range up

  ghost predicate CanCross(pool: UniswapV3Pool, direction: SwapDirection) {
    && Faces(pool, direction) && pool.key.feePips < FEE_DENOMINATOR
    && Crossable(pool.liquidity, NextInitializedTick(pool, direction).value, direction)
  }

  /** The pool behind the tick. */
  ghost function Behind(pool: UniswapV3Pool, direction: SwapDirection): (behind: UniswapV3Pool)
    requires CanCross(pool, direction)
    ensures WellPlaced(behind) && TicksSorted(behind.ticks) && behind.ticks == pool.ticks && behind.key == pool.key
    ensures behind.sqrtPrice == BoundaryPrice(pool, direction) && BaseLiquidity(behind) == BaseLiquidity(pool)
    ensures TicksAhead(behind, direction) < TicksAhead(pool, direction)
  {
    CrossTickSucceeds(pool, NextInitializedTick(pool, direction).value, direction);
    CrossTickExact(pool, direction);
    CrossTick(pool, NextInitializedTick(pool, direction).value, direction).value
  }

  ghost function RangeCost(pool: UniswapV3Pool, direction: SwapDirection): nat
    requires CanCross(pool, direction)
  {
    WithFee(ToBoundary(pool, direction), pool.key.feePips)
  }

  ghost function RangePay(pool: UniswapV3Pool, direction: SwapDirection): nat
    requires Faces(pool, direction)
  {
    AmountOut(direction, pool.sqrtPrice, BoundaryPrice(pool, direction), pool.liquidity)
  }

  // ----- Stopping inside the range

  ghost function StopPrice(pool: UniswapV3Pool, direction: SwapDirection, remaining: nat): (stop: nat)
    requires Faces(pool, direction) && !Reaches(pool, direction, remaining)
    ensures 0 < pool.liquidity && 0 < stop < TWO_256 && stop != BoundaryPrice(pool, direction)
    ensures Ahead(direction, pool.sqrtPrice, stop) && Ahead(direction, stop, BoundaryPrice(pool, direction))
    ensures stop == NextPrice(direction, pool.sqrtPrice, pool.liquidity, LessFee(remaining, pool.key.feePips))
    ensures AmountIn(direction, pool.sqrtPrice, stop, pool.liquidity) <= LessFee(remaining, pool.key.feePips)
  {
    NoOvershoot(direction, pool.sqrtPrice, BoundaryPrice(pool, direction), pool.liquidity,
                LessFee(remaining, pool.key.feePips));
    NextPrice(direction, pool.sqrtPrice, pool.liquidity, LessFee(remaining, pool.key.feePips))
  }

  /** The pool where the input runs out: still well placed and facing the same tick. */
  ghost function Stopped(pool: UniswapV3Pool, direction: SwapDirection, remaining: nat): (stopped: UniswapV3Pool)
    requires Faces(pool, direction) && !Reaches(pool, direction, remaining)
    ensures stopped == pool.(sqrtPrice := StopPrice(pool, direction, remaining))
    ensures WellPlaced(stopped) && TicksSorted(stopped.ticks) && Faces(stopped, direction)
    ensures BaseLiquidity(stopped) == BaseLiquidity(pool)
    ensures BoundaryPrice(stopped, direction) == BoundaryPrice(pool, direction)
  {
    pool.(sqrtPrice := StopPrice(pool, direction, remaining))
  }

  /** A stopped pool has the same ticks ahead, and the same pool behind the next one. */
  lemma StoppedAhead(pool: UniswapV3Pool, direction: SwapDirection, remaining: nat)
    requires Faces(pool, direction) && !Reaches(pool, direction, remaining)
    ensures var stopped := Stopped(pool, direction, remaining);
            && TicksAhead(stopped, direction) == TicksAhead(pool, direction)
            && (CanCross(stopped, direction) <==> CanCross(pool, direction))
            && (CanCross(pool, direction) ==> Behind(stopped, direction) == Behind(pool, direction))
  {
    hide Reaches, StopPrice, InPlace;
  }

  ghost function StopPay(pool: UniswapV3Pool, direction: SwapDirection, remaining: nat): nat
    requires Faces(pool, direction) && !Reaches(pool, direction, remaining)
  {
    AmountOut(direction, pool.sqrtPrice, StopPrice(pool, direction, remaining), pool.liquidity)
  }

  // ----- The loop takes exactly these turns

  /** One unfolding of the loop, in terms of the step it computes. */
  lemma LoopUnfolds(pool: UniswapV3Pool, direction: SwapDirection, remaining: u256, total: u256)
    requires TicksSorted(pool.ticks) && remaining > 0 && SwapLoop(pool, direction, remaining, total).Success?
    ensures NextInitializedTick(pool, direction).Some?
    ensures var boundary := NextInitializedTick(pool, direction).value;
            var step := ComputeSwapStep(pool.sqrtPrice, boundary.sqrtPrice, pool.liquidity, remaining,
                                        pool.key.feePips, direction);
            && step.Success? && total + step.value.amountOut < TWO_256
            && 0 <= remaining - (step.value.amountIn + step.value.feeAmount)
            && if step.value.priceNext == boundary.sqrtPrice then
                 && CrossTick(pool, boundary, direction).Success?
                 && TicksSorted(CrossTick(pool, boundary, direction).value.ticks)
                 && SwapLoop(pool, direction, remaining, total)
                    == SwapLoop(CrossTick(pool, boundary, direction).value, direction,
                                remaining - (step.value.amountIn + step.value.feeAmount), total + step.value.amountOut)
               else
                 SwapLoop(pool, direction, remaining, total)
                 == Success(SwapOutcome(pool.(sqrtPrice := step.value.priceNext), total + step.value.amountOut))
  {
    hide ComputeSwapStep, TicksSorted, TicksBelow;
    LoopTakesStep(pool, direction, remaining, total);
    if NextInitializedTick(pool, direction).Some? {
      var boundary := NextInitializedTick(pool, direction).value;
      assert TakeStep(pool, boundary, direction, remaining, total).Success?;
      if CrossTick(pool, boundary, direction).Success? {
        CrossTickExact(pool, direction);
      }
    }
  }

  /** A loop that succeeds with input left has a tick in front of it. */
  lemma LoopFaces(pool: UniswapV3Pool, direction: SwapDirection, remaining: u256, total: u256)
    requires WellPlaced(pool) && remaining > 0 && SwapLoop(pool, direction, remaining, total).Success?
    ensures Faces(pool, direction)
  {
    hide SwapLoop, TicksBelow, TicksSorted;
    LoopTakesStep(pool, direction, remaining, total);
  }

  /** An input that covers the range uses it up at its exact cost and pay, and the loop goes on
      behind the tick. */
  lemma IterationCrosses(pool: UniswapV3Pool, direction: SwapDirection, remaining: u256, total: u256)
    requires Faces(pool, direction) && Reaches(pool, direction, remaining)
    requires remaining > 0 && SwapLoop(pool, direction, remaining, total).Success?
    ensures CanCross(pool, direction) && RangeCost(pool, direction) <= remaining
    ensures total + RangePay(pool, direction) < TWO_256
    ensures SwapLoop(pool, direction, remaining, total)
         == SwapLoop(Behind(pool, direction), direction,
                     remaining - RangeCost(pool, direction), total + RangePay(pool, direction))
  {
    hide ComputeSwapStep, SwapLoop, AmountIn, AmountOut, NextPrice, WithFee, LessFee;
    LoopUnfolds(pool, direction, remaining, total);
    StepExact(pool.sqrtPrice, BoundaryPrice(pool, direction), pool.liquidity, remaining, pool.key.feePips, direction);
  }

  /** Any other input stops strictly inside the range with everything consumed. */
  lemma IterationStops(pool: UniswapV3Pool, direction: SwapDirection, remaining: u256, total: u256)
    requires Faces(pool, direction) && !Reaches(pool, direction, remaining)
    requires remaining > 0 && SwapLoop(pool, direction, remaining, total).Success?
    ensures total + StopPay(pool, direction, remaining) < TWO_256
    ensures SwapLoop(pool, direction, remaining, total)
         == Success(SwapOutcome(Stopped(pool, direction, remaining), total + StopPay(pool, direction, remaining)))
  {
    hide ComputeSwapStep, SwapLoop, AmountIn, AmountOut, NextPrice, WithFee, LessFee;
    LoopUnfolds(pool, direction, remaining, total);
    StepExact(pool.sqrtPrice, BoundaryPrice(pool, direction), pool.liquidity, remaining, pool.key.feePips, direction);
  }

  // ----- Laws of one range

  lemma LessFeeMono(x: nat, y: nat, feePips: nat)
    requires x <= y && feePips <= FEE_DENOMINATOR
    ensures LessFee(x, feePips) <= LessFee(y, feePips)
  {
    LessFeeSuperadditive(x, y - x, feePips);
  }

  lemma ReachMono(pool: UniswapV3Pool, direction: SwapDirection, x: nat, y: nat)
    requires Faces(pool, direction) && x <= y && Reaches(pool, direction, x)
    ensures Reaches(pool, direction, y)
  {
    hide AmountIn, AmountOut, NextPrice, LessFee, WithFee, InPlace;
    LessFeeMono(x, y, pool.key.feePips);
  }

  lemma StopBelowRange(pool: UniswapV3Pool, direction: SwapDirection, x: nat)
    requires Faces(pool, direction) && !Reaches(pool, direction, x)
    ensures StopPay(pool, direction, x) <= RangePay(pool, direction)
  {
    hide AmountIn, AmountOut, NextPrice, LessFee, WithFee, InPlace;
    AmountOutPieces(direction, pool.sqrtPrice, StopPrice(pool, direction, x), BoundaryPrice(pool, direction),
                    pool.liquidity);
  }

  lemma StopMono(pool: UniswapV3Pool, direction: SwapDirection, x: nat, y: nat)
    requires Faces(pool, direction) && x <= y && !Reaches(pool, direction, x) && !Reaches(pool, direction, y)
    ensures StopPay(pool, direction, x) <= StopPay(pool, direction, y)
    ensures Ahead(direction, StopPrice(pool, direction, x), StopPrice(pool, direction, y))
  {
    hide AmountIn, AmountOut, NextPrice, LessFee, WithFee, InPlace;
    var _, _ := StopPrice(pool, direction, x), StopPrice(pool, direction, y);
    LessFeeMono(x, y, pool.key.feePips);
    NextPriceMono(direction, pool.sqrtPrice, pool.liquidity,
                  LessFee(x, pool.key.feePips), LessFee(y, pool.key.feePips));
    AmountOutPieces(direction, pool.sqrtPrice, StopPrice(pool, direction, x), StopPrice(pool, direction, y),
                    pool.liquidity);
  }

  lemma JointCost(first: nat, rest: nat, whole: nat, x: nat, y: nat, z: nat, feePips: nat)
    requires feePips < FEE_DENOMINATOR && x + y <= z && whole <= first + rest
    requires first <= LessFee(x, feePips) && rest <= LessFee(y, feePips)
    ensures whole <= LessFee(z, feePips)
    ensures y - WithFee(rest, feePips) <= z - WithFee(whole, feePips)
  {
    hide LessFee, WithFee;
    LessFeeSuperadditive(x, y, feePips);
    LessFeeMono(x + y, z, feePips);
    FeeAdjoint(first, x, feePips);
    WithFeeSubadditive(first, rest, feePips);
    FeeAdjoint(first + rest, WithFee(first + rest, feePips), feePips);
    FeeAdjoint(whole, WithFee(first + rest, feePips), feePips);
  }

  /** If a first part stops inside the range and a second part carries the pool to the tick from
      there, then the joint input reaches the tick too, with at least as much left behind it. */
  lemma JointReaches(pool: UniswapV3Pool, direction: SwapDirection, x: nat, y: nat, z: nat)
    requires CanCross(pool, direction) && x + y <= z
    requires !Reaches(pool, direction, x) && Reaches(Stopped(pool, direction, x), direction, y)
    ensures Reaches(pool, direction, z)
    ensures y - RangeCost(Stopped(pool, direction, x), direction) <= z - RangeCost(pool, direction)
    ensures StopPay(pool, direction, x) + RangePay(Stopped(pool, direction, x), direction) <= RangePay(pool, direction)
  {
    hide AmountIn, AmountOut, NextPrice, LessFee, WithFee, InPlace;
    var stopped, stop, fee := Stopped(pool, direction, x), StopPrice(pool, direction, x), pool.key.feePips;
    var first := AmountIn(direction, pool.sqrtPrice, stop, pool.liquidity);
    var rest, whole := ToBoundary(stopped, direction), ToBoundary(pool, direction);
    AmountOutPieces(direction, pool.sqrtPrice, stop, BoundaryPrice(pool, direction), pool.liquidity);
    AmountInPieces(direction, pool.sqrtPrice, stop, BoundaryPrice(pool, direction), pool.liquidity);
    StoppedAhead(pool, direction, x);
    JointCost(first, rest, whole, x, y, z, fee);
  }

  /** Two stops in a row are paid no more than the whole range. */
  lemma TwoStopsBelowRange(pool: UniswapV3Pool, direction: SwapDirection, x: nat, y: nat)
    requires Faces(pool, direction) && !Reaches(pool, direction, x)
    requires !Reaches(Stopped(pool, direction, x), direction, y)
    ensures StopPay(pool, direction, x) + StopPay(Stopped(pool, direction, x), direction, y)
         <= RangePay(pool, direction)
  {
    hide AmountIn, AmountOut, NextPrice, LessFee, WithFee, InPlace;
    StopBelowRange(Stopped(pool, direction, x), direction, y);
    AmountOutPieces(direction, pool.sqrtPrice, StopPrice(pool, direction, x), BoundaryPrice(pool, direction),
                    pool.liquidity);
  }

  /** Two stops in a row are paid no more than one stop with the joint input. */
  lemma TwoStopsBelowOne(pool: UniswapV3Pool, direction: SwapDirection, x: nat, y: nat, z: nat)
    requires Faces(pool, direction) && x + y <= z
    requires !Reaches(pool, direction, x) && !Reaches(pool, direction, z)
    requires !Reaches(Stopped(pool, direction, x), direction, y)
    ensures StopPay(pool, direction, x) + StopPay(Stopped(pool, direction, x), direction, y)
         <= StopPay(pool, direction, z)
  {
    hide AmountIn, AmountOut, NextPrice, LessFee, WithFee, InPlace;
    var fee, p, liquidity := pool.key.feePips, pool.sqrtPrice, pool.liquidity;
    var first, second := StopPrice(pool, direction, x), StopPrice(Stopped(pool, direction, x), direction, y);
    LessFeeSuperadditive(x, y, fee);
    LessFeeMono(x + y, z, fee);
    NextPriceSplit(direction, p, liquidity, LessFee(x, fee), LessFee(y, fee), LessFee(z, fee));
    AmountOutPieces(direction, p, first, second, liquidity);
    AmountOutPieces(direction, p, second, StopPrice(pool, direction, z), liquidity);
  }

  /** Behind a price that has already moved ahead inside the same range, and with no larger an
      input, a stop is paid no more. */
  lemma StopAfterHeadStart(pool: UniswapV3Pool, ahead: UniswapV3Pool, direction: SwapDirection, x: nat, y: nat)
    requires Faces(pool, direction) && Faces(ahead, direction) && ahead == pool.(sqrtPrice := ahead.sqrtPrice)
    requires Ahead(direction, pool.sqrtPrice, ahead.sqrtPrice) && y <= x
    requires !Reaches(pool, direction, x) && !Reaches(ahead, direction, y)
    ensures StopPay(ahead, direction, y) <= StopPay(pool, direction, x)
  {
    hide AmountIn, AmountOut, NextPrice, LessFee, WithFee, InPlace;
    var fee := pool.key.feePips;
    if Reaches(pool, direction, y) {
      ReachMono(pool, direction, y, x);
    } else {
      var _, _ := StopPrice(pool, direction, y), StopPrice(ahead, direction, y);
      HeadStartHurts(direction, pool.sqrtPrice, ahead.sqrtPrice, pool.liquidity, LessFee(y, fee));
      StopMono(pool, direction, y, x);
    }
  }
}
