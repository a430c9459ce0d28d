/** The swap loop of checked machine words refines a run on the exact curve: on every well-placed
    pool it succeeds exactly when the numbers of every range it enters fit, and then pays and
    leaves what the exact run does. */
module Completion {
  import opened Words
  import opened Rounding
  import opened Curve
  import opened FixedPoint
  import opened SwapStep
  import opened Pool
  import opened Range
  import opened SwapLaws

  // ----- The run on the exact curve

  /** The numbers of the next step fit. */
  ghost predicate StepRuns(pool: UniswapV3Pool, direction: SwapDirection, remaining: nat)
    requires Faces(pool, direction)
  {
    StepFits(pool.sqrtPrice, BoundaryPrice(pool, direction), pool.liquidity, remaining, pool.key.feePips, direction)
  }

  lemma ReachesMeansAffords(pool: UniswapV3Pool, direction: SwapDirection, remaining: nat)
    requires CanCross(pool, direction)
    ensures Reaches(pool, direction, remaining) <==> RangeCost(pool, direction) <= remaining
  {
    hide WithFee, LessFee, AmountIn, InPlace;
    FeeAdjoint(ToBoundary(pool, direction), remaining, pool.key.feePips);
  }

  datatype CurveRun = CurveRun(pool: UniswapV3Pool, pay: nat)

  /** A run on the exact curve. Range after range, a tick must be ahead while input is left, the
      numbers must fit, and a tick reached must be one that can be crossed. Each range is used up at
      its exact cost and pay, and the run stops inside the last one. */
  ghost function RunOnCurve(pool: UniswapV3Pool, direction: SwapDirection, remaining: nat): Outcome<CurveRun>
    requires WellPlaced(pool)
    decreases TicksAhead(pool, direction)
  {
    if remaining == 0 then Success(CurveRun(pool, 0))
    else if !Faces(pool, direction) then Failure(Unsupported)
    else if !StepRuns(pool, direction, remaining) then
      Failure(StepFault(ProductsFit(pool.sqrtPrice, BoundaryPrice(pool, direction), pool.liquidity, remaining,
                                    pool.key.feePips, direction)))
    else if !Reaches(pool, direction, remaining) then
      Success(CurveRun(Stopped(pool, direction, remaining), StopPay(pool, direction, remaining)))
    else if !CanCross(pool, direction) then Failure(ArithmeticOverflow)
    else
      ReachesMeansAffords(pool, direction, remaining);
      var rest :- RunOnCurve(Behind(pool, direction), direction, remaining - RangeCost(pool, direction));
      Success(CurveRun(rest.pool, RangePay(pool, direction) + rest.pay))
  }

  // ----- No total overflows

  const PAY_BOUND: nat := 0x1_0000_0000_0000_0000_0000_0000_0000_0000_0000_0000_0000_0000_0000_0000

  lemma Token0PayBound(lower: nat, upper: nat, liquidity: u128)
    requires 0 < lower <= upper
    ensures Token0Down(lower, upper, liquidity) <= liquidity * TWO_96
  {
    var k, q := liquidity * TWO_96, Token0Down(lower, upper, liquidity);
    FloorGalois(k * (upper - lower), lower * upper, q);
    MulMono(upper - lower, lower * upper, k) by {
      MulMono(1, lower, upper);
    }
    MulPositive(lower, upper);
    MulOrder(q, k, lower * upper);
  }

  /** No range whose numbers fit pays 2^224 or more, nor any part of it. */
  lemma PayBound(direction: SwapDirection, from: nat, next: nat, to: nat, liquidity: u128)
    requires 0 < from && 0 < next && 0 < to && Ahead(direction, from, next) && Ahead(direction, next, to)
    requires direction.ZeroForOne? ==> Fits(liquidity, from - to)
    ensures AmountOut(direction, from, next, liquidity) < PAY_BOUND
  {
    if direction.OneForZero? {
      Token0PayBound(from, next, liquidity);
    } else {
      FitsBelow(liquidity, from - next, from - to);
      FloorGalois(liquidity * (from - next), TWO_96, PAY_BOUND);
    }
  }

  lemma TickCount(ticks: seq<InitializedTick>, k: nat)
    requires TicksSorted(ticks) && k < |ticks|
    ensures ticks[0].index + k <= ticks[k].index
  {
    if k > 0 {
      TickCount(ticks, k - 1);
      assert ticks[k - 1].index < ticks[k].index;
    }
  }

  /** A list of 32-bit ticks is short enough for all its ranges. */
  lemma RoomForAll(pool: UniswapV3Pool, direction: SwapDirection)
    requires WellPlaced(pool)
    ensures TicksAhead(pool, direction) * PAY_BOUND <= TWO_256
  {
    TickCount(pool.ticks, |pool.ticks| - 1);
  }

  // ----- One turn, from the exact side

  lemma NoTickAhead(pool: UniswapV3Pool, direction: SwapDirection, remaining: u256, total: u256)
    requires WellPlaced(pool) && NextInitializedTick(pool, direction) == None && remaining > 0
    ensures TicksSorted(pool.ticks) && SwapLoop(pool, direction, remaining, total) == Failure(Unsupported)
  {
    LoopTakesStep(pool, direction, remaining, total);
  }

  /** One unfolding of the loop, from the step it computes. */
  lemma LoopForward(pool: UniswapV3Pool, direction: SwapDirection, remaining: u256, total: u256, step: Step)
    requires TicksSorted(pool.ticks) && remaining > 0 && NextInitializedTick(pool, direction).Some?
    requires ComputeSwapStep(pool.sqrtPrice, NextInitializedTick(pool, direction).value.sqrtPrice, pool.liquidity,
                             remaining, pool.key.feePips, direction) == Success(step)
    requires step.amountIn + step.feeAmount <= remaining && total + step.amountOut < TWO_256
    ensures var boundary := NextInitializedTick(pool, direction).value;
            var crossed := CrossTick(pool, boundary, direction);
            SwapLoop(pool, direction, remaining, total)
            == if step.priceNext != boundary.sqrtPrice then
                 Success(SwapOutcome(pool.(sqrtPrice := step.priceNext), total + step.amountOut))
               else if crossed.Failure? then Failure(crossed.error)
               else SwapLoop(crossed.value, direction,
                             remaining - (step.amountIn + step.feeAmount), total + step.amountOut)
  {
    hide ComputeSwapStep, TicksSorted, TicksBelow;
    LoopTakesStep(pool, direction, remaining, total);
  }

  /** Numbers that do not fit fail the loop with the fault of its step. */
  lemma TurnFails(pool: UniswapV3Pool, direction: SwapDirection, remaining: u128, total: u256)
    requires Faces(pool, direction) && remaining > 0 && !StepRuns(pool, direction, remaining)
    ensures SwapLoop(pool, direction, remaining, total)
         == Failure(StepFault(ProductsFit(pool.sqrtPrice, BoundaryPrice(pool, direction), pool.liquidity, remaining,
                                          pool.key.feePips, direction)))
  {
    hide ComputeSwapStep, StepFits, ProductsFit, StepFault, TicksSorted, TicksBelow;
    StepSucceeds(pool.sqrtPrice, BoundaryPrice(pool, direction), pool.liquidity, remaining,
                 pool.key.feePips, direction);
    LoopTakesStep(pool, direction, remaining, total);
  }

  /** Numbers that fit stop an input that falls short of the tick. */
  lemma TurnStops(pool: UniswapV3Pool, direction: SwapDirection, remaining: u128, total: u256)
    requires Faces(pool, direction) && remaining > 0 && total + PAY_BOUND <= TWO_256
    requires StepRuns(pool, direction, remaining) && !Reaches(pool, direction, remaining)
    ensures StopPay(pool, direction, remaining) < PAY_BOUND
    ensures SwapLoop(pool, direction, remaining, total)
         == Success(SwapOutcome(Stopped(pool, direction, remaining), total + StopPay(pool, direction, remaining)))
  {
    hide ComputeSwapStep, SwapLoop, AmountIn, AmountOut, NextPrice, WithFee, LessFee, Fits, TicksBelow, TicksSorted;
    var p, b, liquidity, fee := pool.sqrtPrice, BoundaryPrice(pool, direction), pool.liquidity, pool.key.feePips;
    StepSucceeds(p, b, liquidity, remaining, fee, direction);
    StepExact(p, b, liquidity, remaining, fee, direction);
    var step := ComputeSwapStep(p, b, liquidity, remaining, fee, direction).value;
    PayBound(direction, p, step.priceNext, b, liquidity);
    LoopForward(pool, direction, remaining, total, step);
  }

  /** An input that covers the range goes on behind a tick that can be crossed, and only there. */
  lemma TurnCrosses(pool: UniswapV3Pool, direction: SwapDirection, remaining: u128, total: u256)
    requires Faces(pool, direction) && remaining > 0 && total + PAY_BOUND <= TWO_256
    requires StepRuns(pool, direction, remaining) && Reaches(pool, direction, remaining)
    ensures RangePay(pool, direction) < PAY_BOUND
    ensures if CanCross(pool, direction) then
              && RangeCost(pool, direction) <= remaining
              && SwapLoop(pool, direction, remaining, total)
                 == SwapLoop(Behind(pool, direction), direction,
                             remaining - RangeCost(pool, direction), total + RangePay(pool, direction))
            else SwapLoop(pool, direction, remaining, total) == Failure(ArithmeticOverflow)
  {
    hide ComputeSwapStep, SwapLoop, AmountIn, AmountOut, NextPrice, WithFee, LessFee, Fits, TicksBelow, TicksSorted;
    var p, b, liquidity, fee := pool.sqrtPrice, BoundaryPrice(pool, direction), pool.liquidity, pool.key.feePips;
    StepSucceeds(p, b, liquidity, remaining, fee, direction);
    StepExact(p, b, liquidity, remaining, fee, direction);
    var step := ComputeSwapStep(p, b, liquidity, remaining, fee, direction).value;
    PayBound(direction, p, step.priceNext, b, liquidity);
    CrossTickSucceeds(pool, NextInitializedTick(pool, direction).value, direction);
    LoopForward(pool, direction, remaining, total, step);
  }

  // ----- Whole runs

  /** With totals that leave room for what the ranges ahead can pay, the loop has exactly the outcome
      of the exact run, its pay added to the total, its fault included. */
  lemma {:induction false} LoopRefines(pool: UniswapV3Pool, direction: SwapDirection, remaining: u128, total: u256)
    requires WellPlaced(pool) && total + TicksAhead(pool, direction) * PAY_BOUND <= TWO_256
    ensures match RunOnCurve(pool, direction, remaining)
            case Success(run) =>
              && total + run.pay < TWO_256
              && SwapLoop(pool, direction, remaining, total) == Success(SwapOutcome(run.pool, total + run.pay))
            case Failure(error) => SwapLoop(pool, direction, remaining, total) == Failure(error)
    decreases TicksAhead(pool, direction)
  {
    hide SwapLoop, InPlace, StepRuns, ProductsFit, StepFault, Reaches, Crossable, TicksBelow, TicksSorted;
    hide RangePay, RangeCost, StopPay, Stopped;
    if remaining == 0 {
      LoopEnds(pool, direction, total);
    } else if NextInitializedTick(pool, direction) == None {
      NoTickAhead(pool, direction, remaining, total);
    } else if !StepRuns(pool, direction, remaining) {
      TurnFails(pool, direction, remaining, total);
    } else if !Reaches(pool, direction, remaining) {
      TurnStops(pool, direction, remaining, total);
    } else {
      TurnCrosses(pool, direction, remaining, total);
      if CanCross(pool, direction) {
        LoopRefines(Behind(pool, direction), direction,
                    remaining - RangeCost(pool, direction), total + RangePay(pool, direction));
      }
    }
  }

  /** On every well-placed pool a swap has exactly the outcome of the exact run, fault included,
      except that an input of zero and a pay of 2^128 or more are refused. */
  lemma SwapRefines(pool: UniswapV3Pool, direction: SwapDirection, amountIn: u128)
    requires WellPlaced(pool)
    ensures Swap(pool, direction, amountIn)
         == if amountIn == 0 then Failure(InvalidInput("amount in must be positive")) else
            match RunOnCurve(pool, direction, amountIn)
            case Failure(error) => Failure(error)
            case Success(run) =>
              if run.pay < TWO_128 then Success(SwapOutcome(run.pool, run.pay)) else Failure(ArithmeticOverflow)
  {
    hide SwapLoop, RunOnCurve, TicksSorted;
    RoomForAll(pool, direction);
    LoopRefines(pool, direction, amountIn, 0);
  }
}
