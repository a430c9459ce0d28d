/** One step of a swap: how far an input moves the price towards the next initialized tick. */
module SwapStep {
  import opened Words
  import opened Rounding
  import opened Curve
  import opened FixedPoint

  datatype Step = Step(priceNext: u256, amountIn: u256, amountOut: u256, feeAmount: u256)

  function InputDelta(from: u256, to: u256, liquidity: u128, direction: SwapDirection): Outcome<u256> {
    match direction
    case ZeroForOne => Amount0Delta(to, from, liquidity, true)
    case OneForZero => Amount1Delta(from, to, liquidity, true)
  }

  function OutputDelta(from: u256, to: u256, liquidity: u128, direction: SwapDirection): Outcome<u256> {
    match direction
    case ZeroForOne => Amount1Delta(to, from, liquidity, false)
    case OneForZero => Amount0Delta(from, to, liquidity, false)
  }

  function NextSqrtPriceFromInput(price: u256, liquidity: u128, amount: u256, direction: SwapDirection): Outcome<u256> {
    match direction
    case ZeroForOne => NextSqrtPriceFromAmount0(price, liquidity, amount)
    case OneForZero => NextSqrtPriceFromAmount1(price, liquidity, amount)
  }

  /** What a fee leaves over of a million. The 128-bit subtraction wraps above one million. */
  function KeptPips(feePips: u32): u128 {
    if feePips <= FEE_DENOMINATOR then FEE_DENOMINATOR - feePips else TWO_128 + FEE_DENOMINATOR - feePips
  }

  function ComputeSwapStep(
    current: u256, target: u256, liquidity: u128, remaining: u256, feePips: u32, direction: SwapDirection
  ): Outcome<Step>
  {
    var lessFee :- MulDiv(remaining, KeptPips(feePips), FEE_DENOMINATOR);
    var toTarget :- InputDelta(current, target, liquidity, direction);
    var next :- if lessFee >= toTarget then Success(target)
                else NextSqrtPriceFromInput(current, liquidity, lessFee, direction);
    var amountIn :- if next == target then Success(toTarget) else InputDelta(current, next, liquidity, direction);
    var amountOut :- OutputDelta(current, next, liquidity, direction);
    var feeAmount :- if next != target then CheckedSub(remaining, amountIn)
                     else MulDivRoundingUp(amountIn, feePips, KeptPips(feePips));
    Success(Step(next, amountIn, amountOut, feeAmount))
  }

  lemma DeltasExact(from: u256, to: u256, liquidity: u128, direction: SwapDirection)
    requires 0 < from && 0 < to && Ahead(direction, from, to)
    ensures var i := InputDelta(from, to, liquidity, direction);
            i.Success? ==> i.value == AmountIn(direction, from, to, liquidity)
    ensures var o := OutputDelta(from, to, liquidity, direction);
            o.Success? ==> o.value == AmountOut(direction, from, to, liquidity)
  {
    if direction.OneForZero? {
      Amount0Exact(from, to, liquidity);
      Amount1Exact(from, to, liquidity);
    } else {
      Amount0Exact(to, from, liquidity);
      Amount1Exact(to, from, liquidity);
    }
  }

  lemma NextPriceExact(price: u256, liquidity: u128, amount: u256, direction: SwapDirection)
    requires 0 < price && 0 < liquidity
    ensures var r := NextSqrtPriceFromInput(price, liquidity, amount, direction);
            r.Success? ==> r.value == NextPrice(direction, price, liquidity, amount)
  {
    var r := NextSqrtPriceFromInput(price, liquidity, amount, direction);
    if r.Success? {
      if direction.OneForZero? {
        NextFromAmount1Exact(price, liquidity, amount);
      } else {
        NextFromAmount0Exact(price, liquidity, amount);
      }
    }
  }

  /** What a successful step means, for a fee of at most one million. It lands on the target
      exactly when the input less its fee covers the whole range, otherwise strictly short of it;
      it takes no more than is left, and everything that is left when it stops short. */
  lemma StepExact(current: u256, target: u256, liquidity: u128, remaining: u256, feePips: u32, direction: SwapDirection)
    requires 0 < current && 0 < target && Ahead(direction, current, target) && feePips <= FEE_DENOMINATOR
    requires ComputeSwapStep(current, target, liquidity, remaining, feePips, direction).Success?
    ensures var step := ComputeSwapStep(current, target, liquidity, remaining, feePips, direction).value;
            var lessFee := LessFee(remaining, feePips);
            var toTarget := AmountIn(direction, current, target, liquidity);
            && 0 < step.priceNext && Ahead(direction, current, step.priceNext)
            && Ahead(direction, step.priceNext, target)
            && (step.priceNext == target <==> toTarget <= lessFee)
            && step.amountIn == AmountIn(direction, current, step.priceNext, liquidity)
            && step.amountOut == AmountOut(direction, current, step.priceNext, liquidity)
            && step.amountIn + step.feeAmount <= remaining
            && (step.priceNext == target ==>
                  feePips < FEE_DENOMINATOR && step.amountIn + step.feeAmount == WithFee(toTarget, feePips))
            && (step.priceNext != target ==>
                  && 0 < liquidity && step.priceNext == NextPrice(direction, current, liquidity, lessFee)
                  && step.amountIn + step.feeAmount == remaining)
  {
    var step := ComputeSwapStep(current, target, liquidity, remaining, feePips, direction).value;
    var lessFee := LessFee(remaining, feePips);
    DeltasExact(current, target, liquidity, direction);
    var toTarget := AmountIn(direction, current, target, liquidity);
    if lessFee < toTarget {
      NoOvershoot(direction, current, target, liquidity, lessFee);
      NextPriceExact(current, liquidity, lessFee, direction);
      DeltasExact(current, step.priceNext, liquidity, direction);
      LessFeeBound(remaining, feePips);
    } else if feePips < FEE_DENOMINATOR {
      FeeAdjoint(toTarget, remaining, feePips);
      if toTarget * feePips < TWO_256 {
        MulDivRoundingUpExact(toTarget, feePips, FEE_DENOMINATOR - feePips);
      }
    }
  }

  ghost predicate StepTakesAtMost(
    current: u256, target: u256, liquidity: u128, remaining: u256, feePips: u32, direction: SwapDirection
  )
  {
    var step := ComputeSwapStep(current, target, liquidity, remaining, feePips, direction);
    step.Success? ==> step.value.amountIn + step.value.feeAmount <= remaining
  }

  /** With 1 left, a step of a fee above one million uses up a range that costs 1001. */
  lemma WrappedStep(feePips: u32)
    requires FEE_DENOMINATOR < feePips
    ensures ComputeSwapStep(TWO_96, 2 * TWO_96, 1000, 1, feePips, OneForZero) == Success(Step(2 * TWO_96, 1000, 500, 1))
    ensures !StepTakesAtMost(TWO_96, 2 * TWO_96, 1000, 1, feePips, OneForZero)
  {
    var kept: nat := KeptPips(feePips);
    FloorGalois(kept, FEE_DENOMINATOR, 1000);
    assert 0 < 1000 * feePips < kept;
    CeilGalois(1000 * feePips, kept, 1);
    CeilGalois(1000 * feePips, kept, 0);
    MulDivRoundingUpExact(1000, feePips, kept);
  }

  /** Every step takes at most what is left exactly for the fees of at most one million: above,
      the wrapped subtraction makes any input look large enough. */
  lemma FeeBoundExact(feePips: u32)
    ensures feePips <= FEE_DENOMINATOR
       <==> forall current: u256, target: u256, liquidity: u128, remaining: u256, direction: SwapDirection ::
              0 < current && 0 < target && Ahead(direction, current, target) ==>
                StepTakesAtMost(current, target, liquidity, remaining, feePips, direction)
  {
    if feePips <= FEE_DENOMINATOR {
      forall current: u256, target: u256, liquidity: u128, remaining: u256, direction: SwapDirection
        | 0 < current && 0 < target && Ahead(direction, current, target)
        ensures StepTakesAtMost(current, target, liquidity, remaining, feePips, direction)
      {
        hide ComputeSwapStep;
        if ComputeSwapStep(current, target, liquidity, remaining, feePips, direction).Success? {
          StepExact(current, target, liquidity, remaining, feePips, direction);
        }
      }
    } else {
      WrappedStep(feePips);
    }
  }

  // ----- Exactly when a step succeeds

  /** A liquidity and a price difference whose product stays below 2^160, so that the token0
      numerator stays below 2^256. */
  predicate Fits(liquidity: nat, price: nat) {
    liquidity * price < 0x1_0000_0000_0000_0000_0000_0000_0000_0000_0000_0000
  }

  lemma FitsExact(liquidity: nat, price: nat)
    ensures Fits(liquidity, price) <==> liquidity * TWO_96 * price < TWO_256
    ensures Fits(liquidity, price) ==> liquidity * price < TWO_256
  {
    assert liquidity * TWO_96 * price == (liquidity * price) * TWO_96;
  }

  lemma FitsBelow(liquidity: nat, p: nat, q: nat)
    requires p <= q && Fits(liquidity, q)
    ensures Fits(liquidity, p)
  {
    Curve.MulMono(p, q, liquidity);
  }

  /** Where an input less its fee carries the price on the exact curve. */
  function Landing(direction: SwapDirection, current: nat, target: nat, liquidity: nat, lessFee: nat): (next: nat)
    requires 0 < current && 0 < target && Ahead(direction, current, target)
    ensures 0 < next && Ahead(direction, current, next) && Ahead(direction, next, target)
    ensures next == target <==> AmountIn(direction, current, target, liquidity) <= lessFee
  {
    if AmountIn(direction, current, target, liquidity) <= lessFee then target else
    NoOvershoot(direction, current, target, liquidity, lessFee);
    NextPrice(direction, current, liquidity, lessFee)
  }

  /** What the products of a step need. Rising, the whole range for its input and the part covered
      for its output; falling, the whole range for its input and, to stop short after moving, the
      price it starts from. */
  predicate ProductsFit(
    current: nat, target: nat, liquidity: nat, remaining: nat, feePips: nat, direction: SwapDirection
  )
    requires 0 < current && 0 < target && Ahead(direction, current, target) && feePips <= FEE_DENOMINATOR
  {
    var lessFee := LessFee(remaining, feePips);
    var next := Landing(direction, current, target, liquidity, lessFee);
    match direction
    case OneForZero => liquidity * (target - current) < TWO_256 && Fits(liquidity, next - current)
    case ZeroForOne =>
      Fits(liquidity, current - target) && (next == target || lessFee == 0 || Fits(liquidity, current))
  }

  /** What a step needs: products that fit, and to use a range up, something left over by the fee. */
  predicate StepFits(
    current: nat, target: nat, liquidity: nat, remaining: nat, feePips: nat, direction: SwapDirection
  )
    requires 0 < current && 0 < target && Ahead(direction, current, target) && feePips <= FEE_DENOMINATOR
  {
    && ProductsFit(current, target, liquidity, remaining, feePips, direction)
    && (Landing(direction, current, target, liquidity, LessFee(remaining, feePips)) == target ==>
          feePips < FEE_DENOMINATOR)
  }

  /** The fault of a step that does not fit: the products are computed before the fee is divided. */
  function StepFault(productsFit: bool): SimulationError {
    if productsFit then InvalidInput("division by zero") else ArithmeticOverflow
  }

  /** In the falling direction, an input short of the target keeps every product in range. */
  lemma FallingProducts(price: nat, target: nat, liquidity: nat, amount: nat)
    requires 0 < target <= price && 0 < liquidity
    requires amount < Token0Up(target, price, liquidity)
    ensures liquidity * TWO_96 + amount * price <= liquidity * TWO_96 * price
  {
    hide CeilDiv;
    var k, ap := liquidity * TWO_96, amount * price;
    PositiveProduct(target, price);
    CeilGalois(k * (price - target), target * price, amount);
    assert amount * (target * price) == ap * target;
    assert k * (price - target) == k * price - k * target;
    assert (ap + k) * target == ap * target + k * target;
    MulOrder(1, target, ap + k);
  }

  /** Short of the target, a falling price is computed exactly when the input is zero or the
      numerator fits; a rising one always. */
  lemma NextPriceSucceeds(price: u256, target: u256, liquidity: u128, amount: u256, direction: SwapDirection)
    requires 0 < price && 0 < target && Ahead(direction, price, target)
    requires amount < AmountIn(direction, price, target, liquidity) && amount < TWO_128
    ensures NextSqrtPriceFromInput(price, liquidity, amount, direction).Success?
       <==> direction.OneForZero? || amount == 0 || Fits(liquidity, price)
    ensures NextSqrtPriceFromInput(price, liquidity, amount, direction).Failure? ==>
              NextSqrtPriceFromInput(price, liquidity, amount, direction) == Failure(ArithmeticOverflow)
  {
    NoOvershoot(direction, price, target, liquidity, amount);
    if direction.OneForZero? {
      assert MulDiv(amount, TWO_96, liquidity).Success?;
    } else if amount > 0 {
      FitsExact(liquidity, price);
      FallingProducts(price, target, liquidity, amount);
      if Fits(liquidity, price) {
        DivRoundingUpExact(liquidity * TWO_96 * price, liquidity * TWO_96 + amount * price);
      }
    }
  }

  lemma DeltasSucceed(from: u256, to: u256, liquidity: u128, direction: SwapDirection)
    requires 0 < from && 0 < to && Ahead(direction, from, to)
    ensures direction.OneForZero? ==>
              && (InputDelta(from, to, liquidity, direction).Success? <==> liquidity * (to - from) < TWO_256)
              && (OutputDelta(from, to, liquidity, direction).Success? <==> Fits(liquidity, to - from))
    ensures direction.ZeroForOne? ==>
              && (InputDelta(from, to, liquidity, direction).Success? <==> Fits(liquidity, from - to))
              && (OutputDelta(from, to, liquidity, direction).Success? <==> liquidity * (from - to) < TWO_256)
    ensures InputDelta(from, to, liquidity, direction).Failure? ==>
              InputDelta(from, to, liquidity, direction) == Failure(ArithmeticOverflow)
    ensures OutputDelta(from, to, liquidity, direction).Failure? ==>
              OutputDelta(from, to, liquidity, direction) == Failure(ArithmeticOverflow)
  {
    if direction.OneForZero? {
      FitsExact(liquidity, to - from);
      Amount0Exact(from, to, liquidity);
      Amount1Exact(from, to, liquidity);
    } else {
      FitsExact(liquidity, from - to);
      Amount0Exact(to, from, liquidity);
      Amount1Exact(to, from, liquidity);
    }
  }

  lemma LessFeeComputed(remaining: u256, feePips: u32)
    requires remaining < TWO_128 && feePips <= FEE_DENOMINATOR
    ensures LessFee(remaining, feePips) <= remaining
    ensures MulDiv(remaining, KeptPips(feePips), FEE_DENOMINATOR) == Success(LessFee(remaining, feePips))
  {
    LessFeeBound(remaining, feePips);
    Curve.MulMono(FEE_DENOMINATOR - feePips, FEE_DENOMINATOR, remaining);
  }

  /** A step of a whole range. */
  lemma CoveringStepSucceeds(current: u256, target: u256, liquidity: u128, remaining: u256,
                             feePips: u32, direction: SwapDirection)
    requires 0 < current && 0 < target && Ahead(direction, current, target)
    requires remaining < TWO_128 && feePips <= FEE_DENOMINATOR
    requires AmountIn(direction, current, target, liquidity) <= LessFee(remaining, feePips)
    ensures ComputeSwapStep(current, target, liquidity, remaining, feePips, direction).Success?
       <==> StepFits(current, target, liquidity, remaining, feePips, direction)
    ensures ComputeSwapStep(current, target, liquidity, remaining, feePips, direction).Failure? ==>
              ComputeSwapStep(current, target, liquidity, remaining, feePips, direction)
              == Failure(StepFault(ProductsFit(current, target, liquidity, remaining, feePips, direction)))
  {
    hide LessFee, AmountIn, AmountOut, InputDelta, OutputDelta, NextPrice, MulDiv, Fits;
    LessFeeComputed(remaining, feePips);
    DeltasSucceed(current, target, liquidity, direction);
    DeltasExact(current, target, liquidity, direction);
    FitsExact(liquidity, if direction.OneForZero? then target - current else current - target);
    var toTarget := AmountIn(direction, current, target, liquidity);
    Curve.MulMono(feePips, FEE_DENOMINATOR, toTarget);
    if feePips < FEE_DENOMINATOR {
      MulDivRoundingUpExact(toTarget, feePips, FEE_DENOMINATOR - feePips);
    }
  }

  /** The amounts of a shorter move in the same range are no harder to compute. */
  lemma ShorterProducts(current: nat, next: nat, target: nat, liquidity: nat, direction: SwapDirection)
    requires Ahead(direction, current, next) && Ahead(direction, next, target)
    ensures direction.OneForZero? && liquidity * (target - current) < TWO_256 ==> liquidity * (next - current) < TWO_256
    ensures direction.ZeroForOne? && Fits(liquidity, current - target) ==>
              Fits(liquidity, current - next) && liquidity * (current - next) < TWO_256
  {
    if direction.OneForZero? {
      Curve.MulMono(next - current, target - current, liquidity);
    } else {
      Curve.MulMono(current - next, current - target, liquidity);
      FitsExact(liquidity, current - next);
    }
  }

  /** A step that stops short. */
  lemma ShortStepSucceeds(current: u256, target: u256, liquidity: u128, remaining: u256,
                          feePips: u32, direction: SwapDirection)
    requires 0 < current && 0 < target && Ahead(direction, current, target)
    requires remaining < TWO_128 && feePips <= FEE_DENOMINATOR
    requires LessFee(remaining, feePips) < AmountIn(direction, current, target, liquidity)
    ensures ComputeSwapStep(current, target, liquidity, remaining, feePips, direction).Success?
       <==> StepFits(current, target, liquidity, remaining, feePips, direction)
    ensures ComputeSwapStep(current, target, liquidity, remaining, feePips, direction).Failure? ==>
              ComputeSwapStep(current, target, liquidity, remaining, feePips, direction)
              == Failure(StepFault(ProductsFit(current, target, liquidity, remaining, feePips, direction)))
  {
    hide LessFee, AmountIn, AmountOut, InputDelta, OutputDelta, NextPrice, NextSqrtPriceFromInput, MulDiv, Fits;
    var lessFee := LessFee(remaining, feePips);
    LessFeeComputed(remaining, feePips);
    NoOvershoot(direction, current, target, liquidity, lessFee);
    var next := NextPrice(direction, current, liquidity, lessFee);
    DeltasSucceed(current, target, liquidity, direction);
    DeltasExact(current, target, liquidity, direction);
    NextPriceSucceeds(current, target, liquidity, lessFee, direction);
    NextPriceExact(current, liquidity, lessFee, direction);
    DeltasSucceed(current, next, liquidity, direction);
    DeltasExact(current, next, liquidity, direction);
    ShorterProducts(current, next, target, liquidity, direction);
  }

  /** With positive prices ordered in the swap direction, a remaining input below 2^128 and a fee
      of at most one million, a step succeeds exactly when its numbers fit, and otherwise has one of
      two faults. */
  lemma StepSucceeds(current: u256, target: u256, liquidity: u128, remaining: u256,
                     feePips: u32, direction: SwapDirection)
    requires 0 < current && 0 < target && Ahead(direction, current, target)
    requires remaining < TWO_128 && feePips <= FEE_DENOMINATOR
    ensures ComputeSwapStep(current, target, liquidity, remaining, feePips, direction).Success?
       <==> StepFits(current, target, liquidity, remaining, feePips, direction)
    ensures ComputeSwapStep(current, target, liquidity, remaining, feePips, direction).Failure? ==>
              ComputeSwapStep(current, target, liquidity, remaining, feePips, direction)
              == Failure(StepFault(ProductsFit(current, target, liquidity, remaining, feePips, direction)))
  {
    hide ComputeSwapStep, StepFits, ProductsFit, StepFault, LessFee, AmountIn;
    if AmountIn(direction, current, target, liquidity) <= LessFee(remaining, feePips) {
      CoveringStepSucceeds(current, target, liquidity, remaining, feePips, direction);
    } else {
      ShortStepSucceeds(current, target, liquidity, remaining, feePips, direction);
    }
  }
}
