/** A pool, its validation, and the swap loop over its initialized ticks.
    Uniswap v3 Core whitepaper, section 6.3 (tick-indexed state). */
module Pool {
  import opened Words
  import opened Curve
  import opened FixedPoint
  import opened SwapStep
  import opened Model

  datatype InitializedTick = InitializedTick(index: i32, sqrtPrice: u256, liquidityNet: i128)

  datatype UniswapV3Pool =
    UniswapV3Pool(key: PoolKey, sqrtPrice: u256, currentTick: i32, liquidity: u128, ticks: seq<InitializedTick>)

  datatype SwapOutcome = SwapOutcome(nextPool: UniswapV3Pool, amountOut: u256)

  // ----- Validation

  ghost predicate TicksSorted(ticks: seq<InitializedTick>) {
    && |ticks| >= 2
    && (forall i :: 0 <= i < |ticks| ==> 0 < ticks[i].sqrtPrice)
    && (forall i, j :: 0 <= i < j < |ticks| ==> ticks[i].index < ticks[j].index)
    && (forall i, j :: 0 <= i < j < |ticks| ==> ticks[i].sqrtPrice < ticks[j].sqrtPrice)
  }

  /** Checks each adjacent pair from position i on, reporting the first fault. */
  function ValidateTicks(ticks: seq<InitializedTick>, i: nat := 0): Outcome<()>
    decreases |ticks| - i
  {
    if |ticks| < i + 2 then Success(())
    else if ticks[i].sqrtPrice == 0 || ticks[i + 1].sqrtPrice == 0 then
      Failure(InvalidInput("initialized tick sqrt prices must be positive"))
    else if ticks[i].index >= ticks[i + 1].index then
      Failure(InvalidInput("initialized ticks must be strictly increasing by index"))
    else if ticks[i].sqrtPrice >= ticks[i + 1].sqrtPrice then
      Failure(InvalidInput("initialized ticks must be strictly increasing by sqrt price"))
    else ValidateTicks(ticks, i + 1)
  }

  /** The binary search for the first tick above an index, between lo and hi. */
  function PartitionPoint(ticks: seq<InitializedTick>, at: int, lo: nat, hi: nat): (k: nat)
    requires lo <= hi <= |ticks|
    ensures lo <= k <= hi
    decreases hi - lo
  {
    if lo == hi then lo else
    var mid := lo + (hi - lo) / 2;
    if ticks[mid].index <= at then PartitionPoint(ticks, at, mid + 1, hi) else PartitionPoint(ticks, at, lo, mid)
  }

  /** How many ticks lie at or below the pool's current tick. */
  function TicksBelow(pool: UniswapV3Pool): (k: nat)
    ensures k <= |pool.ticks|
  {
    PartitionPoint(pool.ticks, pool.currentTick, 0, |pool.ticks|)
  }

  function ActiveBoundaries(pool: UniswapV3Pool): Outcome<(InitializedTick, InitializedTick)> {
    var upper := TicksBelow(pool);
    if upper == 0 || upper == |pool.ticks| then
      Failure(InvalidInput("current tick must be bracketed by initialized ticks"))
    else Success((pool.ticks[upper - 1], pool.ticks[upper]))
  }

  function Validate(pool: UniswapV3Pool): Outcome<()> {
    if |pool.ticks| < 2 then Failure(InvalidInput("at least two initialized ticks are required")) else
    var _ :- ValidateTicks(pool.ticks);
    var (lower, upper) :- ActiveBoundaries(pool);
    if pool.sqrtPrice < lower.sqrtPrice || pool.sqrtPrice > upper.sqrtPrice then
      Failure(InvalidInput("current sqrt price must sit within the active initialized range"))
    else Success(())
  }

  lemma {:induction false} ValidateTicksSuffix(ticks: seq<InitializedTick>, i: nat)
    ensures ValidateTicks(ticks, i).Success? <==>
              forall k :: i <= k < |ticks| - 1 ==>
                0 < ticks[k].sqrtPrice < ticks[k + 1].sqrtPrice && ticks[k].index < ticks[k + 1].index
    decreases |ticks| - i
  {
    if i + 2 <= |ticks| {
      ValidateTicksSuffix(ticks, i + 1);
    }
  }

  lemma {:induction false} AdjacentIncreasing(ticks: seq<InitializedTick>, i: nat, j: nat)
    requires i < j < |ticks|
    requires forall k :: 0 <= k < |ticks| - 1 ==>
               ticks[k].sqrtPrice < ticks[k + 1].sqrtPrice && ticks[k].index < ticks[k + 1].index
    ensures ticks[i].sqrtPrice < ticks[j].sqrtPrice && ticks[i].index < ticks[j].index
    decreases j - i
  {
    if i + 1 < j {
      AdjacentIncreasing(ticks, i, j - 1);
      assert ticks[j - 1].sqrtPrice < ticks[j - 1 + 1].sqrtPrice;
    }
  }

  /** The pairwise checks accept exactly the tick lists that are sorted throughout. */
  lemma ValidateTicksSorted(ticks: seq<InitializedTick>)
    requires |ticks| >= 2
    ensures ValidateTicks(ticks).Success? <==> TicksSorted(ticks)
  {
    ValidateTicksSuffix(ticks, 0);
    if ValidateTicks(ticks).Success? {
      forall i, j | 0 <= i < j < |ticks|
        ensures ticks[i].sqrtPrice < ticks[j].sqrtPrice && ticks[i].index < ticks[j].index
      {
        AdjacentIncreasing(ticks, i, j);
      }
    }
  }

  lemma {:induction false} PartitionPointSplits(ticks: seq<InitializedTick>, at: int, lo: nat, hi: nat)
    requires TicksSorted(ticks) && lo <= hi <= |ticks|
    requires forall j :: 0 <= j < lo ==> ticks[j].index <= at
    requires forall j :: hi <= j < |ticks| ==> at < ticks[j].index
    ensures forall j :: 0 <= j < |ticks| ==> (ticks[j].index <= at <==> j < PartitionPoint(ticks, at, lo, hi))
    decreases hi - lo
  {
    if lo < hi {
      var mid := lo + (hi - lo) / 2;
      if ticks[mid].index <= at {
        PartitionPointSplits(ticks, at, mid + 1, hi);
      } else {
        PartitionPointSplits(ticks, at, lo, mid);
      }
    }
  }

  /** The searched position is the only one that splits the ticks at the current tick. */
  lemma TicksBelowExact(pool: UniswapV3Pool, k: nat)
    requires TicksSorted(pool.ticks) && k <= |pool.ticks|
    ensures TicksBelow(pool) == k <==>
              && (k > 0 ==> pool.ticks[k - 1].index <= pool.currentTick)
              && (k < |pool.ticks| ==> pool.currentTick < pool.ticks[k].index)
  {
    PartitionPointSplits(pool.ticks, pool.currentTick, 0, |pool.ticks|);
  }

  /** The price sits between the ticks around the current tick; past either end of the ticks it
      sits exactly on the outermost tick, where a swap leaves it. */
  ghost predicate InPlace(pool: UniswapV3Pool) {
    && TicksSorted(pool.ticks)
    && var k := TicksBelow(pool);
       && (k > 0 ==> pool.ticks[k - 1].sqrtPrice <= pool.sqrtPrice)
       && (k < |pool.ticks| ==> pool.sqrtPrice <= pool.ticks[k].sqrtPrice)
       && (k == 0 ==> pool.sqrtPrice == pool.ticks[0].sqrtPrice)
       && (k == |pool.ticks| ==> pool.sqrtPrice == pool.ticks[k - 1].sqrtPrice)
  }

  /** A pool in place whose fee leaves the step's subtraction in range. Validation does not look
      at the fee, and every law of swaps needs this bound; see FeeBoundExact. */
  ghost predicate WellPlaced(pool: UniswapV3Pool) {
    InPlace(pool) && pool.key.feePips <= FEE_DENOMINATOR
  }

  /** Validation accepts exactly the pools in place that lie strictly inside their ticks. */
  lemma ValidateExact(pool: UniswapV3Pool)
    ensures Validate(pool).Success? <==> InPlace(pool) && 0 < TicksBelow(pool) < |pool.ticks|
  {
    if |pool.ticks| >= 2 {
      ValidateTicksSorted(pool.ticks);
    }
  }

  predicate Ordered(lower: InitializedTick, upper: InitializedTick) {
    0 < lower.sqrtPrice < upper.sqrtPrice && lower.index < upper.index
  }

  /** The first pair of neighbours that is out of order decides the fault: a price of zero before
      the order of the indices before the order of the prices. */
  lemma {:induction false} FirstPairDecides(ticks: seq<InitializedTick>, from: nat, i: nat)
    requires from <= i && i + 1 < |ticks| && !Ordered(ticks[i], ticks[i + 1])
    requires forall k :: from <= k < i ==> Ordered(ticks[k], ticks[k + 1])
    ensures var lower, upper := ticks[i], ticks[i + 1];
            ValidateTicks(ticks, from)
            == Failure(InvalidInput(
                 if lower.sqrtPrice == 0 || upper.sqrtPrice == 0 then "initialized tick sqrt prices must be positive"
                 else if upper.index <= lower.index then "initialized ticks must be strictly increasing by index"
                 else "initialized ticks must be strictly increasing by sqrt price"))
    decreases i - from
  {
    if from < i {
      assert Ordered(ticks[from], ticks[from + 1]);
      assert ValidateTicks(ticks, from) == ValidateTicks(ticks, from + 1);
      FirstPairDecides(ticks, from + 1, i);
    }
  }

  /** The two ways in which the current tick is not between two ticks. */
  lemma BracketExact(pool: UniswapV3Pool)
    requires TicksSorted(pool.ticks)
    ensures TicksBelow(pool) == 0 <==> forall tick :: tick in pool.ticks ==> pool.currentTick < tick.index
    ensures TicksBelow(pool) == |pool.ticks| <==> forall tick :: tick in pool.ticks ==> tick.index <= pool.currentTick
  {
    hide PartitionPoint;
    PartitionPointSplits(pool.ticks, pool.currentTick, 0, |pool.ticks|);
    var k := TicksBelow(pool);
    assert forall j :: 0 <= j < |pool.ticks| ==> (pool.ticks[j].index <= pool.currentTick <==> j < k);
    if pool.ticks != [] {
      assert pool.ticks[0] in pool.ticks && pool.ticks[|pool.ticks| - 1] in pool.ticks;
    }
  }

  /** The fault of an invalid pool: too few ticks, then the ticks themselves, then a current tick
      outside of them, then a price outside of the range around it. */
  lemma ValidateFaults(pool: UniswapV3Pool)
    ensures |pool.ticks| < 2 ==> Validate(pool) == Failure(InvalidInput("at least two initialized ticks are required"))
    ensures |pool.ticks| >= 2 && !TicksSorted(pool.ticks) ==>
              && ValidateTicks(pool.ticks).Failure?
              && Validate(pool) == Failure(ValidateTicks(pool.ticks).error)
    ensures TicksSorted(pool.ticks)
            && ((forall tick :: tick in pool.ticks ==> pool.currentTick < tick.index)
                || (forall tick :: tick in pool.ticks ==> tick.index <= pool.currentTick)) ==>
              Validate(pool) == Failure(InvalidInput("current tick must be bracketed by initialized ticks"))
    ensures TicksSorted(pool.ticks) && Validate(pool).Failure?
            && (exists tick :: tick in pool.ticks && tick.index <= pool.currentTick)
            && (exists tick :: tick in pool.ticks && pool.currentTick < tick.index) ==>
              Validate(pool)
              == Failure(InvalidInput("current sqrt price must sit within the active initialized range"))
  {
    hide TicksBelow, ValidateTicks;
    if |pool.ticks| >= 2 {
      ValidateTicksSorted(pool.ticks);
      if TicksSorted(pool.ticks) {
        BracketExact(pool);
      }
    }
  }

  // ----- The swap loop

  function NextInitializedTick(pool: UniswapV3Pool, direction: SwapDirection): Option<InitializedTick> {
    var upper := TicksBelow(pool);
    match direction
    case OneForZero => if upper < |pool.ticks| then Some(pool.ticks[upper]) else None
    case ZeroForOne => if upper > 0 then Some(pool.ticks[upper - 1]) else None
  }

  /** The next tick is the nearest one above the current tick, or the nearest one at or below it. */
  lemma NextTickExact(pool: UniswapV3Pool, tick: InitializedTick)
    requires TicksSorted(pool.ticks)
    ensures NextInitializedTick(pool, OneForZero) == Some(tick)
       <==> && tick in pool.ticks && pool.currentTick < tick.index
            && forall other :: other in pool.ticks && pool.currentTick < other.index ==> tick.index <= other.index
    ensures NextInitializedTick(pool, ZeroForOne) == Some(tick)
       <==> && tick in pool.ticks && tick.index <= pool.currentTick
            && forall other :: other in pool.ticks && other.index <= pool.currentTick ==> other.index <= tick.index
    ensures NextInitializedTick(pool, OneForZero) == None
       <==> forall other :: other in pool.ticks ==> other.index <= pool.currentTick
    ensures NextInitializedTick(pool, ZeroForOne) == None
       <==> forall other :: other in pool.ticks ==> pool.currentTick < other.index
  {
    hide PartitionPoint;
    PartitionPointSplits(pool.ticks, pool.currentTick, 0, |pool.ticks|);
    var k := TicksBelow(pool);
    assert forall j :: 0 <= j < |pool.ticks| ==> (pool.ticks[j].index <= pool.currentTick <==> j < k);
    assert k < |pool.ticks| ==> pool.ticks[k] in pool.ticks;
    assert 0 < k ==> pool.ticks[k - 1] in pool.ticks;
  }

  function AddLiquidityDelta(liquidity: u128, delta: i128): Outcome<u128> {
    if 0 <= liquidity + delta < TWO_128 then Success(liquidity + delta) else Failure(ArithmeticOverflow)
  }

  /** The pool after its price has met a tick. */
  function CrossTick(pool: UniswapV3Pool, boundary: InitializedTick, direction: SwapDirection)
    : (crossed: Outcome<UniswapV3Pool>)
    ensures crossed.Success? ==> crossed.value.ticks == pool.ticks && crossed.value.key == pool.key
  {
    var delta: i128 :- if direction.OneForZero? then Success(boundary.liquidityNet)
                       else if boundary.liquidityNet == -TWO_127 then Failure(ArithmeticOverflow)
                       else Success(-boundary.liquidityNet);
    var liquidity :- AddLiquidityDelta(pool.liquidity, delta);
    var tick: i32 :- if direction.OneForZero? then Success(boundary.index)
                     else if boundary.index == -0x8000_0000 then Failure(ArithmeticOverflow)
                     else Success(boundary.index - 1);
    Success(pool.(sqrtPrice := boundary.sqrtPrice, liquidity := liquidity, currentTick := tick))
  }

  /** The liquidity behind a tick. */
  function LiquidityBehind(liquidity: u128, tick: InitializedTick, direction: SwapDirection): int {
    if direction.OneForZero? then liquidity + tick.liquidityNet else liquidity - tick.liquidityNet
  }

  /** What crossing a tick needs: a liquidity behind it that fits, and in the falling direction a
      net liquidity that can be negated and an index that can be lowered. */
  predicate Crossable(liquidity: u128, tick: InitializedTick, direction: SwapDirection) {
    && 0 <= LiquidityBehind(liquidity, tick, direction) < TWO_128
    && (direction.ZeroForOne? ==> -TWO_127 < tick.liquidityNet && -0x8000_0000 < tick.index)
  }

  /** A crossing succeeds exactly when the liquidity behind the tick is in range and, falling, the
      net liquidity and the index are above the least of their words. It then leaves the price on
      the tick, that liquidity, and the tick itself or the one below it as the current tick. */
  lemma CrossTickSucceeds(pool: UniswapV3Pool, tick: InitializedTick, direction: SwapDirection)
    ensures CrossTick(pool, tick, direction).Success?
       <==> match direction
            case OneForZero => 0 <= pool.liquidity + tick.liquidityNet < TWO_128
            case ZeroForOne =>
              && 0 <= pool.liquidity - tick.liquidityNet < TWO_128
              && -TWO_127 < tick.liquidityNet && -0x8000_0000 < tick.index
    ensures CrossTick(pool, tick, direction).Success? <==> Crossable(pool.liquidity, tick, direction)
    ensures CrossTick(pool, tick, direction).Failure? ==>
              CrossTick(pool, tick, direction) == Failure(ArithmeticOverflow)
    ensures CrossTick(pool, tick, direction).Success? ==>
              var crossed := CrossTick(pool, tick, direction).value;
              && crossed.key == pool.key && crossed.ticks == pool.ticks && crossed.sqrtPrice == tick.sqrtPrice
              && crossed.liquidity == (match direction
                                       case OneForZero => pool.liquidity + tick.liquidityNet
                                       case ZeroForOne => pool.liquidity - tick.liquidityNet)
              && crossed.currentTick == (match direction
                                         case OneForZero => tick.index
                                         case ZeroForOne => tick.index - 1)
  {
  }

  /** How many initialized ticks the swap still has in front of it. */
  function TicksAhead(pool: UniswapV3Pool, direction: SwapDirection): nat {
    if direction.OneForZero? then |pool.ticks| - TicksBelow(pool) else TicksBelow(pool)
  }

  /** The liquidity below all ticks: what is left when every net amount at or below the current
      tick is taken away. */
  function NetBelow(ticks: seq<InitializedTick>, k: nat): int
    requires k <= |ticks|
  {
    if k == 0 then 0 else NetBelow(ticks, k - 1) + ticks[k - 1].liquidityNet
  }

  function BaseLiquidity(pool: UniswapV3Pool): int {
    pool.liquidity - NetBelow(pool.ticks, TicksBelow(pool))
  }

  lemma CrossedPosition(pool: UniswapV3Pool, direction: SwapDirection, crossed: UniswapV3Pool)
    requires TicksSorted(pool.ticks) && NextInitializedTick(pool, direction).Some?
    requires CrossTick(pool, NextInitializedTick(pool, direction).value, direction) == Success(crossed)
    ensures TicksBelow(crossed) == (if direction.OneForZero? then TicksBelow(pool) + 1 else TicksBelow(pool) - 1)
    ensures InPlace(crossed)
  {
    hide PartitionPoint;
    var k := TicksBelow(pool);
    TicksBelowExact(crossed, if direction.OneForZero? then k + 1 else k - 1);
  }

  /** Crossing moves past exactly one tick and keeps the base liquidity. */
  lemma CrossTickExact(pool: UniswapV3Pool, direction: SwapDirection)
    requires TicksSorted(pool.ticks) && NextInitializedTick(pool, direction).Some?
    requires CrossTick(pool, NextInitializedTick(pool, direction).value, direction).Success?
    ensures var crossed := CrossTick(pool, NextInitializedTick(pool, direction).value, direction).value;
            && TicksBelow(crossed) == (if direction.OneForZero? then TicksBelow(pool) + 1 else TicksBelow(pool) - 1)
            && BaseLiquidity(crossed) == BaseLiquidity(pool)
            && InPlace(crossed)
  {
    hide TicksSorted, TicksBelow;
    var k := TicksBelow(pool);
    var crossed := CrossTick(pool, NextInitializedTick(pool, direction).value, direction).value;
    CrossedPosition(pool, direction, crossed);
  }

  /** The swap loop from any of its states: the pool so far, the input left, the output so far. */
  function SwapLoop(pool: UniswapV3Pool, direction: SwapDirection, remaining: u256, total: u256)
    : (outcome: Outcome<SwapOutcome>)
    requires TicksSorted(pool.ticks)
    ensures outcome.Success? ==> outcome.value.nextPool.ticks == pool.ticks && outcome.value.nextPool.key == pool.key
    decreases TicksAhead(pool, direction), 2
  {
    if remaining == 0 then Success(SwapOutcome(pool, total)) else TowardsNextTick(pool, direction, remaining, total)
  }

  /** The loop body: nothing can be swapped past the outermost tick. */
  function TowardsNextTick(pool: UniswapV3Pool, direction: SwapDirection, remaining: u256, total: u256)
    : (outcome: Outcome<SwapOutcome>)
    requires TicksSorted(pool.ticks)
    ensures outcome.Success? ==> outcome.value.nextPool.ticks == pool.ticks && outcome.value.nextPool.key == pool.key
    decreases TicksAhead(pool, direction), 1
  {
    match NextInitializedTick(pool, direction)
    case None => Failure(Unsupported)
    case Some(boundary) => TakeStep(pool, boundary, direction, remaining, total)
  }

  /** One step towards the tick ahead, and the rest of the loop if the step reaches it. */
  function TakeStep(pool: UniswapV3Pool, boundary: InitializedTick, direction: SwapDirection,
                    remaining: u256, total: u256): (outcome: Outcome<SwapOutcome>)
    requires TicksSorted(pool.ticks) && NextInitializedTick(pool, direction) == Some(boundary)
    ensures outcome.Success? ==> outcome.value.nextPool.ticks == pool.ticks && outcome.value.nextPool.key == pool.key
    decreases TicksAhead(pool, direction), 0
  {
    var step :- ComputeSwapStep(pool.sqrtPrice, boundary.sqrtPrice, pool.liquidity, remaining,
                                pool.key.feePips, direction);
    var consumed :- CheckedAdd(step.amountIn, step.feeAmount);
    var left :- CheckedSub(remaining, consumed);
    var paid :- CheckedAdd(total, step.amountOut);
    if step.priceNext == boundary.sqrtPrice then
      var crossed :- CrossTick(pool, boundary, direction);
      CrossTickExact(pool, direction);
      SwapLoop(crossed, direction, left, paid)
    else Success(SwapOutcome(pool.(sqrtPrice := step.priceNext), paid))
  }

  /** The loop with input left and a tick ahead is its next step. */
  lemma LoopTakesStep(pool: UniswapV3Pool, direction: SwapDirection, remaining: u256, total: u256)
    requires TicksSorted(pool.ticks) && remaining > 0
    ensures NextInitializedTick(pool, direction) == None ==>
              SwapLoop(pool, direction, remaining, total) == Failure(Unsupported)
    ensures NextInitializedTick(pool, direction).Some? ==>
              SwapLoop(pool, direction, remaining, total)
              == TakeStep(pool, NextInitializedTick(pool, direction).value, direction, remaining, total)
  {
    hide TakeStep, TicksSorted, TicksBelow;
    assert SwapLoop(pool, direction, remaining, total) == TowardsNextTick(pool, direction, remaining, total);
  }

  /** A whole exact-input swap, as a function of the pool and the input. */
  function Swap(pool: UniswapV3Pool, direction: SwapDirection, amountIn: u128): (swapped: Outcome<SwapOutcome>)
    requires TicksSorted(pool.ticks)
    ensures swapped.Success? ==> swapped.value.nextPool.ticks == pool.ticks && swapped.value.nextPool.key == pool.key
    ensures swapped.Success? ==> swapped.value.amountOut < TWO_128
  {
    if amountIn == 0 then Failure(InvalidInput("amount in must be positive")) else
    var outcome :- SwapLoop(pool, direction, amountIn, 0);
    var amountOut :- ToU128(outcome.amountOut);
    Success(SwapOutcome(outcome.nextPool, amountOut))
  }

  method SwapExactInput(pool: UniswapV3Pool, direction: SwapDirection, amountIn: u128)
      returns (result: Outcome<SwapOutcome>)
    requires TicksSorted(pool.ticks)
    ensures result == Swap(pool, direction, amountIn)
  {
    if amountIn == 0 {
      return Failure(InvalidInput("amount in must be positive"));
    }
    hide ComputeSwapStep, TicksSorted, TicksBelow;
    var state := pool;
    var amountRemaining: u256, amountOutTotal: u256 := amountIn, 0;
    while amountRemaining > 0
      invariant TicksSorted(state.ticks)
      invariant SwapLoop(pool, direction, amountIn, 0) == SwapLoop(state, direction, amountRemaining, amountOutTotal)
      decreases TicksAhead(state, direction)
    {
      LoopTakesStep(state, direction, amountRemaining, amountOutTotal);
      var next := NextInitializedTick(state, direction);
      if next == None {
        return Failure(Unsupported);
      }
      var boundary := next.value;
      var step :- ComputeSwapStep(state.sqrtPrice, boundary.sqrtPrice, state.liquidity, amountRemaining,
                                  state.key.feePips, direction);
      var amountConsumed :- CheckedAdd(step.amountIn, step.feeAmount);
      var left :- CheckedSub(amountRemaining, amountConsumed);
      var paid :- CheckedAdd(amountOutTotal, step.amountOut);
      amountRemaining, amountOutTotal := left, paid;
      if step.priceNext == boundary.sqrtPrice {
        var crossed :- CrossTick(state, boundary, direction);
        CrossTickExact(state, direction);
        state := crossed;
      } else {
        state := state.(sqrtPrice := step.priceNext);
        break;
      }
    }
    var amountOut :- ToU128(amountOutTotal);
    result := Success(SwapOutcome(state, amountOut));
  }
}
