/** What any sequence of swaps on one pool can and cannot do. */
module Trades {
  import opened Words
  import opened Curve
  import opened FixedPoint
  import opened Pool
  import opened SwapLaws
  import opened Reserves

  datatype Trade = Trade(direction: SwapDirection, amountIn: u128)

  /** A pool after some trades, with the net amount of each token the traders have paid in. */
  datatype Ledger = Ledger(pool: UniswapV3Pool, paid0: int, paid1: int)

  function Book(ledger: Ledger, trade: Trade, outcome: SwapOutcome): Ledger {
    if trade.direction.ZeroForOne? then
      Ledger(outcome.nextPool, ledger.paid0 + trade.amountIn, ledger.paid1 - outcome.amountOut)
    else
      Ledger(outcome.nextPool, ledger.paid0 - outcome.amountOut, ledger.paid1 + trade.amountIn)
  }

  // ----- One swap

  /** A successful swap is a successful loop from a positive input. */
  lemma SwapIsLoop(pool: UniswapV3Pool, direction: SwapDirection, amountIn: u128)
    requires TicksSorted(pool.ticks) && Swap(pool, direction, amountIn).Success?
    ensures amountIn > 0 && SwapLoop(pool, direction, amountIn, 0) == Swap(pool, direction, amountIn)
    ensures Swap(pool, direction, amountIn).value.amountOut < TWO_128
  {
    hide SwapLoop;
  }

  /** A swap keeps the pool's identity, its ticks and the liquidity below all ticks, and moves
      its price only in its own direction. */
  lemma SwapKeeps(pool: UniswapV3Pool, direction: SwapDirection, amountIn: u128)
    requires WellPlaced(pool) && Swap(pool, direction, amountIn).Success?
    ensures var after := Swap(pool, direction, amountIn).value.nextPool;
            && after.key == pool.key && after.ticks == pool.ticks && TicksSorted(after.ticks) && WellPlaced(after)
            && BaseLiquidity(after) == BaseLiquidity(pool) && Ahead(direction, pool.sqrtPrice, after.sqrtPrice)
            && TicksAhead(after, direction) <= TicksAhead(pool, direction)
  {
    hide SwapLoop, Swap, Ahead, BaseLiquidity, TicksAhead;
    SwapIsLoop(pool, direction, amountIn);
    LoopPreserves(pool, direction, amountIn, 0);
  }

  /** A swap of a validated pool leaves a validated pool, except when it ended on the far side of
      the outermost tick, with no tick left in front of it. */
  lemma SwapKeepsValid(pool: UniswapV3Pool, direction: SwapDirection, amountIn: u128)
    requires Validate(pool).Success? && WellPlaced(pool) && Swap(pool, direction, amountIn).Success?
    ensures var after := Swap(pool, direction, amountIn).value.nextPool;
            Validate(after).Success? <==> NextInitializedTick(after, direction).Some?
  {
    hide Swap, SwapLoop, InPlace, TicksSorted, TicksBelow;
    SwapKeeps(pool, direction, amountIn);
    ValidateExact(pool);
    ValidateExact(Swap(pool, direction, amountIn).value.nextPool);
  }

  /** More input, no less output, and a price no less far along. */
  lemma SwapMonotone(pool: UniswapV3Pool, direction: SwapDirection, x: u128, y: u128)
    requires WellPlaced(pool) && x <= y && Swap(pool, direction, x).Success? && Swap(pool, direction, y).Success?
    ensures Swap(pool, direction, x).value.amountOut <= Swap(pool, direction, y).value.amountOut
    ensures Ahead(direction, Swap(pool, direction, x).value.nextPool.sqrtPrice,
                  Swap(pool, direction, y).value.nextPool.sqrtPrice)
  {
    hide Swap, SwapLoop, Ahead, TicksSorted, TicksBelow;
    SwapIsLoop(pool, direction, x);
    SwapIsLoop(pool, direction, y);
    LoopMonotone(pool, direction, x, 0, y, 0);
  }

  /** An input swapped in two parts, one after the other, is paid no more than when swapped at
      once: a trader behind another one shares at most what the joint input would have been paid. */
  lemma SwapSplit(pool: UniswapV3Pool, direction: SwapDirection, x: u128, y: u128, joint: u128, middle: UniswapV3Pool)
    requires WellPlaced(pool) && x + y <= joint
    requires Swap(pool, direction, x).Success? && Swap(pool, direction, x).value.nextPool == middle
    requires Swap(middle, direction, y).Success? && Swap(pool, direction, joint).Success?
    ensures Swap(pool, direction, x).value.amountOut + Swap(middle, direction, y).value.amountOut
         <= Swap(pool, direction, joint).value.amountOut
  {
    hide Swap, SwapLoop, Ahead, TicksSorted, TicksBelow;
    SwapIsLoop(pool, direction, x);
    SwapIsLoop(middle, direction, y);
    SwapIsLoop(pool, direction, joint);
    LoopSplit(pool, direction, x, 0, y, 0, joint, 0, middle);
  }

  // ----- Sequences of swaps

  /** Trades run one after another; one failure fails the sequence. */
  function RunTrades(ledger: Ledger, trades: seq<Trade>): Outcome<Ledger>
    requires WellPlaced(ledger.pool)
    decreases |trades|
  {
    hide Swap;
    if trades == [] then Success(ledger) else
    var outcome :- Swap(ledger.pool, trades[0].direction, trades[0].amountIn);
    SwapKeeps(ledger.pool, trades[0].direction, trades[0].amountIn);
    RunTrades(Book(ledger, trades[0], outcome), trades[1..])
  }

  lemma BookBounds(ledger: Ledger, trade: Trade, outcome: SwapOutcome)
    requires WellPlaced(ledger.pool)
    requires Swap(ledger.pool, trade.direction, trade.amountIn) == Success(outcome)
    ensures var booked := Book(ledger, trade, outcome);
            && PoolReserve(Token0, outcome.nextPool) - PoolReserve(Token0, ledger.pool)
               <= (booked.paid0 - ledger.paid0) as real
            && PoolReserve(Token1, outcome.nextPool) - PoolReserve(Token1, ledger.pool)
               <= (booked.paid1 - ledger.paid1) as real
  {
    hide Swap, SwapLoop, TicksSorted, TicksBelow, PoolReserve;
    SwapIsLoop(ledger.pool, trade.direction, trade.amountIn);
    SwapBounds(ledger.pool, trade.direction, trade.amountIn, 0, outcome.nextPool);
  }

  /** Over any sequence of swaps, in either direction, the liquidity less the net liquidity of
      the ticks at or below the current tick is constant, and the traders have paid in at least
      the growth of each reserve. */
  lemma {:induction false} TradesBounds(ledger: Ledger, trades: seq<Trade>, end: Ledger)
    requires WellPlaced(ledger.pool) && RunTrades(ledger, trades) == Success(end)
    ensures WellPlaced(end.pool) && end.pool.key == ledger.pool.key && end.pool.ticks == ledger.pool.ticks
    ensures BaseLiquidity(end.pool) == BaseLiquidity(ledger.pool)
    ensures PoolReserve(Token0, end.pool) - PoolReserve(Token0, ledger.pool) <= (end.paid0 - ledger.paid0) as real
    ensures PoolReserve(Token1, end.pool) - PoolReserve(Token1, ledger.pool) <= (end.paid1 - ledger.paid1) as real
    decreases |trades|
  {
    hide Swap, TicksSorted, TicksBelow, BaseLiquidity, PoolReserve;
    if trades != [] {
      var trade := trades[0];
      var outcome := Swap(ledger.pool, trade.direction, trade.amountIn).value;
      SwapKeeps(ledger.pool, trade.direction, trade.amountIn);
      BookBounds(ledger, trade, outcome);
      TradesBounds(Book(ledger, trade, outcome), trades[1..], end);
    }
  }

  /** No sequence of swaps on one pool takes out one token without putting in the other: traders
      who end up with no less of one token end up with no more of the other. */
  lemma NoFreeLunch(start: Ledger, trades: seq<Trade>, end: Ledger)
    requires WellPlaced(start.pool) && RunTrades(start, trades) == Success(end)
    ensures end.paid0 <= start.paid0 ==> end.paid1 >= start.paid1
    ensures end.paid1 <= start.paid1 ==> end.paid0 >= start.paid0
  {
    hide Swap, RunTrades, TicksSorted, TicksBelow, Reserve;
    TradesBounds(start, trades, end);
    ReservesOppose(start.pool.ticks, BaseLiquidity(start.pool), start.pool.sqrtPrice, end.pool.sqrtPrice);
  }

  /** A trade before a run of trades. */
  lemma OneMore(ledger: Ledger, trade: Trade, outcome: SwapOutcome, trades: seq<Trade>, end: Ledger)
    requires WellPlaced(ledger.pool) && Swap(ledger.pool, trade.direction, trade.amountIn) == Success(outcome)
    requires WellPlaced(outcome.nextPool)
    requires RunTrades(Book(ledger, trade, outcome), trades) == Success(end)
    ensures RunTrades(ledger, [trade] + trades) == Success(end)
  {
    hide Swap, TicksSorted, InPlace;
    assert ([trade] + trades)[1..] == trades;
  }

  /** After two swaps in one direction, any two swaps back that together bring at most what the
      first two were paid are together paid at most what those put in. */
  lemma PairThenTwoBack(pool: UniswapV3Pool, direction: SwapDirection, a: u128, b: u128, v: u128, w: u128,
                        first: SwapOutcome, second: SwapOutcome, third: SwapOutcome, fourth: SwapOutcome)
    requires WellPlaced(pool)
    requires Swap(pool, direction, a) == Success(first) && Swap(first.nextPool, direction, b) == Success(second)
    requires v + w <= first.amountOut + second.amountOut
    requires Swap(second.nextPool, direction.Opposite(), v) == Success(third)
    requires Swap(third.nextPool, direction.Opposite(), w) == Success(fourth)
    ensures third.amountOut + fourth.amountOut <= a + b
  {
    hide Swap, TicksSorted, InPlace;
    var back := direction.Opposite();
    var l0 := Ledger(pool, 0, 0);
    var l1 := Book(l0, Trade(direction, a), first);
    var l2 := Book(l1, Trade(direction, b), second);
    var l3 := Book(l2, Trade(back, v), third);
    var l4 := Book(l3, Trade(back, w), fourth);
    SwapKeeps(l0.pool, direction, a);
    SwapKeeps(l1.pool, direction, b);
    SwapKeeps(l2.pool, back, v);
    SwapKeeps(l3.pool, back, w);
    OneMore(l3, Trade(back, w), fourth, [], l4);
    OneMore(l2, Trade(back, v), third, [Trade(back, w)], l4);
    OneMore(l1, Trade(direction, b), second, [Trade(back, v), Trade(back, w)], l4);
    OneMore(l0, Trade(direction, a), first, [Trade(direction, b), Trade(back, v), Trade(back, w)], l4);
    NoFreeLunch(l0, [Trade(direction, a), Trade(direction, b), Trade(back, v), Trade(back, w)], l4);
  }

  /** After two swaps in one direction, any swap back of at most what they were paid is paid at
      most what they put in. */
  lemma PairThenBack(pool: UniswapV3Pool, direction: SwapDirection, a: u128, b: u128, w: u128,
                     first: SwapOutcome, second: SwapOutcome, back: SwapOutcome)
    requires WellPlaced(pool)
    requires Swap(pool, direction, a) == Success(first) && Swap(first.nextPool, direction, b) == Success(second)
    requires w <= first.amountOut + second.amountOut
    requires Swap(second.nextPool, direction.Opposite(), w) == Success(back)
    ensures back.amountOut <= a + b
  {
    hide Swap, TicksSorted, InPlace;
    var l0 := Ledger(pool, 0, 0);
    var l1 := Book(l0, Trade(direction, a), first);
    var l2 := Book(l1, Trade(direction, b), second);
    var last := Trade(direction.Opposite(), w);
    var l3 := Book(l2, last, back);
    SwapKeeps(l0.pool, direction, a);
    SwapKeeps(l1.pool, direction, b);
    SwapKeeps(l2.pool, last.direction, w);
    OneMore(l2, last, back, [], l3);
    OneMore(l1, Trade(direction, b), second, [last], l3);
    OneMore(l0, Trade(direction, a), first, [Trade(direction, b), last], l3);
    NoFreeLunch(l0, [Trade(direction, a), Trade(direction, b), last], l3);
  }

  /** Swapping an input and then the whole output back returns at most the input. */
  lemma RoundTrip(pool: UniswapV3Pool, direction: SwapDirection, x: u128, there: SwapOutcome, back: SwapOutcome)
    requires WellPlaced(pool) && Swap(pool, direction, x) == Success(there)
    requires Swap(there.nextPool, direction.Opposite(), there.amountOut) == Success(back)
    ensures back.amountOut <= x
  {
    hide Swap, TicksSorted, InPlace;
    var l0 := Ledger(pool, 0, 0);
    var l1 := Book(l0, Trade(direction, x), there);
    var last := Trade(direction.Opposite(), there.amountOut);
    var l2 := Book(l1, last, back);
    SwapKeeps(l0.pool, direction, x);
    SwapKeeps(l1.pool, last.direction, last.amountIn);
    OneMore(l1, last, back, [], l2);
    OneMore(l0, Trade(direction, x), there, [last], l2);
    NoFreeLunch(l0, [Trade(direction, x), last], l2);
  }
}
