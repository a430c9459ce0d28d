/** The exact token reserves behind every price of a pool, and what they bound: over any
    sequence of swaps, in any directions, traders pay in at least the growth of each reserve,
    so no sequence takes one token out without putting the other in. */
module Reserves {
  import opened Words
  import opened Rounding
  import opened Curve
  import opened Pool
  import opened Range
  import opened SwapLaws

  datatype Token = Token0 | Token1

  /** Per unit of liquidity, how much of token 1 a price is worth, or how much of token 0 it is
      short of. Both grow with the price. */
  ghost function Mark(token: Token, price: nat): real
    requires 0 < price
  {
    match token
    case Token0 => -(TWO_96 as real / price as real)
    case Token1 => price as real / TWO_96 as real
  }

  lemma MarkIncreases(token: Token, p: nat, q: nat)
    requires 0 < p < q
    ensures Mark(token, p) < Mark(token, q)
  {
    if token == Token0 {
      var x, y, k := p as real, q as real, TWO_96 as real;
      assert k / x - k / y == k * (y - x) / (x * y);
    }
  }

  lemma Token0Difference(lower: nat, upper: nat)
    requires 0 < lower <= upper
    ensures Mark(Token0, upper) - Mark(Token0, lower) == (TWO_96 * (upper - lower)) as real / (lower * upper) as real
  {
    var x, y, k := lower as real, upper as real, TWO_96 as real;
    assert (lower * upper) as real == x * y;
    assert k / x - k / y == k * (y - x) / (x * y);
  }

  lemma Token1Difference(lower: nat, upper: nat)
    requires 0 < lower <= upper
    ensures Mark(Token1, upper) - Mark(Token1, lower) == (upper - lower) as real / TWO_96 as real
  {
  }

  // ----- One range

  /** How much the reserve of a token grows when one unit of liquidity carries a price between
      two points, in either direction. */
  ghost function Growth(token: Token, from: nat, to: nat): real
    requires 0 < from && 0 < to
  {
    if token == Token0 then Mark(token, from) - Mark(token, to) else Mark(token, to) - Mark(token, from)
  }

  /** A difference of marks, for a whole liquidity. */
  ghost function Scale(liquidity: nat, x: real): real {
    liquidity as real * x
  }

  lemma Requotient(l: real, x: real, y: real)
    requires y > 0.0
    ensures l * (x / y) * y == l * x
  {
    var q := x / y;
    assert q * y == x;
    assert l * q * y == l * (q * y);
  }

  lemma RealPositive(a: real, b: real)
    requires a > 0.0 && b > 0.0
    ensures a * b > 0.0
  {
  }

  lemma RealStrict(a: real, b: real, c: real)
    requires a < b && c > 0.0
    ensures a * c < b * c
  {
    RealPositive(b - a, c);
    assert (b - a) * c == b * c - a * c;
  }

  lemma RealCancel(a: real, b: real, c: real)
    requires a * c <= b * c && c > 0.0
    ensures a <= b
  {
    if b < a {
      RealStrict(b, a, c);
    }
  }

  lemma Between(l: real, x: real, y: real, low: real, high: real)
    requires y > 0.0 && low * y <= l * x <= high * y
    ensures low <= l * (x / y) <= high
  {
    Requotient(l, x, y);
    RealCancel(low, l * (x / y), y);
    RealCancel(l * (x / y), high, y);
  }

  lemma ProductAsReal(a: nat, b: nat)
    ensures (a * b) as real == a as real * b as real
  {
  }

  lemma RealQuotient(liquidity: nat, m: nat, d: nat, low: nat, high: nat)
    requires d > 0 && low * d <= liquidity * m <= high * d
    ensures low as real <= liquidity as real * (m as real / d as real) <= high as real
  {
    ProductAsReal(low, d);
    ProductAsReal(liquidity, m);
    ProductAsReal(high, d);
    Between(liquidity as real, m as real, d as real, low as real, high as real);
  }

  lemma Token0Bounds(lower: nat, upper: nat, liquidity: nat)
    requires 0 < lower <= upper
    ensures Token0Down(lower, upper, liquidity) as real <= Scale(liquidity, Mark(Token0, upper) - Mark(Token0, lower))
    ensures Scale(liquidity, Mark(Token0, upper) - Mark(Token0, lower)) <= Token0Up(lower, upper, liquidity) as real
  {
    hide Mark, CeilDiv;
    var n, m, d := liquidity * TWO_96 * (upper - lower), TWO_96 * (upper - lower), lower * upper;
    MulPositive(lower, upper);
    FloorGalois(n, d, n / d);
    CeilGalois(n, d, CeilDiv(n, d));
    Token0Difference(lower, upper);
    assert n == liquidity * m;
    RealQuotient(liquidity, m, d, n / d, CeilDiv(n, d));
  }

  lemma Token1Bounds(lower: nat, upper: nat, liquidity: nat)
    requires 0 < lower <= upper
    ensures Token1Down(lower, upper, liquidity) as real <= Scale(liquidity, Mark(Token1, upper) - Mark(Token1, lower))
    ensures Scale(liquidity, Mark(Token1, upper) - Mark(Token1, lower)) <= Token1Up(lower, upper, liquidity) as real
  {
    hide Mark, CeilDiv;
    var n := liquidity * (upper - lower);
    FloorGalois(n, TWO_96, n / TWO_96);
    CeilGalois(n, TWO_96, CeilDiv(n, TWO_96));
    Token1Difference(lower, upper);
    RealQuotient(liquidity, upper - lower, TWO_96, n / TWO_96, CeilDiv(n, TWO_96));
  }

  ghost function TokenIn(direction: SwapDirection): Token {
    if direction.OneForZero? then Token1 else Token0
  }

  ghost function TokenOut(direction: SwapDirection): Token {
    if direction.OneForZero? then Token0 else Token1
  }

  lemma Negate(liquidity: nat, a: real, b: real)
    ensures -Scale(liquidity, a - b) == Scale(liquidity, b - a)
  {
  }

  /** Inside one range the pool asks at least for the growth of the reserve it is paid in, and
      pays at most the shrinkage of the other. */
  lemma RangeBounds(direction: SwapDirection, from: nat, to: nat, liquidity: nat)
    requires 0 < from && 0 < to && Ahead(direction, from, to)
    ensures Scale(liquidity, Growth(TokenIn(direction), from, to)) <= AmountIn(direction, from, to, liquidity) as real
    ensures AmountOut(direction, from, to, liquidity) as real
         <= -Scale(liquidity, Growth(TokenOut(direction), from, to))
  {
    hide Mark, Token0Up, Token0Down, Token1Up, Token1Down, Scale;
    if direction.OneForZero? {
      Token0Bounds(from, to, liquidity);
      Token1Bounds(from, to, liquidity);
      Negate(liquidity, Mark(Token0, from), Mark(Token0, to));
    } else {
      Token0Bounds(to, from, liquidity);
      Token1Bounds(to, from, liquidity);
      Negate(liquidity, Mark(Token1, to), Mark(Token1, from));
    }
  }

  // ----- All ranges

  /** The price, kept between two ticks. */
  ghost function Clamp(price: nat, lower: nat, upper: nat): nat {
    if price < lower then lower else if upper < price then upper else price
  }

  /** The liquidity of the range behind tick k; a sum below zero belongs to a range no swap can
      enter, and counts as none. */
  ghost function RangeLiquidity(ticks: seq<InitializedTick>, base: int, k: nat): nat
    requires k <= |ticks|
  {
    var liquidity := base + NetBelow(ticks, k);
    if liquidity < 0 then 0 else liquidity
  }

  /** What range k adds to the mark of a token at a price. */
  ghost function RangeHeld(token: Token, ticks: seq<InitializedTick>, base: int, k: nat, price: nat): real
    requires TicksSorted(ticks) && 0 < k < |ticks|
  {
    Scale(RangeLiquidity(ticks, base, k),
          Mark(token, Clamp(price, ticks[k - 1].sqrtPrice, ticks[k].sqrtPrice)) - Mark(token, ticks[k - 1].sqrtPrice))
  }

  ghost function Held(token: Token, ticks: seq<InitializedTick>, base: int, m: nat, price: nat): real
    requires TicksSorted(ticks) && m < |ticks|
  {
    if m == 0 then 0.0 else Held(token, ticks, base, m - 1, price) + RangeHeld(token, ticks, base, m, price)
  }

  /** The reserve of a token, up to a constant of the tick list. */
  ghost function Reserve(token: Token, ticks: seq<InitializedTick>, base: int, price: nat): real
    requires TicksSorted(ticks)
  {
    if token == Token0 then -Held(token, ticks, base, |ticks| - 1, price)
    else Held(token, ticks, base, |ticks| - 1, price)
  }

  lemma Telescope(liquidity: nat, a: real, b: real, c: real)
    ensures Scale(liquidity, c - a) - Scale(liquidity, b - a) == Scale(liquidity, c - b)
  {
  }

  lemma RangeShift(token: Token, ticks: seq<InitializedTick>, base: int, m: nat, k: nat, p: nat, q: nat)
    requires TicksSorted(ticks) && 0 < m < |ticks| && 0 < k < |ticks|
    requires ticks[k - 1].sqrtPrice <= p <= ticks[k].sqrtPrice && ticks[k - 1].sqrtPrice <= q <= ticks[k].sqrtPrice
    ensures RangeHeld(token, ticks, base, m, q) - RangeHeld(token, ticks, base, m, p)
         == if m != k then 0.0 else Scale(RangeLiquidity(ticks, base, k), Mark(token, q) - Mark(token, p))
  {
    hide RangeLiquidity, Mark, Scale;
    if m == k {
      Telescope(RangeLiquidity(ticks, base, k), Mark(token, ticks[k - 1].sqrtPrice), Mark(token, p), Mark(token, q));
    }
  }

  /** A move inside range k changes only what range k holds. */
  lemma {:induction false} HeldShift(token: Token, ticks: seq<InitializedTick>, base: int, m: nat, k: nat,
                                     p: nat, q: nat)
    requires TicksSorted(ticks) && m < |ticks| && 0 < k < |ticks|
    requires ticks[k - 1].sqrtPrice <= p <= ticks[k].sqrtPrice && ticks[k - 1].sqrtPrice <= q <= ticks[k].sqrtPrice
    ensures Held(token, ticks, base, m, q) - Held(token, ticks, base, m, p)
         == if m < k then 0.0 else Scale(RangeLiquidity(ticks, base, k), Mark(token, q) - Mark(token, p))
  {
    hide RangeHeld, RangeLiquidity, Mark, Scale;
    if m > 0 {
      HeldShift(token, ticks, base, m - 1, k, p, q);
      RangeShift(token, ticks, base, m, k, p, q);
    }
  }

  lemma ScaleOrder(liquidity: nat, x: real, y: real)
    requires x < y
    ensures Scale(liquidity, x) <= Scale(liquidity, y)
    ensures Scale(liquidity, x) == Scale(liquidity, y) <==> liquidity == 0
  {
    var l := liquidity as real;
    assert l * y - l * x == l * (y - x);
    if liquidity > 0 {
      RealPositive(l, y - x);
    }
  }

  lemma TermTogether(liquidity: nat, a: nat, b: nat, x: real, y: real)
    requires 0 < a <= b
    ensures Scale(liquidity, Mark(Token0, a) - x) <= Scale(liquidity, Mark(Token0, b) - x)
    ensures Scale(liquidity, Mark(Token1, a) - y) <= Scale(liquidity, Mark(Token1, b) - y)
    ensures Scale(liquidity, Mark(Token0, a) - x) == Scale(liquidity, Mark(Token0, b) - x) <==> liquidity == 0 || a == b
    ensures Scale(liquidity, Mark(Token1, a) - y) == Scale(liquidity, Mark(Token1, b) - y) <==> liquidity == 0 || a == b
  {
    hide Mark, Scale;
    if a < b {
      MarkIncreases(Token0, a, b);
      MarkIncreases(Token1, a, b);
      ScaleOrder(liquidity, Mark(Token0, a) - x, Mark(Token0, b) - x);
      ScaleOrder(liquidity, Mark(Token1, a) - y, Mark(Token1, b) - y);
    }
  }

  lemma RangeTogether(ticks: seq<InitializedTick>, base: int, k: nat, p: nat, q: nat)
    requires TicksSorted(ticks) && 0 < k < |ticks| && p <= q
    ensures RangeHeld(Token0, ticks, base, k, p) <= RangeHeld(Token0, ticks, base, k, q)
    ensures RangeHeld(Token1, ticks, base, k, p) <= RangeHeld(Token1, ticks, base, k, q)
    ensures RangeHeld(Token0, ticks, base, k, p) == RangeHeld(Token0, ticks, base, k, q)
       <==> RangeHeld(Token1, ticks, base, k, p) == RangeHeld(Token1, ticks, base, k, q)
  {
    hide Mark, RangeLiquidity, Scale;
    var lower, upper := ticks[k - 1].sqrtPrice, ticks[k].sqrtPrice;
    TermTogether(RangeLiquidity(ticks, base, k), Clamp(p, lower, upper), Clamp(q, lower, upper),
                 Mark(Token0, lower), Mark(Token1, lower));
  }

  /** The two marks move together: neither falls while the other rises, and if one stands still
      so does the other. */
  lemma {:induction false} HeldTogether(ticks: seq<InitializedTick>, base: int, m: nat, p: nat, q: nat)
    requires TicksSorted(ticks) && m < |ticks| && p <= q
    ensures Held(Token0, ticks, base, m, p) <= Held(Token0, ticks, base, m, q)
    ensures Held(Token1, ticks, base, m, p) <= Held(Token1, ticks, base, m, q)
    ensures Held(Token0, ticks, base, m, p) == Held(Token0, ticks, base, m, q)
       <==> Held(Token1, ticks, base, m, p) == Held(Token1, ticks, base, m, q)
  {
    hide RangeHeld;
    if m > 0 {
      HeldTogether(ticks, base, m - 1, p, q);
      RangeTogether(ticks, base, m, p, q);
    }
  }

  ghost function PoolReserve(token: Token, pool: UniswapV3Pool): real
    requires TicksSorted(pool.ticks)
  {
    Reserve(token, pool.ticks, BaseLiquidity(pool), pool.sqrtPrice)
  }

  /** The two reserves of one pool, at two of its prices, never both shrink: if one is no larger
      the other is no smaller. */
  lemma ReservesOppose(ticks: seq<InitializedTick>, base: int, before: nat, after: nat)
    requires TicksSorted(ticks)
    ensures Reserve(Token0, ticks, base, after) <= Reserve(Token0, ticks, base, before)
        ==> Reserve(Token1, ticks, base, before) <= Reserve(Token1, ticks, base, after)
    ensures Reserve(Token1, ticks, base, after) <= Reserve(Token1, ticks, base, before)
        ==> Reserve(Token0, ticks, base, before) <= Reserve(Token0, ticks, base, after)
  {
    hide Held;
    if before <= after {
      HeldTogether(ticks, base, |ticks| - 1, before, after);
    } else {
      HeldTogether(ticks, base, |ticks| - 1, after, before);
    }
  }

  // ----- One turn, one swap

  lemma ScaleZero(liquidity: nat, x: real)
    requires x == 0.0
    ensures Scale(liquidity, x) == 0.0
  {
  }

  lemma HeldMoves(pool: UniswapV3Pool, direction: SwapDirection, token: Token, to: nat)
    requires Faces(pool, direction) && Ahead(direction, pool.sqrtPrice, to)
    requires Ahead(direction, to, BoundaryPrice(pool, direction))
    ensures 0 < to
    ensures var ticks, base := pool.ticks, BaseLiquidity(pool);
            Held(token, ticks, base, |ticks| - 1, to) - Held(token, ticks, base, |ticks| - 1, pool.sqrtPrice)
            == Scale(pool.liquidity, Mark(token, to) - Mark(token, pool.sqrtPrice))
  {
    hide Held, Mark, TicksBelow, Scale;
    var k, p := TicksBelow(pool), pool.sqrtPrice;
    if 0 < k < |pool.ticks| {
      HeldShift(token, pool.ticks, BaseLiquidity(pool), |pool.ticks| - 1, k, p, to);
      assert RangeLiquidity(pool.ticks, BaseLiquidity(pool), k) == pool.liquidity;
    } else {
      ScaleZero(pool.liquidity, Mark(token, to) - Mark(token, p));
    }
  }

  /** While the price stays within the range ahead, each reserve grows by the liquidity times the
      growth per unit. */
  lemma MoveGrowth(pool: UniswapV3Pool, direction: SwapDirection, token: Token, to: nat)
    requires Faces(pool, direction) && Ahead(direction, pool.sqrtPrice, to)
    requires Ahead(direction, to, BoundaryPrice(pool, direction))
    ensures 0 < to
    ensures Reserve(token, pool.ticks, BaseLiquidity(pool), to) - PoolReserve(token, pool)
         == Scale(pool.liquidity, Growth(token, pool.sqrtPrice, to))
  {
    hide Held, Mark, Faces, BaseLiquidity, Ahead, Scale;
    HeldMoves(pool, direction, token, to);
    Negate(pool.liquidity, Mark(token, to), Mark(token, pool.sqrtPrice));
  }

  /** The exact curve amounts of a move within the range bound the change of both reserves. */
  lemma MoveBounds(pool: UniswapV3Pool, direction: SwapDirection, to: nat)
    requires Faces(pool, direction) && Ahead(direction, pool.sqrtPrice, to)
    requires Ahead(direction, to, BoundaryPrice(pool, direction))
    ensures 0 < to
    ensures Reserve(TokenIn(direction), pool.ticks, BaseLiquidity(pool), to) - PoolReserve(TokenIn(direction), pool)
         <= AmountIn(direction, pool.sqrtPrice, to, pool.liquidity) as real
    ensures AmountOut(direction, pool.sqrtPrice, to, pool.liquidity) as real
         <= PoolReserve(TokenOut(direction), pool) - Reserve(TokenOut(direction), pool.ticks, BaseLiquidity(pool), to)
  {
    hide Faces, Ahead, AmountIn, AmountOut, Reserve, PoolReserve, Growth, TokenIn, TokenOut, Scale;
    MoveGrowth(pool, direction, TokenIn(direction), to);
    MoveGrowth(pool, direction, TokenOut(direction), to);
    var _ := BoundaryPrice(pool, direction);
    RangeBounds(direction, pool.sqrtPrice, to, pool.liquidity);
  }

  lemma CrossBounds(pool: UniswapV3Pool, direction: SwapDirection)
    requires CanCross(pool, direction)
    ensures PoolReserve(TokenIn(direction), Behind(pool, direction)) - PoolReserve(TokenIn(direction), pool)
         <= RangeCost(pool, direction) as real
    ensures RangePay(pool, direction) as real
         <= PoolReserve(TokenOut(direction), pool) - PoolReserve(TokenOut(direction), Behind(pool, direction))
  {
    hide Faces, AmountIn, AmountOut, Reserve, TokenIn, TokenOut, Behind, BaseLiquidity;
    AheadOrder(direction, BoundaryPrice(pool, direction), BoundaryPrice(pool, direction), 0);
    MoveBounds(pool, direction, BoundaryPrice(pool, direction));
  }

  lemma FeeInRange(pool: UniswapV3Pool, direction: SwapDirection)
    requires Faces(pool, direction)
    ensures pool.key.feePips <= FEE_DENOMINATOR
  {
  }

  lemma StopBounds(pool: UniswapV3Pool, direction: SwapDirection, remaining: nat)
    requires Faces(pool, direction) && !Reaches(pool, direction, remaining)
    ensures var stopped := Stopped(pool, direction, remaining);
            && PoolReserve(TokenIn(direction), stopped) - PoolReserve(TokenIn(direction), pool) <= remaining as real
            && StopPay(pool, direction, remaining) as real
               <= PoolReserve(TokenOut(direction), pool) - PoolReserve(TokenOut(direction), stopped)
  {
    hide Faces, AmountIn, AmountOut, Reserve, TokenIn, TokenOut, StopPrice, LessFee, BaseLiquidity, NextPrice;
    var stopped := Stopped(pool, direction, remaining);
    MoveBounds(pool, direction, StopPrice(pool, direction, remaining));
    FeeInRange(pool, direction);
    LessFeeBound(remaining, pool.key.feePips);
  }

  /** A swap takes in at least the growth of the reserve it is paid in, and pays at most the
      shrinkage of the other, across all the ranges it crosses. */
  lemma {:induction false} SwapBounds(pool: UniswapV3Pool, direction: SwapDirection, remaining: u256, total: u256,
                                      after: UniswapV3Pool)
    requires WellPlaced(pool) && SwapLoop(pool, direction, remaining, total).Success?
    requires SwapLoop(pool, direction, remaining, total).value.nextPool == after
    ensures PoolReserve(TokenIn(direction), after) - PoolReserve(TokenIn(direction), pool) <= remaining as real
    ensures (SwapLoop(pool, direction, remaining, total).value.amountOut - total) as real
         <= PoolReserve(TokenOut(direction), pool) - PoolReserve(TokenOut(direction), after)
    decreases TicksAhead(pool, direction)
  {
    hide *;
    if remaining == 0 {
      LoopEnds(pool, direction, total);
    } else {
      LoopFaces(pool, direction, remaining, total);
      if Reaches(pool, direction, remaining) {
        IterationCrosses(pool, direction, remaining, total);
        CrossBounds(pool, direction);
        SwapBounds(Behind(pool, direction), direction,
                   remaining - RangeCost(pool, direction), total + RangePay(pool, direction), after);
      } else {
        IterationStops(pool, direction, remaining, total);
        StopBounds(pool, direction, remaining);
      }
    }
  }
}
