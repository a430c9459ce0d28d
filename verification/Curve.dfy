/** The exact price curve of one liquidity range: how much of each token separates two
    square-root prices, which price an input reaches, and what the fee adds. Prices are
    scaled by 2^96. Nothing here can overflow; module FixedPoint ties the program's bounded
    arithmetic to it. Uniswap v3 Core whitepaper, section 6.2.3. */
module Curve {
  import opened Words
  import opened Rounding

  const FEE_DENOMINATOR: nat := 1_000_000

  datatype SwapDirection = ZeroForOne | OneForZero {
    function Opposite(): SwapDirection {
      if ZeroForOne? then OneForZero else ZeroForOne
    }
  }

  /** Price q is p, or lies beyond p in the direction the swap moves the price. */
  predicate Ahead(direction: SwapDirection, p: nat, q: nat) {
    if direction.OneForZero? then p <= q else q <= p
  }

  lemma AheadOrder(direction: SwapDirection, p: nat, q: nat, r: nat)
    ensures Ahead(direction, p, p)
    ensures Ahead(direction, p, q) && Ahead(direction, q, r) ==> Ahead(direction, p, r)
  {
  }

  function Token0Up(lower: nat, upper: nat, liquidity: nat): nat
    requires 0 < lower <= upper
  {
    MulPositive(lower, upper);
    CeilDiv(liquidity * TWO_96 * (upper - lower), lower * upper)
  }

  function Token0Down(lower: nat, upper: nat, liquidity: nat): nat
    requires 0 < lower <= upper
  {
    MulPositive(lower, upper);
    var n: nat, d: nat := liquidity * TWO_96 * (upper - lower), lower * upper;
    FloorGalois(n, d, 0);
    n / d
  }

  function Token1Up(lower: nat, upper: nat, liquidity: nat): nat
    requires lower <= upper
  {
    CeilDiv(liquidity * (upper - lower), TWO_96)
  }

  function Token1Down(lower: nat, upper: nat, liquidity: nat): nat
    requires lower <= upper
  {
    liquidity * (upper - lower) / TWO_96
  }

  /** What the pool asks for, rounded up, to move its price. */
  function AmountIn(direction: SwapDirection, from: nat, to: nat, liquidity: nat): nat
    requires 0 < from && 0 < to && Ahead(direction, from, to)
  {
    if direction.OneForZero? then Token1Up(from, to, liquidity) else Token0Up(to, from, liquidity)
  }

  /** What the pool pays, rounded down, when its price moves. */
  function AmountOut(direction: SwapDirection, from: nat, to: nat, liquidity: nat): nat
    requires 0 < from && 0 < to && Ahead(direction, from, to)
  {
    if direction.OneForZero? then Token0Down(from, to, liquidity) else Token1Down(to, from, liquidity)
  }

  function FallingPrice(price: nat, k: nat, amount: nat): nat
    requires 0 < price && 0 < k
  {
    CeilDiv(k * price, k + amount * price)
  }

  /** The price an input reaches inside one range, rounded against the trader. */
  function NextPrice(direction: SwapDirection, price: nat, liquidity: nat, amount: nat): nat
    requires 0 < price && 0 < liquidity
  {
    if direction.OneForZero? then price + amount * TWO_96 / liquidity
    else FallingPrice(price, liquidity * TWO_96, amount)
  }

  /** What is left of an input after the fee is set aside. */
  function LessFee(amount: nat, feePips: nat): nat
    requires feePips <= FEE_DENOMINATOR
  {
    amount * (FEE_DENOMINATOR - feePips) / FEE_DENOMINATOR
  }

  /** An input amount together with the fee charged on it when a range is used up. */
  function WithFee(amount: nat, feePips: nat): nat
    requires feePips < FEE_DENOMINATOR
  {
    amount + CeilDiv(amount * feePips, FEE_DENOMINATOR - feePips)
  }

  // ----- Fee laws

  lemma WithFeeGalois(amount: nat, input: nat, feePips: nat)
    requires feePips < FEE_DENOMINATOR
    ensures WithFee(amount, feePips) <= input <==> amount * feePips <= (input - amount) * (FEE_DENOMINATOR - feePips)
  {
    hide CeilDiv;
    CeilGalois(amount * feePips, FEE_DENOMINATOR - feePips, input - amount);
  }

  lemma LessFeeGalois(amount: nat, input: nat, feePips: nat)
    requires feePips <= FEE_DENOMINATOR
    ensures amount <= LessFee(input, feePips) <==> amount * FEE_DENOMINATOR <= input * (FEE_DENOMINATOR - feePips)
  {
    FloorGalois(input * (FEE_DENOMINATOR - feePips), FEE_DENOMINATOR, amount);
  }

  lemma Subtract(a: int, b: int, c: int)
    ensures (a - b) * c == a * c - b * c
  {
  }

  lemma FeeShift(amount: nat, input: nat, feePips: nat, keep: nat)
    requires feePips + keep == FEE_DENOMINATOR
    ensures amount * feePips <= (input - amount) * keep <==> amount * FEE_DENOMINATOR <= input * keep
  {
    assert amount * (feePips + keep) == amount * feePips + amount * keep;
    Subtract(input, amount, keep);
  }

  /** The fee taken on the way out and the fee set aside on the way in are adjoint: an input
      covers an amount plus its fee exactly when the input less its fee covers the amount. */
  lemma FeeAdjoint(amount: nat, input: nat, feePips: nat)
    requires feePips < FEE_DENOMINATOR
    ensures WithFee(amount, feePips) <= input <==> amount <= LessFee(input, feePips)
  {
    hide WithFee, LessFee;
    WithFeeGalois(amount, input, feePips);
    FeeShift(amount, input, feePips, FEE_DENOMINATOR - feePips);
    LessFeeGalois(amount, input, feePips);
  }

  lemma WithFeeSubadditive(a: nat, b: nat, feePips: nat)
    requires feePips < FEE_DENOMINATOR
    ensures WithFee(a + b, feePips) <= WithFee(a, feePips) + WithFee(b, feePips)
  {
    assert (a + b) * feePips == a * feePips + b * feePips;
    CeilSubadditive(a * feePips, b * feePips, FEE_DENOMINATOR - feePips);
  }

  lemma LessFeeSuperadditive(x: nat, y: nat, feePips: nat)
    requires feePips <= FEE_DENOMINATOR
    ensures LessFee(x, feePips) + LessFee(y, feePips) <= LessFee(x + y, feePips)
  {
    var keep := FEE_DENOMINATOR - feePips;
    assert (x + y) * keep == x * keep + y * keep;
    FloorSuperadditive(x * keep, y * keep, FEE_DENOMINATOR);
  }

  lemma LessFeeBound(x: nat, feePips: nat)
    requires feePips <= FEE_DENOMINATOR
    ensures LessFee(x, feePips) <= x
  {
    var keep := FEE_DENOMINATOR - feePips;
    FloorGalois(x * keep, FEE_DENOMINATOR, LessFee(x, feePips));
    MulOrder(keep, FEE_DENOMINATOR, if x > 0 then x else 1);
    MulOrder(x, LessFee(x, feePips), FEE_DENOMINATOR);
  }

  // ----- Adjacent pieces of one range

  lemma Spread(n: int, a: int, b: int, c: int)
    ensures n * (b - a) * c == n * (b * c) - n * (a * c)
  {
    assert (b - a) * c == b * c - a * c;
    assert n * (b - a) * c == n * ((b - a) * c);
  }

  lemma Regroup(x: int, a: int, b: int, c: int)
    ensures x * (a * b) * c == x * (a * c * b)
  {
    assert a * b * c == a * c * b;
    assert x * (a * b) * c == x * (a * b * c);
  }

  /** Cross-multiplied sum of the two reciprocal price differences over adjacent pieces. */
  lemma ReciprocalSum(n: nat, a: nat, b: nat, c: nat, x: int, y: int)
    ensures n * (b - a) * c + n * (c - b) * a == n * (c - a) * b
    ensures x * (a * b) * c + y * (b * c) * a == (x + y) * (a * c) * b
  {
    Spread(n, a, b, c);
    Spread(n, b, c, a);
    Spread(n, a, c, b);
    Regroup(x, a, b, c);
    Regroup(y, c, b, a);
    assert (x + y) * (a * c) * b == (x + y) * (a * c * b);
  }

  lemma Token0UpPieces(a: nat, b: nat, c: nat, liquidity: nat)
    requires 0 < a <= b <= c
    ensures Token0Up(a, c, liquidity) <= Token0Up(a, b, liquidity) + Token0Up(b, c, liquidity)
  {
    var n, x, y := liquidity * TWO_96, Token0Up(a, b, liquidity), Token0Up(b, c, liquidity);
    CeilGalois(n * (b - a), a * b, x);
    CeilGalois(n * (c - b), b * c, y);
    MulOrder(n * (b - a), x * (a * b), c);
    MulOrder(x * (a * b), n * (b - a), c);
    MulOrder(n * (c - b), y * (b * c), a);
    ReciprocalSum(n, a, b, c, x, y);
    MulOrder(n * (c - a), (x + y) * (a * c), b);
    CeilGalois(n * (c - a), a * c, x + y);
  }

  lemma Token0DownPieces(a: nat, b: nat, c: nat, liquidity: nat)
    requires 0 < a <= b <= c
    ensures Token0Down(a, b, liquidity) + Token0Down(b, c, liquidity) <= Token0Down(a, c, liquidity)
  {
    var n, x, y := liquidity * TWO_96, Token0Down(a, b, liquidity), Token0Down(b, c, liquidity);
    FloorGalois(n * (b - a), a * b, x);
    FloorGalois(n * (c - b), b * c, y);
    MulOrder(x * (a * b), n * (b - a), c);
    MulOrder(y * (b * c), n * (c - b), a);
    ReciprocalSum(n, a, b, c, x, y);
    MulOrder((x + y) * (a * c), n * (c - a), b);
    FloorGalois(n * (c - a), a * c, x + y);
  }

  /** Asking piecewise never asks for less than asking once: rounding favours the pool. */
  lemma AmountInPieces(direction: SwapDirection, p: nat, q: nat, r: nat, liquidity: nat)
    requires 0 < p && 0 < q && 0 < r && Ahead(direction, p, q) && Ahead(direction, q, r)
    ensures AmountIn(direction, p, r, liquidity)
         <= AmountIn(direction, p, q, liquidity) + AmountIn(direction, q, r, liquidity)
  {
    if direction.OneForZero? {
      assert liquidity * (r - p) == liquidity * (q - p) + liquidity * (r - q);
      CeilSubadditive(liquidity * (q - p), liquidity * (r - q), TWO_96);
    } else {
      Token0UpPieces(r, q, p, liquidity);
    }
  }

  /** Paying piecewise never pays more than paying once. */
  lemma AmountOutPieces(direction: SwapDirection, p: nat, q: nat, r: nat, liquidity: nat)
    requires 0 < p && 0 < q && 0 < r && Ahead(direction, p, q) && Ahead(direction, q, r)
    ensures AmountOut(direction, p, q, liquidity) + AmountOut(direction, q, r, liquidity)
         <= AmountOut(direction, p, r, liquidity)
  {
    if direction.OneForZero? {
      Token0DownPieces(p, q, r, liquidity);
    } else {
      assert liquidity * (p - r) == liquidity * (p - q) + liquidity * (q - r);
      FloorSuperadditive(liquidity * (p - q), liquidity * (q - r), TWO_96);
    }
  }

  // ----- The price an input reaches

  /** In the falling direction, a price n is reached by some amount exactly when the amount
      covers the exact reciprocal difference. */
  lemma FallingPriceGalois(n: nat, price: nat, k: nat, amount: nat)
    requires 0 < price && 0 < k
    ensures FallingPrice(price, k, amount) <= n <==> k * (price - n) <= amount * (price * n)
  {
    CeilGalois(k * price, k + amount * price, n);
    assert n * (k + amount * price) == n * k + amount * (price * n);
    assert k * (price - n) == k * price - n * k;
  }

  lemma PositiveLiquidity(direction: SwapDirection, price: nat, target: nat, liquidity: nat)
    requires 0 < price && 0 < target && Ahead(direction, price, target)
    requires 0 < AmountIn(direction, price, target, liquidity)
    ensures 0 < liquidity
  {
    if liquidity == 0 {
      assert liquidity * (target - price) == 0;
      assert liquidity * TWO_96 * (price - target) == 0;
      CeilGalois(0, TWO_96, 0);
      CeilGalois(0, target * price, 0);
    }
  }

  lemma RisingNoOvershoot(price: nat, target: nat, liquidity: nat, amount: nat)
    requires 0 < price <= target && 0 < liquidity
    requires amount < Token1Up(price, target, liquidity)
    ensures var next := price + amount * TWO_96 / liquidity;
            price <= next < target && Token1Up(price, next, liquidity) <= amount
  {
    var moved := amount * TWO_96 / liquidity;
    CeilGalois(liquidity * (target - price), TWO_96, amount);
    FloorGalois(amount * TWO_96, liquidity, target - price);
    FloorGalois(amount * TWO_96, liquidity, moved);
    CeilGalois(liquidity * moved, TWO_96, amount);
  }

  lemma PositiveProduct(a: nat, b: nat)
    requires 0 < a && 0 < b
    ensures 0 < a * b && a * b == b * a
  {
    MulPositive(a, b);
  }

  lemma AtStart(price: nat, k: nat, amount: nat)
    requires 0 < price && 0 < k
    ensures FallingPrice(price, k, amount) <= price
  {
    hide CeilDiv, FallingPrice;
    FallingPriceGalois(price, price, k, amount);
    assert k * (price - price) == 0;
  }

  lemma FallingNoOvershoot(price: nat, target: nat, liquidity: nat, amount: nat)
    requires 0 < target <= price && 0 < liquidity
    requires amount < Token0Up(target, price, liquidity)
    ensures var next := FallingPrice(price, liquidity * TWO_96, amount);
            target < next <= price && Token0Up(next, price, liquidity) <= amount
  {
    hide CeilDiv, FallingPrice;
    var k := liquidity * TWO_96;
    var next := FallingPrice(price, k, amount);
    FallingPriceGalois(target, price, k, amount);
    PositiveProduct(target, price);
    CeilGalois(k * (price - target), target * price, amount);
    AtStart(price, k, amount);
    FallingPriceGalois(next, price, k, amount);
    PositiveProduct(next, price);
    CeilGalois(k * (price - next), next * price, amount);
  }

  /** The price an input less than the range needs stays strictly short of the range end,
      never moves backwards, and is paid for by that input. */
  lemma NoOvershoot(direction: SwapDirection, price: nat, target: nat, liquidity: nat, amount: nat)
    requires 0 < price && 0 < target && Ahead(direction, price, target)
    requires amount < AmountIn(direction, price, target, liquidity)
    ensures 0 < liquidity
    ensures var next := NextPrice(direction, price, liquidity, amount);
            && 0 < next && next != target
            && Ahead(direction, price, next) && Ahead(direction, next, target)
            && AmountIn(direction, price, next, liquidity) <= amount
  {
    PositiveLiquidity(direction, price, target, liquidity);
    if direction.OneForZero? {
      RisingNoOvershoot(price, target, liquidity, amount);
    } else {
      FallingNoOvershoot(price, target, liquidity, amount);
    }
  }

  lemma MulMono(a: nat, b: nat, c: nat)
    requires a <= b
    ensures a * c <= b * c
  {
  }

  /** A larger input reaches a price at least as far along. */
  lemma NextPriceMono(direction: SwapDirection, price: nat, liquidity: nat, a: nat, b: nat)
    requires 0 < price && 0 < liquidity && a <= b
    ensures Ahead(direction, NextPrice(direction, price, liquidity, a), NextPrice(direction, price, liquidity, b))
  {
    if direction.OneForZero? {
      FloorMono(a * TWO_96, b * TWO_96, liquidity);
    } else {
      var k := liquidity * TWO_96;
      var next := NextPrice(direction, price, liquidity, a);
      FallingPriceGalois(next, price, k, a);
      FallingPriceGalois(next, price, k, b);
      MulMono(a, b, price * next);
    }
  }

  lemma FallingSplit(price: nat, k: nat, a: nat, b: nat, c: nat, first: nat, second: nat)
    requires 0 < second <= first <= price && 0 < k && a + b <= c
    requires first == FallingPrice(price, k, a)
    requires second == FallingPrice(first, k, b)
    ensures FallingPrice(price, k, c) <= second
  {
    FallingPriceGalois(first, price, k, a);
    FallingPriceGalois(second, first, k, b);
    MulOrder(k * (price - first), a * (price * first), second);
    MulOrder(a * (price * first), k * (price - first), second);
    MulOrder(k * (first - second), b * (first * second), price);
    MulOrder(b * (first * second), k * (first - second), price);
    ReciprocalSum(k, second, first, price, b, a);
    MulOrder((a + b) * (second * price), k * (price - second), first);
    MulMono(a + b, c, second * price);
    FallingPriceGalois(second, price, k, c);
  }

  /** Two inputs one after the other reach no further than one input worth both. */
  lemma NextPriceSplit(direction: SwapDirection, price: nat, liquidity: nat, a: nat, b: nat, c: nat)
    requires 0 < price && 0 < liquidity && a + b <= c
    requires var first := NextPrice(direction, price, liquidity, a);
             0 < first && Ahead(direction, price, first)
    requires var first := NextPrice(direction, price, liquidity, a);
             var second := NextPrice(direction, first, liquidity, b);
             0 < second && Ahead(direction, first, second)
    ensures var second := NextPrice(direction, NextPrice(direction, price, liquidity, a), liquidity, b);
            Ahead(direction, second, NextPrice(direction, price, liquidity, c))
  {
    var first := NextPrice(direction, price, liquidity, a);
    var second := NextPrice(direction, first, liquidity, b);
    if direction.OneForZero? {
      FloorSuperadditive(a * TWO_96, b * TWO_96, liquidity);
      FloorMono(a * TWO_96 + b * TWO_96, c * TWO_96, liquidity);
    } else {
      FallingSplit(price, liquidity * TWO_96, a, b, c, first, second);
    }
  }

  lemma LargerDivisor(n: nat, d: nat, e: nat)
    requires 0 < d <= e
    ensures n / e <= n / d
  {
    var x := n / e;
    FloorGalois(n, e, x);
    MulMono(d, e, x);
    FloorGalois(n, d, x);
  }

  lemma ProductMono(a: nat, b: nat, c: nat, d: nat)
    requires a <= b && c <= d
    ensures a * c <= b * d
  {
    MulMono(a, b, c);
    MulMono(c, d, b);
  }

  lemma LowerDenominator(n: nat, p: nat, q: nat, moved: nat)
    requires 0 < p <= q
    ensures p * (p + moved) > 0 && q * (q + moved) > 0
    ensures n / (q * (q + moved)) <= n / (p * (p + moved))
  {
    MulPositive(p, p + moved);
    MulPositive(q, q + moved);
    ProductMono(p, q, p + moved, q + moved);
    LargerDivisor(n, p * (p + moved), q * (q + moved));
  }

  lemma RisingHeadStart(price: nat, ahead: nat, liquidity: nat, moved: nat)
    requires 0 < price <= ahead
    ensures Token0Down(ahead, ahead + moved, liquidity) <= Token0Down(price, price + moved, liquidity)
  {
    LowerDenominator(liquidity * TWO_96 * moved, price, ahead, moved);
  }

  lemma Token1DownMono(a: nat, b: nat, c: nat, d: nat, liquidity: nat)
    requires a <= b && c <= d && b - a <= d - c
    ensures Token1Down(a, b, liquidity) <= Token1Down(c, d, liquidity)
  {
    MulMono(b - a, d - c, liquidity);
    FloorMono(liquidity * (b - a), liquidity * (d - c), TWO_96);
  }

  lemma SameGap(p: nat, q: nat, k: nat, amount: nat, c: nat, d: nat)
    requires q <= p && c <= d && q - c == p - d
    ensures k * (q - c) <= amount * (q * c) ==> k * (p - d) <= amount * (p * d)
  {
    ProductMono(q, p, c, d);
    MulMono(q * c, p * d, amount);
  }

  lemma FallingMovesLess(p: nat, q: nat, k: nat, amount: nat, next: nat, after: nat)
    requires 0 < q <= p && 0 < k && 0 < next <= p && 0 < after <= q
    requires next == FallingPrice(p, k, amount)
    requires after == FallingPrice(q, k, amount)
    ensures q - after <= p - next
  {
    var m := next - (p - q);
    if after < m {
      FallingPriceGalois(m - 1, q, k, amount);
      FallingPriceGalois(next - 1, p, k, amount);
      SameGap(p, q, k, amount, m - 1, next - 1);
    }
  }

  lemma FallingHeadStart(price: nat, ahead: nat, liquidity: nat, amount: nat)
    requires 0 < ahead <= price && 0 < liquidity
    requires 0 < NextPrice(ZeroForOne, price, liquidity, amount) <= price
    requires 0 < NextPrice(ZeroForOne, ahead, liquidity, amount) <= ahead
    ensures Token1Down(NextPrice(ZeroForOne, ahead, liquidity, amount), ahead, liquidity)
         <= Token1Down(NextPrice(ZeroForOne, price, liquidity, amount), price, liquidity)
  {
    var next, after := NextPrice(ZeroForOne, price, liquidity, amount), NextPrice(ZeroForOne, ahead, liquidity, amount);
    FallingMovesLess(price, ahead, liquidity * TWO_96, amount, next, after);
    Token1DownMono(after, ahead, next, price, liquidity);
  }

  /** Moving the price ahead first never improves what an input inside one range is paid. */
  lemma HeadStartHurts(direction: SwapDirection, price: nat, ahead: nat, liquidity: nat, amount: nat)
    requires 0 < price && 0 < ahead && 0 < liquidity && Ahead(direction, price, ahead)
    requires var next := NextPrice(direction, price, liquidity, amount);
             0 < next && Ahead(direction, price, next)
    requires var next := NextPrice(direction, ahead, liquidity, amount);
             0 < next && Ahead(direction, ahead, next)
    ensures AmountOut(direction, ahead, NextPrice(direction, ahead, liquidity, amount), liquidity)
         <= AmountOut(direction, price, NextPrice(direction, price, liquidity, amount), liquidity)
  {
    if direction.OneForZero? {
      RisingHeadStart(price, ahead, liquidity, amount * TWO_96 / liquidity);
    } else {
      FallingHeadStart(price, ahead, liquidity, amount);
    }
  }
}
