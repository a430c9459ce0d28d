/** The program's checked 256-bit arithmetic: every product is checked before it is divided,
    so an intermediate overflow is a failure even where the quotient would fit. */
module FixedPoint {
  import opened Words
  import opened Rounding
  import opened Curve

  datatype SimulationError =
    | Unsupported
    | StaleState
    | PoolNotFound
    | ArithmeticOverflow
    | InvalidInput(reason: string)

  type Outcome<+T> = Result<T, SimulationError>

  function CheckedMul(a: u256, b: u256): Outcome<u256> {
    if a * b < TWO_256 then Success(a * b) else Failure(ArithmeticOverflow)
  }

  function CheckedAdd(a: u256, b: u256): Outcome<u256> {
    if a + b < TWO_256 then Success(a + b) else Failure(ArithmeticOverflow)
  }

  function CheckedSub(a: u256, b: u256): Outcome<u256> {
    if b <= a then Success(a - b) else Failure(ArithmeticOverflow)
  }

  function ToU128(value: u256): Outcome<u128> {
    if value < TWO_128 then Success(value) else Failure(ArithmeticOverflow)
  }

  function Quotient(a: u256, d: u256): u256
    requires d > 0
  {
    FloorGalois(a, d, a / d);
    MulOrder(1, d, if a / d > 0 then a / d else 1);
    a / d
  }

  function MulDiv(a: u256, b: u256, denominator: u256): Outcome<u256> {
    if denominator == 0 then Failure(InvalidInput("division by zero")) else
    var product :- CheckedMul(a, b);
    Success(Quotient(product, denominator))
  }

  function DivRoundingUp(numerator: u256, denominator: u256): Outcome<u256> {
    if denominator == 0 then Failure(InvalidInput("division by zero")) else
    var quotient := Quotient(numerator, denominator);
    if numerator % denominator == 0 then Success(quotient) else CheckedAdd(quotient, 1)
  }

  function MulDivRoundingUp(a: u256, b: u256, denominator: u256): Outcome<u256> {
    if denominator == 0 then Failure(InvalidInput("division by zero")) else
    var product :- CheckedMul(a, b);
    var quotient := Quotient(product, denominator);
    if product % denominator == 0 then Success(quotient) else CheckedAdd(quotient, 1)
  }

  function Amount0Delta(a: u256, b: u256, liquidity: u128, roundUp: bool): Outcome<u256> {
    var (lower, upper) := if a <= b then (a, b) else (b, a);
    if lower == 0 then Failure(InvalidInput("sqrt price must be positive")) else
    var numerator1 := liquidity * TWO_96;
    var numerator2 :- CheckedSub(upper, lower);
    if roundUp then
      var inner :- MulDivRoundingUp(numerator1, numerator2, upper);
      DivRoundingUp(inner, lower)
    else
      var inner :- MulDiv(numerator1, numerator2, upper);
      Success(Quotient(inner, lower))
  }

  function Amount1Delta(a: u256, b: u256, liquidity: u128, roundUp: bool): Outcome<u256> {
    var (lower, upper) := if a <= b then (a, b) else (b, a);
    var diff :- CheckedSub(upper, lower);
    if roundUp then MulDivRoundingUp(liquidity, diff, TWO_96) else MulDiv(liquidity, diff, TWO_96)
  }

  function NextSqrtPriceFromAmount0(price: u256, liquidity: u128, amount: u256): Outcome<u256> {
    if amount == 0 then Success(price) else
    var numerator1 := liquidity * TWO_96;
    var product :- CheckedMul(amount, price);
    var denominator :- CheckedAdd(numerator1, product);
    var numerator :- CheckedMul(numerator1, price);
    DivRoundingUp(numerator, denominator)
  }

  function NextSqrtPriceFromAmount1(price: u256, liquidity: u128, amount: u256): Outcome<u256> {
    var quotient :- MulDiv(amount, TWO_96, liquidity);
    CheckedAdd(price, quotient)
  }

  // ----- Bounded arithmetic computes the exact curve whenever it does not fail

  lemma DivRoundingUpExact(n: u256, d: u256)
    requires d > 0
    ensures DivRoundingUp(n, d) == Success(CeilDiv(n, d))
  {
    CeilGalois(n, d, n);
    if n > 0 {
      MulOrder(1, d, n);
    }
  }

  /** The quotient of an in-range product only fails to round up at a divisor of zero. */
  lemma MulDivRoundingUpExact(a: u256, b: u256, d: u256)
    requires d > 0 && a * b < TWO_256
    ensures MulDivRoundingUp(a, b, d) == Success(CeilDiv(a * b, d))
  {
    var product: u256 := a * b;
    DivRoundingUpExact(product, d);
  }

  /** Products out of range fail, rounded up or down; the others are divided exactly. */
  lemma ProductsExact(a: u256, b: u256, d: u256)
    requires d > 0
    ensures a * b < TWO_256 ==> MulDivRoundingUp(a, b, d) == Success(CeilDiv(a * b, d))
    ensures a * b < TWO_256 ==> MulDiv(a, b, d).Success? && MulDiv(a, b, d).value == a * b / d
    ensures TWO_256 <= a * b ==> MulDivRoundingUp(a, b, d) == MulDiv(a, b, d) == Failure(ArithmeticOverflow)
  {
    hide CeilDiv;
    if a * b < TWO_256 {
      hide MulDivRoundingUp;
      MulDivRoundingUpExact(a, b, d);
    }
  }

  /** Dividing a product by two divisors in turn is dividing it once by both. */
  lemma TwoDivisors(a: u256, b: u256, first: u256, second: u256)
    requires first > 0 && second > 0 && a * b < TWO_256
    ensures second * first > 0
    ensures var inner := MulDivRoundingUp(a, b, first);
            inner.Success? && DivRoundingUp(inner.value, second) == Success(CeilDiv(a * b, second * first))
    ensures var inner := MulDiv(a, b, first);
            inner.Success? && Quotient(inner.value, second) == a * b / (second * first)
  {
    hide CeilDiv, MulDivRoundingUp, DivRoundingUp, MulDiv;
    ProductsExact(a, b, first);
    DivRoundingUpExact(MulDivRoundingUp(a, b, first).value, second);
    NestedCeil(a * b, first, second);
    NestedFloor(a * b, first, second);
  }

  /** A divisor of zero or a price of zero is refused before any product is computed. */
  lemma ZerosRefused(a: u256, b: u256, liquidity: u128, roundUp: bool)
    ensures MulDiv(a, b, 0) == MulDivRoundingUp(a, b, 0) == Failure(InvalidInput("division by zero"))
    ensures DivRoundingUp(a, 0) == Failure(InvalidInput("division by zero"))
    ensures Amount0Delta(a, 0, liquidity, roundUp) == Amount0Delta(0, a, liquidity, roundUp)
         == Failure(InvalidInput("sqrt price must be positive"))
  {
  }

  /** The two-stage token0 amount is one exactly rounded quotient, and it succeeds exactly when
      the first product fits in 256 bits. */
  lemma Amount0Exact(a: u256, b: u256, liquidity: u128)
    requires 0 < a <= b
    ensures Amount0Delta(a, b, liquidity, true).Success? <==> liquidity * TWO_96 * (b - a) < TWO_256
    ensures Amount0Delta(a, b, liquidity, false).Success? <==> liquidity * TWO_96 * (b - a) < TWO_256
    ensures Amount0Delta(a, b, liquidity, true).Success? ==>
              && Amount0Delta(a, b, liquidity, true).value == Token0Up(a, b, liquidity)
              && Amount0Delta(a, b, liquidity, false).value == Token0Down(a, b, liquidity)
    ensures Amount0Delta(b, a, liquidity, true) == Amount0Delta(a, b, liquidity, true)
    ensures Amount0Delta(b, a, liquidity, false) == Amount0Delta(a, b, liquidity, false)
  {
    hide CeilDiv, MulDivRoundingUp, DivRoundingUp, MulDiv, Quotient;
    var n: u256, m: u256 := liquidity * TWO_96, b - a;
    ProductsExact(n, m, b);
    if n * m < TWO_256 {
      TwoDivisors(n, m, b, a);
    }
  }

  lemma Amount1Exact(a: u256, b: u256, liquidity: u128)
    requires a <= b
    ensures Amount1Delta(a, b, liquidity, true).Success? <==> liquidity * (b - a) < TWO_256
    ensures Amount1Delta(a, b, liquidity, false).Success? <==> liquidity * (b - a) < TWO_256
    ensures Amount1Delta(a, b, liquidity, true).Success? ==>
              && Amount1Delta(a, b, liquidity, true).value == Token1Up(a, b, liquidity)
              && Amount1Delta(a, b, liquidity, false).value == Token1Down(a, b, liquidity)
    ensures Amount1Delta(b, a, liquidity, true) == Amount1Delta(a, b, liquidity, true)
    ensures Amount1Delta(b, a, liquidity, false) == Amount1Delta(a, b, liquidity, false)
  {
    var m: u256 := b - a;
    if liquidity * m < TWO_256 {
      MulDivRoundingUpExact(liquidity, m, TWO_96);
    }
  }

  /** Rounding a token0 amount up or down changes it by at most one unit. */
  lemma Amount0RoundingGap(a: u256, b: u256, liquidity: u128)
    requires 0 < a <= b && Amount0Delta(a, b, liquidity, true).Success?
    ensures var up, down := Amount0Delta(a, b, liquidity, true).value, Amount0Delta(a, b, liquidity, false).value;
            down <= up <= down + 1
  {
    Amount0Exact(a, b, liquidity);
    FloorCeilGap(liquidity * TWO_96 * (b - a), a * b);
  }

  lemma NextFromAmount0Exact(price: u256, liquidity: u128, amount: u256)
    requires 0 < price && 0 < liquidity
    requires NextSqrtPriceFromAmount0(price, liquidity, amount).Success?
    ensures NextSqrtPriceFromAmount0(price, liquidity, amount).value == NextPrice(ZeroForOne, price, liquidity, amount)
  {
    hide CeilDiv, DivRoundingUp, Quotient;
    var k := liquidity * TWO_96;
    if amount == 0 {
      assert k + 0 * price == k;
      FallingPriceGalois(price, price, k, 0);
      FallingPriceGalois(price - 1, price, k, 0);
    } else {
      var n: u256, d: u256 := k * price, k + amount * price;
      DivRoundingUpExact(n, d);
    }
  }

  lemma NextFromAmount1Exact(price: u256, liquidity: u128, amount: u256)
    requires 0 < price && 0 < liquidity
    requires NextSqrtPriceFromAmount1(price, liquidity, amount).Success?
    ensures NextSqrtPriceFromAmount1(price, liquidity, amount).value == NextPrice(OneForZero, price, liquidity, amount)
  {
  }
}
