/** Why the sandwich bound asks for a grouped route: a route through two pools at different prices
    that comes back to the first, on which a bundle earns more than its victim put in. */
module RepeatedPool {
  import opened Words
  import opened Rounding
  import opened Curve
  import opened SwapStep
  import opened Model
  import opened Pool
  import opened Simulator
  import opened Routes
  import opened Sandwiches
  import opened Bundles

  function Key(feePips: u32): PoolKey {
    PoolKey(seq(20, _ => 0), seq(20, _ => 1), feePips)
  }

  const LOW: u256 := TWO_96 / 4
  const HIGH: u256 := 32 * TWO_96

  /** One range of liquidity 32 between prices 1/4 and 32. */
  function At(feePips: u32, price: u256): UniswapV3Pool {
    UniswapV3Pool(Key(feePips), price, 0, 32, [InitializedTick(0, LOW, 32), InitializedTick(1, HIGH, -32)])
  }

  lemma Shape(feePips: u32, price: u256)
    requires LOW < price < HIGH
    ensures TicksSorted(At(feePips, price).ticks) && Validate(At(feePips, price)).Success?
    ensures TicksBelow(At(feePips, price)) == 1
  {
    hide TicksBelow, Validate;
    TicksBelowExact(At(feePips, price), 1);
    ValidateExact(At(feePips, price));
  }

  /** A step that stops short is the whole swap. */
  lemma ShortSwap(feePips: u32, price: u256, direction: SwapDirection, x: u128, step: Step)
    requires LOW < price < HIGH && 0 < x && step.amountOut < TWO_128
    requires var target := if direction.OneForZero? then HIGH else LOW;
             && ComputeSwapStep(price, target, 32, x, feePips, direction) == Success(step)
             && step.priceNext != target && step.amountIn + step.feeAmount == x
    ensures TicksSorted(At(feePips, price).ticks)
    ensures Swap(At(feePips, price), direction, x) == Success(SwapOutcome(At(feePips, step.priceNext), step.amountOut))
  {
    hide ComputeSwapStep, TicksSorted, TicksBelow, Validate;
    Shape(feePips, price);
    LoopTakesStep(At(feePips, price), direction, x, 0);
  }

  lemma PlacedByCeil(price: u256, less: nat, next: u256)
    requires 0 < price && CeilDiv(HIGH * price, HIGH + less * price) == next
    ensures FallingPrice(price, HIGH, less) == next
  {
  }

  /** The inequalities that place the next price of a falling swap short of the range end. */
  lemma FallsTo(price: u256, less: nat, next: u256)
    requires LOW < next <= price < HIGH
    requires (next - 1) * (HIGH + less * price) < HIGH * price <= next * (HIGH + less * price)
    ensures NextPrice(ZeroForOne, price, 32, less) == next && less < AmountIn(ZeroForOne, price, LOW, 32)
  {
    hide CeilDiv, FallingPrice;
    CeilGalois(HIGH * price, HIGH + less * price, next);
    CeilGalois(HIGH * price, HIGH + less * price, next - 1);
    PlacedByCeil(price, less, next);
    FallingPriceGalois(LOW, price, HIGH, less);
    PositiveProduct(LOW, price);
    CeilGalois(HIGH * (price - LOW), LOW * price, less);
  }

  lemma FallsFor(price: u256, next: u256, out: nat)
    requires 0 < next <= price && out * TWO_96 <= 32 * (price - next) < (out + 1) * TWO_96
    ensures AmountOut(ZeroForOne, price, next, 32) == out
  {
    FloorGalois(32 * (price - next), TWO_96, out);
    FloorGalois(32 * (price - next), TWO_96, out + 1);
  }

  /** A falling swap, from the inequalities that place its next price and its output. */
  lemma Falls(feePips: u32, price: u256, x: u128, less: nat, next: u256, out: nat)
    requires LOW < next <= price < HIGH && 0 < x && feePips <= 1 && less == LessFee(x, feePips)
    requires (next - 1) * (HIGH + less * price) < HIGH * price <= next * (HIGH + less * price)
    requires out < TWO_128 && out * TWO_96 <= 32 * (price - next) < (out + 1) * TWO_96
    ensures TicksSorted(At(feePips, price).ticks)
    ensures Swap(At(feePips, price), ZeroForOne, x) == Success(SwapOutcome(At(feePips, next), out))
  {
    hide ComputeSwapStep, TicksSorted, TicksBelow, Validate, Swap, LessFee, NextPrice, AmountIn, AmountOut, At;
    FallsTo(price, less, next);
    FallsFor(price, next, out);
    StepSucceeds(price, LOW, 32, x, feePips, ZeroForOne);
    StepExact(price, LOW, 32, x, feePips, ZeroForOne);
    ShortSwap(feePips, price, ZeroForOne, x, ComputeSwapStep(price, LOW, 32, x, feePips, ZeroForOne).value);
  }

  /** A rising swap, likewise. */
  lemma Rises(feePips: u32, price: u256, x: u128, less: nat, next: u256, out: nat)
    requires LOW < price <= next < HIGH && 0 < x && feePips <= 1 && less == LessFee(x, feePips)
    requires 32 * (next - price) == less * TWO_96
    requires out < TWO_128 && out * (price * next) <= HIGH * (next - price) < (out + 1) * (price * next)
    ensures TicksSorted(At(feePips, price).ticks)
    ensures Swap(At(feePips, price), OneForZero, x) == Success(SwapOutcome(At(feePips, next), out))
  {
    hide ComputeSwapStep, TicksSorted, TicksBelow, Validate, CeilDiv, LessFee, Swap;
    CeilGalois(32 * (HIGH - price), TWO_96, less);
    PositiveProduct(price, next);
    FloorGalois(HIGH * (next - price), price * next, out);
    FloorGalois(HIGH * (next - price), price * next, out + 1);
    StepSucceeds(price, HIGH, 32, x, feePips, OneForZero);
    StepExact(price, HIGH, 32, x, feePips, OneForZero);
    ShortSwap(feePips, price, OneForZero, x, ComputeSwapStep(price, HIGH, 32, x, feePips, OneForZero).value);
  }

  // ----- The market and the route

  function Market(p: u256, q: u256): Registry {
    map[Key(0) := At(0, p), Key(1) := At(1, q)]
  }

  /** The route, and the way back over it. */
  function Hops(direction: SwapDirection): seq<RouteHop> {
    [RouteHop(Key(0), direction), RouteHop(Key(1), direction.Opposite()), RouteHop(Key(0), direction)]
  }

  function Trader(): VictimTransaction {
    VictimTransaction("", Hops(ZeroForOne), 21, 0)
  }

  lemma MarketPlaced(p: u256, q: u256)
    requires LOW < p < HIGH && LOW < q < HIGH
    ensures Registered(Market(p, q)) && AllSorted(Market(p, q)) && AllPlaced(Market(p, q))
  {
    hide Validate, TicksSorted, InPlace;
    Shape(0, p);
    Shape(1, q);
    RegisteredSorted(Market(p, q));
    RegisteredPlaced(Market(p, q));
  }

  lemma WayBack()
    ensures ReverseRoute(Trader().route) == Hops(OneForZero)
  {
    var hops := Hops(ZeroForOne);
    assert hops[1..][1..] == [hops[2]] && hops[2..][1..] == [];
  }

  lemma HopThenRest(pools: Registry, hop: RouteHop, rest: seq<RouteHop>, x: u128, outcome: SwapOutcome)
    requires AllSorted(pools) && hop.pool in pools
    requires Swap(pools[hop.pool], hop.direction, x) == Success(outcome)
    ensures AllSorted(pools[hop.pool := outcome.nextPool]) && outcome.amountOut < TWO_128
    ensures RunRoute(pools, [hop] + rest, x)
         == RunRoute(pools[hop.pool := outcome.nextPool], rest, outcome.amountOut)
  {
    hide Swap, TicksSorted;
    assert ([hop] + rest)[1..] == rest;
  }

  lemma FirstPool(p: u256, q: u256, direction: SwapDirection, x: u128, p': u256, y: u128, rest: seq<RouteHop>)
    requires LOW < p < HIGH && LOW < q < HIGH && LOW < p' < HIGH
    requires TicksSorted(At(0, p).ticks) && Swap(At(0, p), direction, x) == Success(SwapOutcome(At(0, p'), y))
    ensures AllSorted(Market(p, q)) && AllSorted(Market(p', q))
    ensures RunRoute(Market(p, q), [RouteHop(Key(0), direction)] + rest, x) == RunRoute(Market(p', q), rest, y)
  {
    hide Swap, RunRoute, At, TicksSorted, AllSorted, AllPlaced;
    MarketPlaced(p, q);
    assert Market(p, q)[Key(0) := At(0, p')] == Market(p', q);
    HopThenRest(Market(p, q), RouteHop(Key(0), direction), rest, x, SwapOutcome(At(0, p'), y));
  }

  lemma SecondPool(p: u256, q: u256, direction: SwapDirection, x: u128, q': u256, y: u128, rest: seq<RouteHop>)
    requires LOW < p < HIGH && LOW < q < HIGH && LOW < q' < HIGH
    requires TicksSorted(At(1, q).ticks) && Swap(At(1, q), direction, x) == Success(SwapOutcome(At(1, q'), y))
    ensures AllSorted(Market(p, q)) && AllSorted(Market(p, q'))
    ensures RunRoute(Market(p, q), [RouteHop(Key(1), direction)] + rest, x) == RunRoute(Market(p, q'), rest, y)
  {
    hide Swap, RunRoute, At, TicksSorted, AllSorted, AllPlaced;
    MarketPlaced(p, q);
    assert Market(p, q)[Key(1) := At(1, q')] == Market(p, q');
    HopThenRest(Market(p, q), RouteHop(Key(1), direction), rest, x, SwapOutcome(At(1, q'), y));
  }

  /** A run is its three swaps. */
  lemma ThreeHops(p: u256, q: u256, direction: SwapDirection, x: u128,
                  p': u256, y: u128, q': u256, z: u128, p'': u256, out: u128)
    requires LOW < p < HIGH && LOW < q < HIGH && LOW < p' < HIGH && LOW < q' < HIGH && LOW < p'' < HIGH
    requires TicksSorted(At(0, p).ticks) && TicksSorted(At(1, q).ticks) && TicksSorted(At(0, p').ticks)
    requires Swap(At(0, p), direction, x) == Success(SwapOutcome(At(0, p'), y))
    requires Swap(At(1, q), direction.Opposite(), y) == Success(SwapOutcome(At(1, q'), z))
    requires Swap(At(0, p'), direction, z) == Success(SwapOutcome(At(0, p''), out))
    ensures AllSorted(Market(p, q))
    ensures RunRoute(Market(p, q), Hops(direction), x) == Success(RouteRun(Market(p'', q'), out))
  {
    hide Swap, At, TicksSorted, AllSorted, AllPlaced, RunRoute, Market, Key;
    var last := [RouteHop(Key(0), direction)];
    var middle := [RouteHop(Key(1), direction.Opposite())] + last;
    assert last == last + [] && Hops(direction) == last + middle;
    FirstPool(p, q, direction, x, p', y, middle);
    SecondPool(p', q, direction.Opposite(), y, q', z, last);
    FirstPool(p', q', direction, z, p'', out, []);
    MarketPlaced(p'', q');
    EmptyRun(Market(p'', q'), out);
  }

  // ----- The prices of the first pool (P) and the second (Q) on the way

  const P0: u256 := 118842243771396506390315925504
  const P1: u256 := 113520949274169797148958496004
  const P2: u256 := 100077678965386531697108147793
  const P3: u256 := 54718730945103427402735390161
  const P4: u256 := 33213552844407757244455105819
  const P5: u256 := 45592953237261559993446348059
  const P6: u256 := 77779394258681447140823577883
  const Q0: u256 := 39614081257132168796771975168
  const Q1: u256 := 42089961335702929346570223616
  const Q2: u256 := 84179922671405858693140447232
  const Q3: u256 := 51616910667975807965135220339

  // ----- The three legs

  lemma FrontLeg()
    ensures AllSorted(Market(P0, Q0))
    ensures RunRoute(Market(P0, Q0), Trader().route, 1) == Success(RouteRun(Market(P2, Q1), 5))
  {
    hide Swap, AllSorted, TicksSorted, RunRoute, At;
    WayBack();
    Falls(0, P0, 1, 1, P1, 2);
    Rises(1, Q0, 2, 1, Q1, 3);
    Falls(0, P1, 3, 3, P2, 5);
    ThreeHops(P0, Q0, ZeroForOne, 1, P1, 2, Q1, 3, P2, 5);
  }

  lemma VictimLeg()
    ensures AllSorted(Market(P2, Q1))
    ensures RunRoute(Market(P2, Q1), Trader().route, 21) == Success(RouteRun(Market(P4, Q2), 8))
  {
    hide Swap, AllSorted, TicksSorted, RunRoute, At;
    WayBack();
    Falls(0, P2, 21, 21, P3, 18);
    Rises(1, Q1, 18, 17, Q2, 30);
    Falls(0, P3, 30, 30, P4, 8);
    ThreeHops(P2, Q1, ZeroForOne, 21, P3, 18, Q2, 30, P4, 8);
  }

  lemma BackLeg()
    ensures AllSorted(Market(P4, Q2))
    ensures RunRoute(Market(P4, Q2), ReverseRoute(Trader().route), 5) == Success(RouteRun(Market(P6, Q3), 23))
  {
    hide Swap, AllSorted, TicksSorted, RunRoute, At, ReverseRoute;
    WayBack();
    Rises(0, P4, 5, 5, P5, 20);
    Falls(1, Q2, 20, 19, Q3, 13);
    Rises(0, P5, 13, 13, P6, 23);
    ThreeHops(P4, Q2, OneForZero, 5, P5, 20, Q3, 13, P6, 23);
  }

  /** A sandwich of 1 around a victim of 21 earns 22. */
  lemma RepeatedPoolBeatsBound()
    ensures var pools := Market(P0, Q0);
            && Registered(pools) && AllPlaced(pools) && CheckVictim(Trader()).Success? && !Grouped(Trader().route)
            && var outcome := CandidateOutcome(pools, Trader(), BundleCandidate(Sandwich, 1));
               outcome.Success? && outcome.value.attackerGrossProfit == 22 > Trader().amountIn
  {
    hide Swap, TicksSorted, RunRoute, At, Market, ReverseRoute;
    MarketPlaced(P0, Q0);
    assert Trader().route[0].pool == Trader().route[2].pool;
    FrontLeg();
    VictimLeg();
    BackLeg();
  }
}
