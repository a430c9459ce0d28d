/** Front-run, victim and the ways back over one route. A route may turn back and forth over one
    pool, as long as it does not come back to a pool it has left. */
module Sandwiches {
  import opened Words
  import opened Model
  import opened Pool
  import opened Reserves
  import opened Trades
  import opened Routes
  import opened Flows

  // ----- Grouped routes

  /** A hop over a pool that the route uses again is followed by the way back over that pool. */
  ghost predicate Grouped(route: seq<RouteHop>) {
    |route| <= 1
    || (Grouped(route[1..]) && (route[1] == route[0].Reversed() || !Uses(route[1..], route[0].pool)))
  }

  /** The route does not come back to a pool it has left. */
  ghost predicate NeverReturns(route: seq<RouteHop>) {
    |route| <= 1
    || (NeverReturns(route[1..]) && (route[1].pool == route[0].pool || !Uses(route[1..], route[0].pool)))
  }

  lemma {:induction false} DistinctIsGrouped(route: seq<RouteHop>)
    requires DistinctPools(route)
    ensures Grouped(route)
  {
    if |route| > 1 {
      HeadUnused(route);
      DistinctIsGrouped(route[1..]);
    }
  }

  lemma SecondTurns(route: seq<RouteHop>)
    requires |route| > 1 && Contiguous(route) && forall hop :: hop in route ==> hop.pool.token0 != hop.pool.token1
    ensures route[1] == route[0].Reversed() <==> route[1].pool == route[0].pool
  {
    assert route[0] in route && route[1].InputToken() == route[0].OutputToken();
  }

  lemma RestContiguous(route: seq<RouteHop>)
    requires route != [] && Contiguous(route)
    ensures Contiguous(route[1..])
  {
    forall i {:trigger route[1..][i]} | 0 < i < |route[1..]|
      ensures route[1..][i].InputToken() == route[1..][i - 1].OutputToken()
    {
      assert route[i + 1].InputToken() == route[i].OutputToken();
    }
  }

  /** On a contiguous route over pools of two different tokens, being grouped is never coming back
      to a pool. */
  lemma {:induction false} GroupedExact(route: seq<RouteHop>)
    requires Contiguous(route) && forall hop :: hop in route ==> hop.pool.token0 != hop.pool.token1
    ensures Grouped(route) <==> NeverReturns(route)
  {
    hide Contiguous, Uses;
    if |route| > 1 {
      SecondTurns(route);
      RestContiguous(route);
      GroupedExact(route[1..]);
    }
  }

  /** Each hop is the way back over the hop before it. */
  ghost predicate Turns(block: seq<RouteHop>) {
    |block| <= 1 || (block[1] == block[0].Reversed() && Turns(block[1..]))
  }

  /** How many hops a route starts with on its first pool. */
  ghost function BlockLength(route: seq<RouteHop>): (n: nat)
    requires route != []
    ensures 1 <= n <= |route|
  {
    if |route| == 1 || route[1].pool != route[0].pool then 1 else 1 + BlockLength(route[1..])
  }

  lemma SecondReverses(route: seq<RouteHop>)
    requires |route| > 1 && Grouped(route) && route[1].pool == route[0].pool
    ensures route[1] == route[0].Reversed()
  {
    assert route[1] in route[1..];
  }

  lemma TurnsCons(hop: RouteHop, block: seq<RouteHop>)
    requires block != [] && Turns(block) && block[0] == hop.Reversed()
    ensures Turns([hop] + block)
  {
    assert ([hop] + block)[1..] == block;
  }

  /** The first block turns back and forth over one pool. */
  lemma {:induction false} BlockTurns(route: seq<RouteHop>)
    requires route != [] && Grouped(route)
    ensures Turns(route[..BlockLength(route)]) && route[BlockLength(route) - 1].pool == route[0].pool
    decreases |route|
  {
    hide Uses;
    var n := BlockLength(route);
    if |route| > 1 && route[1].pool == route[0].pool {
      SecondReverses(route);
      BlockTurns(route[1..]);
      TurnsCons(route[0], route[1..][..n - 1]);
      assert route[..n] == [route[0]] + route[1..][..n - 1];
    }
  }

  lemma NothingUsed(key: PoolKey)
    ensures !Uses([], key)
  {
  }

  lemma OtherNext(route: seq<RouteHop>)
    requires |route| > 1 && Grouped(route) && route[1].pool != route[0].pool
    ensures Grouped(route[1..]) && !Uses(route[1..], route[0].pool)
  {
    hide Uses;
  }

  /** The rest is grouped and does not come back to that pool. */
  lemma {:induction false} BlockLeaves(route: seq<RouteHop>)
    requires route != [] && Grouped(route)
    ensures Grouped(route[BlockLength(route)..]) && !Uses(route[BlockLength(route)..], route[0].pool)
    decreases |route|
  {
    hide Uses;
    var n := BlockLength(route);
    if |route| > 1 && route[1].pool == route[0].pool {
      BlockLeaves(route[1..]);
      assert route[n..] == route[1..][n - 1..];
    } else if |route| == 1 {
      NothingUsed(route[0].pool);
      assert route[n..] == [];
    } else {
      OtherNext(route);
    }
  }

  lemma BlockFirst(route: seq<RouteHop>)
    requires route != [] && Grouped(route)
    ensures var n := BlockLength(route);
            && Turns(route[..n]) && Grouped(route[n..]) && !Uses(route[n..], route[0].pool)
            && route[n - 1].pool == route[0].pool
  {
    hide Uses, Grouped, Turns, BlockLength;
    BlockTurns(route);
    BlockLeaves(route);
  }

  /** A route back and forth uses no pool but its first. */
  lemma {:induction false} TurnsUse(block: seq<RouteHop>, key: PoolKey)
    requires block != [] && Turns(block) && key != block[0].pool
    ensures !Uses(block, key)
  {
    if |block| > 1 {
      TurnsUse(block[1..], key);
      assert block == [block[0]] + block[1..];
    }
  }

  lemma {:induction false} TurnsSnoc(block: seq<RouteHop>, hop: RouteHop)
    requires block != [] && Turns(block) && hop == block[|block| - 1].Reversed()
    ensures Turns(block + [hop])
  {
    if |block| > 1 {
      TurnsSnoc(block[1..], hop);
      assert (block + [hop])[1..] == block[1..] + [hop];
    } else {
      assert (block + [hop])[1..] == [hop];
    }
  }

  lemma {:induction false} TurnsBack(block: seq<RouteHop>)
    requires block != [] && Turns(block)
    ensures Turns(ReverseRoute(block)) && ReverseRoute(block) != []
    ensures ReverseRoute(block)[0] == block[|block| - 1].Reversed()
    ensures ReverseRoute(block)[|block| - 1] == block[0].Reversed()
  {
    if |block| > 1 {
      TurnsBack(block[1..]);
      assert block[1].Reversed() == block[0];
      TurnsSnoc(ReverseRoute(block[1..]), block[0].Reversed());
    }
  }

  lemma ReverseConcat(a: seq<RouteHop>, b: seq<RouteHop>)
    ensures ReverseRoute(a + b) == ReverseRoute(b) + ReverseRoute(a)
  {
  }

  lemma ReverseUnused(route: seq<RouteHop>, key: PoolKey)
    requires !Uses(route, key)
    ensures !Uses(ReverseRoute(route), key)
  {
    forall i | 0 <= i < |route|
      ensures ReverseRoute(route)[i].pool != key
    {
      assert route[|route| - 1 - i] in route;
    }
  }

  // ----- Back and forth over one pool

  function Paid(ledger: Ledger, token: Token): int {
    if token == Token0 then ledger.paid0 else ledger.paid1
  }

  /** What a run back and forth over one pool pays in is its input, and what it takes out is its
      output: everything between cancels. */
  lemma {:induction false} TurnsNet(pools: Registry, block: seq<RouteHop>, amount: u128, run: RouteRun, ledger: Ledger)
      returns (trades: seq<Trade>, end: Ledger)
    requires AllPlaced(pools) && block != [] && Turns(block) && RunRoute(pools, block, amount) == Success(run)
    requires block[0].pool in pools && ledger.pool == pools[block[0].pool]
    ensures RunTrades(ledger, trades) == Success(end)
    ensures block[0].pool in run.pools && end.pool == run.pools[block[0].pool] && WellPlaced(end.pool)
    ensures forall token :: Paid(end, token) == Paid(ledger, token)
                            + (if token == TokenIn(block[0].direction) then amount else 0)
                            - (if token == TokenOut(block[|block| - 1].direction) then run.amountOut else 0)
    decreases |block|
  {
    hide Swap, WellPlaced, TicksSorted, RunRoute, RunTrades;
    var outcome := RouteHead(pools, block, amount, run);
    var trade := Trade(block[0].direction, amount);
    var booked, pools' := Book(ledger, trade, outcome), pools[block[0].pool := outcome.nextPool];
    if |block| == 1 {
      assert block[1..] == [];
      EmptyRun(pools', outcome.amountOut);
      NoTrades(booked);
      trades, end := [], booked;
    } else {
      assert Turns(block[1..]) && block[1] == block[0].Reversed();
      trades, end := TurnsNet(pools', block[1..], outcome.amountOut, run, booked);
    }
    OneMore(ledger, trade, outcome, trades, end);
    trades := [trade] + trades;
  }

  /** Two such runs, the second where the first left the pool. */
  lemma TurnsTwice(block: seq<RouteHop>, p: Registry, x: u128, first: RouteRun, q: Registry, y: u128, second: RouteRun,
                   ledger: Ledger) returns (trades: seq<Trade>, end: Ledger)
    requires AllPlaced(p) && AllPlaced(q) && block != [] && Turns(block)
    requires RunRoute(p, block, x) == Success(first) && RunRoute(q, block, y) == Success(second)
    requires block[0].pool in p && block[0].pool in q && ledger.pool == p[block[0].pool]
    requires block[0].pool in first.pools && q[block[0].pool] == first.pools[block[0].pool]
    ensures RunTrades(ledger, trades) == Success(end)
    ensures block[0].pool in second.pools && end.pool == second.pools[block[0].pool] && WellPlaced(end.pool)
    ensures forall token ::
              Paid(end, token) == Paid(ledger, token)
                                  + (if token == TokenIn(block[0].direction) then x + y else 0)
                                  - (if token == TokenOut(block[|block| - 1].direction)
                                     then first.amountOut + second.amountOut else 0)
  {
    hide RunTrades, RunRoute, WellPlaced, AllSorted, Turns, TokenIn, TokenOut, Paid;
    var t1, l1 := TurnsNet(p, block, x, first, ledger);
    var t2, l2 := TurnsNet(q, block, y, second, l1);
    TradesConcat(ledger, t1, t2, l1, l2);
    trades, end := t1 + t2, l2;
  }

  /** The totals of both tokens, from the four inputs and outputs. */
  lemma NetWithin(block: seq<RouteHop>, a: nat, b: nat, f: nat, g: nat, v: nat, w: nat, r: nat, s: nat, end: Ledger)
    requires block != [] && v + w <= f + g
    requires forall token :: Paid(end, token)
                             == (if token == TokenIn(block[0].direction) then a + b - r - s else 0)
                                - (if token == TokenOut(block[|block| - 1].direction) then f + g - v - w else 0)
    requires end.paid0 <= 0 ==> end.paid1 >= 0
    requires end.paid1 <= 0 ==> end.paid0 >= 0
    ensures r + s <= a + b
  {
    assert Paid(end, Token0) == end.paid0 && Paid(end, Token1) == end.paid1;
  }

  lemma Settled(start: Ledger)
    requires start.paid0 == 0 && start.paid1 == 0
    ensures forall token :: Paid(start, token) == 0
  {
  }

  lemma {:induction false} TurnsOnOne(block: seq<RouteHop>)
    requires block != [] && Turns(block)
    ensures block[|block| - 1].pool == block[0].pool
  {
    if |block| > 1 {
      TurnsOnOne(block[1..]);
    }
  }

  /** The way back takes in the token paid out last, and ends on the token taken in first. */
  lemma BackTokens(block: seq<RouteHop>)
    requires block != []
    ensures var back := ReverseRoute(block);
            && TokenIn(back[0].direction) == TokenOut(block[|block| - 1].direction)
            && TokenOut(back[|back| - 1].direction) == TokenIn(block[0].direction)
  {
  }

  /** Two runs forth over one pool and then one back, of at most what the runs forth were paid. */
  lemma BlockThenBack(block: seq<RouteHop>, key: PoolKey, p0: Registry, a: u128, front: RouteRun,
                      p1: Registry, b: u128, victim: RouteRun, p2: Registry, w: u128, back: RouteRun)
    requires AllPlaced(p0) && AllPlaced(p1) && AllPlaced(p2)
    requires block != [] && Turns(block) && block[0].pool == key
    requires RunRoute(p0, block, a) == Success(front) && RunRoute(p1, block, b) == Success(victim)
    requires RunRoute(p2, ReverseRoute(block), w) == Success(back)
    requires key in p0 && key in front.pools && key in victim.pools
    requires key in p1 && p1[key] == front.pools[key]
    requires key in p2 && p2[key] == victim.pools[key]
    requires w <= front.amountOut + victim.amountOut
    ensures back.amountOut <= a + b
  {
    hide RunTrades, RunRoute, WellPlaced, AllSorted, Turns, TokenIn, TokenOut, Paid, ReverseRoute;
    TurnsBack(block);
    TurnsOnOne(block);
    var start := Ledger(p0[key], 0, 0);
    var forth, middle := TurnsTwice(block, p0, a, front, p1, b, victim, start);
    var wayBack, end := TurnsNet(p2, ReverseRoute(block), w, back, middle);
    TradesConcat(start, forth, wayBack, middle, end);
    NoFreeLunch(start, forth + wayBack, end);
    BackTokens(block);
    Settled(start);
    NetWithin(block, a, b, front.amountOut, victim.amountOut, w, 0, back.amountOut, 0, end);
  }

  /** Two runs forth over one pool and then two back, of at most what the runs forth were paid. */
  lemma BlockThenTwoBack(block: seq<RouteHop>, key: PoolKey, p0: Registry, a: u128, front: RouteRun,
                         p1: Registry, b: u128, victim: RouteRun, p2: Registry, v: u128, back: RouteRun,
                         p3: Registry, w: u128, sale: RouteRun)
    requires AllPlaced(p0) && AllPlaced(p1) && AllPlaced(p2) && AllPlaced(p3)
    requires block != [] && Turns(block) && block[0].pool == key
    requires RunRoute(p0, block, a) == Success(front) && RunRoute(p1, block, b) == Success(victim)
    requires RunRoute(p2, ReverseRoute(block), v) == Success(back)
    requires RunRoute(p3, ReverseRoute(block), w) == Success(sale)
    requires key in p0 && key in front.pools && key in victim.pools && key in back.pools
    requires key in p1 && p1[key] == front.pools[key]
    requires key in p2 && p2[key] == victim.pools[key]
    requires key in p3 && p3[key] == back.pools[key]
    requires v + w <= front.amountOut + victim.amountOut
    ensures back.amountOut + sale.amountOut <= a + b
  {
    hide RunTrades, RunRoute, WellPlaced, AllSorted, Turns, TokenIn, TokenOut, Paid, ReverseRoute;
    TurnsBack(block);
    TurnsOnOne(block);
    var start := Ledger(p0[key], 0, 0);
    var forth, middle := TurnsTwice(block, p0, a, front, p1, b, victim, start);
    var wayBack, end := TurnsTwice(ReverseRoute(block), p2, v, back, p3, w, sale, middle);
    TradesConcat(start, forth, wayBack, middle, end);
    NoFreeLunch(start, forth + wayBack, end);
    BackTokens(block);
    Settled(start);
    NetWithin(block, a, b, front.amountOut, victim.amountOut, v, w, back.amountOut, sale.amountOut, end);
  }

  // ----- A route as its first block and the rest

  lemma SplitRun(route: seq<RouteHop>, p: Registry, amount: u128, run: RouteRun) returns (middle: RouteRun)
    requires AllPlaced(p) && route != [] && Grouped(route) && RunRoute(p, route, amount) == Success(run)
    ensures var key, n := route[0].pool, BlockLength(route);
            && key in p && AllPlaced(middle.pools) && key in middle.pools && key in run.pools
            && RunRoute(p, route[..n], amount) == Success(middle)
            && RunRoute(middle.pools, route[n..], middle.amountOut) == Success(run)
            && run.pools[key] == middle.pools[key]
            && middle.pools.Keys == p.Keys
            && forall other :: other in p && other != key ==> middle.pools[other] == p[other]
  {
    hide RunRoute, WellPlaced, AllSorted, Grouped, Turns, Uses, BlockLength;
    var n := BlockLength(route);
    BlockFirst(route);
    assert route == route[..n] + route[n..] && route[0] in route;
    middle := RouteConcat(p, route[..n], route[n..], amount, run);
    RouteFrame(p, route, amount, run);
    RouteFrame(p, route[..n], amount, middle);
    RouteFrame(middle.pools, route[n..], middle.amountOut, run);
    forall other | other != route[0].pool
      ensures !Uses(route[..n], other)
    {
      TurnsUse(route[..n], other);
    }
  }

  lemma SplitBack(route: seq<RouteHop>, p: Registry, amount: u128, run: RouteRun) returns (middle: RouteRun)
    requires AllPlaced(p) && route != [] && Grouped(route) && RunRoute(p, ReverseRoute(route), amount) == Success(run)
    ensures var key, n := route[0].pool, BlockLength(route);
            && key in p && AllPlaced(middle.pools) && key in middle.pools && key in run.pools
            && RunRoute(p, ReverseRoute(route[n..]), amount) == Success(middle)
            && RunRoute(middle.pools, ReverseRoute(route[..n]), middle.amountOut) == Success(run)
            && middle.pools[key] == p[key]
            && run.pools.Keys == middle.pools.Keys
            && forall other :: other in middle.pools && other != key ==> run.pools[other] == middle.pools[other]
  {
    hide RunRoute, WellPlaced, AllSorted, Grouped, Turns, Uses, BlockLength, ReverseRoute;
    var n := BlockLength(route);
    BlockFirst(route);
    assert route == route[..n] + route[n..];
    ReverseConcat(route[..n], route[n..]);
    middle := RouteConcat(p, ReverseRoute(route[n..]), ReverseRoute(route[..n]), amount, run);
    ReverseUnused(route[n..], route[0].pool);
    assert ReverseRoute(route)[|route| - 1] in ReverseRoute(route);
    RouteFrame(p, ReverseRoute(route), amount, run);
    RouteFrame(p, ReverseRoute(route[n..]), amount, middle);
    RouteFrame(middle.pools, ReverseRoute(route[..n]), middle.amountOut, run);
    forall other | other != route[0].pool
      ensures !Uses(ReverseRoute(route[..n]), other)
    {
      TurnsUse(route[..n], other);
      ReverseUnused(route[..n], other);
    }
  }

  // ----- The sandwich bounds

  /** The registry another leg meets, restricted to the rest of the route. */
  lemma RestMeets(route: seq<RouteHop>, before: Registry, middle: Registry, left: Registry)
    requires route != [] && Grouped(route) && Agree(before, left, route)
    requires forall other :: other in before && other != route[0].pool ==>
               other in middle && middle[other] == before[other]
    ensures Agree(middle, left, route[BlockLength(route)..])
  {
    hide BlockLength, Grouped, Turns;
    var rest := route[BlockLength(route)..];
    BlockFirst(route);
    forall hop | hop in rest
      ensures hop.pool in middle && hop.pool in left && middle[hop.pool] == left[hop.pool]
    {
      assert hop in route;
    }
  }

  lemma AgreeSymmetric(a: Registry, b: Registry, route: seq<RouteHop>)
    requires Agree(a, b, route)
    ensures Agree(b, a, route)
  {
  }

  /** Front-run, victim and back-run over one grouped route: the way back pays at most what the
      attacker and the victim put in together. */
  lemma {:induction false} SandwichLegs(route: seq<RouteHop>, p0: Registry, a: u128, front: RouteRun,
                                        p1: Registry, b: u128, victim: RouteRun, p2: Registry, w: u128, back: RouteRun)
    requires AllPlaced(p0) && AllPlaced(p1) && AllPlaced(p2) && Grouped(route)
    requires RunRoute(p0, route, a) == Success(front) && Agree(p1, front.pools, route)
    requires RunRoute(p1, route, b) == Success(victim) && Agree(p2, victim.pools, route)
    requires RunRoute(p2, ReverseRoute(route), w) == Success(back) && w <= front.amountOut + victim.amountOut
    ensures back.amountOut <= a + b
    decreases |route|
  {
    hide Swap, WellPlaced, AllSorted, Uses, RunRoute, RunTrades, Grouped, Turns, BlockLength, ReverseRoute;
    if route == [] {
      EmptyRun(p0, a);
      EmptyRun(p1, b);
      EmptyRun(p2, w);
    } else {
      var n := BlockLength(route);
      var block, rest := route[..n], route[n..];
      BlockFirst(route);
      assert route[0] in route && block[0] == route[0];
      var m0 := SplitRun(route, p0, a, front);
      var m1 := SplitRun(route, p1, b, victim);
      var m2 := SplitBack(route, p2, w, back);
      RestMeets(route, p1, m1.pools, front.pools);
      RestMeets(route, p2, p2, victim.pools);
      SandwichLegs(rest, m0.pools, m0.amountOut, front, m1.pools, m1.amountOut, victim, p2, w, m2);
      BlockThenBack(block, route[0].pool, p0, a, m0, p1, b, m1, m2.pools, m2.amountOut, back);
    }
  }

  /** The back-run and a later sale back over the same route, together of at most what the
      front-run and the victim were paid, are together paid at most what those two put in. */
  lemma {:induction false} SandwichThenSale(route: seq<RouteHop>, p0: Registry, a: u128, front: RouteRun,
                                            p1: Registry, b: u128, victim: RouteRun,
                                            p2: Registry, v: u128, back: RouteRun,
                                            p3: Registry, w: u128, sale: RouteRun)
    requires AllPlaced(p0) && AllPlaced(p1) && AllPlaced(p2) && AllPlaced(p3) && Grouped(route)
    requires RunRoute(p0, route, a) == Success(front) && Agree(p1, front.pools, route)
    requires RunRoute(p1, route, b) == Success(victim) && Agree(p2, victim.pools, route)
    requires RunRoute(p2, ReverseRoute(route), v) == Success(back) && Agree(p3, back.pools, route)
    requires RunRoute(p3, ReverseRoute(route), w) == Success(sale) && v + w <= front.amountOut + victim.amountOut
    ensures back.amountOut + sale.amountOut <= a + b
    decreases |route|
  {
    hide Swap, WellPlaced, AllSorted, Uses, RunRoute, RunTrades, Grouped, Turns, BlockLength, ReverseRoute;
    if route == [] {
      EmptyRun(p0, a);
      EmptyRun(p1, b);
      EmptyRun(p2, v);
      EmptyRun(p3, w);
    } else {
      var n := BlockLength(route);
      var block, rest := route[..n], route[n..];
      BlockFirst(route);
      assert route[0] in route && block[0] == route[0];
      var m0 := SplitRun(route, p0, a, front);
      var m1 := SplitRun(route, p1, b, victim);
      var m2 := SplitBack(route, p2, v, back);
      var m3 := SplitBack(route, p3, w, sale);
      RestMeets(route, p1, m1.pools, front.pools);
      RestMeets(route, p2, p2, victim.pools);
      AgreeSymmetric(p3, back.pools, route);
      RestMeets(route, back.pools, m2.pools, p3);
      AgreeSymmetric(m2.pools, p3, rest);
      SandwichThenSale(rest, m0.pools, m0.amountOut, front, m1.pools, m1.amountOut, victim, p2, v, m2, p3, w, m3);
      BlockThenTwoBack(block, route[0].pool, p0, a, m0, p1, b, m1,
                       m2.pools, m2.amountOut, back, m3.pools, m3.amountOut, sale);
    }
  }
}
