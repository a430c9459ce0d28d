/** What each single pool sees of any routes run one after another. Routes may visit a pool more
    than once here, and the runs may belong to anyone. */
module Flows {
  import opened Words
  import opened FixedPoint
  import opened Model
  import opened Pool
  import opened Trades
  import opened Routes

  /** An input sent along a route. */
  datatype Order = Order(route: seq<RouteHop>, amountIn: u128)

  /** Orders run one after another; one failure fails them all. */
  function RunOrders(pools: Registry, orders: seq<Order>): (after: Outcome<Registry>)
    requires AllSorted(pools)
    ensures after.Success? ==> AllSorted(after.value) && after.value.Keys == pools.Keys
    decreases |orders|
  {
    hide RunRoute, TicksSorted;
    if orders == [] then Success(pools) else
    var run :- RunRoute(pools, orders[0].route, orders[0].amountIn);
    RunOrders(run.pools, orders[1..])
  }

  /** The trades that a run makes on one pool, in order. */
  function TradesOn(pools: Registry, route: seq<RouteHop>, amount: u128, key: PoolKey): seq<Trade>
    requires AllSorted(pools) && RunRoute(pools, route, amount).Success?
    decreases |route|
  {
    hide Swap, TicksSorted;
    if route == [] then [] else
    var hop := route[0];
    var outcome := Swap(pools[hop.pool], hop.direction, amount).value;
    var rest := TradesOn(pools[hop.pool := outcome.nextPool], route[1..], outcome.amountOut, key);
    if hop.pool == key then [Trade(hop.direction, amount)] + rest else rest
  }

  function TradesOfOrders(pools: Registry, orders: seq<Order>, key: PoolKey): seq<Trade>
    requires AllSorted(pools) && RunOrders(pools, orders).Success?
    decreases |orders|
  {
    hide RunRoute, TicksSorted;
    if orders == [] then [] else
    var run := RunRoute(pools, orders[0].route, orders[0].amountIn).value;
    TradesOn(pools, orders[0].route, orders[0].amountIn, key) + TradesOfOrders(run.pools, orders[1..], key)
  }

  lemma {:induction false} TradesConcat(ledger: Ledger, first: seq<Trade>, second: seq<Trade>,
                                        middle: Ledger, end: Ledger)
    requires WellPlaced(ledger.pool) && WellPlaced(middle.pool)
    requires RunTrades(ledger, first) == Success(middle) && RunTrades(middle, second) == Success(end)
    ensures RunTrades(ledger, first + second) == Success(end)
    decreases |first|
  {
    hide Swap, WellPlaced, TicksSorted;
    if first == [] {
      assert first + second == second;
    } else {
      assert (first + second)[0] == first[0] && (first + second)[1..] == first[1..] + second;
      SwapKeeps(ledger.pool, first[0].direction, first[0].amountIn);
      var booked := Book(ledger, first[0], Swap(ledger.pool, first[0].direction, first[0].amountIn).value);
      TradesConcat(booked, first[1..], second, middle, end);
    }
  }

  /** A pool is left by a run exactly as by its own trades alone. */
  lemma {:induction false} RunIsTrades(pools: Registry, route: seq<RouteHop>, amount: u128, run: RouteRun,
                                       key: PoolKey, ledger: Ledger) returns (end: Ledger)
    requires AllPlaced(pools) && RunRoute(pools, route, amount) == Success(run)
    requires key in pools && ledger.pool == pools[key]
    ensures RunTrades(ledger, TradesOn(pools, route, amount, key)) == Success(end)
    ensures key in run.pools && end.pool == run.pools[key]
    decreases |route|
  {
    hide Swap, WellPlaced, TicksSorted;
    if route == [] {
      end := ledger;
    } else {
      var hop := route[0];
      var outcome: SwapOutcome := RouteHead(pools, route, amount, run);
      var pools' := pools[hop.pool := outcome.nextPool];
      if hop.pool == key {
        var trade := Trade(hop.direction, amount);
        end := RunIsTrades(pools', route[1..], outcome.amountOut, run, key, Book(ledger, trade, outcome));
        OneMore(ledger, trade, outcome, TradesOn(pools', route[1..], outcome.amountOut, key), end);
      } else {
        end := RunIsTrades(pools', route[1..], outcome.amountOut, run, key, ledger);
      }
    }
  }

  lemma NoTrades(ledger: Ledger)
    requires WellPlaced(ledger.pool)
    ensures RunTrades(ledger, []) == Success(ledger)
  {
  }

  lemma {:induction false} OrdersAreTrades(pools: Registry, orders: seq<Order>, after: Registry,
                                           key: PoolKey, ledger: Ledger) returns (end: Ledger)
    requires AllPlaced(pools) && RunOrders(pools, orders) == Success(after)
    requires key in pools && ledger.pool == pools[key]
    ensures RunTrades(ledger, TradesOfOrders(pools, orders, key)) == Success(end)
    ensures key in after && end.pool == after[key]
    decreases |orders|
  {
    hide RunRoute, RunTrades, TradesOn, WellPlaced, TicksSorted;
    if orders == [] {
      NoTrades(ledger);
      end := ledger;
    } else {
      var route, amount := orders[0].route, orders[0].amountIn;
      var run := RunRoute(pools, route, amount).value;
      RouteFrame(pools, route, amount, run);
      var middle := RunIsTrades(pools, route, amount, run, key, ledger);
      end := OrdersAreTrades(run.pools, orders[1..], after, key, middle);
      TradesConcat(ledger, TradesOn(pools, route, amount, key), TradesOfOrders(run.pools, orders[1..], key),
                   middle, end);
    }
  }

  /** No orders, along whatever routes, take one token out of a pool without putting the other in:
      if they put in no more of one token than they take out, they put in no less of the other. */
  lemma NoPoolDrained(pools: Registry, orders: seq<Order>, key: PoolKey)
    requires AllPlaced(pools) && RunOrders(pools, orders).Success? && key in pools
    ensures var ledger := RunTrades(Ledger(pools[key], 0, 0), TradesOfOrders(pools, orders, key));
            && ledger.Success? && ledger.value.pool == RunOrders(pools, orders).value[key]
            && (ledger.value.paid0 <= 0 ==> ledger.value.paid1 >= 0)
            && (ledger.value.paid1 <= 0 ==> ledger.value.paid0 >= 0)
  {
    hide RunOrders, RunTrades, TradesOfOrders, WellPlaced, TicksSorted;
    var start := Ledger(pools[key], 0, 0);
    var end := OrdersAreTrades(pools, orders, RunOrders(pools, orders).value, key, start);
    NoFreeLunch(start, TradesOfOrders(pools, orders, key), end);
  }
}
