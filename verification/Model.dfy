/** Addresses, pool keys, routes and the transactions that carry them. */
module Model {
  import opened Words
  import opened Curve

  type Address = bytes: seq<u8> | |bytes| == 20 witness seq(20, _ => 0)

  datatype PoolKeyError = IdenticalTokens

  datatype PoolKey = PoolKey(token0: Address, token1: Address, feePips: u32)

  datatype RouteHop = RouteHop(pool: PoolKey, direction: SwapDirection) {
    function InputToken(): Address {
      if direction.ZeroForOne? then pool.token0 else pool.token1
    }

    function OutputToken(): Address {
      if direction.ZeroForOne? then pool.token1 else pool.token0
    }

    function Reversed(): RouteHop {
      RouteHop(pool, direction.Opposite())
    }
  }

  datatype VictimTransactionError = EmptyRoute | DisconnectedRoute

  datatype VictimTransaction =
    VictimTransaction(txHash: string, route: seq<RouteHop>, amountIn: u128, minAmountOut: u128)

  datatype TxIdentity = TxIdentity(from: Address, nonce: u64)

  datatype PendingTransaction =
    PendingTransaction(txHash: string, from: Address, nonce: u64, to: Option<Address>,
                       maxFeePerGas: u128, maxPriorityFeePerGas: u128, input: seq<u8>)
  {
    function Identity(): TxIdentity {
      TxIdentity(from, nonce)
    }
  }

  /** Byte-wise lexicographic order, the order of the address arrays. */
  predicate Below(a: seq<u8>, b: seq<u8>) {
    b != [] && (a == [] || a[0] < b[0] || (a[0] == b[0] && Below(a[1..], b[1..])))
  }

  lemma {:induction false} BelowIrreflexive(a: seq<u8>)
    ensures !Below(a, a)
  {
    if a != [] {
      BelowIrreflexive(a[1..]);
    }
  }

  lemma {:induction false} BelowTotal(a: seq<u8>, b: seq<u8>)
    ensures a == b || Below(a, b) || Below(b, a)
    ensures !(Below(a, b) && Below(b, a)) && !Below(a, a)
  {
    if a != [] && b != [] {
      BelowTotal(a[1..], b[1..]);
      assert a == [a[0]] + a[1..] && b == [b[0]] + b[1..];
    }
    if a != [] {
      BelowIrreflexive(a);
    }
  }

  function NewPoolKey(a: Address, b: Address, feePips: u32): Result<PoolKey, PoolKeyError> {
    if a == b then Failure(IdenticalTokens)
    else if Below(a, b) then Success(PoolKey(a, b, feePips))
    else Success(PoolKey(b, a, feePips))
  }

  function FromSwap(tokenIn: Address, tokenOut: Address, feePips: u32): Result<(PoolKey, SwapDirection), PoolKeyError> {
    var key :- NewPoolKey(tokenIn, tokenOut, feePips);
    Success((key, if tokenIn == key.token0 then ZeroForOne else OneForZero))
  }

  /** A hop whose pool key orders its tokens the way every constructed key does. */
  predicate Canonical(hop: RouteHop) {
    Below(hop.pool.token0, hop.pool.token1)
  }

  /** The hop built from a swap is exactly the canonical hop with those end tokens and fee. */
  lemma FromSwapExact(tokenIn: Address, tokenOut: Address, feePips: u32)
    ensures FromSwap(tokenIn, tokenOut, feePips).Failure? <==> tokenIn == tokenOut
    ensures forall hop: RouteHop ::
              (FromSwap(tokenIn, tokenOut, feePips) == Success((hop.pool, hop.direction)))
              <==> (&& Canonical(hop) && hop.InputToken() == tokenIn && hop.OutputToken() == tokenOut
                    && hop.pool.feePips == feePips)
  {
    BelowTotal(tokenIn, tokenOut);
    BelowIrreflexive(tokenIn);
  }

  /** Every hop takes in the token the hop before it paid out. */
  predicate Contiguous(route: seq<RouteHop>) {
    forall i {:trigger route[i]} :: 0 < i < |route| ==> route[i].InputToken() == route[i - 1].OutputToken()
  }

  method ValidateVictim(victim: VictimTransaction) returns (error: Option<VictimTransactionError>)
    ensures error == None <==> victim.route != [] && Contiguous(victim.route)
    ensures error == Some(EmptyRoute) <==> victim.route == []
  {
    var route := victim.route;
    if route == [] {
      return Some(EmptyRoute);
    }
    var expectedInput := route[0].OutputToken();
    for i := 1 to |route|
      invariant expectedInput == route[i - 1].OutputToken()
      invariant forall j {:trigger route[j]} :: 0 < j < i ==> route[j].InputToken() == route[j - 1].OutputToken()
    {
      if route[i].InputToken() != expectedInput {
        return Some(DisconnectedRoute);
      }
      expectedInput := route[i].OutputToken();
    }
    error := None;
  }

  function ReverseRoute(route: seq<RouteHop>): (back: seq<RouteHop>)
    ensures |back| == |route|
    ensures forall i :: 0 <= i < |route| ==> back[i] == route[|route| - 1 - i].Reversed()
  {
    if route == [] then [] else ReverseRoute(route[1..]) + [route[0].Reversed()]
  }
}
