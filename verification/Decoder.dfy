/** The router calldata decoder and its inverse encoder. The layout is the program's own: the
    exactInput arguments start directly after the selector, without a leading tuple offset. */
module Decoder {
  import opened Words
  import opened Curve
  import opened Model

  datatype DecodeError =
    | CalldataTooShort
    | UnexpectedCalldataLength(expected: nat, actual: nat)
    | InvalidAddress
    | ValueOverflow
    | NonZeroSqrtPriceLimit
    | IdenticalTokens
    | InvalidPathLength

  type DecodeOutcome = Result<Option<VictimTransaction>, DecodeError>

  const EXACT_INPUT_SELECTOR: seq<u8> := [0xc0, 0x4b, 0x8d, 0x59]
  const EXACT_INPUT_SINGLE_SELECTOR: seq<u8> := [0x41, 0x4b, 0xf3, 0x89]
  const EXACT_INPUT_WORDS: nat := 5
  const EXACT_INPUT_SINGLE_WORDS: nat := 8
  const WORD_SIZE: nat := 32
  const PATH_SEGMENT_SIZE: nat := 23
  const PATH_MIN_LENGTH: nat := 43

  type Decoded<+T> = Result<T, DecodeError>

  // ----- Numbers as bytes

  function FromBigEndian(bytes: seq<u8>): nat {
    if bytes == [] then 0 else FromBigEndian(bytes[..|bytes| - 1]) * 256 + bytes[|bytes| - 1]
  }

  function ToBigEndian(value: nat, width: nat): (bytes: seq<u8>)
    ensures |bytes| == width
  {
    if width == 0 then [] else ToBigEndian(value / 256, width - 1) + [value % 256]
  }

  function Power256(width: nat): nat {
    if width == 0 then 1 else 256 * Power256(width - 1)
  }

  lemma {:induction false} BigEndianRoundTrip(value: nat, width: nat)
    requires value < Power256(width)
    ensures FromBigEndian(ToBigEndian(value, width)) == value
  {
    if width > 0 {
      BigEndianRoundTrip(value / 256, width - 1);
      var bytes := ToBigEndian(value, width);
      assert bytes[..|bytes| - 1] == ToBigEndian(value / 256, width - 1);
    }
  }

  lemma {:induction false} BigEndianBound(bytes: seq<u8>)
    ensures FromBigEndian(bytes) < Power256(|bytes|)
  {
    if bytes != [] {
      BigEndianBound(bytes[..|bytes| - 1]);
    }
  }

  lemma Powers()
    ensures Power256(3) == TWO_24 && Power256(16) == TWO_128 && Power256(32) == TWO_256
  {
    assert Power256(4) == TWO_32;
    assert Power256(8) == TWO_64;
    assert Power256(12) == TWO_96;
    assert Power256(20) == TWO_128 * TWO_32;
    assert Power256(24) == TWO_128 * TWO_64;
    assert Power256(28) == TWO_128 * TWO_96;
  }

  function Zeros(n: nat): (z: seq<u8>)
    ensures |z| == n
  {
    seq(n, _ => 0)
  }

  predicate AllZero(bytes: seq<u8>) {
    forall i :: 0 <= i < |bytes| ==> bytes[i] == 0
  }

  // ----- Words of the payload

  function Word(payload: seq<u8>, index: nat): (word: Decoded<seq<u8>>)
    ensures word.Success? ==> |word.value| == WORD_SIZE
  {
    var start := index * WORD_SIZE;
    if start + WORD_SIZE <= |payload| then Success(payload[start..start + WORD_SIZE])
    else Failure(CalldataTooShort)
  }

  function ParseAddressWord(word: seq<u8>): Decoded<Address>
    requires |word| == WORD_SIZE
  {
    if AllZero(word[..12]) then Success(word[12..32]) else Failure(InvalidAddress)
  }

  function ParseU24Bytes(bytes: seq<u8>): (value: u32)
    requires |bytes| == 3
    ensures value < TWO_24
  {
    var high: nat, middle: nat, low: nat := bytes[0], bytes[1], bytes[2];
    high * 65536 + middle * 256 + low
  }

  function ParseU24Word(word: seq<u8>): Decoded<u32>
    requires |word| == WORD_SIZE
  {
    if AllZero(word[..29]) then Success(ParseU24Bytes(word[29..32])) else Failure(ValueOverflow)
  }

  function ParseU128Word(word: seq<u8>): Decoded<u128>
    requires |word| == WORD_SIZE
  {
    BigEndianBound(word[16..32]);
    Powers();
    if AllZero(word[..16]) then Success(FromBigEndian(word[16..32])) else Failure(ValueOverflow)
  }

  function ParseUsizeWord(word: seq<u8>): Decoded<u64>
    requires |word| == WORD_SIZE
  {
    var value :- ParseU128Word(word);
    if value < TWO_64 then Success(value) else Failure(ValueOverflow)
  }

  /** The next multiple of the word size. The addition wraps to zero within the last word. */
  function RoundUpToWord(value: u64): (rounded: u64)
    ensures value <= TWO_64 - WORD_SIZE ==> value <= rounded < value + WORD_SIZE && rounded % WORD_SIZE == 0
    ensures value > TWO_64 - WORD_SIZE ==> rounded == 0
  {
    if value % WORD_SIZE == 0 then value else (value + (WORD_SIZE - value % WORD_SIZE)) % TWO_64
  }

  function ParseDynamicBytes(payload: seq<u8>, offset: nat): Decoded<seq<u8>> {
    if |payload| < offset + WORD_SIZE then Failure(CalldataTooShort) else
    var length :- ParseUsizeWord(payload[offset..offset + WORD_SIZE]);
    var dataStart := offset + WORD_SIZE;
    var expected := dataStart + RoundUpToWord(length);
    if expected >= TWO_64 then Failure(ValueOverflow)
    else if |payload| != expected then Failure(UnexpectedCalldataLength((4 + expected) % TWO_64, 4 + |payload|))
    else if expected < dataStart + length then Failure(CalldataTooShort)
    else Success(payload[dataStart..dataStart + length])
  }

  // ----- Paths

  function HopFrom(tokenIn: Address, segment: seq<u8>): Decoded<RouteHop>
    requires |segment| == PATH_SEGMENT_SIZE
  {
    match FromSwap(tokenIn, segment[3..23], ParseU24Bytes(segment[..3]))
    case Success((key, direction)) => Success(RouteHop(key, direction))
    case Failure(_) => Failure(DecodeError.IdenticalTokens)
  }

  /** The hops of the path segments that follow a token. */
  function Hops(tokenIn: Address, segments: seq<u8>): Decoded<seq<RouteHop>>
    requires |segments| % PATH_SEGMENT_SIZE == 0
    decreases |segments|
  {
    if segments == [] then Success([]) else
    var hop :- HopFrom(tokenIn, segments[..PATH_SEGMENT_SIZE]);
    var rest :- Hops(segments[3..PATH_SEGMENT_SIZE], segments[PATH_SEGMENT_SIZE..]);
    Success([hop] + rest)
  }

  predicate PathShaped(path: seq<u8>) {
    PATH_MIN_LENGTH <= |path| && (|path| - 20) % PATH_SEGMENT_SIZE == 0
  }

  function PathRoute(path: seq<u8>): Decoded<seq<RouteHop>> {
    if !PathShaped(path) then Failure(InvalidPathLength) else Hops(path[..20], path[20..])
  }

  lemma NoHops(tokenIn: Address, segments: seq<u8>)
    requires segments == []
    ensures Hops(tokenIn, segments) == Success([])
  {
  }

  /** One segment further along a path. */
  lemma HopsAt(path: seq<u8>, cursor: nat, tokenIn: Address)
    requires cursor < |path| && (|path| - cursor) % PATH_SEGMENT_SIZE == 0
    ensures Hops(tokenIn, path[cursor..])
         == match HopFrom(tokenIn, path[cursor..cursor + PATH_SEGMENT_SIZE])
            case Failure(error) => Failure(error)
            case Success(hop) =>
              match Hops(path[cursor + 3..cursor + PATH_SEGMENT_SIZE], path[cursor + PATH_SEGMENT_SIZE..])
              case Failure(error) => Failure(error)
              case Success(rest) => Success([hop] + rest)
  {
    hide HopFrom;
    var rest := path[cursor..];
    assert rest[..PATH_SEGMENT_SIZE] == path[cursor..cursor + PATH_SEGMENT_SIZE];
    assert rest[PATH_SEGMENT_SIZE..] == path[cursor + PATH_SEGMENT_SIZE..];
    assert rest[3..PATH_SEGMENT_SIZE] == path[cursor + 3..cursor + PATH_SEGMENT_SIZE];
  }

  method DecodePath(path: seq<u8>) returns (result: Decoded<seq<RouteHop>>)
    ensures result == PathRoute(path)
  {
    hide Hops, HopFrom;
    if |path| < PATH_MIN_LENGTH || (|path| - 20) % PATH_SEGMENT_SIZE != 0 {
      return Failure(InvalidPathLength);
    }
    var route: seq<RouteHop> := [];
    var tokenIn: Address := path[..20];
    var cursor := 20;
    assert forall tail: seq<RouteHop> :: route + tail == tail;
    while cursor < |path|
      invariant 20 <= cursor <= |path| && (|path| - cursor) % PATH_SEGMENT_SIZE == 0
      invariant Hops(path[..20], path[20..]) == match Hops(tokenIn, path[cursor..])
                                                 case Success(rest) => Success(route + rest)
                                                 case Failure(error) => Failure(error)
    {
      HopsAt(path, cursor, tokenIn);
      var segment := path[cursor..cursor + PATH_SEGMENT_SIZE];
      assert segment[3..23] == path[cursor + 3..cursor + PATH_SEGMENT_SIZE];
      var hop :- HopFrom(tokenIn, segment);
      ghost var before := route;
      route, tokenIn, cursor := route + [hop], segment[3..23], cursor + PATH_SEGMENT_SIZE;
      assert forall tail: seq<RouteHop> :: before + ([hop] + tail) == route + tail;
    }
    NoHops(tokenIn, path[cursor..]);
    assert route + [] == route;
    result := Success(route);
  }

  function U24Bytes(feePips: u32): (bytes: seq<u8>)
    ensures |bytes| == 3
  {
    [(feePips / 65536) % 256, (feePips / 256) % 256, feePips % 256]
  }

  lemma U24ThereAndBack(feePips: u32)
    requires feePips < TWO_24
    ensures ParseU24Bytes(U24Bytes(feePips)) == feePips
  {
    assert feePips / 65536 % 256 == feePips / 65536;
    assert feePips / 256 % 256 == feePips / 256 - 256 * (feePips / 65536);
  }

  lemma U24Digits(bytes: seq<u8>)
    requires |bytes| == 3
    ensures U24Bytes(ParseU24Bytes(bytes)) == bytes
  {
    var high: nat, middle: nat, low: nat := bytes[0], bytes[1], bytes[2];
    var value := ParseU24Bytes(bytes);
    assert value / 65536 == high && value / 256 == high * 256 + middle;
  }

  lemma U24RoundTrip(feePips: u32, bytes: seq<u8>)
    requires |bytes| == 3
    ensures feePips < TWO_24 ==> ParseU24Bytes(U24Bytes(feePips)) == feePips
    ensures U24Bytes(ParseU24Bytes(bytes)) == bytes
  {
    hide U24Bytes, ParseU24Bytes;
    if feePips < TWO_24 {
      U24ThereAndBack(feePips);
    }
    U24Digits(bytes);
  }

  /** The path segments for the tokens after the first and the fees between them. */
  function EncodeSegments(tokens: seq<Address>, fees: seq<u32>): seq<u8>
    requires |tokens| == |fees|
  {
    if fees == [] then [] else U24Bytes(fees[0]) + tokens[0] + EncodeSegments(tokens[1..], fees[1..])
  }

  function EncodePath(tokens: seq<Address>, fees: seq<u32>): seq<u8>
    requires |tokens| == |fees| + 1
  {
    tokens[0] + EncodeSegments(tokens[1..], fees)
  }

  function Fees(route: seq<RouteHop>): seq<u32> {
    seq(|route|, i requires 0 <= i < |route| => route[i].pool.feePips)
  }

  function Outputs(route: seq<RouteHop>): seq<Address> {
    seq(|route|, i requires 0 <= i < |route| => route[i].OutputToken())
  }

  /** The tokens a route passes through, first to last. */
  function Tokens(route: seq<RouteHop>): seq<Address>
    requires route != []
  {
    [route[0].InputToken()] + Outputs(route)
  }

  /** A hop a path can carry: canonical key, fee of 24 bits. */
  predicate Encodable(hop: RouteHop) {
    Canonical(hop) && hop.pool.feePips < TWO_24
  }

  /** A route that starts from a token and hands each hop's output to the next. */
  ghost predicate RunsFrom(tokenIn: Address, route: seq<RouteHop>) {
    route != [] ==> route[0].InputToken() == tokenIn && Contiguous(route)
  }

  lemma HopExact(tokenIn: Address, segment: seq<u8>, hop: RouteHop)
    requires |segment| == PATH_SEGMENT_SIZE
    ensures HopFrom(tokenIn, segment) == Success(hop)
       <==> Encodable(hop) && hop.InputToken() == tokenIn && segment == U24Bytes(hop.pool.feePips) + hop.OutputToken()
    ensures HopFrom(tokenIn, segment).Failure? <==> tokenIn == segment[3..23]
  {
    hide Below, ParseU24Bytes, U24Bytes;
    FromSwapExact(tokenIn, segment[3..23], ParseU24Bytes(segment[..3]));
    U24RoundTrip(hop.pool.feePips, segment[..3]);
    assert segment == segment[..3] + segment[3..23];
    if segment == U24Bytes(hop.pool.feePips) + hop.OutputToken() {
      assert segment[..3] == U24Bytes(hop.pool.feePips) && segment[3..23] == hop.OutputToken();
    }
  }

  lemma ContiguousCons(route: seq<RouteHop>)
    requires route != [] && RunsFrom(route[0].OutputToken(), route[1..])
    ensures Contiguous(route)
  {
    forall i {:trigger route[i]} | 0 < i < |route|
      ensures route[i].InputToken() == route[i - 1].OutputToken()
    {
      if i > 1 {
        assert route[1..][i - 1].InputToken() == route[1..][i - 2].OutputToken();
      } else {
        assert route[1..][0] == route[1];
      }
    }
  }

  lemma {:induction false} HopsDecode(tokenIn: Address, segments: seq<u8>, route: seq<RouteHop>)
    requires |segments| % PATH_SEGMENT_SIZE == 0 && Hops(tokenIn, segments) == Success(route)
    ensures |segments| == PATH_SEGMENT_SIZE * |route| && RunsFrom(tokenIn, route)
    ensures forall hop :: hop in route ==> Encodable(hop)
    ensures EncodeSegments(Outputs(route), Fees(route)) == segments
    decreases |segments|
  {
    hide HopFrom, Encodable, U24Bytes;
    if segments != [] {
      var segment, rest := segments[..PATH_SEGMENT_SIZE], segments[PATH_SEGMENT_SIZE..];
      HopExact(tokenIn, segment, route[0]);
      HopsDecode(segments[3..PATH_SEGMENT_SIZE], rest, route[1..]);
      assert segment[3..23] == segments[3..PATH_SEGMENT_SIZE] == route[0].OutputToken() by {
        assert segment == U24Bytes(route[0].pool.feePips) + route[0].OutputToken();
      }
      ContiguousCons(route);
      assert Outputs(route)[1..] == Outputs(route[1..]) && Fees(route)[1..] == Fees(route[1..]);
      assert segments == segment + rest;
    }
  }

  lemma ContiguousTail(route: seq<RouteHop>)
    requires route != [] && Contiguous(route)
    ensures RunsFrom(route[0].OutputToken(), route[1..])
  {
    forall i {:trigger route[1..][i]} | 0 < i < |route[1..]|
      ensures route[1..][i].InputToken() == route[1..][i - 1].OutputToken()
    {
      assert route[i + 1].InputToken() == route[i].OutputToken();
    }
    if |route| > 1 {
      assert route[1].InputToken() == route[0].OutputToken();
    }
  }

  lemma {:induction false} HopsEncode(tokenIn: Address, route: seq<RouteHop>)
    requires RunsFrom(tokenIn, route) && forall hop :: hop in route ==> Encodable(hop)
    ensures |EncodeSegments(Outputs(route), Fees(route))| == PATH_SEGMENT_SIZE * |route|
    ensures Hops(tokenIn, EncodeSegments(Outputs(route), Fees(route))) == Success(route)
    decreases |route|
  {
    hide HopFrom, Encodable, U24Bytes;
    if route != [] {
      var hop := route[0];
      var segments := EncodeSegments(Outputs(route), Fees(route));
      assert Outputs(route)[1..] == Outputs(route[1..]) && Fees(route)[1..] == Fees(route[1..]);
      ContiguousTail(route);
      HopsEncode(hop.OutputToken(), route[1..]);
      assert segments[..PATH_SEGMENT_SIZE] == U24Bytes(hop.pool.feePips) + hop.OutputToken();
      assert segments[3..PATH_SEGMENT_SIZE] == hop.OutputToken();
      assert segments[PATH_SEGMENT_SIZE..] == EncodeSegments(Outputs(route[1..]), Fees(route[1..]));
      HopExact(tokenIn, segments[..PATH_SEGMENT_SIZE], hop);
      assert route == [hop] + route[1..];
    }
  }

  /** Every decoded path is a contiguous route, and encoding the route's tokens and fees gives the
      path back. */
  lemma DecodeThenEncode(path: seq<u8>, route: seq<RouteHop>)
    requires PathRoute(path) == Success(route)
    ensures route != [] && Contiguous(route) && forall hop :: hop in route ==> Encodable(hop)
    ensures EncodePath(Tokens(route), Fees(route)) == path
  {
    hide Encodable, EncodeSegments;
    HopsDecode(path[..20], path[20..], route);
    assert Tokens(route)[1..] == Outputs(route);
    assert path == path[..20] + path[20..];
  }

  /** Every contiguous route with canonical keys and 24-bit fees survives encoding and decoding. */
  lemma EncodeThenDecode(route: seq<RouteHop>)
    requires route != [] && Contiguous(route) && forall hop :: hop in route ==> Encodable(hop)
    ensures PathRoute(EncodePath(Tokens(route), Fees(route))) == Success(route)
    ensures |EncodePath(Tokens(route), Fees(route))| == 20 + PATH_SEGMENT_SIZE * |route|
  {
    hide Encodable, EncodeSegments;
    HopsEncode(route[0].InputToken(), route);
    var path := EncodePath(Tokens(route), Fees(route));
    assert Tokens(route)[1..] == Outputs(route);
    assert path[..20] == route[0].InputToken() && path[20..] == EncodeSegments(Outputs(route), Fees(route));
  }

  /** The k-th token of a path. */
  function PathToken(path: seq<u8>, k: nat): seq<u8>
    requires PATH_SEGMENT_SIZE * k + 20 <= |path|
  {
    path[PATH_SEGMENT_SIZE * k..PATH_SEGMENT_SIZE * k + 20]
  }

  lemma {:induction false} HopsSucceed(path: seq<u8>, hops: nat)
    requires |path| == 20 + PATH_SEGMENT_SIZE * hops
    ensures Hops(path[..20], path[20..]).Success?
       <==> forall k :: 0 <= k < hops ==> PathToken(path, k) != PathToken(path, k + 1)
    ensures Hops(path[..20], path[20..]).Failure? ==> Hops(path[..20], path[20..]).error == DecodeError.IdenticalTokens
    decreases hops
  {
    hide FromSwap;
    if hops > 0 {
      var segments, tail := path[20..], path[PATH_SEGMENT_SIZE..];
      HopExact(path[..20], segments[..PATH_SEGMENT_SIZE], RouteHop(PoolKey(path[..20], path[..20], 0), ZeroForOne));
      HopsSucceed(tail, hops - 1);
      assert segments[3..PATH_SEGMENT_SIZE] == tail[..20] == segments[..PATH_SEGMENT_SIZE][3..23] == PathToken(path, 1);
      assert segments[PATH_SEGMENT_SIZE..] == tail[20..] && PathToken(path, 0) == path[..20];
      assert forall k :: 0 <= k < hops ==> PathToken(tail, k) == PathToken(path, k + 1);
      if Hops(path[..20], segments).Success? {
        forall k | 0 <= k < hops
          ensures PathToken(path, k) != PathToken(path, k + 1)
        {
          if k > 0 {
            assert PathToken(tail, k - 1) != PathToken(tail, k);
          }
        }
      }
    }
  }

  /** A path decodes exactly when it is 20 bytes and one or more 23-byte segments long and no two
      neighbouring tokens are the same; each fault has its own error. */
  lemma PathSucceeds(path: seq<u8>)
    ensures PathRoute(path) == Failure(InvalidPathLength) <==> !PathShaped(path)
    ensures PathShaped(path) ==>
              (PathRoute(path) == Failure(DecodeError.IdenticalTokens)
               <==> exists k :: && 0 <= k < (|path| - 20) / PATH_SEGMENT_SIZE
                                && PathToken(path, k) == PathToken(path, k + 1))
  {
    hide Hops;
    if PathShaped(path) {
      HopsSucceed(path, (|path| - 20) / PATH_SEGMENT_SIZE);
    }
  }

  // ----- Calldata

  function SingleVictim(tx: PendingTransaction): DecodeOutcome {
    var expected := 4 + EXACT_INPUT_SINGLE_WORDS * WORD_SIZE;
    if |tx.input| != expected then Failure(UnexpectedCalldataLength(expected, |tx.input|)) else
    var payload := tx.input[4..];
    var w0 :- Word(payload, 0);
    var tokenIn :- ParseAddressWord(w0);
    var w1 :- Word(payload, 1);
    var tokenOut :- ParseAddressWord(w1);
    var w2 :- Word(payload, 2);
    var feePips :- ParseU24Word(w2);
    var w5 :- Word(payload, 5);
    var amountIn :- ParseU128Word(w5);
    var w6 :- Word(payload, 6);
    var minAmountOut :- ParseU128Word(w6);
    var w7 :- Word(payload, 7);
    if !AllZero(w7) then Failure(NonZeroSqrtPriceLimit) else
    match FromSwap(tokenIn, tokenOut, feePips)
    case Success((key, direction)) =>
      Success(Some(VictimTransaction(tx.txHash, [RouteHop(key, direction)], amountIn, minAmountOut)))
    case Failure(_) => Failure(DecodeError.IdenticalTokens)
  }

  function MultiVictim(tx: PendingTransaction): DecodeOutcome
    requires 4 <= |tx.input|
  {
    var payload := tx.input[4..];
    if |payload| < EXACT_INPUT_WORDS * WORD_SIZE then Failure(CalldataTooShort) else
    var w0 :- Word(payload, 0);
    var pathOffset :- ParseUsizeWord(w0);
    var w3 :- Word(payload, 3);
    var amountIn :- ParseU128Word(w3);
    var w4 :- Word(payload, 4);
    var minAmountOut :- ParseU128Word(w4);
    var path :- ParseDynamicBytes(payload, pathOffset);
    var route :- PathRoute(path);
    Success(Some(VictimTransaction(tx.txHash, route, amountIn, minAmountOut)))
  }

  function Decode(routers: set<Address>, tx: PendingTransaction): DecodeOutcome {
    if tx.to == None || tx.to.value !in routers then Success(None)
    else if |tx.input| < 4 then Failure(CalldataTooShort)
    else if tx.input[..4] == EXACT_INPUT_SELECTOR then MultiVictim(tx)
    else if tx.input[..4] == EXACT_INPUT_SINGLE_SELECTOR then SingleVictim(tx)
    else Success(None)
  }

  /** Every decoded victim carries the transaction's hash and passes victim validation. */
  lemma DecodedIsValid(routers: set<Address>, tx: PendingTransaction, victim: VictimTransaction)
    requires Decode(routers, tx) == Success(Some(victim))
    ensures victim.txHash == tx.txHash && victim.route != [] && Contiguous(victim.route)
    ensures forall hop :: hop in victim.route ==> Encodable(hop)
  {
    hide Hops, ParseDynamicBytes, ParseU128Word, ParseUsizeWord, Below, AllZero;
    if tx.input[..4] == EXACT_INPUT_SELECTOR {
      var payload := tx.input[4..];
      var offset := ParseUsizeWord(Word(payload, 0).value).value;
      DecodeThenEncode(ParseDynamicBytes(payload, offset).value, victim.route);
    } else {
      var payload := tx.input[4..];
      var fee := ParseU24Word(Word(payload, 2).value).value;
      FromSwapExact(ParseAddressWord(Word(payload, 0).value).value,
                    ParseAddressWord(Word(payload, 1).value).value, fee);
      assert victim.route == [victim.route[0]];
    }
  }

  // ----- The encoders, and that decoding undoes them

  function AddressWord(address: Address): (word: seq<u8>)
    ensures |word| == WORD_SIZE
  {
    Zeros(12) + address
  }

  function U128Word(value: u128): (word: seq<u8>)
    ensures |word| == WORD_SIZE
  {
    Zeros(16) + ToBigEndian(value, 16)
  }

  function U256Word(value: u256): (word: seq<u8>)
    ensures |word| == WORD_SIZE
  {
    ToBigEndian(value, 32)
  }

  function U32Word(value: u32): (word: seq<u8>)
    ensures |word| == WORD_SIZE
  {
    Zeros(28) + ToBigEndian(value, 4)
  }

  function Flatten(words: seq<seq<u8>>): seq<u8> {
    if words == [] then [] else words[0] + Flatten(words[1..])
  }

  function EncodeExactInput(path: seq<u8>, recipient: Address, deadline: u256, amountIn: u128,
                            minAmountOut: u128): seq<u8>
    requires |path| <= TWO_64 - WORD_SIZE
  {
    EXACT_INPUT_SELECTOR
    + Flatten([U128Word(EXACT_INPUT_WORDS * WORD_SIZE), AddressWord(recipient), U256Word(deadline), U128Word(amountIn),
               U128Word(minAmountOut), U128Word(|path|)])
    + path + Zeros(RoundUpToWord(|path|) - |path|)
  }

  function EncodeExactInputSingle(tokenIn: Address, tokenOut: Address, feePips: u32, recipient: Address, deadline: u256,
                                  amountIn: u128, minAmountOut: u128, sqrtPriceLimit: u256): seq<u8>
  {
    EXACT_INPUT_SINGLE_SELECTOR
    + Flatten([AddressWord(tokenIn), AddressWord(tokenOut), U32Word(feePips), AddressWord(recipient),
               U256Word(deadline), U128Word(amountIn), U128Word(minAmountOut), U256Word(sqrtPriceLimit)])
  }

  lemma {:induction false} FlattenWords(words: seq<seq<u8>>, tail: seq<u8>, i: nat)
    requires (forall k :: 0 <= k < |words| ==> |words[k]| == WORD_SIZE) && i < |words|
    ensures |Flatten(words)| == WORD_SIZE * |words|
    ensures Word(Flatten(words) + tail, i) == Success(words[i])
  {
    var rest := Flatten(words[1..]);
    assert Flatten(words) + tail == words[0] + (rest + tail);
    if i > 0 {
      FlattenWords(words[1..], tail, i - 1);
      assert (rest + tail)[(i - 1) * WORD_SIZE..(i - 1) * WORD_SIZE + WORD_SIZE]
          == (words[0] + (rest + tail))[i * WORD_SIZE..i * WORD_SIZE + WORD_SIZE];
    } else if |words| > 1 {
      FlattenWords(words[1..], tail, 0);
    } else {
      assert words[1..] == [];
    }
  }

  lemma {:induction false} ZerosAreZero(bytes: seq<u8>)
    requires AllZero(bytes)
    ensures FromBigEndian(bytes) == 0
  {
    if bytes != [] {
      ZerosAreZero(bytes[..|bytes| - 1]);
    }
  }

  lemma {:induction false} ZeroBytes(width: nat)
    ensures AllZero(ToBigEndian(0, width))
  {
    if width > 0 {
      ZeroBytes(width - 1);
    }
  }

  lemma U128WordRoundTrip(value: u128)
    ensures ParseU128Word(U128Word(value)) == Success(value)
    ensures AllZero(U128Word(value)) <==> value == 0
  {
    Powers();
    BigEndianRoundTrip(value, 16);
    var word := U128Word(value);
    assert word[16..32] == ToBigEndian(value, 16) && word[..16] == Zeros(16);
    if AllZero(word) {
      ZerosAreZero(word[16..32]);
    }
    if value == 0 {
      ZeroBytes(16);
    }
  }

  lemma U256WordZero(value: u256)
    ensures AllZero(U256Word(value)) <==> value == 0
  {
    Powers();
    BigEndianRoundTrip(value, 32);
    if AllZero(U256Word(value)) {
      ZerosAreZero(U256Word(value));
    }
    ZeroBytes(32);
  }

  lemma AddressWordRoundTrip(address: Address)
    ensures ParseAddressWord(AddressWord(address)) == Success(address)
  {
    var word := AddressWord(address);
    assert word[..12] == Zeros(12) && word[12..32] == address;
  }

  lemma U32WordRoundTrip(feePips: u32)
    ensures if feePips < TWO_24 then ParseU24Word(U32Word(feePips)) == Success(feePips)
            else ParseU24Word(U32Word(feePips)) == Failure(ValueOverflow)
  {
    var word := U32Word(feePips);
    var a, b := feePips / 256, feePips / 256 / 256;
    assert ToBigEndian(b / 256, 1) == [b / 256 % 256];
    assert ToBigEndian(b, 2) == [b / 256 % 256, b % 256];
    assert ToBigEndian(a, 3) == [b / 256 % 256, b % 256, a % 256];
    assert ToBigEndian(feePips, 4) == [b / 256 % 256, b % 256, a % 256, feePips % 256];
    assert word[28] == b / 256 % 256;
    assert word[..29][28] == word[28];
    assert word[29..32] == [b % 256, a % 256, feePips % 256];
  }

  lemma DynamicBytesRoundTrip(payload: seq<u8>, words: seq<seq<u8>>, path: seq<u8>)
    requires 224 + |path| < TWO_64
    requires |words| == 6 && (forall k :: 0 <= k < |words| ==> |words[k]| == WORD_SIZE) && words[5] == U128Word(|path|)
    requires payload == Flatten(words) + (path + Zeros(RoundUpToWord(|path|) - |path|))
    ensures ParseDynamicBytes(payload, 160) == Success(path)
  {
    hide ParseU128Word, U128Word, Flatten;
    var tail := path + Zeros(RoundUpToWord(|path|) - |path|);
    FlattenWords(words, tail, 5);
    U128WordRoundTrip(|path|);
    assert payload[160..192] == words[5];
    assert payload[192..192 + |path|] == path;
  }

  /** The padded calldata of an encodable route decodes to exactly that route and its amounts. */
  lemma ExactInputRoundTrip(routers: set<Address>, tx: PendingTransaction, route: seq<RouteHop>,
                            recipient: Address, deadline: u256, amountIn: u128, minAmountOut: u128)
    requires tx.to.Some? && tx.to.value in routers
    requires route != [] && Contiguous(route) && (forall hop :: hop in route ==> Encodable(hop))
    requires 224 + |EncodePath(Tokens(route), Fees(route))| < TWO_64
    requires tx.input
          == EncodeExactInput(EncodePath(Tokens(route), Fees(route)), recipient, deadline, amountIn, minAmountOut)
    ensures Decode(routers, tx) == Success(Some(VictimTransaction(tx.txHash, route, amountIn, minAmountOut)))
  {
    hide EncodePath, PathRoute, Encodable, ParseU128Word, U128Word, U256Word, AddressWord, Flatten, Word;
    hide ParseDynamicBytes, RoundUpToWord;
    var path := EncodePath(Tokens(route), Fees(route));
    EncodeThenDecode(route);
    var words := [U128Word(EXACT_INPUT_WORDS * WORD_SIZE), AddressWord(recipient), U256Word(deadline),
                  U128Word(amountIn), U128Word(minAmountOut), U128Word(|path|)];
    var tail := path + Zeros(RoundUpToWord(|path|) - |path|);
    var payload := tx.input[4..];
    assert tx.input == EXACT_INPUT_SELECTOR + (Flatten(words) + tail);
    assert payload == Flatten(words) + tail;
    FlattenWords(words, tail, 0);
    FlattenWords(words, tail, 3);
    FlattenWords(words, tail, 4);
    FlattenWords(words, tail, 5);
    U128WordRoundTrip(EXACT_INPUT_WORDS * WORD_SIZE);
    U128WordRoundTrip(amountIn);
    U128WordRoundTrip(minAmountOut);
    DynamicBytesRoundTrip(payload, words, path);
  }

  /** Single-hop calldata with a zero price limit decodes to its one hop; any other limit, an
      oversized fee or equal tokens is refused. */
  lemma ExactInputSingleRoundTrip(routers: set<Address>, tx: PendingTransaction, tokenIn: Address, tokenOut: Address,
                                  feePips: u32, recipient: Address, deadline: u256,
                                  amountIn: u128, minAmountOut: u128, limit: u256)
    requires tx.to.Some? && tx.to.value in routers
    requires tx.input
          == EncodeExactInputSingle(tokenIn, tokenOut, feePips, recipient, deadline, amountIn, minAmountOut, limit)
    ensures Decode(routers, tx)
         == if feePips >= TWO_24 then Failure(ValueOverflow)
            else if limit != 0 then Failure(NonZeroSqrtPriceLimit)
            else match FromSwap(tokenIn, tokenOut, feePips)
                 case Success((key, direction)) =>
                   Success(Some(VictimTransaction(tx.txHash, [RouteHop(key, direction)], amountIn, minAmountOut)))
                 case Failure(_) => Failure(DecodeError.IdenticalTokens)
  {
    hide ParseU128Word, ParseAddressWord, ParseU24Word, U128Word, U256Word, AddressWord, U32Word, Flatten, Word;
    hide FromSwap, AllZero;
    var words := [AddressWord(tokenIn), AddressWord(tokenOut), U32Word(feePips), AddressWord(recipient),
                  U256Word(deadline), U128Word(amountIn), U128Word(minAmountOut), U256Word(limit)];
    assert tx.input == EXACT_INPUT_SINGLE_SELECTOR + Flatten(words);
    var payload := tx.input[4..];
    assert payload == Flatten(words) + [];
    assert tx.input[..4] == EXACT_INPUT_SINGLE_SELECTOR;
    FlattenWords(words, [], 0);
    FlattenWords(words, [], 1);
    FlattenWords(words, [], 2);
    FlattenWords(words, [], 5);
    FlattenWords(words, [], 6);
    FlattenWords(words, [], 7);
    AddressWordRoundTrip(tokenIn);
    AddressWordRoundTrip(tokenOut);
    U32WordRoundTrip(feePips);
    U128WordRoundTrip(amountIn);
    U128WordRoundTrip(minAmountOut);
    U256WordZero(limit);
  }

  // ----- The answers in terms of the numbers in the calldata

  lemma {:induction false} BigEndianConcat(a: seq<u8>, b: seq<u8>)
    ensures FromBigEndian(a + b) == FromBigEndian(a) * Power256(|b|) + FromBigEndian(b)
  {
    if b == [] {
      assert a + b == a;
    } else {
      var front := b[..|b| - 1];
      BigEndianConcat(a, front);
      assert (a + b)[..|a + b| - 1] == a + front;
      assert FromBigEndian(a) * Power256(|front|) * 256 == FromBigEndian(a) * (256 * Power256(|front|));
    }
  }

  lemma {:induction false} ZeroExact(bytes: seq<u8>)
    ensures FromBigEndian(bytes) == 0 <==> AllZero(bytes)
  {
    if bytes != [] {
      ZeroExact(bytes[..|bytes| - 1]);
    }
  }

  lemma AtLeast(a: nat, b: nat)
    ensures if a == 0 then a * b == 0 else b <= a * b
  {
  }

  /** The first bytes are zero exactly when the number fits the others, which then hold it. */
  lemma LeadingZeros(bytes: seq<u8>, n: nat)
    requires n <= |bytes|
    ensures AllZero(bytes[..n]) <==> FromBigEndian(bytes) < Power256(|bytes| - n)
    ensures AllZero(bytes[..n]) ==> FromBigEndian(bytes[n..]) == FromBigEndian(bytes)
  {
    hide FromBigEndian, Power256, AllZero;
    var head, tail := bytes[..n], bytes[n..];
    assert bytes == head + tail && |tail| == |bytes| - n;
    BigEndianConcat(head, tail);
    BigEndianBound(tail);
    ZeroExact(head);
    AtLeast(FromBigEndian(head), Power256(|tail|));
  }

  lemma {:induction false} BigEndianInjective(a: seq<u8>, b: seq<u8>)
    requires |a| == |b| && FromBigEndian(a) == FromBigEndian(b)
    ensures a == b
  {
    if a != [] {
      BigEndianInjective(a[..|a| - 1], b[..|b| - 1]);
      assert a == a[..|a| - 1] + [a[|a| - 1]] && b == b[..|b| - 1] + [b[|b| - 1]];
    }
  }

  lemma OneByte(byte: u8)
    ensures FromBigEndian([byte]) == byte
  {
    assert [byte][..0] == [];
  }

  lemma LeadingDigit(a: nat, b: nat, power: nat, restA: nat, restB: nat)
    requires restA < power && restB < power
    ensures a * power + restA < b * power + restB <==> a < b || (a == b && restA < restB)
  {
    if a < b {
      assert (a + 1) * power <= b * power;
    } else if b < a {
      assert (b + 1) * power <= a * power;
    }
  }

  /** The order of addresses is that of the numbers they write. */
  lemma {:induction false} BelowIsNumeric(a: seq<u8>, b: seq<u8>)
    requires |a| == |b|
    ensures Below(a, b) <==> FromBigEndian(a) < FromBigEndian(b)
  {
    if a != [] {
      hide FromBigEndian;
      var restA, restB := a[1..], b[1..];
      assert a == a[..1] + restA && b == b[..1] + restB;
      BigEndianConcat(a[..1], restA);
      BigEndianConcat(b[..1], restB);
      OneByte(a[0]);
      OneByte(b[0]);
      BigEndianBound(restA);
      BigEndianBound(restB);
      BelowIsNumeric(restA, restB);
      LeadingDigit(a[0], b[0], Power256(|restA|), FromBigEndian(restA), FromBigEndian(restB));
    }
  }

  /** Each word parser accepts exactly the numbers of its width, with their value. */
  lemma NumbersExact(word: seq<u8>)
    requires |word| == WORD_SIZE
    ensures var n := FromBigEndian(word);
            && ParseU128Word(word) == (if n < TWO_128 then Success(n) else Failure(ValueOverflow))
            && ParseUsizeWord(word) == (if n < TWO_64 then Success(n) else Failure(ValueOverflow))
            && (AllZero(word) <==> n == 0)
  {
    hide FromBigEndian, Power256, AllZero;
    Powers();
    LeadingZeros(word, 16);
    ZeroExact(word);
    assert word[16..] == word[16..32];
  }

  lemma U24IsBigEndian(bytes: seq<u8>)
    requires |bytes| == 3
    ensures ParseU24Bytes(bytes) == FromBigEndian(bytes)
  {
    var low, high := bytes[..2], bytes[..2][..1];
    assert FromBigEndian(high) == bytes[0] as nat;
    assert FromBigEndian(low) == bytes[0] as nat * 256 + bytes[1] as nat;
  }

  lemma FeeExact(word: seq<u8>)
    requires |word| == WORD_SIZE
    ensures var n := FromBigEndian(word);
            ParseU24Word(word) == if n < TWO_24 then Success(n) else Failure(ValueOverflow)
  {
    hide FromBigEndian, Power256, AllZero, ParseU24Bytes;
    Powers();
    LeadingZeros(word, 29);
    assert word[29..] == word[29..32];
    U24IsBigEndian(word[29..32]);
  }

  /** An address word holds a number below 2^160, and the address is its only 20-byte form. */
  lemma AddressExact(word: seq<u8>)
    requires |word| == WORD_SIZE
    ensures match ParseAddressWord(word)
            case Success(address) => FromBigEndian(word) == FromBigEndian(address) < Power256(20)
            case Failure(error) => error == InvalidAddress && Power256(20) <= FromBigEndian(word)
  {
    hide FromBigEndian, Power256, AllZero;
    LeadingZeros(word, 12);
    assert word[12..] == word[12..32];
  }

  /** The number in the 32 bytes from a position of the payload. */
  ghost function NumberAt(payload: seq<u8>, start: nat): nat
    requires start + WORD_SIZE <= |payload|
  {
    FromBigEndian(payload[start..start + WORD_SIZE])
  }

  /** Calls to other recipients, and calls to listed routers with other selectors, are ignored; a
      listed router's calldata without a selector is too short. Nothing else is either. */
  lemma DecodeIgnores(routers: set<Address>, tx: PendingTransaction)
    ensures Decode(routers, tx) == Success(None)
       <==> || tx.to == None || tx.to.value !in routers
            || (4 <= |tx.input| && tx.input[..4] !in {[0xc0, 0x4b, 0x8d, 0x59], [0x41, 0x4b, 0xf3, 0x89]})
    ensures Decode(routers, tx) != Success(None) && |tx.input| < 4 ==> Decode(routers, tx) == Failure(CalldataTooShort)
  {
    hide Hops, ParseDynamicBytes, ParseU128Word, ParseUsizeWord, ParseAddressWord, ParseU24Word, FromSwap, AllZero;
    hide Word;
  }

  /** Single-hop calldata of a listed router is decoded, or refused, by the numbers in its words. */
  lemma SingleAnswer(routers: set<Address>, tx: PendingTransaction)
    requires tx.to.Some? && tx.to.value in routers
    requires 4 <= |tx.input| && tx.input[..4] == [0x41, 0x4b, 0xf3, 0x89]
    ensures |tx.input| != 260 ==> Decode(routers, tx) == Failure(UnexpectedCalldataLength(260, |tx.input|))
    ensures |tx.input| == 260 ==>
              var payload := tx.input[4..];
              var tokenIn, tokenOut, fee := NumberAt(payload, 0), NumberAt(payload, 32), NumberAt(payload, 64);
              var amountIn, minimum := NumberAt(payload, 160), NumberAt(payload, 192);
              var addresses := tokenIn < Power256(20) && tokenOut < Power256(20);
              var values := fee < TWO_24 && amountIn < TWO_128 && minimum < TWO_128;
              var limited := NumberAt(payload, 224) != 0;
              match Decode(routers, tx)
              case Success(Some(victim)) =>
                && addresses && values && !limited && tokenIn != tokenOut
                && victim.amountIn == amountIn && victim.minAmountOut == minimum && |victim.route| == 1
                && FromBigEndian(victim.route[0].InputToken()) == tokenIn
                && FromBigEndian(victim.route[0].OutputToken()) == tokenOut && victim.route[0].pool.feePips == fee
              case Success(None) => false
              case Failure(InvalidAddress) => !addresses
              case Failure(ValueOverflow) => addresses && !values
              case Failure(NonZeroSqrtPriceLimit) => addresses && values && limited
              case Failure(IdenticalTokens) => addresses && values && !limited && tokenIn == tokenOut
              case Failure(_) => false
  {
    hide ParseAddressWord, ParseU24Word, ParseU128Word, AllZero, FromSwap, Below, FromBigEndian, Power256;
    if |tx.input| == 260 {
      var payload := tx.input[4..];
      AddressExact(payload[0..32]);
      AddressExact(payload[32..64]);
      FeeExact(payload[64..96]);
      NumbersExact(payload[160..192]);
      NumbersExact(payload[192..224]);
      NumbersExact(payload[224..256]);
      var tokenIn, tokenOut := ParseAddressWord(payload[0..32]), ParseAddressWord(payload[32..64]);
      var fee := ParseU24Word(payload[64..96]);
      if tokenIn.Success? && tokenOut.Success? && fee.Success? {
        FromSwapExact(tokenIn.value, tokenOut.value, fee.value);
        if FromBigEndian(tokenIn.value) == FromBigEndian(tokenOut.value) {
          BigEndianInjective(tokenIn.value, tokenOut.value);
        }
      }
    }
  }

  /** From its offset on, the payload is the length of some bytes, the bytes, and padding to a whole word. */
  ghost predicate Carries(payload: seq<u8>, offset: nat, bytes: seq<u8>) {
    var start := offset + WORD_SIZE;
    && start <= |payload| < TWO_64 && NumberAt(payload, offset) == |bytes|
    && |payload| == start + (|bytes| + 31) / 32 * 32 && payload[start..start + |bytes|] == bytes
  }

  /** Why nothing can be read at an offset: the length word is missing or too large, the payload is
      not as long as the length asks for, or the length wraps to zero when it is rounded up. */
  ghost predicate CarryFault(payload: seq<u8>, offset: nat, error: DecodeError) {
    var start := offset + WORD_SIZE;
    if |payload| < start then error == CalldataTooShort else
    var length := NumberAt(payload, offset);
    var expected := start + if TWO_64 - 32 < length then 0 else (length + 31) / 32 * 32;
    if length >= TWO_64 || expected >= TWO_64 then error == ValueOverflow
    else if |payload| != expected then error == UnexpectedCalldataLength((4 + expected) % TWO_64, 4 + |payload|)
    else TWO_64 - 32 < length && error == CalldataTooShort
  }

  lemma RoundedUp(length: u64)
    ensures RoundUpToWord(length) == if TWO_64 - 32 < length then 0 else (length + 31) / 32 * 32
  {
  }

  lemma DynamicBytesAnswer(payload: seq<u8>, offset: nat)
    ensures match ParseDynamicBytes(payload, offset)
            case Success(bytes) => Carries(payload, offset, bytes)
            case Failure(error) => CarryFault(payload, offset, error)
  {
    hide ParseUsizeWord, FromBigEndian, RoundUpToWord;
    if offset + WORD_SIZE <= |payload| {
      NumbersExact(payload[offset..offset + WORD_SIZE]);
      var length := NumberAt(payload, offset);
      if length < TWO_64 {
        RoundedUp(length);
      }
    }
  }

  lemma CarriedBytes(payload: seq<u8>, offset: nat, bytes: seq<u8>)
    requires Carries(payload, offset, bytes)
    ensures offset < TWO_64 && ParseDynamicBytes(payload, offset) == Success(bytes)
  {
    hide ParseUsizeWord, FromBigEndian, RoundUpToWord;
    NumbersExact(payload[offset..offset + WORD_SIZE]);
    RoundedUp(|bytes|);
  }

  /** The amounts of a victim are those of the calldata, and its path is carried at the offset. */
  ghost predicate MultiCalldata(payload: seq<u8>, victim: VictimTransaction) {
    && 160 <= |payload| && NumberAt(payload, 96) == victim.amountIn && NumberAt(payload, 128) == victim.minAmountOut
    && victim.route != [] && Contiguous(victim.route) && (forall hop :: hop in victim.route ==> Encodable(hop))
    && Carries(payload, NumberAt(payload, 0), EncodePath(Tokens(victim.route), Fees(victim.route)))
  }

  /** Why a carried path is refused: its length, or two neighbouring tokens that are the same. */
  ghost predicate PathFault(path: seq<u8>, error: DecodeError) {
    if !PathShaped(path) then error == InvalidPathLength else
    && error == DecodeError.IdenticalTokens
    && exists k :: 0 <= k < (|path| - 20) / PATH_SEGMENT_SIZE && PathToken(path, k) == PathToken(path, k + 1)
  }

  /** Path calldata of a listed router decodes to a victim exactly when it carries the victim's path. */
  lemma MultiExact(routers: set<Address>, tx: PendingTransaction, victim: VictimTransaction)
    requires tx.to.Some? && tx.to.value in routers
    requires 4 <= |tx.input| && tx.input[..4] == [0xc0, 0x4b, 0x8d, 0x59]
    ensures Decode(routers, tx) == Success(Some(victim))
       <==> victim.txHash == tx.txHash && MultiCalldata(tx.input[4..], victim)
  {
    hide ParseUsizeWord, ParseU128Word, ParseDynamicBytes, PathRoute, FromBigEndian, Encodable, EncodePath, Carries;
    var payload := tx.input[4..];
    if 160 <= |payload| {
      NumbersExact(payload[0..32]);
      NumbersExact(payload[96..128]);
      NumbersExact(payload[128..160]);
      var offset := NumberAt(payload, 0);
      if Decode(routers, tx) == Success(Some(victim)) {
        DynamicBytesAnswer(payload, offset);
        DecodeThenEncode(ParseDynamicBytes(payload, offset).value, victim.route);
      }
      if MultiCalldata(payload, victim) {
        CarriedBytes(payload, offset, EncodePath(Tokens(victim.route), Fees(victim.route)));
        EncodeThenDecode(victim.route);
      }
    }
  }

  lemma PathErrors(path: seq<u8>)
    requires PathRoute(path).Failure?
    ensures PathFault(path, PathRoute(path).error)
  {
    hide Hops;
    if PathShaped(path) {
      HopsSucceed(path, (|path| - 20) / PATH_SEGMENT_SIZE);
    }
  }

  /** Path calldata of a listed router is refused for the first fault in this order: too short, a number
      too large, nothing carried at the offset, a bad path. */
  lemma MultiFault(routers: set<Address>, tx: PendingTransaction)
    requires tx.to.Some? && tx.to.value in routers
    requires 4 <= |tx.input| && tx.input[..4] == [0xc0, 0x4b, 0x8d, 0x59] && Decode(routers, tx).Failure?
    ensures var payload, error := tx.input[4..], Decode(routers, tx).error;
            if |payload| < 160 then error == CalldataTooShort
            else if || TWO_64 <= NumberAt(payload, 0)
                    || TWO_128 <= NumberAt(payload, 96) || TWO_128 <= NumberAt(payload, 128) then error == ValueOverflow
            else || CarryFault(payload, NumberAt(payload, 0), error)
                 || exists path :: Carries(payload, NumberAt(payload, 0), path) && PathFault(path, error)
  {
    hide ParseUsizeWord, ParseU128Word, ParseDynamicBytes, PathRoute, FromBigEndian, Carries, CarryFault;
    hide PathToken, PathShaped;
    var payload := tx.input[4..];
    if 160 <= |payload| {
      NumbersExact(payload[0..32]);
      NumbersExact(payload[96..128]);
      NumbersExact(payload[128..160]);
      var bytes := ParseDynamicBytes(payload, NumberAt(payload, 0));
      DynamicBytesAnswer(payload, NumberAt(payload, 0));
      if bytes.Success? && PathRoute(bytes.value).Failure? {
        PathErrors(bytes.value);
      }
    }
  }
}
