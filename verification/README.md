# MEV-Sentry: a verified model

MEV-Sentry watches pending Ethereum transactions, decodes Uniswap v3 exact-input calls, and simulates
bounded attacker bundles around each victim. This project models its four decision-making parts and
proves what each promises.

- **Swap simulator** (`Words`, `Rounding`, `Curve`, `FixedPoint`, `SwapStep`, `Pool`, `Range`, `SwapLaws`,
  `Reserves`, `Trades`, `Completion`, `Capacity`, `Routes`, `Flows`, `Sandwiches`, `Bundles`, `Harm`, `Counterexample`,
  `RepeatedPool`).
  Checked 256-bit arithmetic is tied to an exact curve (`Curve`), one loop turn to one liquidity range
  (`Range`), and whole swaps to laws over any number of crossed ticks. A swap of machine words succeeds, pays and
  ends exactly as a run on the exact curve does (`Completion`). `Reserves` defines the exact token
  reserves behind each price; every swap takes in at least the growth of one and pays at most the shrinkage
  of the other, and the two never shrink together. From that follow the no-free-lunch theorem over any
  sequence of swaps, the same for every pool under any route runs, and the sandwich bound over any route that does
  not come back to a pool it has left.
- **Search engine** (`Simulator`, `Engine`, `Analysis`). The search loop is proved against a declarative
  account of its report for an arbitrary simulator, and instantiated with the Uniswap simulator.
- **Mempool tracker and pipeline** (`Mempool`, `Pipeline`). State-changing classes proved against transition
  functions, and properties of every run of those functions.
- **Decoder** (`Model`, `Decoder`). Paths and calldata, with the inverse encoders.

Conventions. Machine words are subset types of the integers; a checked operation that overflows is a failure
with the program's own error. Operations the program neither checks nor saturates wrap as in a release build: the
fee subtraction of a step, the candidate counters, the net profit and the decoder's padded length. Loops and objects
that change state are methods and classes whose contracts equate the result with a function of the inputs; the laws
are lemmas about that function. `hide` statements keep definitions a proof does not need out of the solver's sight.

Running a swap, a route or a bundle takes nothing but sorted ticks, which validation checks. The laws about
them take well-placed pools (`Pool.WellPlaced`): what validation checks, kept by every swap even where the result no
longer validates, and a fee of at most one million pips, which no part of the program checks. `SwapStep.FeeBoundExact`
shows that bound to be exactly what keeps a step within its input; above it the wrapped subtraction lets a step take
more than is left.

Three expectations fail of the code.

- A swap of a valid pool can leave a pool that validation refuses. `Capacity.SwapStaysValid` says exactly for which
  inputs, on every well-placed pool, and `Counterexample.SwapCanInvalidate` is one.
- A front-run can help its victim. That it never does is proved while every swap stays inside its liquidity
  range (`Harm`); `Counterexample.FrontRunCanHelp` is a front-run across one tick that raises the victim's output from
  0 to 1, and `Counterexample.CrossingCanHurt` one across one tick that lowers it from 3 to 1. Bundles that cross
  lie on both sides, so no equivalence on this guard can exist: being inside is enough and not needed. Across any ticks,
  front-run and victim are together paid at most what one run of both inputs is paid (`Routes.RouteSplit`), and the
  attacker gains at most what the victim really loses (`Bundles.SandwichWithinLoss`).
- A sandwich can earn more than its victim put in. On a grouped route it never does (`Bundles.SandwichBound`). A
  contiguous route over pools of two tokens is grouped exactly when it never comes back to a pool it has left
  (`Sandwiches.GroupedExact`); it may turn back and forth over one pool. `RepeatedPool.RepeatedPoolBeatsBound` is a
  bundle over the shortest kind of route that does come back: between two differently priced pools it collects their
  difference. Being grouped is enough, and no exact condition is claimed, since whether a route that comes back
  breaks the bound depends on prices, fees and amounts. No such profit comes out of a single pool for nothing
  (`Flows.NoPoolDrained`).

Where the documents and the code differ, the model follows the code. The architecture notes call a candidate
vulnerable when its net profit is positive; the code asks for at least the configured threshold
(`Engine.VulnerableProfit`), so its vulnerable reports are all profitable exactly when that is positive
(`Engine.ThresholdDecides`). The reported maximum victim loss is the best candidate's loss, which
another candidate may exceed (`Engine.LossIsNotMaximum`).

## Model

| member | source | states |
|---|---|---|
| Curve.FeeAdjoint | src/protocol/uniswap_v3/mod.rs:408-481 | the fee charged on a used-up range and the fee set aside from an input are adjoint: an input covers an amount plus its fee exactly when the input less its fee covers the amount |
| Curve.AmountInPieces | src/protocol/uniswap_v3/mod.rs:570-611 | the rounded-up inputs of adjacent price pieces sum to at least that of the whole |
| Curve.AmountOutPieces | src/protocol/uniswap_v3/mod.rs:570-611 | the rounded-down outputs of adjacent price pieces sum to at most that of the whole |
| Curve.NoOvershoot | src/protocol/uniswap_v3/mod.rs:429-440 | an input short of a range's need stops at a price from the current one up to, and strictly short of, the target, and pays for that move |
| Curve.NextPriceMono | src/protocol/uniswap_v3/mod.rs:491-568 | a larger input reaches a price at least as far along |
| Curve.NextPriceSplit | src/protocol/uniswap_v3/mod.rs:491-568 | two inputs in a row reach no further than one input worth both |
| Curve.HeadStartHurts | src/protocol/uniswap_v3/mod.rs:491-611 | inside one range, a price already moved ahead never improves what an input is paid |
| FixedPoint.MulDivRoundingUpExact | src/protocol/uniswap_v3/mod.rs:647-665 | with an in-range product the rounded-up quotient never fails and is the exact ceiling |
| FixedPoint.DivRoundingUpExact | src/protocol/uniswap_v3/mod.rs:667-682 | the rounded-up quotient is the exact ceiling and its increment never overflows |
| FixedPoint.ProductsExact | src/protocol/uniswap_v3/mod.rs:637-665 | a product of 256 bits or more fails even where its quotient would fit, and any other is divided exactly, rounded down or up |
| FixedPoint.ZerosRefused | src/protocol/uniswap_v3/mod.rs:570-682 | a divisor or a price of zero is refused with its own reason |
| FixedPoint.Amount0Exact | src/protocol/uniswap_v3/mod.rs:570-593 | the two-stage token0 amount is one exactly rounded quotient, up or down, and it succeeds exactly when its first product fits 256 bits; the order of the two prices does not matter |
| FixedPoint.Amount1Exact | src/protocol/uniswap_v3/mod.rs:595-611 | the token1 amount is the exactly rounded quotient and succeeds exactly when its product fits 256 bits |
| FixedPoint.Amount0RoundingGap | src/protocol/uniswap_v3/mod.rs:586-592 | rounding a token0 amount up or down changes it by at most one unit |
| FixedPoint.NextFromAmount0Exact | src/protocol/uniswap_v3/mod.rs:513-544 | a successful falling next price, the zero-amount shortcut included, is the exact ceiling |
| SwapStep.StepExact | src/protocol/uniswap_v3/mod.rs:400-489 | with a fee of at most one million pips, a successful step lands on the target exactly when the input less its fee covers the range and otherwise strictly short of it; it takes at most what is left, all of it when it stops short, and its amounts are the exact curve amounts |
| SwapStep.FeeBoundExact | src/protocol/uniswap_v3/mod.rs:408-482 | every successful step takes at most what is left exactly for the fees of at most one million pips; above, the wrapped subtraction breaks it for every fee |
| SwapStep.StepSucceeds | src/protocol/uniswap_v3/mod.rs:400-489 | for a remaining input below 2^128 and a fee of at most one million pips, a step succeeds exactly when its numbers fit: rising, liquidity times the whole range below 2^256 and times the part covered below 2^160; falling, liquidity times the whole range below 2^160 and, to stop short after moving, liquidity times the starting price; and a covered range leaves something over by the fee. The fault is an overflow, or a division by zero when only the fee is at fault |
| Pool.ValidateTicksSorted | src/protocol/uniswap_v3/mod.rs:356-379 | the pairwise tick checks accept exactly the lists sorted throughout by index and positive price |
| Pool.TicksBelowExact | src/protocol/uniswap_v3/mod.rs:67-78 | the binary-searched position is the only one that splits the ticks at the current tick, so the next tick is the nearest one |
| Pool.NextTickExact | src/protocol/uniswap_v3/mod.rs:67-78 | the next tick is the nearest initialized one above the current tick, or at or below it when falling, and there is none exactly when no tick lies on that side |
| Pool.ValidateExact | src/protocol/uniswap_v3/mod.rs:38-61 | validation accepts exactly the pools whose ticks are sorted and whose price lies between the ticks around it, strictly inside the outermost ticks |
| Pool.ValidateFaults | src/protocol/uniswap_v3/mod.rs:38-61 | an invalid pool is refused for too few ticks, then for its ticks, then because no tick lies on one side of the current tick, then for its price |
| Pool.FirstPairDecides | src/protocol/uniswap_v3/mod.rs:356-379 | the first pair of neighbouring ticks out of order decides the fault: a price of zero, then the order of the indices, then that of the prices |
| Pool.CrossTickSucceeds | src/protocol/uniswap_v3/mod.rs:227-243 | a crossing succeeds exactly when the liquidity plus (rising) or minus (falling) the net lies in 128 bits and, falling, the net is above -2^127 and the index above -2^31; it leaves that liquidity, the price on the tick, and the index, or falling the one below, as the current tick |
| Pool.CrossTickExact | src/protocol/uniswap_v3/mod.rs:227-243 | a crossing moves past exactly one tick, keeps the liquidity below all ticks, and leaves the price between the ticks around it |
| Pool.SwapExactInput | src/protocol/uniswap_v3/mod.rs:186-253 | the swap loop computes the swap function on every pool with sorted ticks, and terminates because each crossing leaves fewer ticks ahead |
| Range.IterationCrosses | src/protocol/uniswap_v3/mod.rs:200-243 | in a successful loop, an input that covers the range uses it up at its exact cost and pay, and the loop goes on behind the tick |
| Range.IterationStops | src/protocol/uniswap_v3/mod.rs:200-246 | in a successful loop, any other input stops strictly inside the range with everything consumed |
| SwapLaws.LoopPreserves | src/protocol/uniswap_v3/mod.rs:200-247 | a successful loop keeps key, ticks and base liquidity, stays well placed, moves the price and the ticks ahead only one way, and only adds output |
| SwapLaws.InputConserved | src/protocol/uniswap_v3/mod.rs:215-225 | a successful swap's steps, as the program computes them, take exactly the input and pay exactly the output |
| SwapLaws.LoopMonotone | src/protocol/uniswap_v3/mod.rs:200-247 | a larger input is paid at least as much and carries the price at least as far, across differing numbers of crossed ticks |
| SwapLaws.LoopSplit | src/protocol/uniswap_v3/mod.rs:200-247 | an input run in two parts gains no more than the same input run at once, through every rounding and crossing |
| Reserves.RangeBounds | src/protocol/uniswap_v3/mod.rs:442-469 | within a range the amount taken in is at least, and the amount paid at most, the exact change of the token's reserve |
| Reserves.ReservesOppose | src/protocol/uniswap_v3/mod.rs:186-253 | at two prices of one pool, if one exact reserve is no larger the other is no smaller, zero-liquidity gaps included |
| Reserves.SwapBounds | src/protocol/uniswap_v3/mod.rs:186-253 | a whole swap takes in at least the growth of one reserve and pays at most the shrinkage of the other |
| Trades.SwapKeeps | src/protocol/uniswap_v3/mod.rs:186-253 | a successful swap keeps the pool's key, ticks and base liquidity and leaves it well placed |
| Trades.SwapMonotone | src/protocol/uniswap_v3/mod.rs:186-253 | whole-swap monotonicity of output and final price |
| Trades.SwapSplit | src/protocol/uniswap_v3/mod.rs:186-253 | an input swapped in two parts is paid at most what one swap of both parts, or more, is paid |
| Trades.TradesBounds | src/protocol/uniswap_v3/mod.rs:227-243 | over any sequence of swaps in either direction, liquidity less the net liquidity at or below the current tick is constant and traders pay in at least the growth of both reserves |
| Trades.NoFreeLunch | src/protocol/uniswap_v3/mod.rs:186-253 | over any sequence of swaps on a pool, in any directions, traders who end with no less of one token end with no more of the other |
| Trades.RoundTrip | src/protocol/uniswap_v3/mod.rs:186-253 | swapping an input and then the whole output back returns at most the input |
| Trades.PairThenBack | src/protocol/uniswap_v3/mod.rs:186-253 | after two swaps in one direction, any swap back of at most what they were paid is paid at most what they put in |
| Trades.PairThenTwoBack | src/protocol/uniswap_v3/mod.rs:186-253 | after two swaps in one direction, any two swaps back that together bring at most what those were paid are together paid at most what they put in |
| Completion.LoopRefines | src/protocol/uniswap_v3/mod.rs:200-247 | on every well-placed pool the loop has exactly the outcome of the run on the exact curve: it succeeds when each range entered fits, each tick reached can be crossed by its numbers and a tick is ahead while input is left, then ends and pays as that run does, and otherwise fails with the fault of the first of these that does not hold |
| Completion.SwapRefines | src/protocol/uniswap_v3/mod.rs:186-253 | on every well-placed pool a swap succeeds exactly for a positive input whose exact run completes with a pay below 2^128, and has exactly its result; any other swap has the fault that applies |
| Capacity.LoopSucceeds | src/protocol/uniswap_v3/mod.rs:200-247 | where every tick ahead in the swap direction can be crossed and every range ahead fits, the loop succeeds exactly up to the input capacity of the ranges ahead and above it fails with Unsupported |
| Capacity.LoopWithinCapacity | src/protocol/uniswap_v3/mod.rs:200-247 | a loop that succeeds stays within the input and output capacities when every tick ahead can be crossed, and on every well-placed pool ends past the outermost tick exactly when it uses up the whole input capacity and stood there already or pays for the last range |
| Capacity.SwapSucceeds | src/protocol/uniswap_v3/mod.rs:186-253 | with the ranges ahead clear, a swap succeeds exactly for a positive input within capacity whose output is below 2^128, and above capacity fails with Unsupported |
| Capacity.SwapSucceedsWithin | src/protocol/uniswap_v3/mod.rs:186-253 | with the ranges ahead clear and paying less than 2^128 together, a swap succeeds exactly for a positive input within capacity |
| Capacity.SwapStaysValid | src/protocol/uniswap_v3/mod.rs:38-61 | a swap of any valid well-placed pool leaves an invalid pool exactly when every tick ahead can be crossed, the input is the whole capacity and the last range costs something |
| Counterexample.SwapCanInvalidate | src/protocol/uniswap_v3/mod.rs:227-243 | a valid pool of capacity 7 whose swap of 7 leaves a pool that validation refuses |
| Routes.SimulateRoute | src/protocol/uniswap_v3/mod.rs:154-184 | the hop loop over the mutable pool map computes the route function, with an empty route and a missing pool as errors |
| Routes.RouteExact | src/protocol/uniswap_v3/mod.rs:169-184 | a run succeeds exactly when its route can be followed hop by hop, each swap taking what the one before it paid and meeting the pools the ones before it left, and ends where that ends |
| Routes.RouteFault | src/protocol/uniswap_v3/mod.rs:169-178 | a run that fails has followed the hops before its fault, which is a missing pool or that of the next swap |
| Routes.RouteFrame | src/protocol/uniswap_v3/mod.rs:169-178 | a route run keeps the registry well placed and touches only the pools of its route |
| Routes.RouteMonotone | src/protocol/uniswap_v3/mod.rs:169-178 | on a route of distinct pools a larger input is paid at least as much, whatever ticks are crossed |
| Routes.RouteSplit | src/protocol/uniswap_v3/mod.rs:292-294 | on a route of distinct pools, front-run and victim are together paid at most what one run of both inputs, or more, is paid, whatever ticks are crossed |
| Flows.RunIsTrades | src/protocol/uniswap_v3/mod.rs:169-178 | a route run, over any route, leaves each pool exactly as the run's own trades on that pool alone |
| Flows.NoPoolDrained | src/protocol/uniswap_v3/mod.rs:154-253 | any route runs one after another, repeated pools included, take one token out of a pool only by putting the other in |
| Sandwiches.GroupedExact | src/domain/model.rs:135-157 | a contiguous route over pools of two tokens is grouped exactly when it never comes back to a pool it has left |
| Sandwiches.TurnsNet | src/protocol/uniswap_v3/mod.rs:169-178 | what a run back and forth over one pool pays in is its input and what it takes out is its output, in the right tokens |
| Sandwiches.SandwichLegs | src/protocol/uniswap_v3/mod.rs:292-322 | front-run, victim and back-run over one grouped route: the way back pays at most both inputs |
| Sandwiches.SandwichThenSale | src/protocol/uniswap_v3/mod.rs:292-322 | a back-run and a later sale over the same grouped way back, of at most what front-run and victim were paid, are together paid at most both inputs |
| Bundles.BuildRegistry | src/protocol/uniswap_v3/mod.rs:107-123 | a registry is built exactly when every pool validates and no key repeats, and then holds exactly those pools; otherwise the fault is that of the first pool that cannot join those before it |
| Bundles.UniswapV3SinglePoolSimulator.ReplacePools | src/protocol/uniswap_v3/mod.rs:125-144 | a replacement takes effect whole, or leaves the registry untouched and names the first fault |
| Bundles.UniswapV3SinglePoolSimulator.SimulateBaseline | src/protocol/uniswap_v3/mod.rs:257-279 | the baseline run, with victim validation, the minimum-output check and the pools touched |
| Bundles.UniswapV3SinglePoolSimulator.SimulateCandidate | src/protocol/uniswap_v3/mod.rs:281-334 | the three-leg simulation computes the candidate function on the registry snapshot; the collected pools are the route's own, in route order, whichever legs ran |
| Bundles.BaselineExact | src/protocol/uniswap_v3/mod.rs:257-279 | a baseline is refused for an empty or disconnected route, for the fault of the victim's run, or for a pay below the minimum, and otherwise reports that pay and the pools of the route |
| Bundles.CandidateSucceeds | src/protocol/uniswap_v3/mod.rs:281-334 | a simulation succeeds exactly when the route is contiguous, front-run and victim can be run, and for a sandwich whose victim is not reverted, the way back too, with both ends of the profit below 2^127 |
| Bundles.CandidateAnswer | src/protocol/uniswap_v3/mod.rs:292-333 | the answer by the legs of the bundle: gross profit 0 under pressure and the way back's pay less the input for a sandwich, the victim's pay as its output, the input as the capital; a reverted victim has no output and leaves no profit |
| Bundles.CandidateFault | src/protocol/uniswap_v3/mod.rs:281-319 | the fault is that of the route, then of the first leg that fails, then an overflowing profit |
| Bundles.WayBackTouchesSame | src/protocol/uniswap_v3/mod.rs:295-313 | neither the victim's run nor the way back adds a pool to those the front-run touched |
| Bundles.UniqueMeans | src/protocol/uniswap_v3/mod.rs:348-354 | appending keeps the list in front, holds exactly what either list holds, and lists nothing appended twice |
| Bundles.StrategiesAgree | src/protocol/uniswap_v3/mod.rs:294-333 | both strategies agree on the victim, who reverts exactly when paid less than the minimum |
| Bundles.SandwichBound | src/protocol/uniswap_v3/mod.rs:281-334 | on a grouped route no bundle's gross profit exceeds the victim's input, whatever ticks are crossed |
| Bundles.SandwichWithinLoss | src/protocol/uniswap_v3/mod.rs:305-319 | on a grouped route the gross profit of a sandwich and what the victim's output fetches when sold right behind it are together at most the victim's input |
| Bundles.TogetherAtMostJoint | src/protocol/uniswap_v3/mod.rs:292-294 | in every bundle on a route of distinct pools, attacker and victim are together paid at most what one run of both inputs is paid |
| Bundles.BundleIsOrders | src/protocol/uniswap_v3/mod.rs:292-313 | the legs of a sandwich on any route are three such runs |
| RepeatedPool.RepeatedPoolBeatsBound | src/protocol/uniswap_v3/mod.rs:281-334 | on a route that comes back to one of two differently priced pools, a sandwich of 1 around a victim of 21 earns 22 |
| Harm.LargerFront | src/protocol/uniswap_v3/mod.rs:292-293 | inside ranges, a larger front-run leaves every pool of the route at least as far along |
| Harm.LargerFrontHurts | src/protocol/uniswap_v3/mod.rs:292-307 | inside ranges, the victim behind a larger front-run is paid no more |
| Harm.FrontHurts | src/protocol/uniswap_v3/mod.rs:257-307 | inside ranges, no front-run leaves the victim above its baseline |
| Harm.RevertingUpwardClosed | src/protocol/uniswap_v3/mod.rs:292-307 | inside ranges, the attacker inputs that revert the victim are upward closed |
| Counterexample.FrontRunCanHelp | src/protocol/uniswap_v3/mod.rs:257-307 | a registered pool and a victim paid 0 at baseline and 1 behind a front-run that crosses one tick |
| Counterexample.CrossingCanHurt | src/protocol/uniswap_v3/mod.rs:257-307 | a registered pool and a victim paid 3 at baseline and 1 behind a front-run that crosses one tick |
| Engine.NetProfitExact | src/analysis/simulator.rs:26-28 | with a gas cost below 2^127 and an in-range difference the wrapped net profit is the true one |
| Engine.BpsMeans | src/analysis/engine.rs:246-254 | a loss within the baseline is at most 10000 basis points, exact while the product does not saturate |
| Engine.BestExtends | src/analysis/engine.rs:161-172 | one more candidate turns the first best of those tried into the first best of all |
| Engine.TrackOutcome | src/analysis/engine.rs:111-173 | recording an outcome keeps all four answers true of the candidates tried; what they mean is in the rows from Engine.MetricsDescribe on |
| Engine.TryInput | src/analysis/engine.rs:65-88 | both strategies are tried on an input, and every answer and counter accounts for both |
| Engine.Analyze | src/analysis/engine.rs:34-101 | for any simulator, the report's best is the first maximum of net profit and then lowest capital among qualifying candidates of the whole grid, the minima and maxima are true ones, and it is Vulnerable exactly when some candidate qualifies |
| Engine.BuildReport | src/analysis/engine.rs:175-243 | the report states the tally, takes loss, basis points, profit and explanation from the best candidate, and its confidence from classification and refusals |
| Engine.NextInputExact | src/analysis/engine.rs:103-109 | despite saturation, the successor of a grid point is the next grid point, and there is none exactly after the last |
| Engine.SearchTerminates | src/analysis/engine.rs:103-109 | a validated search ends exactly when its upper bound is below 2^128-1 |
| Engine.GridExact | src/analysis/engine.rs:64-69 | the candidates are exactly both strategies at every whole step within the bounds |
| Engine.GridMeans | src/analysis/engine.rs:64-109 | the candidates of the whole search, from the two bounds and the step alone |
| Engine.GridAt | src/analysis/engine.rs:64-69 | the order in which candidates are tried: smallest input first, and for each input the sandwich before the pressure |
| Engine.ConfigExact | src/domain/model.rs:272-285 | a configuration is accepted exactly with a range that is not empty, a positive step and a threshold that is not negative; the first of these that fails is the fault |
| Engine.BestUnique | src/analysis/engine.rs:161-172 | the account of the best candidate determines it |
| Engine.ReportMeans | src/analysis/engine.rs:186-240 | the break-even fee is that of the best candidate, and below 2^32 candidates every one is counted, Inconclusive means that every simulation failed, and a confidence of 9500 or more that none did |
| Engine.MetricsDescribe | src/analysis/engine.rs:129-149 | what is kept of a candidate: input, capital, gross profit, gas and pools of its simulation, the difference of gross profit and gas up to a multiple of 2^128, the victim's loss as baseline less output or zero, and its floored basis points of the baseline, at most 10000 |
| Engine.BestAnswer | src/analysis/engine.rs:129-172 | the reported best candidate is described by its own simulation, nets the threshold and is trailed by every other candidate, by net profit and then capital, strictly by those before it; there is none exactly when no candidate nets the threshold |
| Engine.CapitalAnswer | src/analysis/engine.rs:151-154 | the reported capital is the least that a candidate netting the threshold requires |
| Engine.ThresholdAnswer | src/analysis/engine.rs:121-127 | the reported threshold is the least input of a candidate whose simulation reverts the victim |
| Engine.CountAnswer | src/analysis/engine.rs:71-87 | the counters are the numbers of candidates that could and could not be simulated, up to a multiple of 2^32 |
| Engine.VerdictAnswer | src/analysis/engine.rs:186-240 | verdict, confidence, loss, basis points, profit, fee and explanation by whether there is a best candidate and by the two counters, with every value of the confidence |
| Engine.ThresholdDecides | src/analysis/engine.rs:131-135 | Vulnerable reports all claim a positive profit exactly under a positive threshold |
| Engine.VulnerableProfit | src/analysis/engine.rs:131-135 | a Vulnerable report claims at least the configured threshold |
| Engine.LossIsNotMaximum | src/analysis/engine.rs:200-210 | a report whose loss is below that of another qualifying candidate |
| Analysis.ReportedProfitBound | src/analysis/engine.rs:34-101 | over the Uniswap simulator and a grouped route, no report claims more profit than the victim's input, nor Vulnerable for a victim below the threshold |
| Analysis.LossExact | src/analysis/engine.rs:129-130 | inside ranges, the saturating loss of every qualifying candidate is the exact difference between the baseline and its victim output |
| Analysis.ReportedLossExact | src/analysis/engine.rs:200-240 | inside ranges, the reported loss is the baseline output less the best candidate's victim output |
| Analysis.RevertThresholdExact | src/analysis/engine.rs:121-127 | inside ranges, of the candidates tried that could be simulated exactly those of at least the reported threshold revert the victim, and none without a threshold |
| Mempool.MempoolTracker.Observe | src/ingest/mempool.rs:51-114 | an observation performs the transition and keeps the tracker consistent |
| Mempool.MempoolTracker.TransitionTerminal | src/ingest/mempool.rs:144-161 | a terminal transition performs the retirement and keeps the tracker consistent |
| Mempool.MempoolTracker.ActiveTransaction | src/ingest/mempool.rs:128-131 | the active transaction of an identity; its record is always present |
| Mempool.MempoolTracker.ActiveLen | src/ingest/mempool.rs:140-142 | the count is that of the records in the active state |
| Mempool.RunConsistent | src/ingest/mempool.rs:51-161 | over every run the identity map is a bijection onto the active records and every replacement outranks what it replaced |
| Mempool.NeverActiveAgain | src/ingest/mempool.rs:51-161 | a recorded transaction is never forgotten or altered, and never active again once it stopped being so |
| Mempool.ChainEnd | src/ingest/mempool.rs:78-83 | following replacements always ends, at a record of the same identity that was not replaced and outranks the start |
| Mempool.ChainEndsAtActive | src/ingest/mempool.rs:78-85 | a chain that ends active ends at its identity's active transaction |
| Mempool.ObserveActive | src/ingest/mempool.rs:64-113 | an observation becomes active exactly when it is fresh and strictly outranks the active one, if any |
| Mempool.ObserveAnswer | src/ingest/mempool.rs:51-114 | what an observation answers, with the hashes it names, and the sequence number it gives each record, by the records alone |
| Mempool.ObserveTouches | src/ingest/mempool.rs:54-113 | an observation leaves every record but its own and the replaced one as it was |
| Mempool.RetireActive | src/ingest/mempool.rs:150-159 | a retirement clears an identity exactly when its active transaction is the one retired |
| Mempool.RetireAnswer | src/ingest/mempool.rs:144-161 | a retirement is known exactly for a recorded hash, whose record takes the given state; all other records stay as they are |
| Mempool.RunSeenInOrder | src/ingest/mempool.rs:163-166 | over every run, saturated or not, sequence numbers never fall: records are first seen no later than last seen, no later than now |
| Mempool.HighestObservationWins | src/ingest/mempool.rs:64-99 | between terminal events the active transaction of an identity is the first highest-ranked of the one active and the fresh observations |
| Pipeline.AnalysisPipeline.HandleEvent | src/ingest/pipeline.rs:65-75 | an event performs the pipeline's transition and returns its effects |
| Pipeline.AnalysisPipeline.HandleObserved | src/ingest/pipeline.rs:77-100 | only a new or replacing transaction is decoded and analyzed |
| Pipeline.AnalysisPipeline.HandleNewHead | src/ingest/pipeline.rs:121-134 | only a higher block number advances the head |
| Pipeline.ObservationAnswered | src/ingest/pipeline.rs:77-100 | an observation yields the tracker's outcome and, exactly when its hash was unknown and is active afterwards, the report of the decoded victim or the decoding fault |
| Pipeline.RetirementAnswered | src/ingest/pipeline.rs:102-119 | an inclusion or a drop of a recorded hash yields its record effect and leaves that state; of an unknown hash it yields nothing and changes no record |
| Pipeline.HeadAnswered | src/ingest/pipeline.rs:121-134 | the first head and every higher one is announced with the count of active records and kept; any other changes nothing |
| Pipeline.DecodedOnce | src/ingest/pipeline.rs:77-100 | over every run each transaction hash is decoded and analyzed at most once |
| Pipeline.AnalyzedMeansDecoded | src/ingest/pipeline.rs:81-97 | analysis and decode failures come only from events that decode |
| Pipeline.HeadsIncrease | src/ingest/pipeline.rs:121-134 | over every run the announced block numbers strictly increase |
| Pipeline.HeadCountsActive | src/ingest/pipeline.rs:130-133 | a head announcement counts exactly the active records |
| Model.FromSwapExact | src/domain/model.rs:53-84 | the hop built from a swap is the only canonical hop with those end tokens and fee, and equal tokens are the only failure |
| Decoder.BelowIsNumeric | src/domain/model.rs:53-69 | the order that makes a key canonical is that of the addresses read as numbers |
| Model.ValidateVictim | src/domain/model.rs:135-149 | a victim passes exactly when its route is non-empty and every hop takes in what the hop before paid out |
| Model.ReverseRoute | src/domain/model.rs:155-157 | the reverse route is the reversed hops in reverse order |
| Decoder.DecodePath | src/ingest/decoder.rs:202-222 | the cursor loop computes the path function |
| Decoder.PathSucceeds | src/ingest/decoder.rs:202-215 | a path decodes exactly when it is 20 bytes and one or more 23-byte segments with no two equal neighbouring tokens; each fault has its own error |
| Decoder.DecodeThenEncode | src/ingest/decoder.rs:202-222 | encoding the tokens and fees of a decoded path gives the path back |
| Decoder.EncodeThenDecode | src/ingest/decoder.rs:319-332 | every contiguous route with canonical keys and 24-bit fees survives encoding and decoding |
| Decoder.U32WordRoundTrip | src/ingest/decoder.rs:156-162 | a fee word decodes to its fee exactly below 2^24 |
| Decoder.U128WordRoundTrip | src/ingest/decoder.rs:164-172 | an amount word decodes to its amount and is all zero exactly for zero |
| Decoder.DecodeIgnores | src/ingest/decoder.rs:53-77 | a transaction is ignored exactly when it has no recipient, when its recipient is not a listed router, or when at least four bytes of input start with neither selector; fewer bytes to a listed router are too short |
| Decoder.SingleAnswer | src/ingest/decoder.rs:79-110 | single-hop calldata of a listed router by its length and the numbers in its words: tokens, fee and amounts of the victim, and for each fault exactly the numbers that cause it |
| Decoder.DynamicBytesAnswer | src/ingest/decoder.rs:179-200 | bytes are read at an offset exactly as the payload carries them, with their length, their padding and nothing behind; every fault, the wrapped padding included, by the numbers that cause it |
| Decoder.MultiExact | src/ingest/decoder.rs:112-133 | path calldata of a listed router decodes to a victim exactly when it carries the victim's amounts and the encoding of its route |
| Decoder.MultiFault | src/ingest/decoder.rs:112-133 | path calldata is refused for the first fault in order: too short, a number too large, nothing carried at the offset, a bad path |
| Decoder.ExactInputRoundTrip | src/ingest/decoder.rs:112-133 | the padded exactInput calldata of an encodable route decodes to that route and its amounts |
| Decoder.ExactInputSingleRoundTrip | src/ingest/decoder.rs:79-110 | single-hop calldata decodes to its hop, and any non-zero 256-bit price limit, an oversized fee or equal tokens is refused |
| Decoder.DecodedIsValid | src/ingest/decoder.rs:53-77 | every decoded victim carries the transaction's hash and passes victim validation |

## Left out

- `src/ingest/websocket.rs`, the socket half of `src/protocol/uniswap_v3/state.rs`, `src/main.rs`: network I/O and process plumbing.
- `src/app/config.rs`, `src/app/output.rs`, `src/ingest/node.rs`: field lookup, formatting and short hex parsers, which would only add easy members.
- Locks and reference counting around the registry: each simulation reads one snapshot, so the registry is a map field that one method replaces.
- The wording of explanations and pool identifiers: an explanation is the case it tells, with its values, and a pool is identified by the key its identifier prints.
- The subtracting branches of the next-price functions: nothing calls them.
- Agreement with on-chain pools or with tick-to-price tables: tick prices come from configuration.
- SwapStep.StepExact: and every law of swaps takes a fee of at most one million pips, which the program does not check; SwapStep.FeeBoundExact shows that the bound is exact.
- Harm.FrontHurts: and the other laws of Harm require every swap to stay inside its range; Counterexample.FrontRunCanHelp and Counterexample.CrossingCanHurt show that a bundle that crosses a tick may help or hurt, so the guard is sufficient and no equivalence on it holds.
- Capacity.LoopSucceeds: takes a pool whose ranges ahead all fit; what decides the other pools, range by range, is Completion.LoopRefines.
- Bundles.SandwichBound: takes a grouped route; RepeatedPool.RepeatedPoolBeatsBound shows that the bound fails without it, and no exact condition is claimed. What holds on every route is Flows.NoPoolDrained, pool by pool.
- Routes.RouteSplit: and the laws of Harm take a route of distinct pools, because a later hop over the same pool meets prices an earlier one has moved.
- Engine.Analyze: takes an upper bound below 2^128-1, because at that bound the program's search never ends (Engine.SearchTerminates).
- Engine.TrackOutcome: the program's four separate accumulators are the fields of one record.
