# Verified model of the arbitrage pipeline

This project models how the arbitrage system prices a hop, finds and sizes a route, and runs it as one atomic Sui transaction, and proves that these parts fit together. The main result joins all of them: **on a snapshot of constant-product pools, what the scanner reports is exactly what the atomic transaction pays**. A flash-funded transaction commits if and only if the vault holds the loan, every swap's product fits the on-chain `u128` arithmetic and the simulated gross profit covers both the profit target and the flash fee (`EndToEnd.FlashSimulationIsExecution`); one on owned capital if and only if the wallet covers the input, the products fit and the profit target is met (`EndToEnd.OwnedSimulationIsExecution`).

## Layout

| file | what it holds |
|---|---|
| `Arith`, `Chain`, `Sums` | widths, rounded division, abort codes, sums over sequences |
| `Amm`, `AmmPool` | the constant-product quote off chain and on chain, its inverse, the pool object and whole runs |
| `ClmmStep`, `ClmmQuote`, `ClmmBounds`, `ClmmWidths` | the concentrated-liquidity engine: step, tick-crossing loop, laws of every quote, fixed widths |
| `ClmmV2`, `ClmmDepth` | the single-range engine against the constant-product pool, and against a deeper range |
| `Liquidity`, `TickWindow`, `WindowTracking` | the tick table as a set of positions; quoting from a window of it; what carries over to windows |
| `Sizing` | the ternary size search |
| `Cycles`, `CycleLaws` | cycle enumeration by backtracking, and what it enumerates |
| `Scanner`, `Hops`, `FindBest`, `Routes` | simulation, what one hop is worth, valuation, best-of search, feasibility of sizes |
| `Flash`, `Executor`, `Ptb`, `PtbSafety` | vault, profit gate, the transaction machine and its safety over all programs |
| `Plans`, `Execution`, `EndToEnd` | the plan, its lowering, what it does when it runs, and the joining theorems |
| `Triangle` | the triangle of the repository's tests as a witness that the joining theorem's premises can be met |
| `GasCoins`, `Uleb`, `CycleKey` | gas-coin choice, the LEB128 codec, the rotation-invariant cycle key |

Code that updates state is imperative here as well: `AmmPool.Pool`, `Flash.FlashLender` and `Cycles.CycleSearch` are classes, and `QuoteExactIn`, `TernaryMax`, `SimulateCollect`, `SizeRoute`, `FindBest`, `BuildAdjacency`, the plan builders, `PickCovering` and the LEB128 loops are methods with loops. Each of those is proved against a specification function or predicate, and the laws are proved about the specification.

## Modelling decisions

- **Widths.** Amounts are `u64`. The constant-product functions carry the exact `u128` behaviour of each side: a release build of the engine wraps and truncates, Move aborts. The concentrated-liquidity engine is modelled on unbounded naturals; `ClmmWidths` states when its `U256` products and its `u128` results fit (liquidity below 2^72 inside the price bounds).
- **What the engine takes for granted** is `ClmmState.Valid`: a price inside the engine's bounds and a table of positive prices in ascending order, as documented at `offchain/src/clmm.rs:62`.
- **Transactions.** `Ptb.Exec` runs commands over live coins and receipts. A receipt or a resulting coin that is left over makes the transaction roll back, which is what Move's missing `drop` ability enforces; input objects that are not used up, in whole or in part, stay with the sender. Type arguments are tokens carried by the coins; object ids are indices. The settle commands accept a coin of any token, as `sources/executor.move` does: an `ArbReceipt` records no coin type.
- **Supply.** The joining theorems assume that all units of a token together fit `u64` (`SupplyFits`, `LedgerFits`), which is what a Sui coin's total supply obeys.
- **Closing scan.** The size search of `offchain/src/sizing.rs` closes with `x += 1` (line 54), which cannot pass a window that ends at 2^64 - 1. `TernaryMax`, `SizeRoute` and `FindBest` require exactly that no search ends there (`Sizing.ScanEnds`, `FindBest.SearchesEnd`); `FindBest.SmallGridsEnd` gives the plain condition on the grid.

## Where the code and its documentation part

- `amm.rs` is documented as identical to `math.move`. It is, exactly when `amount_in * (10000 - fee) * reserve_out < 2^128`; beyond that the chain aborts while the engine reports a smaller number (`Amm.OutParity`, `Amm.OutParityFailsBeyondU128`), and from there on more input can pay less (`Amm.QuoteMonotoneIff`). The inverse quote and the flash fee have the same kind of exact condition (`Amm.InverseQuoteParity`, `Flash.FeeParity`).
- `get_amount_in` fed to `get_amount_out` delivers what was asked if and only if the inverse product fits `u128`, the inverse quote fits `u64` and the forward product fits `u128` (`Amm.InverseQuoteDelivers`); `Amm.InverseQuoteFallsShort` has an output that is quoted correctly and still not delivered.
- A tick that lies exactly at the current price is never crossed, so the reported liquidity has to be that of the range ahead. A quote uses the right liquidity on every range if and only if it is (`Liquidity.TracksIffOnward`). A pool that sits on a tick reports one of its two sides: towards that side the quote is right, towards the other it is right if and only if no net liquidity sits at the price (`Liquidity.TrackingFromChainLiquidity`; `Liquidity.OnTickMispriced` is such a pool).
- `select_window` is documented as picking the ticks nearest the centre. It balances by rank (`TickWindow.WindowBalances`): `TickWindow.NearestIff` says exactly when its choice is nearest by distance, `TickWindow.WindowIsByRank` has a table on which it is not.
- The indexer reuses a cached window after the price has moved (`offchain/src/indexer.rs:432-437`). As long as the price has not passed a tick the window dropped, every quote is right or refused (`TickWindow.PieceSound`). That is exactly as long as the boundaries are the nearest ones in both directions (`TickWindow.CachedWindowIff`); beyond it a cached window can answer where the full table refuses (`TickWindow.CachedWindowOverquotes`).
- `clmm.rs` claims that deeper liquidity means less slippage. It does whenever the input reaches the target or the division behind the next price leaves no remainder (`ClmmDepth.DeeperPaysUnlessRounded`), and always up to the granularity of the price (`ClmmDepth.DeeperPaysUpToRounding`); beyond a liquidity of 2^64 that is more than a unit, and a deeper range can pay less (`ClmmDepth.DeeperCanPayLess`).
- `sizing.rs` takes feasibility to be a prefix of the size range. On routes it is an interval: a size too small to survive a hop is infeasible (`Routes.DustIsInfeasible`). It is a prefix if and only if the smallest size is feasible or none is (`Routes.PrefixIffLowFeasible`).
- `net_profit` is documented as gross profit less gas and fee. With its saturating subtractions it is that exactly when the output covers input, gas and fee; a `min_profit` of at least 1 guarantees it (`Scanner.NetProfitExact`), while with 0 a loss is reported as 0 (`Triangle.LossIsReported`).
- `ptb.rs` says the profit gate also guarantees repayment. That holds exactly when `min_profit` is at least the fee, or so large that nothing passes the gate (`Executor.GateCoversRepayment`).
- `executor.move` says there is no way to walk away with the coins and skip the profit check (line 19). The check cannot be skipped, but a receipt names no token: a session begun with one token can be settled with a coin of another, and its own coin leaves without profit (`PtbSafety.SettledInAnotherToken`). A session ends with its profit in its own token if and only if it is settled with that token (`PtbSafety.PaidInKindIff`); both plans do.
- The LEB128 decoder accepts padded encodings; re-encoding gives the same bytes exactly when there is no padding (`Uleb.ReencodeIffMinimal`).
- `pick_gas_coins_covering` also fails when nothing is needed (`GasCoins.PickCovering`).

## Model

| member | source | states |
|---|---|---|
| EndToEnd.FlashSimulationIsExecution | offchain/src/scanner.rs:119-232 | For a reported opportunity on pools with unique ids, the flash transaction on the same pools commits iff the vault holds the loan, every swap product fits `u128`, `min_profit <= gross_profit` and the fee is at most the gross profit; then the sender gets output less loan and fee, the vault gains the rounded-up fee, each route pool moved by its own simulated hop and every other pool is unchanged |
| EndToEnd.OwnedSimulationIsExecution | offchain/src/ptb.rs:624-662 | The same for owned capital, the input split off the gas coin: it commits iff the wallet covers the input, every product fits and `min_profit <= gross_profit`; the sender gets exactly the simulated output and keeps the rest of the coin, vaults are untouched |
| EndToEnd.NetProfitIsDelivered | offchain/src/scanner.rs:208-219 | With the vault's own fee rate and `min_profit >= 1` in the scan, the net profit covers every fee that fits `u64`: the transaction commits iff the fee fits, the vault holds the loan, the products fit and the target is at most the gross profit, and what arrives is the reported `net_profit` plus the gas budget |
| EndToEnd.FlashTransactionIs | offchain/src/executor.rs:94-98 | Command by command: loan, session, one swap a hop on its own pool, in its direction, with the floor of its simulated output, then settle, repay and transfer |
| EndToEnd.OwnedTransactionIs | offchain/src/executor.rs:94-98 | The same for owned capital |
| Triangle.FlashTriangleCommits | tests/flash_arb_tests.move:18-82 | On the triangle of pools and the vault of the flash test, the report for input 10 meets every premise of `EndToEnd.FlashSimulationIsExecution`, and its transaction commits for any slippage tolerance, paying the trader 4 and the vault 1 |
| Triangle.LossIsReported | offchain/src/scanner.rs:215-220 | With `min_profit` 0 and a large gas cost the triangle is reported with net profit 0 although its signed net is negative |
| EndToEnd.ReportedSwaps | offchain/src/executor.rs:94-98 | The swaps with their slippage floors, from any slot, go through iff every product fits, and then pay `hop_outputs` hop by hop |
| EndToEnd.SlippageFloorTight | offchain/src/executor.rs:1040-1043 | The floor is the greatest amount within the tolerated share, 0 from 100% on; it never exceeds the output and equals it iff there is nothing to give up |
| EndToEnd.HopResolves | offchain/src/ptb.rs:554-575 | With unique ids a hop resolves to the very pool the scan priced it by, in the same orientation |
| Execution.SwapsPayQuotes | offchain/src/scanner.rs:260-297 | A route over untouched snapshot pools pays the simulated outputs, passes one coin along, moves each pool by its own hop and changes nothing else |
| Execution.SwapsAbortOnOverflow | sources/math.move:29-32 | If some product along a quotable route leaves `u128`, the swaps abort |
| Execution.SwapPaysQuote | offchain/src/scanner.rs:281-297 | One on-chain swap on a snapshot pool pays what `quote_hop` quoted and moves the reserves by it |
| Execution.SwapsPassOneCoin | offchain/src/ptb.rs:554-611 | Over any ledger, the swaps of a route leave exactly one coin and touch no vault, loan or session |
| Execution.SwapsMeetFloor | offchain/src/ptb.rs:554-611 | Over any ledger, however the pools have moved: if the swaps of a route go through, the last one has met its floor |
| Execution.GatesDecide | sources/executor.move:93-106 | From the settle step on, a flash plan completes iff the coin covers both the profit target and the debt; the sender keeps the rest, the vault gains amount plus fee |
| Execution.FlashOpens | sources/flash.move:79-85 | Borrow and begin succeed iff the fee fits `u64` and the vault holds the amount; the resulting coin, receipt and session are exact |
| Execution.FlashPlanCommits | offchain/src/ptb.rs:66-89 | For every route and ledger whose swaps succeed and end in the lent token: the plan commits iff profit target and debt are covered; with `min_profit` at least the fee the profit gate alone decides |
| Plans.LowerFlash | offchain/src/ptb.rs:442-541 | The flash plan lowers to borrow, begin, the route's swaps, settle, repay and transfer, each acting on the coin the step before left |
| Plans.LowerOwned | offchain/src/ptb.rs:627-662 | The owned plan lowers to splitting the input off the gas coin, begin, the swaps and settle |
| Plans.LowerSwaps | offchain/src/ptb.rs:554-611 | Swap steps lower one for one, in order, in the route's directions, with the resolved floors in place of the plan's 0 |
| Plans.FlashArbPlan | offchain/src/ptb.rs:70-89 | Borrow, begin, one call a hop of its venue's adapter by name, in its direction, on its pool, floor 0, then settle, repay and transfer |
| Plans.OwnedArbPlan | offchain/src/ptb.rs:94-100 | Begin, one such call a hop, settle |
| Plans.PushSwaps | offchain/src/ptb.rs:150-175 | Keeps what is there and appends, per hop, the call of `amm_v2_adapter`, `cetus_adapter` or `turbos_adapter` by its venue, `swap_exact_in_a_to_b` or `_b_to_a` by its direction, its pool and floor 0 |
| Plans.SwapCommandsAre | offchain/src/ptb.rs:571-608 | Command by command: resolved pool, direction, the coin the one before left, own floor |
| PtbSafety.CommitConserves | sources/flash.move:79-105 | For every command sequence a committed transaction conserves every token: shared objects plus deliveries equal shared objects plus inputs |
| PtbSafety.CommitPaysVaults | sources/flash.move:91-112 | Every vault ends with its starting reserve plus the rounded-up fees of the loans it issued |
| PtbSafety.CommitDischargesReceipts | sources/executor.move:48-106 | Every loan is repaid and every session closed by exactly one command, and each session closes at `initial + min_profit` or more |
| PtbSafety.DroppedReceiptRollsBack | sources/flash.move:47-53 | A transaction that never discharges some receipt is rolled back |
| PtbSafety.CommitLeavesOnlyInputs | sources/executor.move:64-99 | What a committed transaction leaves behind are input objects that no session was begun or settled with |
| PtbSafety.SwapStepOutcome | sources/amm_v2.move:82-121 | A swap command goes through iff its coin is of the side it pays into and the pool completes the swap; the floor is met, the coin is replaced by the payment, nothing else changes |
| PtbSafety.PaidInKindIff | sources/executor.move:80-99 | A session of a committed transaction ends with its profit in the token it was begun with iff it was settled with a coin of that token |
| PtbSafety.SettledInAnotherToken | sources/executor.move:17-21 | A transaction that begins with 100 A, settles with 200 B and carries the A away commits |
| PtbSafety.StepConserves | sources/amm_v2.move:82-121 | No single command creates or destroys a unit of any token |
| PtbSafety.ExecConserves | sources/flash.move:79-105 | Nor does any run of commands |
| PtbSafety.StepKeepsPrincipal | sources/flash.move:79-105 | A vault's reserve plus open debts less fees charged is invariant under every command |
| PtbSafety.ExecKeepsPrincipal | sources/flash.move:79-105 | ... and over every run |
| PtbSafety.StepKeepsSound | sources/executor.move:82-106 | Every command keeps: receipts carry their vault's rounded-up fee, closed sessions met their target |
| PtbSafety.ExecCounts | sources/executor.move:48-54 | A receipt's discharged flag counts the commands that name it, so none is discharged twice |
| PtbSafety.ExecKeepsPools | sources/amm_v2.move:82-121 | Over every run each pool's product never falls and a live pool stays live |
| Executor.GateIsExact | sources/executor.move:101-106 | The gate passes iff `final >= initial + min_profit` and then returns the difference; a target beyond `u64` and a missed target abort with their own codes |
| Executor.GateCoversRepayment | sources/executor.move:93-106 | Passing the gate makes repayment affordable for every final amount iff `min_profit` is at least the fee (or the target overflows) |
| Flash.FeeIsLeast | sources/flash.move:107-112 | The fee is the least amount that is at least the rate's share in parts per ten thousand |
| Flash.FeeParity | offchain/src/flashloan.rs:21-28 | Off-chain and on-chain fee agree iff the fee fits `u64`; otherwise the chain aborts and the engine truncates; rates of at most 100% always fit, and 100% charges the amount |
| Flash.RepayTotalIsDue | offchain/src/flashloan.rs:84-87 | `repay_total` is what the vault asks for iff that fits `u64`; past it it saturates |
| Flash.BorrowOutcomes | sources/flash.move:79-85 | Borrowing, outcome by outcome: fee that does not fit, reserve too small, or the exact loan and receipt |
| Flash.RepayOutcomes | sources/flash.move:91-105 | Repaying, outcome by outcome and code by code, in the order of the source's checks |
| Flash.LoanRoundTrip | sources/flash.move:79-105 | Borrow then repay leaves the vault richer by exactly the rounded-up fee and returns the exact change |
| Flash.FlashLender.constructor | sources/flash.move:60-69 | The vault starts with its funds and fee rate |
| Flash.FlashLender.Fund | sources/flash.move:72-74 | Adds the funds, or aborts and changes nothing |
| Flash.FlashLender.Lend | sources/flash.move:79-85 | The in-place `borrow` has exactly the specified effect, or aborts unchanged |
| Flash.FlashLender.Collect | sources/flash.move:91-105 | The in-place `repay` likewise, wrong vault and underpayment included |
| FindBest.FindBest | offchain/src/scanner.rs:119-133 | The result is a simple cycle at an input inside the grid's span, with its own evaluation, and nets at least as much as every simple cycle at every grid input; of equally good cycles it is the first enumerated |
| FindBest.SmallGridsEnd | offchain/src/sizing.rs:45-56 | Every size search ends if 2^64 - 1 is not a grid input or is no size a cycle can be quoted at |
| FindBest.PoolRoundTrip | offchain/src/scanner.rs:281-297 | For both pool kinds, quoting there and back on one snapshot never returns more than was put in |
| FindBest.OpportunityPoolsDistinct | offchain/src/scanner.rs:203-207 | Every reported opportunity uses pairwise distinct pools |
| Scanner.SizeRoute | offchain/src/scanner.rs:136-170 | No grid size beats the result, which is the first such grid size or a size that strictly beats the grid; if net profit over the span is feasible up to a point and peaked, no size in the span beats it |
| Scanner.NetProfitExact | offchain/src/scanner.rs:197-232 | Every field of an opportunity is the simulated one; net profit is exact iff output covers input, gas and fee, and always for `min_profit >= 1` |
| Scanner.EvaluationInNumbers | offchain/src/scanner.rs:197-232 | A size is reported iff it can be simulated, gains, and its net profit floored at 0 meets the floor; every field in plain numbers |
| Scanner.EvaluationFollowsObjective | offchain/src/scanner.rs:175-193 | For `min_profit >= 1` a size is reported iff its signed net clears the floor |
| Scanner.PickBest | offchain/src/scanner.rs:160-169 | The comparison loop returns the first evaluation of the candidates that none of them beats |
| Scanner.MinMax | offchain/src/scanner.rs:149-150 | The ends of the grid |
| Scanner.SimulateCollect | offchain/src/scanner.rs:260-276 | Each output is its pool's quote for the output before it, the first for the input; nothing is returned iff the route is empty or no such outputs exist |
| Scanner.ByIdHolds | offchain/src/scanner.rs:120 | The id map holds snapshot pools under their own ids, and all of them when ids are unique |
| Scanner.LaterWins | offchain/src/scanner.rs:120 | Of several pools with one id the last is held |
| Hops.V2HopBelowPrice | offchain/src/scanner.rs:283-294 | A constant-product hop pays no more than the reserves' ratio in its own direction |
| Hops.ClmmHopBelowPrice | offchain/src/scanner.rs:295 | A concentrated-liquidity hop pays no more than the pool's price in its own direction |
| Hops.ClmmHopAnswersIff | offchain/src/scanner.rs:295 | Such a hop through loaded ticks answers iff its whole input goes into the pool's ranges in its direction, with what they pay |
| Hops.HopModelsAgree | offchain/src/scanner.rs:278-297 | A pool without ticks answers every hop, in either direction, with at most what the constant-product pool on its virtual reserves answers, and less by at most the two models' rounding |
| Routes.HopMonotone | offchain/src/scanner.rs:281-297 | For both pool kinds a feasible size makes every smaller positive size feasible, for no more output |
| Routes.FeasibleInterval | offchain/src/scanner.rs:260-276 | Between two feasible sizes of a route everything is feasible and every hop output is monotone |
| Routes.PrefixIffLowFeasible | offchain/src/sizing.rs:12-15 | Feasibility of a route is a prefix of a range iff the smallest size is feasible or none is |
| Routes.DustIsInfeasible | offchain/src/sizing.rs:12-15 | A concrete route on which a smaller size is infeasible and a larger one feasible |
| Cycles.BuildAdjacency | offchain/src/scanner.rs:334-353 | Each token's list is its outgoing edges in pool order, both orientations |
| Cycles.CycleSearch.constructor | offchain/src/scanner.rs:361-364 | The search starts with only the base visited, no path and no cycles |
| Cycles.CycleSearch.Dfs | offchain/src/scanner.rs:377-407 | Appends exactly the cycles below the current token and restores `visited` and `path`; terminates because the path is bounded |
| Cycles.FindCycles | offchain/src/scanner.rs:356-375 | Returns the enumeration from the base |
| Cycles.EdgesFromMembers | offchain/src/scanner.rs:334-353 | An edge is listed at a token iff it starts there and names a pool's id and venue and trades that pool's pair in its direction |
| Cycles.EdgesInPoolOrder | offchain/src/scanner.rs:334-353 | The edges out of a token come in pool order |
| Cycles.FoundMembers | offchain/src/scanner.rs:389-406 | A route is found below a path iff it extends it, has 2 to `max_hops` hops and completes through fresh tokens |
| CycleLaws.CompletesIsSimplePath | offchain/src/scanner.rs:377-407 | The recursive description equals the plain one: chained hops, distinct fresh interior tokens, ending at the base |
| CycleLaws.CyclesEnumerated | offchain/src/scanner.rs:355-407 | The result is exactly the simple cycles of 2 to `max_hops` hops, each once when pool ids are unique |
| CycleLaws.FoundDistinct | offchain/src/scanner.rs:389-406 | No route is found twice |
| CycleLaws.RepeatedPoolIsRoundTrip | offchain/src/scanner.rs:391-399 | A simple cycle that uses a pool twice is the two-hop round trip through it |
| Sizing.TernaryMax | offchain/src/sizing.rs:20-57 | A result is a size of the range with its own value; on a prefix-feasible objective nothing is returned iff nothing is feasible; on a peaked one the result is the first maximum |
| Sizing.ScanCanRunOn | offchain/src/sizing.rs:45-56 | A search whose closing scan would not end: 2^64 - 1 is feasible and ends the last window |
| Sizing.FeasibleUpperBound | offchain/src/sizing.rs:61-80 | Returns a feasible size whose successor is not (or the top), nothing iff both ends are infeasible; on a prefix, the exact boundary |
| Sizing.ProbesAreLogarithmic | offchain/src/sizing.rs:69-78 | Bisection halves the range: the number of probes is logarithmic |
| Sizing.NarrowWindow | offchain/src/sizing.rs:32-43 | The narrowing loop computes the specified window |
| Sizing.NarrowChooses | offchain/src/sizing.rs:33-42 | Probes a third from either end; the better keeps its side, the left one on a tie, and an infeasible probe never wins |
| Sizing.ScanMax | offchain/src/sizing.rs:46-56 | The closing scan returns the first of the largest feasible values |
| Sizing.RoundsAreLogarithmic | offchain/src/sizing.rs:9-10 | After k rounds `width * 3^k <= 2^k * initial width`, so the number of rounds is logarithmic |
| Sizing.WindowKeepsPeak | offchain/src/sizing.rs:32-43 | The first maximum of a unimodal objective never leaves the window |
| Sizing.PeakIsMax | offchain/src/sizing.rs:45-56 | The scanned maximum of a window around the peak is the maximum over all feasible sizes |
| Amm.CurveOut | offchain/src/amm.rs:23-26 | The quote is below the reserve and is the output at which the fee-adjusted product still holds but one more unit breaks it |
| Amm.CurveOutGreatest | offchain/src/amm.rs:23-26 | No larger output keeps the product |
| Amm.OutParity | sources/math.move:19-33 | Engine and chain refuse the same degenerate inputs; otherwise they agree with the exact curve iff the product fits `u128`, and if not the chain aborts and the engine reports less |
| Amm.QuoteInNumbers | sources/math.move:19-33 | The whole quote in plain numbers, with the abort code of each refusal: the output at which the fee-adjusted product still holds and one unit more breaks it |
| Amm.OutParityFailsBeyondU128 | offchain/src/amm.rs:3-6 | Amounts on which the two implementations part |
| Amm.QuoteMonotone | offchain/src/amm.rs:14-27 | More input never pays less while the product fits, and smaller products fit too |
| Amm.QuoteMonotoneIff | offchain/src/amm.rs:14-27 | The engine's quote is monotone up to a given input iff that input's product fits: the first one that wraps pays less than its predecessor |
| Amm.CurveOutMonotone | sources/math.move:19-33 | The exact quote is monotone without any bound |
| Amm.BelowMarginalPrice | offchain/src/amm.rs:14-27 | Every quote is below the marginal price, strictly when positive |
| Amm.RoundTripLoses | offchain/src/amm.rs:14-27 | Swapping there and back on one snapshot returns strictly less |
| Amm.InverseQuoteParity | sources/math.move:37-50 | Engine and chain return the intended input iff the product fits `u128` and the result `u64`; otherwise the chain aborts |
| Amm.InverseQuoteInNumbers | sources/math.move:37-50 | The inverse quote in plain numbers, with the abort code of each refusal: the least whole input strictly above the exact price |
| Amm.DeliversIffCovered | sources/math.move:19-33 | On the unbounded curve an input delivers an output iff it covers the exact price for it |
| Amm.QuoteDeliversIffCovered | offchain/src/amm.rs:14-27 | What the engine delivers is covered; while the product fits the converse holds too, and on chain delivery is exactly coverage and fit |
| Amm.QuoteInversion | sources/math.move:37-50 | On the unbounded curve the inverse quote delivers what was asked, is at most one unit above the least input that does, and overpays iff the division is exact |
| Amm.InverseQuoteDelivers | offchain/src/amm.rs:14-44 | The engine's own pair, for all `u64` inputs: `get_amount_in` fed to `get_amount_out` delivers iff both products fit `u128` and the quote `u64`, and the pair on chain completes exactly then; no input below the quote less one delivers, and that one does iff the division is exact |
| Amm.InverseQuoteFallsShort | offchain/src/amm.rs:29-44 | A deliverable output whose inverse quote is exact and whose delivery still falls short |
| AmmPool.Pool.constructor | sources/amm_v2.move:45-67 | The pool starts with its seeds and fee |
| AmmPool.Pool.Fund | sources/amm_v2.move:71-79 | Adds to both reserves, or aborts unchanged |
| AmmPool.Pool.SwapAToB | sources/amm_v2.move:82-100 | The in-place swap has exactly the specified effect, or aborts unchanged |
| AmmPool.Pool.SwapBToA | sources/amm_v2.move:103-121 | Likewise in the other direction |
| AmmPool.SwapCompletesIff | sources/amm_v2.move:82-121 | A swap completes iff the pool is live, the input positive, the product inside `u128`, the floor met and the paid side inside `u64` |
| AmmPool.SwapPaysCurve | sources/amm_v2.move:82-121 | A completed swap paid exactly the curve's price and moved both reserves by the amounts |
| AmmPool.SwapInFields | sources/amm_v2.move:82-121 | The swap in the pool's own fields, both directions: which check aborts with which code and in which order, and what is left; the fee rate never changes |
| AmmPool.SwapKeepsProduct | sources/amm_v2.move:82-121 | The reserve product never falls and both reserves stay positive |
| AmmPool.RunKeepsProduct | sources/amm_v2.move:71-121 | Nor over any run of swaps and top-ups, and the fee rate stays |
| AmmPool.RunAccounts | sources/amm_v2.move:71-121 | Over any run each reserve is what it was, plus what completed calls brought, less what they paid |
| AmmPool.RunTakesNothingForFree | sources/amm_v2.move:71-121 | No run takes one token out without leaving more of the other |
| AmmPool.SplittingNeverPays | sources/math.move:19-33 | Two consecutive swaps never pay more than the single one, floors included |
| ClmmStep.CostIsLeast | offchain/src/clmm.rs:97-122 | The rounded-up delta is the least input that covers a price move |
| ClmmStep.YieldIsGreatest | offchain/src/clmm.rs:97-122 | The rounded-down delta is the greatest output a price move releases |
| ClmmStep.FurthestIsCovered | offchain/src/clmm.rs:126-140 | The next price is the furthest one the input covers |
| ClmmStep.StopsInside | offchain/src/clmm.rs:144-176 | An input that does not cover the target stops strictly before it and pays for what it moved |
| ClmmStep.NetInputIsGreatest | offchain/src/clmm.rs:153 | The input after the fee is the greatest amount that leaves the fee rate's share, in parts per million, for every rate |
| ClmmStep.StepSound | offchain/src/clmm.rs:144-192 | A step stays between price and target, reaches the target iff the net input covers it, goes as far as it covers, charges the least and pays the greatest amount |
| ClmmStep.StepGoesAsFarAsAffordable | offchain/src/clmm.rs:144-192 | The same in terms of the fee rate and the curve alone: it goes exactly as far as some input within the fee-reduced remainder covers |
| ClmmStep.StepAccounts | offchain/src/clmm.rs:184-191 | A step takes no more than remains, all of it if it stops inside, and the least sufficient fee if it reaches the target |
| ClmmQuote.QuoteExactIn | offchain/src/clmm.rs:207-294 | The loop computes the specified walk, refusal of unfinished and oversized quotes included |
| ClmmQuote.CrossableTravels | offchain/src/clmm.rs:223-243 | The filtered, sorted boundaries lie each ahead of the one before |
| ClmmQuote.CrossableMembers | offchain/src/clmm.rs:224-238 | They are exactly the ticks strictly ahead of the price |
| ClmmQuote.ApplyNetClamps | offchain/src/clmm.rs:195-202 | Crossing upwards adds the net, downwards subtracts it, clamped to `u128`; the least `i128` is added in both directions |
| ClmmBounds.CurveKept | offchain/src/clmm.rs:93-122 | A covered input and a released output keep the product of the virtual reserves |
| ClmmBounds.StepKeepsCurve | offchain/src/clmm.rs:144-192 | No step pays above the curve of its range, in either direction |
| ClmmBounds.AdvanceFacts | offchain/src/clmm.rs:258-284 | One pass of the loop: exact remainder and output, nothing left unless the target is reached, gain below the marginal price |
| ClmmBounds.AdvanceMonotone | offchain/src/clmm.rs:258-284 | More input at the same or a lower fee moves at least as far, pays at least as much and leaves at least as much |
| ClmmBounds.WalkBounded | offchain/src/clmm.rs:245-284 | A whole walk moves only ahead and stays below the starting marginal price |
| ClmmBounds.WalkMonotone | offchain/src/clmm.rs:245-284 | If a larger input is used up in the known ranges, so is every smaller one at the same or a higher fee, for no more output |
| ClmmBounds.QuoteBelowMarginalPrice | offchain/src/clmm.rs:207-294 | For any tick table the output is bounded by the starting marginal price |
| ClmmBounds.RoundTripNeverGains | offchain/src/clmm.rs:207-294 | Quoting there and back never returns more than was put in |
| ClmmBounds.QuoteMonotone | offchain/src/clmm.rs:207-294 | Feasibility is downward closed and the output monotone |
| ClmmBounds.QuoteFeeMonotone | offchain/src/clmm.rs:23-25 | A quote stays feasible, for no more output, when the input falls or the fee rises, for any tick table and direction |
| ClmmDepth.DeeperPaysUpToRounding | offchain/src/clmm.rs:23-25 | A step in a deeper range pays at least what a thinner one does, less `1 + L/2^64` units from a to b and `1 + L*2^64/C^2` from b to a |
| ClmmDepth.DeeperPaysUnlessRounded | offchain/src/clmm.rs:23-25 | It pays at least as much, exactly, if the net input covers its target or the division behind its next price leaves no remainder |
| ClmmDepth.DeeperCanPayLess | offchain/src/clmm.rs:23-25 | A range 200 times as deep that pays nothing for an input for which the thinner one pays 99 |
| ClmmBounds.WalkAccounts | offchain/src/clmm.rs:245-284 | Input equals charges plus fees plus remainder over all steps, so the saturating subtraction never saturates; output is the sum of step outputs |
| ClmmBounds.QuoteAccounts | offchain/src/clmm.rs:286-293 | A tick-loaded pool that answers has put the whole input into its ranges |
| ClmmBounds.QuoteAnswersIff | offchain/src/clmm.rs:207-294 | With ticks the engine answers iff the whole input goes into its ranges and their outputs fit `u64`, with their sum; without, one step to 65536 or 2^120 decides; degenerate inputs are refused |
| ClmmBounds.LegsChain | offchain/src/clmm.rs:245-284 | Leg by leg: each makes the engine's step from the boundary before to the next, with the liquidity after crossing and the input left, and the walk ends only when input, boundaries, the range or the liquidity run out |
| ClmmWidths.ProductsFit | offchain/src/clmm.rs:97-140 | The helpers' products fit `U256` for liquidity below 2^72 inside the bounds |
| ClmmWidths.CostFits | offchain/src/clmm.rs:97-122 | ... and every charge fits `u128` |
| ClmmWidths.ReleasedFits | offchain/src/clmm.rs:178-182 | ... and every output a move can release |
| ClmmWidths.StepFits | offchain/src/clmm.rs:144-192 | ... so every narrowing cast of a step is exact |
| ClmmWidths.WalkReleasesAtMost | offchain/src/clmm.rs:245-284 | A walk releases no more than one range of its deepest liquidity would |
| ClmmWidths.WalkOutputFits | offchain/src/clmm.rs:267-268 | ... so the accumulated output fits `u128` |
| ClmmWidths.LegsFit | offchain/src/clmm.rs:258-268 | ... and on every leg of a walk the `U256` products, the charge, the payout and their sums fit |
| ClmmWidths.QuoteFits | offchain/src/clmm.rs:207-294 | Whole quotes: if all positions, and what the reported liquidity exceeds them by, total less than 2^72 and the ticks lie inside the bounds, every leg fits and so does the output |
| ClmmWidths.BoundIsNeeded | offchain/src/clmm.rs:44-46 | At twice that liquidity a charge inside the bounds leaves `u128` |
| ClmmV2.SingleRangeStep | offchain/src/clmm.rs:296-306 | A pool without ticks is one step towards the price bound |
| ClmmV2.SingleRangeNeverExceedsV2 | offchain/src/clmm.rs:144-192 | On exact virtual reserves the engine never quotes above the unbounded constant-product curve, in either direction |
| ClmmV2.SingleRangeCloseToV2 | offchain/src/clmm.rs:144-192 | Inside the price bound it falls short of that curve by less than `y/x + L/2^64 + 1` units from a to b and `x/y + x/C + 1` from b to a |
| ClmmV2.SingleRangeReducesToV2 | offchain/src/clmm.rs:313-347 | The engine's two models against each other: while `get_amount_out` stays inside `u128` the single range never answers more than it and falls short by less than the same units |
| Liquidity.QuietCovering | offchain/src/clmm.rs:48-54 | On a range without position ends the covering liquidity is the same throughout |
| Liquidity.CrossingChange | offchain/src/clmm.rs:48-54 | Crossing a price changes the covering liquidity by exactly the net there |
| Liquidity.ApplyNetTracks | offchain/src/clmm.rs:195-202 | As long as all positions fit `i128`, `apply_net` never wraps nor saturates upwards: liquidity that is off by some amount behind a tick is off by as much ahead of it, or 0 if that is negative |
| Liquidity.LegsTrack | offchain/src/clmm.rs:245-284 | A walk that starts off by some amount from the covering positions is off by that much on every leg, so one that starts right stays right |
| Liquidity.QuoteTracks | offchain/src/clmm.rs:207-284 | ... for whole quotes |
| Liquidity.TracksIffOnward | offchain/src/clmm.rs:207-284 | A quote is priced with exactly the positions covering each range iff the reported liquidity is that of the range ahead, or no step is made |
| Liquidity.TrackingFromChainLiquidity | offchain/src/clmm.rs:224-238 | A pool on a tick reports the liquidity of either side: towards that side every quote tracks, towards the other iff no net liquidity sits at the price |
| Liquidity.OnTickMispriced | offchain/src/clmm.rs:231-237 | A pool left on a tick by a downward swap whose upward quote uses a position that ended there |
| WindowTracking.LegsPrefix | offchain/src/clmm.rs:245-284 | A walk over the nearer boundaries makes the first steps of the walk over all of them |
| WindowTracking.PieceTracksIffOnward | offchain/src/indexer.rs:454-469 | The same for windowed pools: the tracking offset and its exact condition carry over to any piece of the table that reaches the price |
| WindowTracking.PieceFits | offchain/src/indexer.rs:454-469 | ... and so do the widths of every leg and of the output |
| Liquidity.NetsSumToZero | offchain/src/cetus_ticks.rs:289-293 | The nets of a full table cancel |
| TickWindow.PartitionPoint | offchain/src/cetus_ticks.rs:179 | The position splits the table at the centre |
| TickWindow.WindowSplits | offchain/src/cetus_ticks.rs:175-184 | A non-empty window is one contiguous piece of the full size whose dropped ticks lie beyond the price on their side |
| TickWindow.WindowBalances | offchain/src/turbos_ticks.rs:133-142 | A window smaller than the table is full and holds exactly half of it, rounded down, below the centre as long as both sides have enough; a side with too few is kept whole |
| TickWindow.PieceBoundaries | offchain/src/turbos_ticks.rs:133-142 | The boundaries of such a piece are the nearest ones of the full table, without a gap |
| TickWindow.WalkPrefix | offchain/src/clmm.rs:245-284 | If the full walk needs no more boundaries than the nearer ones, they give the same walk; and if they use up the input, it does not |
| TickWindow.PieceSound | offchain/src/clmm.rs:207-294 | Any piece of the table that reaches the price answers iff the full pool does within the piece's boundaries, and then with the same output |
| TickWindow.WindowSound | offchain/src/cetus_ticks.rs:97-154 | In particular every window of positive size around the current tick |
| TickWindow.KeptPoolSound | offchain/src/indexer.rs:454-484 | Whatever the window size, a pool the indexer keeps after a fresh load only refuses; it is dropped iff the window is empty |
| TickWindow.CachedWindowIff | offchain/src/indexer.rs:432-437 | About boundaries, not quotes: a window kept from an earlier price still yields the nearest boundaries both ways iff the price has not passed a tick it dropped |
| TickWindow.CachedWindowOverquotes | offchain/src/indexer.rs:432-437 | A cached window whose price has passed a dropped tick quotes a trade the full table refuses |
| TickWindow.EmptyWindowOverquotes | offchain/src/indexer.rs:418-419 | Why the pool has to be dropped: with an empty window the engine would quote where the full table refuses |
| TickWindow.ScoreKeepsOrder | offchain/src/cetus_ticks.rs:168-172 | Scores order ticks as their signed indices do iff no index wraps below the lowest legal tick |
| TickWindow.ScoreOfTick | offchain/src/cetus_ticks.rs:92-95 | Signed indices are read back from two's complement; the score of a legal index is the index plus 443636 |
| TickWindow.SameWindowByScore | offchain/src/turbos_ticks.rs:133-142 | Windowing by score and by index selects the same ticks |
| TickWindow.NearestIff | offchain/src/cetus_ticks.rs:174-184 | The window holds the ticks nearest by distance iff, on either side, its far end is no further than the first tick dropped on the other |
| TickWindow.WindowIsByRank | offchain/src/cetus_ticks.rs:174-184 | A legal table on which it does not |
| GasCoins.PickCovering | offchain/src/executor.rs:479-503 | The choice is the wallet's largest coins in order, covers the need with the fewest coins possible, and fails iff nothing is needed or the wallet falls short |
| GasCoins.SortKeeps | offchain/src/executor.rs:489 | The sort is descending and a permutation |
| GasCoins.PrefixIsBest | offchain/src/executor.rs:490-498 | Of all selections of a size the largest coins add up to the most |
| Uleb.EncodeLoop | validation/cetus/cetus_rpc.py:32-41 | The loop computes the specified encoding |
| Uleb.DecodeLoop | validation/cetus/cetus_rpc.py:120-129 | The shifting loop computes the specified decoding, running off the buffer included |
| Uleb.EncodeBytes | validation/cetus/cetus_rpc.py:32-41 | Byte `i` carries the seven bits of the number from bit `7 * i` on, and its high bit says whether more follow |
| Uleb.RoundTrip | validation/cetus/cetus_rpc.py:120-129 | Decoding at the start of an encoding, whatever surrounds it, gives the number and the offset just past it |
| Uleb.PrefixFree | validation/cetus/cetus_rpc.py:32-41 | No encoding is a prefix of another |
| Uleb.ReencodeIffMinimal | validation/cetus/cetus_rpc.py:120-129 | Re-encoding a decoded value gives the same bytes iff there is no padding |
| CycleKey.KeyIsLeastRotation | validation/cetus/paper_trade.py:56-60 | The key is a rotation of the cycle and the least of them |
| CycleKey.KeysMatchRotations | validation/cetus/paper_trade.py:56-60 | Two non-empty cycles have one key iff one is a rotation of the other |
| CycleKey.EntryOrder | validation/cetus/paper_trade.py:58-60 | The comparison of entries is a total order |
| CycleKey.EntriesSort | validation/cetus/paper_trade.py:58-60 | It is Python's: by the first differing character of the ids, a prefix first, and of one pool the reverse direction first |

## Left out

- ClmmQuote.QuoteExactIn: does not model the engine's fixed widths (a `U256` product or an `as_u128` cast that panics), for which `ClmmWidths.QuoteFits` says when none of them can; it takes the table in its documented ascending order, so the sort is a reversal or nothing.
- ClmmDepth.DeeperPaysUnlessRounded: goes one way; a rounded price costs the deeper range output for some inputs only, depending on the remainders of four divisions, and `DeeperPaysUpToRounding` bounds by how much.
- Amm.QuoteInversion: is about the unbounded curve; `Amm.InverseQuoteDelivers` is about the `u64` functions.
- Amm.DeliversIffCovered: is about the unbounded curve; `Amm.QuoteDeliversIffCovered` is about the `u64` functions.
- ClmmV2.SingleRangeNeverExceedsV2: is about the unbounded curve; `ClmmV2.SingleRangeReducesToV2` is about `get_amount_out`, which past its `u128` product reports less.
- ClmmV2.SingleRangeCloseToV2: likewise.
- FindBest.FindBest: requires concentrated-liquidity pools to be valid (`ClmmState.Valid`), and that no size search ends at 2^64 - 1, where the source's closing scan would not terminate.
- TickWindow.CachedWindowIff: is about boundaries; past a dropped tick the quotes need not differ (the missed net may be 0), and which do is not stated. Cached nets that have changed on chain since they were loaded are not modelled.
- TickWindow.WindowSound: does not model the loaders' paging or a tick that fails to decode and is skipped; the window's ticks are taken to be complete, and the tick-to-price map strictly increasing (the Turbos loader derives prices in floating point).
- Scanner.SizeRoute: does not state that sizing finds the global optimum of a route; integer floors and dust inputs break unimodality, so only the peaked case and domination of the grid are stated.
- Plans.LowerFlash: does not model the SDK's argument threading nor the Scallop call shape; only the in-package vault and pool adapters have a meaning here, and every hop is lowered to the in-package swap.
- GasCoins.PickCovering: does not model a wallet whose coins add up beyond `u64`, nor more than one page of coins; the source's sort is stood for by an insertion sort.
- Flash.FlashLender.constructor: does not model the admin capability or events; the fee assert is its precondition.
- AmmPool.Pool.constructor: likewise, the fee assert is its precondition.
- `ternary_max`, `size_route` and `find_best` are split into one method a loop; closures and the id map are functions and maps.
- `OppKind`, the liquidation leg, `last_seq` and other fields that no decision reads.
- Liquidation plans, the in-band price update and their builders: calls into foreign packages.
- Calls behind the Cetus, Turbos and Scallop adapters: foreign packages; the execution theorems cover the in-package pool and vault.
- The second-stage quoter, the owned-capital size sweep, signing, submission and the dry run.
- Floating-point code: frictions, risk in USD, health factors, tick-to-price conversion.
- Network clients, object cache, the indexer beyond its handling of tick windows, ingest, event paging, JSON decoding, configuration, metrics, dashboards.
- BCS helpers other than LEB128, and the rest of the research scripts.
