# TickerGarden V1: verified models

This project models the exact-integer and protocol logic of the TickerGarden V1 repository in Dafny and proves what
every run of it keeps. `dafny verify dfyconfig.toml` checks the whole project.

What is modelled, piece by piece:

- **The launch curve** (`CurveMath`, `CurveQuotes`, `CurveAcceptance`, `CurveRuns`, `CurveSteps`). A constant-product
  curve with a virtual quote reserve sells part of a fixed supply; the last buy is filled to the tail and refunded. Step
  functions are the reference model's; runs interleave buys, sells of tokens outside the curve and fee sweeps the way
  the curve contract books them.
- **The graduation of a sold-out curve** (`GraduationSeed`, `SeedAcceptance`, `GraduationOpening`, `CanonicalGraduation`,
  `AdmittedLaunch`). The opening square-root price in its two fixed-point constructions and the liquidity the seeded
  amounts fund; the reference model's partition and seed applied to all that a run raised; and the graduation the
  contracts carry out, which seeds a canonical quote fixed by the launch and locks what was raised above it.
- **The reward gauge** (`RewardIndex`, `GaugeLedger`, `GaugeSteps`, `GaugeLifetime`, `GaugeFloor`). An accumulator with
  two levels of carried remainder pays stakers. The ledger lets users join, stake, settle and claim between credits; the lifetime part
  bounds the 256-bit accumulator, and the last module shows that 414 raw units is exactly the floor that makes it last.
- **The activation wheel** (`ActivationWheel`, `ActivationLedger`). A 32-slot ring of buckets refines a plain list of
  pending positions, for every delay up to the wheel size.
- **The bytecode scanner** (`OpcodeScanner`). Two linear sweeps over a runtime, and what a clean answer means for every
  execution of that runtime.
- **The access handoff and its audit** (`AccessManager`, `AccessPlan`, `AccessTexts`,
  `AccessAcceptance`, `AccessHandoff`, `EventReplay`, `AuditedHandoff`).
  The planner's ordered calls are run on a model of the manager; the preflight audit sorts, folds, renders and
  compares logs; the last module joins both ends, from the compiled interface to the audit's verdict at any later time.
- **The RPC proxy** (`RpcProxy`, `RateLimit`, `RateLimitTight`, `SingleFlight`). The mutable proxy state as a class, the
  fixed-window limits over all runs and the runs that attain them, and the in-flight table over all interleavings.
- **The adaptive log scanner** (`LogScan`, `LogDedupe`). Chunks, retries and bisection against a node that may fail in
  any pattern, and the merge of overlapping scans.
- **The ABI type tools** (`Signatures`, `ArraySuffix`, `AbiTypes`, `AbiDeclarations`, `AbiCycles`,
  `CanonicalSignature`, `TypeTexts`). Splitting and printing signatures, expanding and rendering types over a table of aliases,
  enums and structs.

`Results`, `Arithmetic`, `UintMath`, `Words`, `Sorting` and `Text` hold what the pieces share. Python and TypeScript exceptions
are `Err` values; Python integers are `int`, and every 256-, 160-, 128- and 64-bit guard of the source is written out.
Loops and objects of the source are methods and a class; each is proved equal to a specification function, and the
results below are proved about that function.

The results are anchored in the texts, bytes and numbers themselves. Where a result would otherwise be stated through a
table or a test that the program makes (role names, the order of logs, opcodes, error markers, addresses, brackets,
limits, which arguments a quote accepts), the statement writes them out: `AccessTexts`, `TypeTexts`, `CurveAcceptance`,
`CurveSteps`, `SeedAcceptance`, `GaugeSteps` and `Words` hold most of these, and `OpcodeScanner`, `EventReplay`,
`LogScan`, `LogDedupe` and `RateLimit` state their own.

Five readings of the code that its comments or tests do not spell out:

- The reference model splits the reserved tokens (`partition_graduation_tokens`) and seeds a pool (`graduation_seed`)
  for any quote it is given. The contracts do not give it what was raised: they seed the canonical quote, the least one
  that keeps the initial product, computed from the launch alone, and lock the excess
  (contracts/src/v1/libraries/TickerGardenSupplyMath.sol:51-60, contracts/src/v1/modules/TickerGardenCurve.sol:297-308,
  contracts/src/v1/shared/GraduationExecutorAssetAccounting.sol:129-141). So their pool opens the same after every
  history (`PlanIsLaunchSeed`), and it opens at or above the terminal price of a particular history if and only if that history
  raised at most `MostQuote`, a number known before any trade (`OpeningAgainstHistory`). `ExampleOpensBelowHistory` gives
  a launch whose pool opens below the terminal price of its own history in either order of the tokens.
- Were all that was raised seeded, as `PoolOpening` composes the reference model's functions, the ratio of the seeded
  amounts would be at or above the terminal curve price, but the pool opens at a floored square root. With the quote
  asset as currency0 the flooring keeps the opening price at or above the terminal one; with the meme token as currency0
  it can push it below, by less than one step of the price. `ExampleOpensBelow` gives such a launch, `PoolOpening` the
  exact condition. The same holds of the contracts' pool against the terminal price of a history that raises exactly
  the canonical quote (`LaunchOpening`), and such a history exists (`CanonicalQuoteIsAttained`).
- Rendering a type (`replace_alias`) preserves its expansion only when every type text opens the brackets its array
  suffix closes. A stray closing bracket captures an opening bracket of an alias target. `TrapCatches` gives the table
  for any such text. `FaithfulExactlyWhenWellBracketed` states the exact condition for the text that is rendered, and
  `TargetsExactlyWhenWellBracketed` for a text that aliases stand for.
- The planner tests `roleName in V1_ACCESS_ROLES`, which is also true of names every object inherits (`toString`, for
  one), while its list of required targets uses `Object.hasOwn`. The model follows both tests; such a caller is
  grouped like a role and ends in an error when its call is encoded, never in a silent entry.
- The list holding one empty text prints like the empty list, so printing and splitting are inverse except there. All
  round trips state that one exception as an exact condition.

## Model

| member | source | states |
|---|---|---|
| UintMath.FloorBounds | spec/v1_reference_model.py:78-87 | floored mulDiv returns the largest integer whose multiple of the denominator fits the product, and is refused exactly when that integer needs more than 256 bits |
| UintMath.CeilBounds | spec/v1_reference_model.py:90-98 | ceiled mulDiv returns the least integer whose multiple of the denominator reaches the product |
| Words.WordsSpelled | spec/v1_reference_model.py:22-27 | the word bounds, digit by digit |
| CurveMath.PartitionSupplyBounds | spec/v1_reference_model.py:124-138 | the reserved share is the largest token count covered at the phantom ratio, and both shares add up to the supply |
| CurveAcceptance.PartitionSupplyAccepted | spec/v1_reference_model.py:124-138 | a supply is partitioned if and only if the three amounts are positive words and the two quotes add up to a word |
| CurveMath.AmountOutBounds | spec/v1_reference_model.py:148-174 | the exact-input quote is the largest output the fee-reduced input pays for on the invariant, and never the whole reserve |
| CurveAcceptance.AmountOutAccepted | spec/v1_reference_model.py:148-174 | exactly which integers the exact-input quote answers |
| CurveAcceptance.AmountInAccepted | spec/v1_reference_model.py:177-199 | exactly which integers the exact-output quote answers |
| CurveMath.OutputReached | spec/v1_reference_model.py:148-174 | an input buys at least a given output if and only if it pays for that output on the invariant, at every fee rate |
| CurveMath.AmountInSuffices | spec/v1_reference_model.py:148-199 | paying the exact-output quote buys at least the wanted output |
| CurveMath.AmountInIsQuotable | spec/v1_reference_model.py:148-199 | the exact-output quote can itself be quoted as an input if and only if one 256-bit sum on the way fits |
| CurveMath.AmountInNearlyLeast | spec/v1_reference_model.py:177-199 | the exact-output quote is at most one above the least input that reaches the output, at every fee rate |
| CurveMath.BuyConserves | spec/v1_reference_model.py:216-290 | every accepted buy: received = spent + refund, spent = both fees + net; a tail fill delivers exactly the sellable tokens and its net covers what the tail requires even when capped at what was received; slippage is judged on the fill |
| CurveMath.BuyPaysInvariant | spec/v1_reference_model.py:216-290 | every accepted buy, tail-filled or not, pays for its tokens on the constant product |
| CurveQuotes.BuyChargesExactly | spec/v1_reference_model.py:216-290 | both fees of an accepted buy are the floored shares of what is spent, and a tail fill spends the lesser of what was received and the least amount whose net share reaches the requirement |
| CurveQuotes.SellChargesExactly | spec/v1_reference_model.py:302-332 | both fees of an accepted sale are the floored shares of its gross price, which is the exact-input quote at fee zero |
| CurveAcceptance.BuyAccepted | spec/v1_reference_model.py:216-290 | exactly which integers a buy is quoted for, with no quoting function in the condition: the tail fill itself never fails, and only the reserved tokens it scales can refuse it |
| CurveAcceptance.BuyDelivers | spec/v1_reference_model.py:216-290 | a buy is filled to the tail if and only if its net input pays for more than is for sale; otherwise it takes the floored share of the token reserve; the tail asks for one more than its floored price |
| CurveAcceptance.SellAccepted | spec/v1_reference_model.py:302-332 | exactly which integers a sale is quoted for |
| CurveAcceptance.SellPays | spec/v1_reference_model.py:302-332 | every amount of an accepted sale as a floored quotient of its arguments |
| CurveMath.SellConserves | spec/v1_reference_model.py:302-332 | a sale splits its gross price without loss, pays something, never asks for the whole quote reserve and stays on the constant product |
| CurveMath.PartitionBounds | spec/v1_reference_model.py:341-360 | graduation gives the pool the largest meme amount whose opening price is not below the terminal price, and locks the rest |
| CurveMath.PartitionAccepted | spec/v1_reference_model.py:341-360 | the graduation partition goes through if and only if the amounts are positive, the virtual quote is a word and at least one token can be seeded |
| CurveRuns.RunKeepsSound | contracts/src/v1/modules/TickerGardenCurve.sol:130-206 | the invariant of every run: fees non-negative, tokens between reserved and supply, product of pricing reserves never falling |
| CurveRuns.CurveStaysSolvent | contracts/src/v1/modules/TickerGardenCurve.sol:432-434 | in every run of buys, sells and sweeps the quote held covers the fees owed, reserved tokens stay, and the product of the pricing reserves only grows from one moment to any later one |
| CurveSteps.BuyStep | contracts/src/v1/modules/TickerGardenCurve.sol:130-146 | in every reachable state of every launch a buy leaves exactly the reserves a closed form of its arguments gives, and changes nothing if it is out of range or fails its slippage test |
| CurveSteps.SaleStep | contracts/src/v1/modules/TickerGardenCurve.sol:175-195 | in every reachable state a sale happens if and only if a condition on its arguments holds, and then moves exactly the stated amounts |
| CurveSteps.SweepStep | contracts/src/v1/modules/TickerGardenCurve.sol:211-235 | a sweep pays out exactly the fees owed and leaves tokens and pricing reserve alone |
| CurveRuns.SaleIsAlwaysCovered | contracts/src/v1/modules/TickerGardenCurve.sol:183-189 | the contract's InsufficientTrackedQuote guard never refuses a quoted sale of circulating tokens in a reachable state |
| CurveRuns.SoldOutRaisesThreshold | spec/v1_reference_model.py:124-138 | whenever a run has sold the curve down to its reserved tokens, the real quote raised is at least the graduation threshold |
| CurveRuns.GraduationOpensAtTerminalPrice | spec/v1_reference_model.py:341-360 | the reference model's partition applied to all that a sold-out run raised (the contracts apply it to the canonical quote, see CanonicalGraduation): the amounts stand in a ratio no lower than the terminal curve price, and with one more token they would not; the exact condition under which that partition is refused |
| GraduationOpening.PoolOpening | spec/v1_reference_model.py:531-577 | the reference model's seed applied to all that a sold-out run raised (not what the contracts seed, see CanonicalGraduation): with quote as currency0 the price is at or above the terminal curve price, by less than one token and one price step; with the meme token as currency0 it is less than one price step below, and at or above it if and only if a price of the construction squares between the terminal price and the ratio of the seeded amounts |
| GraduationOpening.ExampleOpensBelow | spec/v1_reference_model.py:450-469 | a concrete sold-out launch for which the price of all that was raised, with the meme token as currency0, is strictly below the terminal one |
| GraduationOpening.ExampleSeedOpensBelow | spec/v1_reference_model.py:531-577 | no seed the reference model accepts for those amounts with the meme token first opens at the terminal price |
| GraduationOpening.SeedAmountsHaveAPrice | contracts/src/v1/libraries/GraduationPoolMath.sol:87-99 | amounts within the signed delta bound always have a price, and the contract's one comparison picks the same construction as the reference model's two |
| SeedAcceptance.SeedAccepted | spec/v1_reference_model.py:531-577 | a seed of amounts in the signed bound is accepted if and only if the token is no sentinel, the price lies strictly inside the manager's range and the liquidity is positive and within the maximum; every field of the seed |
| SeedAcceptance.SeedRefusesOtherAmounts | spec/v1_reference_model.py:531-577 | no other amounts are accepted |
| CanonicalGraduation.CanonicalQuoteIsLeast | contracts/src/v1/libraries/TickerGardenSupplyMath.sol:47-60 | a real quote reserve keeps the initial product over the reserved tokens if and only if it is at least the canonical quote, which is never below the graduation threshold |
| CanonicalGraduation.CanonicalQuoteAccepted | contracts/src/v1/libraries/TickerGardenSupplyMath.sol:51-60 | a launch has a canonical quote if and only if it reserves a token and the quote is a word |
| CanonicalGraduation.SoldOutCoversCanonicalQuote | contracts/src/v1/shared/GraduationExecutorAssetAccounting.sol:129-138 | after every sold-out run the canonical quote exists, is at least the threshold and at most what was raised: the guard on the swept quote never refuses |
| CanonicalGraduation.CanonicalQuoteIsAttained | contracts/src/v1/libraries/TickerGardenSupplyMath.sol:47-51 | one fee-free buy sells the launch out and raises exactly the canonical quote, so asking for a unit more at graduation would refuse a run that did sell out |
| CanonicalGraduation.PlanIsLaunchSeed | contracts/src/v1/modules/TickerGardenCurve.sol:294-308 | after every sold-out run, whatever its trades, the plan is the one computed from the launch alone: pool price and liquidity do not depend on the history |
| CanonicalGraduation.PlanIsBacked | contracts/src/v1/modules/TickerGardenCurve.sol:297-308 | in any state whatever a plan is made if and only if the reserved tokens are what is left, the canonical quote is backed by the quote held beyond the fees, and the launch has a seed |
| CanonicalGraduation.AdmittedLaunchGraduates | contracts/src/v1/libraries/V1GraduationEconomicDomain.sol:20-56 | a launch whose seed was accepted for both token orders at admission is never refused its plan after any sold-out run, whatever the address of its token |
| AdmittedLaunch.ExampleIsAdmitted | contracts/src/v1/libraries/V1GraduationEconomicDomain.sol:20-56 | a concrete launch is admitted at every price range from at most a sixteenth to at least twelve |
| AdmittedLaunch.FullRangeIsWide | spec/v1_reference_model.py:30-31 | the bounds of the pool manager are such a range |
| CanonicalGraduation.LaunchOpening | contracts/src/v1/shared/GraduationExecutorPoolExecution.sol:169-171 | for every launch whose seed is accepted, the opening price against the terminal price of the canonical quote: at or above it with quote as currency0, less than one price step below it with the meme token as currency0, and the exact condition for at or above there |
| CanonicalGraduation.OpeningAgainstHistory | contracts/src/v1/modules/TickerGardenCurve.sol:297-308 | after every sold-out run, in either token order, the pool opens at or above the terminal price of that run if and only if the run raised at most a number fixed by the launch, which is at least the canonical quote when quote is currency0, and otherwise exactly when the pool opens at the terminal price of the canonical quote |
| CanonicalGraduation.ExampleOpensBelowHistory | contracts/src/v1/modules/TickerGardenCurve.sol:294-308 | a launch that raises 11 where its canonical quote is 10: every accepted pool of it opens below the terminal price of its own history, in both token orders |
| CurveRuns.ExampleSellsOut | spec/v1_reference_model.py:216-290 | a concrete launch that one tail-filled buy sells out, so the results about sold-out runs have instances |
| RewardIndex.CreditExact | spec/v1_reference_model.py:832-863 | a credit divides the carried numerator plus the scaled reward by the active stock, exactly, also when the old remainder exceeds the stock |
| RewardIndex.CreditAccepted | spec/v1_reference_model.py:832-863 | a credit of amounts in range is refused exactly when the index would move by more than 256 bits |
| RewardIndex.SettleExact | spec/v1_reference_model.py:874-911 | a settlement pays out the carried remainder plus the accrued numerator to the last unit |
| RewardIndex.SettleAccepted | spec/v1_reference_model.py:874-911 | a settlement with arguments in range is refused exactly when the precision, the sum of the two remainders or the claimable total leaves 256 bits, at every precision |
| RewardIndex.CreditsCombine | spec/v1_reference_model.py:832-863 | crediting r1 then r2 over unchanged stock is crediting r1 + r2 in index and remainder, and the exact condition under which the one credit goes through |
| RewardIndex.SettlementIsPathIndependent | spec/v1_reference_model.py:874-911 | at every precision a chain of settlements and the single settlement at its end leave the same account whenever both go through; at precisions up to half of 2^256 the chain goes through if and only if its accumulators never go back and the single settlement goes through |
| RewardIndex.WidePrecisionParts | spec/v1_reference_model.py:874-911 | at precision 2^256 - 1 a chain of two settlements goes through where the single one is refused, so the bound on the precision is needed for acceptance |
| GaugeLedger.RunKeepsValid | spec/v1_reference_model.py:832-911 | every run keeps the balanced books, the bounds of every position and the index remainder below its word |
| GaugeLedger.GaugeConserves | spec/v1_reference_model.py:832-911 | for every interleaving of credits, settlements, claims and stake changes made right after a settlement: scaled claimables, withdrawals, user remainders, unsettled accruals and the index remainder are together exactly the scaled rewards |
| GaugeLedger.GaugeIsSolvent | spec/v1_reference_model.py:832-911 | claimables and withdrawals never exceed the rewards credited, also after the active stock has shrunk below an old index remainder |
| GaugeSteps.MinimumAccepted | spec/v1_reference_model.py:640-649 | a minimum allocation is accepted if and only if the decimals are 6 to 18 and it is a word of at least 414 |
| GaugeSteps.CreditStep | spec/v1_reference_model.py:832-863 | in every run within the lifetime a credit goes through if and only if reward and stock are in the accounting range, and moves the accumulator and its remainder by one division |
| GaugeSteps.SettleStep | spec/v1_reference_model.py:874-911 | in those runs a settlement brings exactly one position up to date, as a quotient and remainder of what it earned |
| GaugeSteps.ClaimStep | spec/v1_reference_model.py:874-911 | a claim settles, leaves nothing claimable and withdraws exactly that |
| GaugeSteps.StakeStep | spec/v1_reference_model.py:874-911 | a stake changes if and only if it is zero or between the minimum and the accounting bound, and what was earned before stays the user's |
| GaugeLifetime.LifetimeBoundFits | spec/v1_reference_model.py:661-680 | the published bound is accepted, equals its closed form, fits 256 bits and leaves headroom factor 1 |
| GaugeLifetime.AccumulatorStaysBounded | spec/v1_reference_model.py:640-680 | in every run of at most 2^48 - 1 credits of a gauge with a validated minimum allocation the accumulator stays within the published bound |
| GaugeLifetime.CreditIsNeverRefused | spec/v1_reference_model.py:832-863 | until the credits are used up, a credit goes through if and only if reward and active stock are in the accounting range: no checked addition ever fails |
| GaugeLifetime.SettlementIsNeverRefused | spec/v1_reference_model.py:874-911 | in those runs every settlement of every user goes through and leaves no more claimable than was ever credited |
| GaugeLifetime.SettlementCouldOverflow | spec/v1_reference_model.py:874-911 | arguments that their types allow, but no run reaches, are refused for overflow, so the guard is real |
| GaugeLifetime.FloorIsExact | spec/v1_reference_model.py:44-46 | the full-size credits of a whole lifetime all go through over an unchanged stock if and only if the stock is at least 414 raw units |
| GaugeFloor.LowFloorRefuses | spec/v1_reference_model.py:640-680 | for every minimum allocation below 414 there is a gauge run of fewer than 2^48 - 1 credits after which a credit with reward and stock in range is refused |
| GaugeFloor.GaugeFloorIsExact | spec/v1_reference_model.py:640-680 | no run of a gauge refuses a credit in range during its lifetime of 2^48 - 1 credits if and only if its minimum allocation is at least 414 |
| ActivationWheel.ProcessMatureActivations | spec/v1_reference_model.py:947-963 | the in-place scan clears exactly the mature slots and reports them in slot order |
| ActivationLedger.ProcessActivatesExactly | spec/v1_reference_model.py:947-963 | processing activates exactly the listed positions due at or before now, one activation per due time with the sum and count of its positions, none twice, and leaves the wheel holding exactly the others |
| ActivationLedger.ScheduleNeverCollides | spec/v1_reference_model.py:966-988 | for every delay up to the wheel size and time that does not go back, scheduling never meets ActivationSlotCollision; it is refused exactly when an argument or a bucket total leaves its word |
| ActivationLedger.RemovalAlwaysSucceeds | spec/v1_reference_model.py:991-1015 | any position still held can be withdrawn, and that removes it alone |
| ActivationLedger.RemovalNeedsPosition | spec/v1_reference_model.py:991-1015 | a removal goes through if and only if some position is due then, no more is taken than is due in all, and all of it exactly with the last position; the slots it leaves |
| ActivationLedger.WheelAccepted | spec/v1_reference_model.py:932-963 | any wheel is processed if and only if it has 32 well-formed slots and the time is a 64-bit word, and then exactly the slots due are emptied |
| ActivationLedger.RunRefines | spec/v1_reference_model.py:1018-1028 | every operation of a run keeps each bucket equal to the sum and count of its listed positions |
| ActivationLedger.WheelRefinesList | spec/v1_reference_model.py:932-1028 | in every run over non-decreasing time the wheel holds exactly the listed positions, no operation meets a collision, a malformed wheel or a broken bucket, and no listed position is found missing |
| ActivationLedger.DelayIsExact | spec/v1_reference_model.py:966-988 | no forward run ever meets ActivationSlotCollision if and only if the delay is at most the wheel size of 32 |
| GraduationSeed.IsqrtBounds | spec/v1_reference_model.py:450-469 | the integer square root is the floor of the real one |
| GraduationSeed.SeedPriceAccepted | spec/v1_reference_model.py:450-469 | positive uint256 amounts are refused exactly when amount1 reaches amount0 * 2^128; no mulDiv, uint128 or uint160 check ever decides |
| GraduationSeed.SeedPriceBounds | spec/v1_reference_model.py:450-469 | the squared price never exceeds the true ratio and is the exact floor root in the Q192 branch, within 2^32 of it in the Q128 branch |
| SeedAcceptance.PriceSpelled | spec/v1_reference_model.py:450-469 | the price is a multiple of 1 or of 2^32, the construction written out on the amounts, whose square and next square enclose the ratio |
| SeedAcceptance.OnePrice | spec/v1_reference_model.py:450-469 | only one number is, so price and construction are determined |
| GraduationSeed.SeedPriceMonotone | spec/v1_reference_model.py:450-469 | more of token1 never lowers the price, also across the switch between the branches |
| GraduationSeed.LiquidityIsFunded | spec/v1_reference_model.py:472-510 | in all three price regions the liquidity never needs more of either token than was supplied |
| SeedAcceptance.LiquidityAccepted | spec/v1_reference_model.py:472-510 | a liquidity is computed if and only if the arguments are words, the range is not empty, the quotients of the legs used are words and the lesser leg fits 128 bits; its value as integer quotients |
| GraduationSeed.LiquidityExhausts | spec/v1_reference_model.py:472-510 | in each price region one unit of liquidity more would need more of a token than was supplied, up to the rounding of the intermediate product |
| GraduationSeed.LiquidityMonotone | spec/v1_reference_model.py:472-510 | fewer tokens of either kind are accepted whenever more are, and never fund more liquidity |
| GraduationSeed.RangeOrderIrrelevant | spec/v1_reference_model.py:472-510 | the order of the two range prices changes neither the liquidity nor the error |
| OpcodeScanner.ForbiddenImmutableQuoteOpcode | deployments/src/v1/preflight.ts:136-163 | the two sweeps that move an index and rewrite a boundary answer what the one-pass specification answers |
| OpcodeScanner.BoundaryIsFirstSuffix | deployments/src/v1/preflight.ts:141-154 | the boundary is exactly the first aligned INVALID with no later aligned JUMPDEST, or the end of the code |
| OpcodeScanner.SearchIsExact | deployments/src/v1/preflight.ts:156-162 | nothing is reported if and only if no instruction before the boundary is 0xf2, 0xf4 or 0xff |
| OpcodeScanner.ReportIsFirst | deployments/src/v1/preflight.ts:156-162 | what is reported is the first of those instructions, and it stands before the boundary |
| OpcodeScanner.ScannerIsExact | deployments/src/v1/preflight.ts:136-163 | the whole answer without the computed boundary: none if and only if no instruction in front of the first suffix is one of the three, otherwise the first that is |
| OpcodeScanner.StaysBeforeBoundary | deployments/src/v1/preflight.ts:136-163 | every execution stays on instruction starts and never passes the boundary |
| OpcodeScanner.ScannerIsSound | deployments/src/v1/preflight.ts:136-163 | if nothing is reported, no execution that starts at 0, falls through, jumps to valid JUMPDESTs (section 9.4.3 of the Ethereum Yellow Paper) and halts on 0xfe ever stands on 0xf2, 0xf4 or 0xff |
| Sorting.SortRestores | deployments/src/v1/preflight.ts:793-801 | sorting any rearrangement of a list in order whose elements the comparison tells apart gives that list back |
| Sorting.SortIsStable | deployments/src/v1/preflight.ts:793-801 | elements that compare as equal keep their order |
| Text.DecimalSpells | deployments/src/v1/preflight.ts:872 | a decimal reads back to its number, in digits and without a leading zero |
| Text.TextLeqMeans | deployments/src/v1/preflight.ts:872 | the default order of texts compares the first characters that differ, a beginning coming first |
| EventReplay.ReplaySelectors | deployments/src/v1/preflight.ts:860-871 | the loop that sets and deletes entries of the selector map computes the fold of the sorted logs, or the first malformed log |
| EventReplay.ReplayMembers | deployments/src/v1/preflight.ts:885-901 | the same for the membership map |
| EventReplay.ReplayFailsAtFirst | deployments/src/v1/preflight.ts:860-901 | a replay fails if and only if some log is of another kind, and names the first such log |
| EventReplay.SelectorReplayIsLive | deployments/src/v1/preflight.ts:858-871 | for any history in order of block, transaction and log index (absent counts as 0), written out, and any order of its logs, sort-then-fold gives exactly the live assignments to roles other than 0 |
| EventReplay.MemberReplayIsLive | deployments/src/v1/preflight.ts:877-901 | and exactly the live members with their execution delays, revocations deleted |
| EventReplay.DiffPassesIffEqual | deployments/src/v1/preflight.ts:872-875 | the comparison of rendered and sorted lines passes if and only if the two maps are equal, whatever their insertion orders |
| EventReplay.SelectorAuditIsExact | deployments/src/v1/preflight.ts:858-875 | end to end, the selector comparison passes if and only if the expected table is the live one |
| EventReplay.MemberAuditIsExact | deployments/src/v1/preflight.ts:877-911 | end to end, the membership comparison passes if and only if the expected table is the live one |
| AccessManager.SealedForever | deployments/src/v1/access-manager-plan.ts:230-236 | once nobody holds ADMIN_ROLE, no sequence of calls by anybody changes a selector role, a role admin or a guardian |
| AccessManager.OrphanRolesGainNobody | deployments/src/v1/access-manager-plan.ts:217-236 | a role that only the empty ADMIN_ROLE administers never gains a member |
| AccessPlan.DeriveV1AccessManagerPlan | deployments/src/v1/access-manager-plan.ts:101-246 | the planner's checks and pushes compute the specified plan, or the specified error, for every input |
| AccessPlan.ResolveModules | deployments/src/v1/access-manager-plan.ts:129-141 | the loop filling the module map computes the specified table or the first error |
| AccessPlan.GroupMutations | deployments/src/v1/access-manager-plan.ts:169-184 | the loop filling the group map computes the specified groups in first-appearance order and the count of direct mutations, or the first unknown target; a name without a role id is neither and fails later, when the calls are encoded |
| AccessAcceptance.ModulesChecked | deployments/src/v1/access-manager-plan.ts:126-144 | the module addresses are accepted exactly when each is valid, new and no actor's, every required module has one and every one belongs to a module |
| AccessAcceptance.MutationsGrouped | deployments/src/v1/access-manager-plan.ts:171-205 | the grouping and the later encoding of the role calls go through exactly when every role-gated mutation has a module address and no other caller is an inherited name |
| AccessAcceptance.PlanAcceptedExactly | deployments/src/v1/access-manager-plan.ts:101-220 | the planner accepts an input if and only if its actors, modules, mutations, distributor and administrative surface are sound, each stated on the texts given |
| AccessTexts.AddressAccepted | deployments/src/v1/access-manager-plan.ts:76-79 | a text is taken as an address if and only if it is 0x and forty hexadecimal digits, not all zero; it becomes the same in small letters |
| AccessTexts.CaseDoesNotMatter | deployments/src/v1/access-manager-plan.ts:76-79 | two spellings that differ only in case are one address |
| AccessTexts.RolesSpelled | deployments/src/v1/access-manager-plan.ts:7-11 | the three role names stand for 1, 2 and 3, and no other name for any role |
| AccessHandoff.PlanExecutes | deployments/src/v1/access-manager-plan.ts:158-236 | run in order by the sole ADMIN_ROLE holder, every planned call is authorised when its turn comes (grants before the admin freeze, renouncing last), for any groups |
| AccessHandoff.HandoffGoesThrough | deployments/src/v1/access-manager-plan.ts:101-246 | every accepted plan executes and leaves each role with exactly its one member and delay, its frozen admin and its guardian, and the deployer with nothing; the members are the Safes given, in small letters |
| AccessHandoff.HandoffTableIsExact | deployments/src/v1/access-manager-plan.ts:169-205 | the final selector table, on the texts given: an entry with a role if and only if a mutation naming that role gives it at its module's address, or it is the distributor's with role 1; none is an actor's |
| AccessHandoff.EveryGatedMutationPlanned | deployments/src/v1/access-manager-plan.ts:169-205 | every mutation gated by PROTOCOL_ADMIN_ROLE, PAUSE_GUARDIAN_ROLE or UNPAUSE_ROLE has its module's address and its selector answer to 1, 2 or 3 respectively |
| AccessHandoff.ModulesDistinct | deployments/src/v1/access-manager-plan.ts:129-141 | module addresses are distinct from one another and from the actors |
| AccessHandoff.HandoffIsFinal | deployments/src/v1/access-manager-plan.ts:217-236 | in every later run by any callers no selector role, role admin or guardian changes, nobody regains ADMIN_ROLE, and no other role gains a member |
| AccessHandoff.CountsAccountForAll | deployments/src/v1/access-manager-plan.ts:238-243 | the reported counts are the mutations gated by the three role names, with the distributor's one, and the mutations gated by none |
| AuditedHandoff.HistoryReplays | deployments/src/v1/preflight.ts:858-901 | the events a manager emits over any life replay to its tables at the end of that life |
| AuditedHandoff.RecordedIsLive | deployments/src/v1/preflight.ts:858-901 | logs that record those events from deployment on give the audit the manager's live tables |
| AuditedHandoff.SelectorAuditAcceptsThePlan | deployments/src/v1/preflight.ts:858-875 | at any time after an accepted plan was executed, whatever anybody called since and however the logs are ordered, the selector comparison passes if and only if the expected table is the one the plan configured |
| AuditedHandoff.SelectorAuditAcceptsTheInterface | deployments/src/v1/preflight.ts:858-875 | for an unambiguous interface the same comparison passes if and only if the expected table is the one the compiled mutations spell out |
| AuditedHandoff.MemberAuditAcceptsThePlan | deployments/src/v1/preflight.ts:877-911 | right after the handoff the membership comparison passes if and only if the expected members are the three planned ones with their delays |
| RpcProxy.ProxyState.constructor | apps/web/api/rpc.ts:33 | a fresh state has no bucket, no pending read and no active read |
| RpcProxy.ProxyState.Admit | apps/web/api/rpc.ts:35-40 | one admission: expired buckets dropped, refused without a charge, or both buckets charged |
| RpcProxy.ProxyState.Enter | apps/web/api/rpc.ts:42-44 | a call joins the pending read of its key, is refused at the cap, or registers a new read |
| RpcProxy.ProxyState.Leave | apps/web/api/rpc.ts:45 | the clean-up after a read has settled either way |
| RateLimit.AnyWindowAdmitsTwiceTheLimit | apps/web/api/rpc.ts:35-40 | over every run with non-decreasing time any half-open interval of ten seconds admits at most twice the limit of a client, and at most twice the global limit; and one less when every request costs at least one call |
| RateLimit.AnyWindowIsBounded | apps/web/api/rpc.ts:35-40 | the same for every lower bound on the cost of a request: twice the limit less that bound |
| RateLimit.ClientWindowAttained | apps/web/api/rpc.ts:35-40 | a run of one client, of requests of at least one call (apps/web/api/rpc.ts:97,110), with 239 admitted calls in ten seconds |
| RateLimitTight.GlobalWindowAttained | apps/web/api/rpc.ts:35-40 | a run of eleven clients, of requests of at least one call, with 1199 admitted calls in ten seconds |
| RateLimit.TableStaysSmall | apps/web/api/rpc.ts:35-40 | at every moment no bucket exceeds 120 per client or 600 in all, and the table holds at most 2049 keys |
| RateLimit.RefusalChargesNobody | apps/web/api/rpc.ts:36-38 | step fact beside the two run results: a request is refused if and only if the table, its limit or everybody's leaves no room, and then no open bucket changes |
| RateLimit.AdmissionChargesBoth | apps/web/api/rpc.ts:39 | step fact beside the two run results: an admitted request is charged once to its own bucket and once to everybody's, and no other open bucket changes |
| SingleFlight.TableMatchesCounter | apps/web/api/rpc.ts:41-46 | in every interleaving of calls, completions and clean-ups the counter is the size of the table, at most 32, with at most one outstanding read per key |
| SingleFlight.JoinersShareTheOutcome | apps/web/api/rpc.ts:42-45 | every call that is not refused is given exactly what the owner of its read is given, success or failure, and a refusal happens only at the cap |
| SingleFlight.QuietTableIsEmpty | apps/web/api/rpc.ts:45 | once every read has settled and been cleaned up the table is empty and the counter is zero |
| SingleFlight.OutstandingCanFinish | apps/web/api/rpc.ts:45 | from every reachable state settling and cleaning up what is outstanding reaches that point, whatever the outcomes |
| LogScan.RpcClient.Scan | research/rh-chain-stock-tokens/capture_snapshot.py:597-648 | the recursive scan with its attempts, counters and halves computes the specified attempts |
| LogScan.RpcClient.ScanLogs | research/rh-chain-stock-tokens/capture_snapshot.py:587-655 | the chunk loop computes the specified chunks, and moves the shared counters accordingly |
| LogScan.ScanIsExact | research/rh-chain-stock-tokens/capture_snapshot.py:587-655 | for every chunk size and every pattern of failures of a node whose successful answers are exact, a normal return is exactly the logs of the range in block order, no gap and no repeat |
| LogScan.AttemptsBounded | research/rh-chain-stock-tokens/capture_snapshot.py:597-648 | one chunk of n blocks costs at most 3(2n-1) queries, n-1 splits and 2(2n-1) retries |
| LogScan.ScanIsBounded | research/rh-chain-stock-tokens/capture_snapshot.py:650-655 | so does the whole range, whatever the chunk size |
| LogScan.ScanFailsExactly | research/rh-chain-stock-tokens/capture_snapshot.py:587-655 | a scan fails if and only if one of the queries it issues is hopeless: no list, an unreachable node, an error of no known kind, a size limit on a single block, or the first of three transient errors in a row on a single block |
| LogScan.ScanQueriesAreCounted | research/rh-chain-stock-tokens/capture_snapshot.py:600-601 | the queries of that result are numbered one by one, as many as the scan counts, each inside the scanned range |
| LogScan.ClassifiedByMarkers | research/rh-chain-stock-tokens/capture_snapshot.py:618-632 | an error is a size limit, or transient, if and only if one of four, or five, markers stands somewhere in its text |
| LogScan.QueriesFitChunks | research/rh-chain-stock-tokens/capture_snapshot.py:650-655 | no query asks for more blocks than a chunk has |
| LogScan.SmoothScanAsksOncePerChunk | research/rh-chain-stock-tokens/capture_snapshot.py:650-655 | a node that never fails is asked exactly once for each chunk, from the first block to the last |
| LogScan.ScanSucceedsUnlessHopeless | research/rh-chain-stock-tokens/capture_snapshot.py:600-647 | a scan of a range within which the node is never hopeless returns normally, whatever transient errors and size limits it meets besides |
| LogDedupe.DedupeLogs | research/rh-chain-stock-tokens/capture_snapshot.py:670-682 | the dictionary that is overwritten and then sorted computes the specified list |
| LogDedupe.DedupeRestores | research/rh-chain-stock-tokens/capture_snapshot.py:670-682 | whatever repeats and order a list has, deduplicating it gives the one strictly ordered list of the same logs |
| LogDedupe.DedupeKeepsLast | research/rh-chain-stock-tokens/capture_snapshot.py:670-682 | of any list the last log of each transaction hash and log index is kept, once, none before an earlier one |
| LogDedupe.MergedScansAreExact | research/rh-chain-stock-tokens/capture_snapshot.py:766-780 | scanning with each of two filters and merging gives exactly the logs that either selects, each once and in chain order |
| Signatures.SplitTopLevel | spec/generate_v1_canonical_abi.py:14-29 | the loop over characters, depth and start computes the specified pieces |
| Signatures.JoinOfSplit | spec/generate_v1_canonical_abi.py:14-29 | joining the split of any value with commas gives the value back |
| Signatures.SplitOfJoin | spec/generate_v1_canonical_abi.py:14-29 | splitting a join returns the parts if and only if no part has a comma at depth zero and all but the last are balanced, the list of one empty text excepted |
| TypeTexts.SplitExactly | spec/generate_v1_canonical_abi.py:14-29 | the split of a value is the one list that joins back to it and has no comma at bracket balance zero, balances counted in the text |
| ArraySuffix.StripArraySuffix | spec/generate_v1_canonical_abi.py:60-65 | the loop that strips bracketed pieces computes base and suffix |
| ArraySuffix.StripParts | spec/generate_v1_interfaces.py:21-26 | base and suffix together are the type text, and no further piece can be stripped |
| TypeTexts.StripSpelled | spec/generate_v1_interfaces.py:21-26 | one round of stripping, by the last opening bracket of the text |
| TypeTexts.PiecesStripOff | spec/generate_v1_interfaces.py:21-26 | any bracketed pieces behind a text come off it as its suffix |
| TypeTexts.WellBracketedMeans | spec/generate_v1_interfaces.py:21-26 | a type is well-bracketed if and only if it is a text that ends in no closing bracket and bracketed pieces behind it |
| ArraySuffix.SuffixStacks | spec/generate_v1_interfaces.py:20-30 | a well-bracketed suffix put behind any type text is stripped off again, piece by piece |
| ArraySuffix.StraySuffixSwallows | spec/generate_v1_interfaces.py:20-30 | a suffix that closes more than it opens swallows an opening bracket put before it |
| AbiTypes.ExpandStacks | spec/generate_v1_canonical_abi.py:59-77 | expansion commutes with array suffixes, error or not |
| TypeTexts.UnknownExpands | spec/generate_v1_canonical_abi.py:59-77 | a name the table does not know stays, with its pieces |
| TypeTexts.AliasExpandsTo | spec/generate_v1_canonical_abi.py:59-77 | an alias becomes what its target becomes, with its pieces |
| TypeTexts.StructExpandsTo | spec/generate_v1_canonical_abi.py:59-77 | a struct becomes its members' expansions between parentheses with commas, with its pieces |
| AbiTypes.RenderingPreservesExpansion | spec/generate_v1_interfaces.py:20-30 | over every table with acyclic aliases, whatever names stay readable, the rendered type expands to exactly what the original expands to, error or not |
| TypeTexts.RenderedNamesNoAlias | spec/generate_v1_interfaces.py:20-30 | a rendered type names no alias |
| AbiTypes.BaitCatches | spec/generate_v1_interfaces.py:20-30 | over any acyclic table with two such aliases, a type text with a stray closing bracket is rendered into another type |
| AbiTypes.TrapCatches | spec/generate_v1_interfaces.py:20-30 | for any type text with a stray closing bracket, a concrete table over which rendering changes its meaning |
| AbiTypes.FaithfulExactlyWhenWellBracketed | spec/generate_v1_interfaces.py:20-30 | rendering is faithful to a type text over all tables with well-bracketed alias targets if and only if the text opens the brackets its suffix closes |
| AbiTypes.TargetsExactlyWhenWellBracketed | spec/generate_v1_interfaces.py:20-30 | rendering stays faithful to every well-bracketed text when a further text may be the target of aliases, if and only if that text opens the brackets its suffix closes |
| AbiDeclarations.DeclarationsPreserveExpansion | spec/generate_v1_interfaces.py:97-124 | the declarations the renderer writes (enums, structs with rendered fields, no aliases) give every rendered type the expansion the original table gave it |
| TypeTexts.RenderedFieldReads | spec/generate_v1_interfaces.py:115-117 | a field is type, space and name, and the renderer keeps the name and renders the type |
| AbiCycles.FailureNamesChain | spec/generate_v1_canonical_abi.py:71-72 | the error of a failed expansion names a genuine chain of structs, one inside the other, whose last has been met before |
| AbiCycles.FailsExactlyOnRecursion | spec/generate_v1_canonical_abi.py:59-77 | expansion terminates, and fails if and only if some struct inside the type contains itself |
| CanonicalSignature.ExpansionIsFinal | spec/generate_v1_canonical_abi.py:59-77 | an expanded type expands to itself, whatever is on the stack |
| CanonicalSignature.TupleReadsBack | spec/generate_v1_canonical_abi.py:73-77 | the inside of an expanded struct splits into exactly the expansions of its fields |
| CanonicalSignature.CanonicalReadsBack | spec/generate_v1_canonical_abi.py:32-34 | a canonical signature is the name, the expansions with commas between parentheses, and nothing else; parsing it gives the name and arguments that split into exactly those expansions, each the expansion of the display argument, and making it canonical again changes nothing |
| CanonicalSignature.PrintParses | spec/generate_v1_canonical_abi.py:80-83 | a printed signature parses into its name and the joined types |
| TypeTexts.ParseSpelled | spec/generate_v1_canonical_abi.py:32-34 | a signature is parsed at its first parenthesis and loses its last character |
| TypeTexts.NestedMeans | spec/generate_v1_canonical_abi.py:14-29 | nested texts: no prefix closes more than it opens, the whole closes all, no comma outside |

## Left out

Parts of the repository:

- Tick prices (`sqrt_price_at_tick`, its table, `full_range_ticks`, `max_liquidity_per_tick`): a finite domain; liquidity takes any positive numbers as tick prices.
- Mint amounts, dust routing and the initial tick of graduation (GraduationPoolMath.sol beyond the price and the liquidity): they do not move the opening price.
- Keccak, CREATE2 derivation, `quote_economics_hash`, function selectors and code hashes: opaque; a selector is any text, and the distributor's selector is a parameter.
- Fee splits, the snipe schedule, readiness states and legacy functions: each settled by reading one branch. The fee rates of a buy or sell are parameters of every operation.
- The creator-tax leg and the transfers of the curve contract: booked with the other fees; recipients, reentrancy and token behaviour are not part of this model.
- Forfeiture of rewards, the second reward asset and checkpoints in the gauge contract: one asset is modelled, assets being independent.
- Calldata encoding of the planned calls (`word`, `addressWord`, `staticCall`): a call is a datatype value, so nothing is said about its bytes.
- OpenZeppelin's AccessManager: its rules are assumptions stated in `AccessManager` and `AuditedHandoff.CallEvents` (ADMIN_ROLE configures, a role's admin grants and revokes, members renounce themselves, one event a change). Execution delays are recorded but never make a call wait, which only lets callers do more; guardians cancelling scheduled calls changes no table.
- The preflight's reading of the manifest into the expected tables, and its membership and permission calls to the node: the expected tables are arbitrary inputs of the audit results.
- `JSON.stringify` of two string lists is taken to be equal exactly when the lists are.
- HTTP, retries of a single request, back-off sleeping, lower-casing of error messages, telemetry and file generation: plumbing. The classification of an error message starts from its lower-case text.
- `proxyReadRpc`'s fallback and cooldown, and response parsing: mostly network error classification.
- `canonical_event_signature`, `render_event` and parameter data locations: the same expansion and rendering over differently cut texts.
- Heap identity of lists: `_scan_logs` extends one shared list and Python tuples are copied; here gathered logs are passed along as values. The order in which entries are gathered is kept.
- Which of several reasons the reference model gives for refusing: all are a ValueError, and the results say exactly when it answers and with what.

Conditions on results:

- CurveMath.AmountInSuffices: stated where the quoted input can itself be quoted; `CurveMath.AmountInIsQuotable` says exactly when that is.
- RewardIndex.SettlementIsPathIndependent: that both go through or neither does is stated for index precisions up to half of 2^256, since beyond it adding two remainders can leave 256 bits in one settlement and not in two, as `RewardIndex.WidePrecisionParts` shows; the protocol's precision is 10^27.
- GaugeLedger.GaugeConserves: stakes change only right after their owner's settlement, as the reference model's callers do; a stake changed without settling would break the books.
- GaugeLifetime.FloorIsExact: about full-size credits over one unchanged stock; `GaugeFloor.GaugeFloorIsExact` states the floor over all gauge runs.
- ActivationLedger.WheelRefinesList: time does not go back along the run, and the delay is at most the wheel size, which `ActivationLedger.DelayIsExact` shows to be needed for every delay that still fits 64 bits when the clock has gone round once.
- SeedAcceptance.SeedAccepted: the two tick prices are words of 160 bits in order, as tick prices are.
- AdmittedLaunch.ExampleIsAdmitted: the maximum liquidity is at least 20,000; the maxima of tick spacings, not modelled, are far above.
- GaugeSteps.ClaimStep: the claim is the ledger's own operation, one asset of the vault's claim; like the other gauge steps it is stated for runs within the lifetime of 2^48 - 1 credits.
- CurveSteps.BuyStep: a run may go on trading after it has sold out, where the contract closes the curve; this adds runs and takes none away.
- GraduationOpening.PoolOpening: about the reference model's functions given all that was raised; what the contracts seed is the subject of `CanonicalGraduation`. Addresses are the numbers they spell, and the two tick prices and the liquidity cap are any numbers, there and in `CanonicalGraduation`.
- CanonicalGraduation.CanonicalQuoteIsAttained: for launches whose supply and terminal reserve still fit 256 bits when multiplied by 10,000, since a buy scales its reserves to basis points; amounts of 128 bits always do.
- CanonicalGraduation.AdmittedLaunchGraduates: admission is modelled up to the price and the liquidity; the checks on mint amounts and on the initial tick inside the same derivation are not.
- OpcodeScanner.ScannerIsSound: an execution may take any step its machine could take, and more, since stack, memory and gas are not modelled; the hexadecimal decoding of the runtime is left out.
- AccessHandoff.HandoffTableIsExact: the compiled interface lists no selector of one target under two roles; otherwise the later group wins, and the table is the last one listed.
- AuditedHandoff.MemberAuditAcceptsThePlan: stated right after the handoff, since the holders of the protocol admin role may change memberships later.
- RateLimit.AdmissionChargesBoth: for clients not named `*`; such a client would be charged twice to the one bucket it shares, and the window and table results hold for it too.
- SingleFlight.JoinersShareTheOutcome: a read is an async function, so it neither throws before returning its promise nor calls back into the state meanwhile.
- LogScan.ScanIsExact: the chunk size is positive, as the command line requires (research/rh-chain-stock-tokens/capture_snapshot.py:1280-1281), and a node's answer depends on the number of the query and its range.
- LogDedupe.MergedScansAreExact: transaction hash and log index identify a log, and each block lists its logs in order.
- AbiTypes.RenderingPreservesExpansion: aliases do not go round in a circle, given by a ranking; on a circle the program recurses until Python stops it. The rendered text and the targets of aliases are well-bracketed; `AbiTypes.FaithfulExactlyWhenWellBracketed` shows the first to be needed, `AbiTypes.TargetsExactlyWhenWellBracketed` the second.
- AbiDeclarations.DeclarationsPreserveExpansion: alias targets hold no space, and enum names stand for `uint8`, which is no name of the table itself.
- CanonicalSignature.CanonicalReadsBack: names are free of brackets and commas, and type texts are properly nested.
