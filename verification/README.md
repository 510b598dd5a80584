# Velora: verified models of the core

This project models, in Dafny, the parts of Velora whose correctness rests on an argument
rather than on a single expression, and proves that argument for every input, every run or every
reachable state.

| Part | Files | Subject |
|---|---|---|
| Fixed point | `Digits`, `Decimal`, `Pnl`, `PnlFigures`, `LegacyParity` | exact decimals, two rounding modes, P&L with its range guard, what each answer says of the input, parity of two scales |
| Series metrics | `Metrics`, `MetricsFigures`, `StrategyMetrics`, `DoubleRounding` | one-pass summaries, drawdown, equity, what each printed figure means, grouping by strategy, ratios rounded twice |
| Fills to positions | `FillArithmetic`, `FillFigures`, `VolumeSharpness`, `PositionAssembly`, `FillLedger`, `AssemblyProperties`, `LedgerSelection` | truncated averages, deduplication, grouping, trades and skips, each read off the fields of the fills |
| Trade ledger | `TradeLedger`, `LedgerEffects` | optimistic versions, duplicate delivery, tombstones, allocation, what every event leaves behind |
| Backup retention | `Retention`, `BackupMetadata`, `ReleasedDocuments`, `Reaper`, `BackupProtocol`, `ReaperRuns` | the deletion law on records and on documents, the reaper against a failing store, uploads and reapers interleaved, the one as a run of the other |
| Delivered updates | `Excerpt`, `ClaimProtocol`, `UpdateHandler` | exactly-once handling under concurrent redelivery and failing calls |
| Accounts | `AccountStore`, `AccountQuota` | the store, and the per-user promise chain that guards the quota |
| Calendar, addresses, limiter | `Jalali`, `IpText`, `Cidr`, `AddressNumbers`, `RefreshLimiter` | Gregorian to Jalali, address spellings, prefixes and the numbers they denote, a sliding window |
| Shared | `Wrappers`, `Text`, `Sequences` | results, string order and trimming, sums and filters |

How the model is written:

* Code that works step by step is a `method` with the same loops and branches, proved against a
  specification function or predicate; the source's mutable classes (`BackupRecord`, the backup
  store, `D1TestStore`, `MemoryAccountStore`, the refresh buckets) are classes. What the source
  promises is then proved about the specification.
* Exceptions and nulls are `Result` and `Option` values. A call to something that can fail meets a
  scripted `Fault`: success, an error before its effect, or an error after it.
* Concurrency is a state machine over steps (`NextStep`), with theorems over runs: sequences of
  states, each of which follows from the one before by some step.
* What an operation answers is also stated on the plain fields of its input, without naming the functions
  that compute the answer: `PnlFigures.AnswerExactly`, `MetricsFigures.SummaryOnTrades`,
  `PositionAssembly.AssemblePosition`, `LedgerSelection.ResultsOnLedger`, `LedgerEffects.EventEffect`,
  `Retention.EvaluateDeletion`, `ReleasedDocuments.TargetOnDocuments`, `UpdateHandler.HandleTestUpdate`,
  `Jalali.CalendarsInStep`, `AddressNumbers.AddressExactly`, `RefreshLimiter.AcceptedExactly`.
* Decimal values are compared in whole units: `Units(f, k)` is the value of `f` in units of 10^-k.
  Times of backups are in microseconds.

Where the code and what is said about it differ, the code is modelled and the difference is stated:

* An update whose claim took effect but whose answer was lost is answered 503, and its redelivery is
  *not* a re-claim of an absent row: the row stays claimed for good
  (`ClaimProtocol.LostClaimOrphans`, `ClaimProtocol.OrphanedForever`).
* The published 33-year rule of `isJalaliLeap` and the long years that `gregorianToJalali` really
  produces differ at six residues, and agree at all others (`Jalali.LeapRulesAgreeExactly`).
* A volume-weighted price stays at or below a bound on the contributing prices, for every choice of
  non-negative prices, exactly when every non-negative contributing volume is a whole number of 10^-8
  (`VolumeSharpness.BoundHoldsExactly`); with a longer volume, or a negative price, it need not
  (`FillArithmetic.LongVolumeRises`, `FillArithmetic.NegativePriceRises`).
* Deduplication by deal id runs over the whole ledger, so a position's admitted fills are its own ones
  exactly when no other position used one of its deal ids first (`AssemblyProperties.OwnFillsExactly`);
  with a deal shared by two positions a trade becomes a skip (`AssemblyProperties.SharedDealChangesOutcome`).
* Allocation stays within the volume exactly when every applied correction of the volume covers what is
  already allocated (`TradeLedger.AllocationSoundExactly`); one that does not overdraws the trade
  (`TradeLedger.LoweredVolumeOverdraws`).
* The risk of an `ok` P&L answer is positive exactly when volume and contract size have the same sign
  (`Pnl.RiskSign`), so the bound on R is stated with |risk|, and with a signed risk exactly under that
  condition (`Pnl.OkBound`); an input that is answered `ok` with risk -1.00 is
  `Pnl.NegativeRiskIsAnsweredOk`.
* In half-even mode the R of an `ok` answer can differ at the legacy scale from the legacy system's
  (`LegacyParity.HalfEvenParityExactly`, and an input in `LegacyParity.HalfEvenParityCanFail`).
* A ratio of the metrics is divided at eight decimals and rescaled to four. In half-even mode that is
  the ratio rounded once exactly when no inexact quotient was taken for a tie
  (`DoubleRounding.RatioRoundedOnceExactly`): always for win rates of fewer than ten thousand trades,
  not for the mean of 0.00010001 and 0 (`DoubleRounding.MeanRoundedTwice`).
* The profit factor of a series without gains or losses prints as "0", although metrics.ts:105-108 promises
  four decimals for ratios, and the expectancy of an empty one as "0", although metrics.ts:172 says "0.00"
  (`MetricsFigures.SummaryFigures`, `MetricsFigures.AggregateFigures`).
* Dates before 1600-03-20 convert to no date unless they fall on the start of a four-year group
  (`Jalali.EarlierDatesFail`, `Jalali.DayBeforeFails`).
* A refresh bucket decides like the whole history exactly when no accepted hit expired at a reading of
  the actor's calls and is recent again at the present one; the five-per-window limit holds while that
  never happens, in particular on a clock that is non-decreasing over the actor's own calls, and a
  clock that steps back further breaks it (`RefreshLimiter.PruningLosesNothingExactly`,
  `RefreshLimiter.AtMostFivePerWindow`, `RefreshLimiter.BackwardClockOverruns`).

`dafny verify dfyconfig.toml` checks the whole project.

## Model

| member | source | states |
|---|---|---|
| Decimal.RoundTrip | packages/domain/src/decimal.ts:32-56 | parsing what was printed gives back the unscaled value and the scale, for every value |
| Decimal.PrintInjective | packages/domain/src/decimal.ts:50-56 | two values print alike only if value and scale are the same |
| Decimal.AddExact | packages/domain/src/decimal.ts:58-66 | addition is exact at every scale that holds both operands |
| Decimal.SubExact | packages/domain/src/decimal.ts:58-71 | subtraction is exact at every scale that holds both operands |
| Decimal.MulExact | packages/domain/src/decimal.ts:73 | the product's units are the product of the operands' units |
| Decimal.CmpExact | packages/domain/src/decimal.ts:109-112 | comparison is the order of the values, whatever the scales |
| Decimal.QuotientExact | packages/domain/src/decimal.ts:75-92 | the shared rounding step returns the one integer that is n/d truncated toward zero, or nearest with ties to even |
| Decimal.SignSymmetric | packages/domain/src/decimal.ts:75-107 | negating either side negates the rounded result |
| Decimal.DivExact | packages/domain/src/decimal.ts:75-92 | `div` returns the value that rounds a/b at the target scale and no other, for divisors of either sign |
| Decimal.RescaleExact | packages/domain/src/decimal.ts:94-107 | `rescale` keeps the value when it extends and rounds it when it reduces |
| Decimal.NestedTruncation | packages/domain/src/decimal.ts:94-107 | truncating at a finer scale first does not change the coarser truncation |
| Decimal.TruncateTwice | packages/domain/src/decimal.ts:75-107 | truncating a quotient by d and then by e is truncating once by d times e |
| Decimal.DivThenTruncate | packages/domain/src/decimal.ts:75-107 | dividing at a fine scale and truncating is dividing at the coarse scale |
| Decimal.RoundMonotone | packages/domain/src/decimal.ts:75-107 | rounding never inverts an order, in either mode |
| Decimal.RescaleMonotone | packages/domain/src/decimal.ts:94-112 | values in order stay in order when rendered at one scale |
| Decimal.TruncationBound | packages/domain/src/decimal.ts:94-107 | truncation moves a value by less than one unit, toward zero |
| Pnl.GuardIsMagnitude | packages/domain/src/pnl.ts:78-87 | the digit pattern accepts a printed value exactly when its magnitude is below 10^integerDigits |
| Pnl.OutOfRangeExactly | packages/domain/src/pnl.ts:93-143 | `out-of-range` is answered exactly when \|net\| reaches 10^16, or risk is defined and \|R\| reaches 10^10, the net check first |
| Pnl.OkFields | packages/domain/src/pnl.ts:112-143 | an `ok` answer prints gross, net, risk and R, and risk was defined: a stop on the losing side worth at least a cent |
| Pnl.OkBound | packages/domain/src/pnl.ts:132-143 | R times risk misses net by less than \|risk\| times 10^-8 when truncating, never past net, and by at most half of that in half-even mode; with a signed risk exactly when volume and contract size of the input have the same sign |
| Pnl.RiskSign | packages/domain/src/pnl.ts:118-128 | a defined risk is positive exactly when volume and contract size are both positive or both not |
| Pnl.NegativeRiskIsAnsweredOk | packages/domain/src/pnl.ts:93-143 | buying at 8, exit 9, stop 7, volume -1 and size 1 is answered `ok` with risk -1.00 in both modes, and its signed bound fails |
| Pnl.OppositeDirections | packages/domain/src/pnl.ts:101-107 | a short and a long between the same prices have exactly opposite gross results |
| Pnl.NetConserved | packages/domain/src/pnl.ts:101-108 | with charges at currency scale, net plus charges is gross to the cent |
| PnlFigures.AnswerExactly | packages/domain/src/pnl.ts:93-143 | on the input's fields, for every input: gross is the directional price difference times volume times contract size rounded to cents, net is gross less the charges rounded to cents, risk the same product over entry and stop; the answer is out of range, one of the three undefined risks (no stop or a zero one, a stop on the wrong side, a risk that rounds to zero) or `ok` exactly under its own condition; a malformed decimal that is read fails |
| LegacyParity.LegacyScaleIdempotent | packages/domain/src/legacyParity.ts:60-62 | rendering at a legacy scale twice, or at a finer one first, changes nothing |
| LegacyParity.ParityIsNumeric | packages/domain/src/legacyParity.ts:71-78 | a legacy value compares equal exactly when it is, as a number, the truncation of the modern one |
| LegacyParity.TruncateModeParity | packages/domain/src/legacyParity.ts:76-100 | every `ok` trade in truncate mode has its R rendered at legacy scale equal to the legacy R, and both are net/risk truncated once at scale 4 |
| LegacyParity.HalfEvenParityExactly | packages/domain/src/legacyParity.ts:60-100 | in half-even mode the two agree exactly when rounding at scale 8 does not carry into the fourth decimal |
| LegacyParity.RenderingsAgree | packages/domain/src/legacyParity.ts:60-100 | the two renderings of one ratio differ exactly when the last digits are all nines and are rounded up |
| LegacyParity.HalfEvenParityCanFail | packages/domain/src/legacyParity.ts:24-36 | buying 1 at 20000000 with exit 30000999.99 and stop 10000000 is answered `ok` with net 10000999.99 and risk 10000000.00; its R renders as 1.0001 and the legacy R is 1.0000 |
| Metrics.ComputeSummary | packages/domain/src/metrics.ts:69-140 | the one-pass loop returns counts of positive and negative nets; total, best and worst are exact and rounded once; win rate, profit factor and mean R are the exact ratios divided at scale 8 and rescaled to 4; it fails exactly when a closed trade's decimals do not parse |
| Metrics.ComputeAggregate | packages/domain/src/metrics.ts:191-241 | peak and trough are the extremes of the prefix sums with prefix 0 = 0, and `maxDrawdown` is the maximum over all i <= j of prefix i minus prefix j, each rounded once; expectancy is the printed total divided at scale 8 and rescaled to 2 |
| Metrics.ComputeEquityCurve | packages/domain/src/metrics.ts:263-271 | each point is the exact prefix sum up to its day, rounded once |
| Metrics.TotalIsProfitPlusLoss | packages/domain/src/metrics.ts:84-103 | before rounding the total is gross profit plus gross loss |
| Metrics.DrawdownWithinRange | packages/domain/src/metrics.ts:191-241 | drawdown is never negative, never exceeds peak minus trough, and is at least peak minus the final total |
| MetricsFigures.SummaryFigures | packages/domain/src/metrics.ts:79-140 | every figure of a summary on the results in units of 10^-k: money is the sum, the largest, the smallest rounded to cents; win rate, profit factor (gains over the magnitude of losses) and mean R are ratios rounded at eight and then four decimals; the profit factor is null exactly with a gain and no loss |
| MetricsFigures.AggregateFigures | packages/domain/src/metrics.ts:191-241 | gains, negative losses, deepest fall, highest and lowest level rounded to cents, expectancy from the printed total |
| MetricsFigures.SummaryOnTrades | packages/domain/src/metrics.ts:69-103 | the results summed are those of the closed trades, in order, and the R multiples those of the closed trades that have one; no other trade contributes |
| MetricsFigures.ParsesExactly | packages/domain/src/metrics.ts:84-102 | which decimals are read: the result of a closed trade and the R multiple of a closed trade |
| MetricsFigures.PointFigures | packages/domain/src/metrics.ts:263-271 | a point of the equity curve is its day and the sum up to it rounded to cents |
| DoubleRounding.TwoRoundings | packages/domain/src/decimal.ts:75-107 | rounding to nearest, ties to even, at a fine scale and then at a coarse one is rounding once exactly when no inexact quotient was taken for a tie |
| DoubleRounding.DivThenRescaleExactly | packages/domain/src/decimal.ts:75-107 | dividing at a fine scale and rescaling is dividing at the coarse scale: always when truncating, in half-even mode but for mistaken ties |
| DoubleRounding.RatioRoundedOnceExactly | packages/domain/src/metrics.ts:110-125 | the same of every ratio of the metrics |
| DoubleRounding.WinRateRoundedOnce | packages/domain/src/metrics.ts:110-114 | under ten thousand decided trades the win rate is the ratio rounded once, in both modes |
| DoubleRounding.MeanRoundedTwice | packages/domain/src/metrics.ts:122-125 | the mean of R multiples 0.00010001 and 0 prints as 0.0000 in half-even mode; rounded once it is 0.0001 |
| StrategyMetrics.ComputePerStrategy | packages/domain/src/metrics.ts:278-292 | one summary per distinct tag, each the summary of exactly that tag's trades |
| StrategyMetrics.StrategiesAddUp | packages/domain/src/metrics.ts:278-292 | whatever is counted over trades, the strategies' shares add up to the whole |
| StrategyMetrics.TotalsAddUp | packages/domain/src/metrics.ts:278-292 | before rounding the strategies' totals add up to the overall total |
| MetricsFigures.TagMeans | packages/domain/src/metrics.ts:282-287 | a trade is filed under its tag untrimmed, or as untagged when the tag is absent or blank |
| FillArithmetic.SumDecimal | packages/domain/src/metaApiPositionAssembly.ts:116-125 | the exact sum of the truncated values that are present, none when no fill carries the field, an error when one is malformed |
| FillArithmetic.WeightedAverage | packages/domain/src/metaApiPositionAssembly.ts:128-140 | the truncated quotient of the truncated products and volumes, skipping absent prices and volumes and the literal "0" |
| FillArithmetic.AverageAtMost | packages/domain/src/metaApiPositionAssembly.ts:128-140 | with non-negative volumes that are whole numbers of 10^-8 an average never exceeds a non-negative bound on the contributing prices |
| FillArithmetic.PositiveAverageAtMost | packages/domain/src/metaApiPositionAssembly.ts:128-146 | with such volumes a positive average never exceeds the highest contributing price |
| FillArithmetic.AverageAbove | packages/domain/src/metaApiPositionAssembly.ts:128-140 | with such volumes an average misses the lowest contributing price by less than (n / total volume + 1) times 10^-8 |
| FillArithmetic.NegativePriceRises | packages/domain/src/metaApiPositionAssembly.ts:128-140 | a negative price for which the upper bound fails |
| FillArithmetic.LongVolumeRises | packages/domain/src/metaApiPositionAssembly.ts:128-140 | a nine-decimal volume for which the upper bound fails |
| VolumeSharpness.BoundHoldsExactly | packages/domain/src/metaApiPositionAssembly.ts:128-140 | for non-negative volumes of positive truncated total, no average at any non-negative prices exceeds a bound on them exactly when every contributing volume is a whole number of 10^-8 |
| FillFigures.SumOnFields | packages/domain/src/metaApiPositionAssembly.ts:116-125 | a sum is the total of the truncated values of that very field, absent and malformed exactly when the fills say so |
| FillFigures.AverageOnFields | packages/domain/src/metaApiPositionAssembly.ts:128-140 | an average is turnover over volume, truncated, over the priced fills, missing exactly when their volume is zero |
| FillArithmetic.SumPermuted | packages/domain/src/metaApiPositionAssembly.ts:116-125 | a sum does not depend on the order of the fills |
| FillArithmetic.AveragePermuted | packages/domain/src/metaApiPositionAssembly.ts:128-140 | nor does an average |
| PositionAssembly.BoundaryFill | packages/domain/src/metaApiPositionAssembly.ts:149-167 | the loop returns the first fill carrying the extreme instant |
| PositionAssembly.BoundaryIsExtreme | packages/domain/src/metaApiPositionAssembly.ts:149-167 | the boundary is one of the resolved fills and no resolved fill lies beyond it; it is missing only if none is resolved |
| PositionAssembly.BoundaryPermuted | packages/domain/src/metaApiPositionAssembly.ts:149-167 | the boundary instant does not depend on the order of the fills |
| PositionAssembly.OpenDirection | packages/domain/src/metaApiPositionAssembly.ts:169-174 | the direction of the first fill that has one |
| PositionAssembly.FirstSymbol | packages/domain/src/metaApiPositionAssembly.ts:176-182 | the first symbol that is more than blanks, untrimmed |
| PositionAssembly.AssemblePosition | packages/domain/src/metaApiPositionAssembly.ts:229-306 | one group becomes the trade or the skip that the reasons, in their order, prescribe; on the fields, a trade prints its in volume, the averages of in and of out prices, the sums of profit, of commission and of swap over all fills ("0" for none), the earliest in and latest out instants with the raw texts of those fills, and the first direction and symbol; each reason has its exact condition; it fails exactly on a malformed decimal that is read |
| FillLedger.GroupFills | packages/domain/src/metaApiPositionAssembly.ts:196-217 | the map holds exactly the admitted fills of each key by side, in insertion order of the keys, and the keyless ones apart |
| FillLedger.AssemblePositions | packages/domain/src/metaApiPositionAssembly.ts:191-310 | the result is one skip per keyless fill, then the outcome of every key in order of first appearance |
| AssemblyProperties.EachKeyOnce | packages/domain/src/metaApiPositionAssembly.ts:219-309 | every position key is the key of exactly one trade or one skip, and every keyless fill gives one skip |
| AssemblyProperties.EachFillOnce | packages/domain/src/metaApiPositionAssembly.ts:196-217 | every admitted fill is keyless or on one side of one position, once, and nothing else is |
| AssemblyProperties.RepetitionsIgnored | packages/domain/src/metaApiPositionAssembly.ts:200-209 | appending fills with deal ids already seen changes nothing |
| AssemblyProperties.OwnFillsExactly | packages/domain/src/metaApiPositionAssembly.ts:191-217 | a position's admitted fills are its own fills deduplicated exactly when no other position took one of its deal ids first |
| AssemblyProperties.SharedDealChangesOutcome | packages/domain/src/metaApiPositionAssembly.ts:196-240 | position A uses deal "1" first: B's own fills make a trade, and in the ledger B is skipped for want of an opening fill |
| AssemblyProperties.OnlyOwnFillsMatter | packages/domain/src/metaApiPositionAssembly.ts:191-310 | two such ledgers that agree on a position's fills agree on its result |
| AssemblyProperties.OrderIrrelevant | packages/domain/src/metaApiPositionAssembly.ts:191-310 | reordering fills with distinct deals keeps the keys, and each key's reason or prices, volume, money sums and boundary instants |
| AssemblyProperties.TradePricesAtMost | packages/domain/src/metaApiPositionAssembly.ts:273-305 | the printed entry and exit prices of a trade never exceed the highest prices they average |
| LedgerSelection.KeyExactly | packages/domain/src/metaApiPositionAssembly.ts:98-105 | a fill belongs to the position whose key is "pos-" and its id without surrounding blanks, for 1 to 64 allowed characters |
| LedgerSelection.GroupsExactly | packages/domain/src/metaApiPositionAssembly.ts:196-217 | each side of each position, and the keyless fills, are exactly the in and out fills of the ledger that belong there and whose deal id no earlier in or out fill has, in ledger order |
| LedgerSelection.ResultsOnLedger | packages/domain/src/metaApiPositionAssembly.ts:191-310 | on the ledger itself: one skip per keyless fill under its deal id, then each position that a fill names has exactly one result, and every trade and skip is what its own fills say, field by field |
| LedgerSelection.FailsExactly | packages/domain/src/metaApiPositionAssembly.ts:191-310 | the assembly fails exactly when some named position's fills hold a malformed decimal that is read |
| TradeLedger.FoldEvents | packages/domain/src/tradeLedger.ts:199-208 | the loop is the fold of the events, with the first error |
| TradeLedger.FailureStops | packages/domain/src/tradeLedger.ts:199-208 | a log with a failing prefix fails with that prefix's error |
| TradeLedger.AppliedAreSeen | packages/domain/src/tradeLedger.ts:199-208 | the applied ids are exactly the ids in the log |
| TradeLedger.Redelivery | packages/domain/src/tradeLedger.ts:199-208 | redelivering seen ids at any later point changes nothing, whatever their content |
| TradeLedger.VersionCountsEvents | packages/domain/src/tradeLedger.ts:105-167 | the final version is the number of distinct events minus one |
| TradeLedger.PlaceIsVersion | packages/domain/src/tradeLedger.ts:105-125 | in a log that folds, the creation comes first and every other event names its own place |
| TradeLedger.OrderIsForced | packages/domain/src/tradeLedger.ts:105-208 | two orderings of the same distinct events that both fold are the same ordering |
| TradeLedger.TombstoneIsLast | packages/domain/src/tradeLedger.ts:119-121 | behind an applied tombstone a log folds only if everything is a redelivery |
| TradeLedger.AllocationAccounted | packages/domain/src/tradeLedger.ts:142-192 | after every prefix the allocated volume is recorded minus cancelled over the first deliveries, and not negative |
| TradeLedger.AllocationSoundExactly | packages/domain/src/tradeLedger.ts:129-196 | allocation stays within the volume at every prefix exactly when every applied volume correction covers what is allocated |
| TradeLedger.AllocationInvariant | packages/domain/src/tradeLedger.ts:142-196 | with no applied correction of the volume the bounds hold at every prefix |
| TradeLedger.LoweredVolumeOverdraws | packages/domain/src/tradeLedger.ts:129-196 | volume 1, exit of 1, correction to 0.5: the log folds with more allocated than the trade has |
| LedgerEffects.MatrixByActor | packages/domain/src/tradeLedger.ts:76-103 | actor by actor, the event kinds each may emit |
| LedgerEffects.EventEffect | packages/domain/src/tradeLedger.ts:105-182 | an event that applies changes, of the financial and journaling fields, exactly those its patch gives and its kind covers, or the allocation, the tombstone or the quarantine flag, adds one to the version and keeps everything else; its actor may emit it and it named the version |
| LedgerEffects.CreationEffect | packages/domain/src/tradeLedger.ts:105-112 | the first event applies exactly when it is a creation or import by an allowed actor, and leaves its trade at version 0 with nothing allocated |
| LedgerEffects.RefusalExactly | packages/domain/src/tradeLedger.ts:114-167 | each refusal of an existing trade under its exact condition, in the order of the checks |
| LedgerEffects.FirstRefusalExactly | packages/domain/src/tradeLedger.ts:105-112 | the two refusals of a first event under their exact conditions |
| LedgerEffects.AppliedInLog | packages/domain/src/tradeLedger.ts:199-208 | in a log that folds each first delivery has its event's effect and each redelivery none |
| LedgerEffects.IdentityStays | packages/domain/src/tradeLedger.ts:105-167 | identity, symbol, direction, status and stops never change over a log |
| LedgerEffects.FinancialsStay | packages/domain/src/tradeLedger.ts:76-97 | while only the user and the system emit, the financial fields never change |
| LedgerEffects.JournalStays | packages/domain/src/tradeLedger.ts:76-97 | while only sync, webhook and system emit, the journal never changes |
| Retention.DeletableAt | ops/backup/retention.py:136-186 | with unique ids a record is deletable exactly when it advances its chain and a later one was stored fourteen days ago |
| Retention.DeletableIsPrefix | ops/backup/retention.py:136-186 | the deletable records are a prefix of the ordered chain |
| Retention.HeadNeverDeletable | ops/backup/retention.py:189-199 | the newest chain-advancing record is never deletable |
| Retention.OtherChainsIgnored | ops/backup/retention.py:147-160 | records of other chains change no verdict |
| Retention.StableUnderDeletion | ops/backup/retention.py:147-186 | deleting an eligible backup leaves every other verdict unchanged |
| Retention.StableUnderUpload | ops/backup/retention.py:147-186 | a new backup under a fresh id never makes an eligible one ineligible |
| Retention.ComputeChain | ops/backup/retention.py:147-186 | the shared records of the chain get their successor and expiry from the ordered eligible ones, the rest of the chain loses them, other records stay untouched |
| Retention.EvaluateDeletion | ops/backup/retention.py:211-323 | on the fields: allowed only for a record of the chain with a storage time, INTEGRITY_VERIFIED or RESTORE_VERIFIED, and STORAGE_VERIFIED, when another such record was stored later and 14 days before now, and with unique ids exactly then; the reasons are exactly those of the record's place: no successor for one that does not stand in the chain, newest and no successor for its head, an open window otherwise, and the floor when no other stands; the bookkeeping of the chain is rewritten exactly when one record matches |
| Retention.DeletableOnFields | ops/backup/retention.py:118-125 | what the law allows to go is a record that, on its fields, another outlasts |
| Retention.NextIsSuccessor | ops/backup/retention.py:136-186 | the next in the ordered chain is the first that was stored later, on the fields |
| Retention.HeadOnFields | ops/backup/retention.py:189-199 | the protected head stands in the chain and nothing that stands was stored later |
| Retention.SevenChecks | ops/backup/retention.py:246-323 | the checks report every failing condition, in order |
| Retention.FaultsOnFields | ops/backup/retention.py:246-323 | with unique ids the failing checks are exactly those that the record's place in the chain and its window call for |
| Retention.ChecksPassOnlyWithinLaw | ops/backup/retention.py:246-321 | passing checks imply the law, whatever the ids |
| Retention.ChecksPassWithinLaw | ops/backup/retention.py:246-321 | with unique ids the law implies passing checks |
| Retention.PlanChain | ops/backup/retention.py:346-368 | one chain's entries: the deleted ids are those the law releases, each entry with its immediate successor and the end of 14 days behind it; each retained entry carries its exact reasons |
| Retention.PlanDeletions | ops/backup/retention.py:326-368 | the planned ids are exactly the released ones, chain by chain, each entry naming its immediate successor and its expired timer; each retained entry carries its exact reasons |
| BackupMetadata.TombstoneReadsBack | ops/backup/reap_retention.py:135-198 | a tombstone reads back as the same record that can no longer advance its chain |
| BackupMetadata.FingerprintFields | ops/backup/reap_retention.py:200-210 | two fingerprints agree exactly when id, digest, storage time, both statuses and release agree |
| BackupMetadata.TombstoneFields | ops/backup/reap_retention.py:258-271 | a tombstone is the document with its storage status, its deletion stamp and its retention fields rewritten, nothing else changed |
| ReleasedDocuments.ReadFields | ops/backup/reap_retention.py:125-197 | what loading makes of a document, field by field, with the defaults of absent ones |
| ReleasedDocuments.AcceptedExactly | ops/backup/reap_retention.py:135-179 | a document loads exactly when id, environment, path, type, storage time and namespace agree |
| ReleasedDocuments.TargetOnDocuments | ops/backup/retention.py:118-186 | what a run may delete, on the trimmed texts of the documents: a verified, stored one of the chain whose release carries the chain's prefix, when another such document was stored later and 14 days before now |
| Reaper.BackupStore.ListMetadata | ops/backup/reap_retention.py:91-103 | a listing names every metadata document of the environment once, or fails |
| Reaper.BackupStore.DeleteRelease | ops/backup/reap_retention.py:456-468 | deletion is idempotent, and may have happened although it reports an error |
| Reaper.BackupStore.PutMetadataIfMatch | ops/backup/reap_retention.py:470-484 | the write goes through only on the document that was read, and may have happened although it reports an error |
| Reaper.LoadChainState | ops/backup/reap_retention.py:217-255 | without quarantine the loaded records are the environment's documents, one each, under distinct ids |
| Reaper.ListsLaw | ops/backup/reap_retention.py:217-255 | the law on the loaded records is the law on the stored documents |
| Reaper.TombstoneStep | ops/backup/reap_retention.py:258-274 | leaving a tombstone for a released backup changes that verdict and no other |
| Reaper.ReapOne | ops/backup/reap_retention.py:328-395 | re-evaluating one planned backup, uninterrupted, removes at most a release the law allows at that moment, of a record whose id, digest, storage time, both statuses and tag are as planned, and only after it leaves the tombstone of its document, with its successor, expiry and deletion stamp, whichever call fails; with no failure it removes the candidate exactly when it is released, and otherwise skips it as a foreign tag or as no longer eligible |
| Reaper.Execute | ops/backup/reap_retention.py:327-397 | the loop over the planned entries deletes, skips or fails each of them, touches only targets of the law, leaves tombstones that name the immediate successor, and undisturbed reports exactly the targets as deleted |
| Reaper.Reap | ops/backup/reap_retention.py:277-397 | any run that has the store to itself removes only what was released when it began and tombstones no document whose release it left; an undisturbed authorised run deletes and tombstones exactly that set; every tombstone names the immediate successor and the end of its 14 days; the report names the chain's newest and exactly the released ids, and under quarantine it skips them all; without faults the arguments' errors are the only ones |
| Reaper.SecondRunDeletesNothing | ops/backup/reap_retention.py:277-397 | a second run at the same instant finds nothing to delete |
| BackupProtocol.StoredReadsBack | ops/backup/upload_backup.py:165-258 | what an upload commits reads back as a chain-advancing record whose release carries its own id |
| BackupProtocol.JudgedIsSuperseded | ops/backup/reap_retention.py:341-353 | a favourable verdict on a view, however stale, names a backup that a stored one expired |
| BackupProtocol.StepKeeps | ops/backup/reap_retention.py:328-395 | every step of every upload and reaper, with failures between release deletion and tombstone, keeps the invariant |
| BackupProtocol.NothingUnexpiredIsLost | ops/backup/reap_retention.py:328-395 | in every reachable state a backup ever stored is intact, or a later one of its chain was stored fourteen days before some reaper's clock |
| BackupProtocol.NewestSurvives | ops/backup/reap_retention.py:328-395 | in every reachable state the newest backup ever stored in a chain keeps its release and its untombstoned metadata |
| BackupProtocol.TombstonesAreHonest | ops/backup/reap_retention.py:368-395 | in every reachable state metadata that was tombstoned speaks of a release that is gone |
| ReaperRuns.ReapIsAPath | ops/backup/reap_retention.py:328-395 | whatever an uninterrupted re-evaluation of one planned backup did to the store, a path of the protocol from the same store does |
| ReaperRuns.ReapKeepsInvariant | ops/backup/reap_retention.py:328-395 | so an uninterrupted re-evaluation begun in any state of any run keeps the protocol's invariant |
| Excerpt.ExcerptIdempotent | apps/worker-cf/src/d1TestStore.ts:56-61 | excerpting an excerpt changes nothing |
| Excerpt.ExcerptKeepsWords | apps/worker-cf/src/d1TestStore.ts:56-61 | the excerpt is the words of the text joined by single blanks, none when there are none, cut at 400 characters with an ellipsis |
| ClaimProtocol.StepKeeps | apps/worker-cf/src/d1TestStore.ts:85-99 | every step of any number of deliveries keeps the numbering of attempts and the state of claimed rows |
| ClaimProtocol.OneHolder | apps/worker-cf/src/d1TestStore.ts:85-99 | at most one delivery of an update is between its claim and its last mark |
| ClaimProtocol.OneAcceptance | apps/worker-cf/src/runtime.ts:533-590 | at most one delivery of an update is ever answered "accepted" |
| ClaimProtocol.MarkTakesEffect | apps/worker-cf/src/d1TestStore.ts:97-99 | a holder's mark that reaches the store makes its row handled |
| ClaimProtocol.FailureMarkTakesEffect | apps/worker-cf/src/runtime.ts:591-617 | the failure mark takes effect unless the holder's own earlier mark did |
| ClaimProtocol.HandledIsTerminal | apps/worker-cf/src/d1TestStore.ts:85-99 | a handled row never changes again |
| ClaimProtocol.AcceptedIsHandled | apps/worker-cf/src/runtime.ts:580-590 | an "accepted" answer means the row is handled, at that attempt, from then on |
| ClaimProtocol.AttemptCountsReclaims | apps/worker-cf/src/d1TestStore.ts:85-90 | a row's attempt is one plus the number of times it went from failed back to claimed |
| ClaimProtocol.LostClaimOrphans | apps/worker-cf/src/runtime.ts:536-561 | a claim that took effect but whose answer was lost leaves a claimed row behind a 503 |
| ClaimProtocol.OrphanedForever | apps/worker-cf/src/d1TestStore.ts:85-99 | a claimed row without a holder never changes again |
| ClaimProtocol.OrphanStep | apps/worker-cf/src/runtime.ts:562-565 | a redelivery of such a row that is told anything is told "duplicate" |
| UpdateHandler.D1TestStore.Claim | apps/worker-cf/src/d1TestStore.ts:203-219 | the statement changes the table as the automaton says and returns the attempt, or no row |
| UpdateHandler.D1TestStore.Mark | apps/worker-cf/src/d1TestStore.ts:222-226 | the statement marks a claimed row only and says whether it did |
| UpdateHandler.D1TestStore.Counts | apps/worker-cf/src/d1TestStore.ts:234-249 | rows, rows by outcome, and attempts beyond the first |
| UpdateHandler.HandleTestUpdate | apps/worker-cf/src/runtime.ts:510-617 | every run of the handler, whatever fails, is a run of one delivery of the protocol ending in its answer, and each answer stands for a table on its fields: a duplicate changes nothing, an accepted update has its one row handled, claimed from nothing or from a failed row with the next attempt, and no other row changes; without faults the answer is exactly duplicate, failed with the reply's code, or accepted; an unverified sender touches nothing |
| UpdateHandler.ReplyAndMark | apps/worker-cf/src/runtime.ts:567-617 | behind a claim, any error of the counts, the reply or the mark is answered by the failure mark |
| UpdateHandler.RetriesCountReclaims | apps/worker-cf/src/d1TestStore.ts:104-127 | the reported retries grow by exactly the re-claims of the run |
| AccountStore.MemoryAccountStore.Create | apps/api/src/accounts/memoryAccountStore.ts:34-71 | a new account under an id never used, with every field as asked for, disconnected and empty, one more for its user, nothing else changed |
| AccountStore.MemoryAccountStore.CountByUser | apps/api/src/accounts/memoryAccountStore.ts:28-32 | the number of the user's accounts |
| AccountStore.MemoryAccountStore.DeleteForUser | apps/api/src/accounts/memoryAccountStore.ts:87-92 | an owned account goes with its binding, anything else stays |
| AccountStore.MemoryAccountStore.BindMetaApiAccount | apps/api/src/accounts/memoryAccountStore.ts:107-132 | compare and set under global uniqueness: a conflict exactly when another account holds the binding, bindings stay one to one |
| AccountStore.MemoryAccountStore.UnbindMetaApiAccount | apps/api/src/accounts/memoryAccountStore.ts:134-142 | the binding of an owned, bound account is removed and returned, anything else stays |
| AccountStore.CheckAndCreate | apps/api/src/accounts/accountService.ts:217-251 | uninterrupted, the pair is refused exactly at the quota, with the count and the quota, and otherwise leaves the account that was asked for and a count within the quota |
| AccountQuota.StepKeeps | apps/api/src/accounts/accountService.ts:261-274 | every step of any interleaving keeps the chain, its order and the counts it was built on |
| AccountQuota.CreationWithinQuota | apps/api/src/accounts/accountService.ts:217-251 | each creation under a limited plan leaves the user's count within the quota the call read |
| AccountQuota.QuotaHolds | apps/api/src/accounts/accountService.ts:217-274 | a user whose calls all ran under a quota never has more accounts, in any state of any run |
| AccountQuota.FirstUnsettledMoves | apps/api/src/accounts/accountService.ts:263-274 | whatever became of the calls before it, the first unsettled call of a user can move on |
| Jalali.GregorianToJalali | packages/domain/src/jalali.ts:75-115 | the step-by-step conversion is the date of the day number |
| Jalali.NextDayNumber | packages/domain/src/jalali.ts:64-91 | the next Gregorian day has the next number, from 1600 on |
| Jalali.DayNumberMonotone | packages/domain/src/jalali.ts:78-91 | earlier dates have smaller numbers |
| Jalali.FromDayExact | packages/domain/src/jalali.ts:93-114 | every number from 0 on converts to a valid Jalali date with that number |
| Jalali.FromDayOnto | packages/domain/src/jalali.ts:93-114 | every Jalali date from 979/01/01 on is reached, from its own number |
| Jalali.NextDayConverts | packages/domain/src/jalali.ts:75-115 | from 1600-03-20 on the next day converts to the next Jalali day: six months of 31, five of 30, then 29 or 30 |
| Jalali.ConversionIncreasing | packages/domain/src/jalali.ts:75-115 | the conversion is strictly increasing, hence one to one, without an upper bound |
| Jalali.CalendarsInStep | packages/domain/src/jalali.ts:64-115 | by the two calendars' own month tables and leap years: 1600-03-20 is 979/01/01, and from there the next Gregorian day is the next Jalali day |
| Jalali.EarlierDaysFail | packages/domain/src/jalali.ts:75-115 | below number 0 the result is a date exactly at the start of a four-year group |
| Jalali.EarlierDatesFail | packages/domain/src/jalali.ts:75-115 | every date before 1600-03-20 has a negative number, so it converts to a date exactly at the start of a four-year group |
| Jalali.DayBeforeFails | packages/domain/src/jalali.ts:75-115 | 1600-03-19 converts to 979/01/00 |
| Jalali.LeapRulesAgreeExactly | packages/domain/src/jalali.ts:69-72 | the long years of the conversion are the years `isJalaliLeap` names except at six residues |
| IpText.ParseIpv4 | packages/domain/src/clientIp.ts:16-28 | four parts of one to three digits up to 255, or nothing |
| IpText.ParseIpv6Group | packages/domain/src/clientIp.ts:33-52 | hextets, with a dotted quad accepted as the last component only |
| IpText.ParseIpv6 | packages/domain/src/clientIp.ts:54-78 | eight groups, one `::` standing for at least one zero group |
| IpText.FamilyLengths | packages/domain/src/clientIp.ts:11-14 | an address with a colon is sixteen bytes and any other four |
| IpText.ZeroRunAbbreviates | packages/domain/src/clientIp.ts:54-78 | writing any run of zero groups as `::` parses to the same bytes |
| IpText.DottedTailSame | packages/domain/src/clientIp.ts:33-78 | writing the last two groups as a dotted quad parses to the same bytes, with and without `::` before it |
| AddressNumbers.AddressExactly | packages/domain/src/clientIp.ts:33-78 | a text with a colon parses exactly when it denotes eight numbers, in hexadecimal digits of either case, with one `::` and a dotted tail as allowed, and its bytes are those numbers, high byte first |
| AddressNumbers.DottedAddressExactly | packages/domain/src/clientIp.ts:16-28 | any other text parses exactly when it is four decimal bytes, and to those |
| AddressNumbers.AddressOfNumbers | packages/domain/src/clientIp.ts:33-78 | any eight numbers below 65536, written in hexadecimal in either case and joined by colons, parse to bytes b with 256 b[2i] + b[2i+1] = n_i |
| AddressNumbers.DottedOfNumbers | packages/domain/src/clientIp.ts:16-28 | any four numbers below 256, written in decimal and joined by full stops, parse to those bytes |
| Cidr.MaskedEqual | packages/domain/src/clientIp.ts:117-120 | comparing masked bytes is comparing their leading bits |
| Cidr.BytesAgreeExactly | packages/domain/src/clientIp.ts:107-120 | whole bytes and mask agree exactly when the first `prefix` bits are equal as integers |
| Cidr.AgreeByBytes | packages/domain/src/clientIp.ts:107-121 | the byte loop and mask decide that equality |
| Cidr.MatchesAnyCidr | packages/domain/src/clientIp.ts:83-124 | true exactly when some well-formed entry of the same family has the address's leading bits; other entries are skipped |
| AddressNumbers.CoversExactly | packages/domain/src/clientIp.ts:83-121 | network/prefix covers an address exactly when both are of one family, the prefix fits, and the two numbers agree after halving away the host bits |
| AddressNumbers.BareCoversExactly | packages/domain/src/clientIp.ts:83-121 | an entry without a prefix covers exactly its own address |
| AddressNumbers.MalformedCoversNothing | packages/domain/src/clientIp.ts:83-106 | an entry whose prefix is not all digits covers nothing |
| AddressNumbers.NumbersCovered | packages/domain/src/clientIp.ts:54-121 | from sixteen numbers: one address is covered by another's prefix exactly when their 128-bit numbers agree after halving away the host bits |
| RefreshLimiter.Limiter.RefreshDiagnostics | apps/api/src/admin/adminConsoleService.ts:459-478 | the bucket is pruned, and the call admitted exactly when fewer than five hits are left |
| RefreshLimiter.PruningLosesNothingExactly | apps/api/src/admin/adminConsoleService.ts:469-471 | the pruned bucket counts the same recent hits as the whole history exactly when no accepted hit of the actor was followed by a reading 120 seconds past it while the present reading is again less than 120 seconds past it |
| RefreshLimiter.AtMostFivePerWindow | apps/api/src/admin/adminConsoleService.ts:459-478 | while nothing is forgotten at any of an actor's calls, no half-open window of 120 seconds holds more than five of its accepted refreshes |
| RefreshLimiter.AtMostFiveOnForwardClock | apps/api/src/admin/adminConsoleService.ts:459-478 | in particular on a clock that is non-decreasing over the actor's own calls |
| RefreshLimiter.RefusedExactly | apps/api/src/admin/adminConsoleService.ts:472-478 | on a clock that is non-decreasing over the actor's own calls a call is refused exactly when five were accepted in the last 120 seconds |
| RefreshLimiter.AcceptedExactly | apps/api/src/admin/adminConsoleService.ts:459-478 | on the calls alone, on a clock that is non-decreasing over the actor's own calls: a call is accepted exactly when fewer than 5 accepted calls of the actor are less than 120000 ms old |
| RefreshLimiter.FivePerWindow | apps/api/src/admin/adminConsoleService.ts:459-478 | so no 120000 ms from any instant on hold more than 5 accepted calls of an actor |
| RefreshLimiter.BackwardClockOverruns | apps/api/src/admin/adminConsoleService.ts:459-478 | a clock that steps back over an expiry forgets hits and admits six in one window |

## Left out

- BackupProtocol.NewestSurvives: assumes what the reaper's safety rests on, that every upload uses a fresh backup id, release and metadata path.
- Reaper.ReapOne: the method's contract assumes that no other process changes the store between the calls of one re-evaluation; interleaved with uploads and other reapers, its steps are those of `BackupProtocol`.
- Reaper.Reap: the same, for the calls of one run.
- ReaperRuns.ReapIsAPath: relates an uninterrupted re-evaluation to the protocol; the protocol itself interleaves the steps of every process.
- ReaperRuns.ReapKeepsInvariant: the same; that each single step keeps the invariant, in any interleaving, is `BackupProtocol.StepKeeps`.
- BackupProtocol.StoredReadsBack: the checks on the artifact's bytes, size and digest and on the repository's privacy only refuse more uploads and are not part of the document's function.
- UpdateHandler.HandleTestUpdate: the reply's text and the callback acknowledgement, whose errors are swallowed, are not modelled; a failing reply is an error code.
- StrategyMetrics.ComputePerStrategy: the display order, a locale-dependent comparison of tags, is not modelled; entries come in order of first appearance.
- AccountStore.MemoryAccountStore.Create: `listByUser`, `findByIdForUser`, `updateTimezone` and `getMetaApiBinding` would only add easy members.
- AssemblyProperties.OrderIrrelevant: symbol, direction and the raw boundary texts are those of the first suitable fill and do depend on the order.
- Jalali.NextDayConverts: `jalaliToGregorian` drifts from it outside a finite window and is not modelled as an inverse, nor are the parsers built on it.
- Timestamps are integers: their text format, its parsing and the limits of the date type are not modelled; a malformed stamp is a value of its own.
- A document's content hash is represented by the document itself, so the compare-and-set compares documents.
- The list of records that the retention functions share has no record twice, as loading builds it.
- Strings are sequences of Unicode characters; lengths and order by UTF-16 code unit differ beyond the basic plane. Trimming uses each runtime's own set of blanks.
- A patch field that is explicitly `undefined` in a financial or journaling event is not distinguished from an absent one.
- Numbers are unbounded integers where the source uses counters and millisecond clocks below 2^53.
- A database statement takes effect when it is called or not at all; a statement that is applied after its caller saw an error is not modelled.
- The transactional stores, SQL other than the claim and the mark, transports, schedulers, command lines and configuration are wiring.
- `isNegative`, `currencyParity`, `formatJalaliDate`, `resolveClientIp`, `detectServer`, `externalTradeKey` and the heat-map buckets would only add easy members.
- Input validation of account creation is a list of independent patterns and is not modelled.
