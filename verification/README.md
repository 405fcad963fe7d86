# SolSight backend: verified model

A Dafny model of the parts of the backend that carry state machines, loops or arithmetic, with
proofs of what they keep. Each part stands alone.

* **Average-cost profit and loss** (`PnlEngine`, `PnlService`). The chart's single pass and the
  per-token table are loops over swap rows. The chart is proved equal, point by point, to a
  computation from scratch; the table obeys a conservation law; and the difference between the two
  is given exactly.
* **Billing** (`Billing`, `BillingProtocol`, `QuotaClock`). Clients submitting payments, the
  on-chain transfer listener, the expiry cron and quota callers interleave at the grain of single
  SQL statements. Every credit has a confirmed payment behind it and happens exactly once, balances
  reconcile with a ledger in every reachable state, and the free-usage row is exact under exactly
  stated conditions.
* **Staking history** (`StakingHistory`, `StakingHistoryRaces`, `StakingHistoryPages`,
  `StakingHistoryWalk`, `StakingHistoryLateRow`). Two watermarks and a flag over an append-only log leave no hole if and only
  if no latest sync is overrun; pages read through cursors give every stored row once; and which
  rows a walk that syncs as it goes reads, exactly.
* **Staking amounts and bytes** (`StakingChain`, `FallbackWithdrawal`). Floor and ceiling
  conversions, the choice of a fallback validator, and little-endian layouts with round trips.
* **Live token price** (`TokenPrice`, `TokenPriceRaces`, `TokenPriceService`). Two atomic scripts
  make a last-writer-wins register by slot, with expiry and multi-step readers around it; the exact
  conditions under which the register law and the freshness of what readers serve hold.
* **Chat history** (`ChatHistory`). A suffix of a message grammar is cut back to whole blocks.
* **Limiter and windowed lists** (`RateLimiter`, `DiscoveryWindows`).
* **Pending registrations** (`PendingRegistration`, `PendingRegistrationRaces`). Two families of
  expiring keys written one command at a time, and exactly when one address gets two working links.

`Wrappers`, `Arith`, `MapSum` and `StableSort` are shared helpers: options and results, integer
division, sums over maps, and the stable sort of the JavaScript runtime.

Code that works step by step is modelled by methods with loops and by classes with fields, each
proved against a specification function; what the code promises is proved about that function.
Concurrent actors are modelled as events on a shared state, and theorems range over all sequences
of events. Times, random identifiers and remote answers are parameters.

Places where the code does not do what its comments or its callers might suggest are kept as the
code has them, each with a concrete input or a whole family of them, and a condition under which it
is harmless:

* `submitPayment` can report credits although the order expired (`BillingProtocol.SuccessWithoutCredit`, `BillingProtocol.SuccessReply`).
* An unstake is not moved to a validator when the reserve is below its rent (`FallbackWithdrawal.ReserveBelowRentIsNotRescued`, `FallbackWithdrawal.PlanIsPayable`).
* The sanitiser can leave a tool result in front (`ChatHistory.ClaimedToolStaysInFront`, `ChatHistory.SanitizedStartsCleanIff`).
* A delayed deletion can take a fresh price (`TokenPriceRaces.DelayedDropLetsOldSlotIn`, `TokenPriceRaces.RegisterIff`), and an old price can be served under a newer entry's lifetime (`TokenPriceRaces.OldPriceServed`, `TokenPriceRaces.StaleServedIff`).
* Overlapping calls can leave an address two working links (`PendingRegistrationRaces.OverlapLeavesTwoUsable`, `PendingRegistrationRaces.LateVerifyHidesNewerLink`, `PendingRegistrationRaces.OneUsableThroughoutIff`).
* Two saves of the sync row can mix their columns (`StakingHistoryRaces.MixedSavesHideHole`, `StakingHistoryRaces.ClaimsThroughoutIff`).
* Following cursors never fetches older history of a single tracked address, and over several addresses can store rows it will not read (`StakingHistoryWalk.FirstWalkReadsWholeLogIff`, `StakingHistoryLateRow.LateRowIsMissed`, `StakingHistoryWalk.WalkMissesExactlyLateRows`).
* A comment says that the caller which completes an order from a transfer has checked the amount; the listener does not look at it (`BillingProtocol.OneLamportCompletes`, `BillingProtocol.TransferCompletesIff`).
* Overlapping callers can exceed a rate limit (`RateLimiter.OverlappingCallersBreakLimit`, `RateLimiter.TogetherKeepLimitIff`).
* Trending windows ordered by equal values need not fit together (`DiscoveryWindows.WindowsFitIff`).
* A free unit refunded after midnight is not given back (`Billing.RefundUndoesUseIff`).

`dafny verify dfyconfig.toml` checks the project.

## Model

| member | source | states |
|---|---|---|
| PnlEngine.TradeOfLegs | src/modules/portfolio/services/portfolio.service.ts:398-410 | Which transfers of a swap are its two legs, when the row is skipped, and that receiving SOL is a sale of the mint sent for the SOL received while receiving anything else is a purchase paid with what was sent |
| PnlEngine.CostFollowsSize | src/modules/portfolio/services/portfolio.service.ts:1256-1257 | A sale costs less than, as much as or more than everything paid exactly when it gives less than, as much as or more than everything held; what remains of a partial sale keeps the average cost |
| PnlEngine.SaleCost | src/modules/portfolio/services/portfolio.service.ts:1256-1258 | Whatever its size, a sale that meets a holding costs its tokens at the average paid; an oversold one costs (sold - held) * cost / held more than everything paid |
| PnlEngine.TableTradeIs | src/modules/portfolio/services/portfolio.service.ts:1249-1268 | One trade on any reachable record, value by value: a buy adds to investment, tokens and cost; a sell that meets nothing changes nothing; any other adds what it brought in less its average cost, and leaves the tokens not sold at the same average |
| PnlEngine.ChartTradeIs | src/modules/portfolio/services/portfolio.service.ts:412-428 | The same for one trade of the chart, where a sell that meets nothing is all profit; holdings of other mints stay |
| PnlEngine.RowsBooked | src/modules/portfolio/services/portfolio.service.ts:1214-1231 | The table books exactly the described swaps with both legs, each on its own mint; the chart asks for no description |
| PnlEngine.TableIsSane | src/modules/portfolio/services/portfolio.service.ts:1249-1268 | After any rows, no record has negative tokens or cost, and tokens are zero exactly when cost is zero: the two clamps fire together |
| PnlEngine.ChartIsSane | src/modules/portfolio/services/portfolio.service.ts:417-427 | The same for every holding of the chart |
| PnlEngine.TablePartialSellKeepsAverageCost | src/modules/portfolio/services/portfolio.service.ts:1255-1263 | From any reachable table, selling part of a holding leaves its average cost unchanged |
| PnlEngine.ChartPartialSellKeepsAverageCost | src/modules/portfolio/services/portfolio.service.ts:420-427 | From any reachable chart state, selling part of a holding leaves its average cost unchanged |
| PnlEngine.SettleTradeConserves | src/modules/portfolio/services/portfolio.service.ts:1249-1268 | One trade moves pnl + investment - cost by the SOL a counted sell brought in less the average cost of the tokens it gave beyond the holding, (sold - held) * cost / held; that loss is zero exactly when the sell does not oversell |
| PnlEngine.TableConserves | src/modules/portfolio/services/portfolio.service.ts:1210-1272 | Over any rows and per mint: pnl + investment - cost equals the SOL received from counted sells less the average cost of every token sold beyond its holding; that loss is never negative, and zero if and only if no counted sell exceeds its holding |
| PnlEngine.TableCountsTrades | src/modules/portfolio/services/portfolio.service.ts:1249-1268 | Investment is all SOL ever paid for the mint; tokens held are at least bought less sold, with equality if and only if every sell was covered by the holding it met |
| PnlEngine.TradeKeepsAgreement | src/modules/portfolio/services/portfolio.service.ts:412-428 | One trade booked in both engines keeps their holdings identical, and moves the difference of their totals by the proceeds of a sell that met nothing |
| PnlEngine.EnginesAgree | src/modules/portfolio/services/portfolio.service.ts:387-430 | On one list of described swaps the chart and the table hold the same per mint, and the chart's cumulative pnl is the sum of the table's pnl plus the proceeds of sells that met zero holdings |
| PnlEngine.UntrackedExactly | src/modules/portfolio/services/portfolio.service.ts:420-424 | Those proceeds are never negative, and zero exactly when every sell met a holding |
| PnlEngine.ChartTotalIsTableTotalIff | src/modules/portfolio/services/portfolio.service.ts:1255-1259 | The two totals are equal if and only if no sell came out of nowhere |
| PnlService.GetSolPriceNear | src/modules/portfolio/services/portfolio.service.ts:148-158 | For prices keyed by the start of their day, the answer is the price of the last entry at or before the second asked for, zero when there is none; for any ascending prices it is the latest for the day of that second |
| PnlService.DayHoldsSecond | src/modules/portfolio/services/portfolio.service.ts:149 | The day looked up starts at the last multiple of 86400 seconds not after the second |
| PnlService.LatestForDay | src/modules/portfolio/services/portfolio.service.ts:148-158 | For prices keyed by day, the latest for the day a second falls in is the latest for the second |
| PnlService.LatestPriceAt | src/modules/portfolio/services/portfolio.service.ts:153-156 | Wherever the prices split into days not after and days after the given one, the latest price is the last before the split |
| PnlService.BookTrade | src/modules/portfolio/services/portfolio.service.ts:412-428 | The holding update in place, branch by branch, is the chart's accounting step, and a sell that meets a holding is charged its tokens at the average paid |
| PnlService.BookUpTo | src/modules/portfolio/services/portfolio.service.ts:396-429 | The cursor stops after exactly the rows at or before the second, and holdings and pnl are those of a fresh fold over them |
| PnlService.UpToIsPrefix | src/modules/portfolio/services/portfolio.service.ts:396-397 | In a list by ascending time, the rows up to a second are the prefix the cursor has passed |
| PnlService.GetPnlChart | src/modules/portfolio/services/portfolio.service.ts:387-434 | For every ascending list, start, end and positive interval: the loop ends, emits floor((now - start) / interval) + 1 evenly spaced points (none when start is past now), and each shows its timestamp, and in dollars at the latest price for that second the pnl and the summed cost of the holdings that the rows at or before it leave, computed from scratch |
| PnlService.BookRecord | src/modules/portfolio/services/portfolio.service.ts:1249-1269 | The record update in place, clamps included, is the table's accounting step, and a sell that meets a holding is charged its tokens at the average paid |
| PnlService.CalculatePnl | src/modules/portfolio/services/portfolio.service.ts:1210-1272 | The loop books every row in time order, rows of one second in the order given |
| PnlService.ByTimeIsChronological | src/modules/portfolio/services/portfolio.service.ts:1211 | The order booked is ascending, a permutation of the rows given, and keeps the rows of each second as they stood |
| PnlService.ByTimeOfAscending | src/modules/portfolio/services/portfolio.service.ts:1211 | A list already in time order is booked as it stands |
| PnlService.LastPointAgainstTable | src/modules/portfolio/services/portfolio.service.ts:394-434 | The chart point past the last trade shows, in dollars, the table's total plus untracked proceeds, with identical holdings |
| QuotaClock.NextResetIsFirstChange | src/modules/billing/services/quota.service.ts:11-19 | The reset is the first later instant at which the usage day changes, it starts the next day, and it is at most one day away |
| QuotaClock.DayIsSevenHoursAhead | src/modules/billing/services/quota.service.ts:11-19 | The usage day is the calendar day seven hours ahead of UTC, and the reset is the midnight that ends it |
| Billing.MemoRoundTrip | src/modules/billing/constants/memo.constant.ts:13-19 | Parsing a built memo gives the order back, and only the built memo parses to it |
| Billing.BillingTables.InsertOrder | src/modules/billing/services/payment.service.ts:30-48 | A new order keeps the tables valid, stays pending through exactly the ticks of its half hour, and completing it with an unused signature credits its package; an unknown package changes nothing |
| Billing.BillingTables.CompleteOrderTransaction | src/modules/billing/services/payment.service.ts:89-113 | Both statements take effect or neither, and the tables stay valid: a signature on exactly the completed orders and never twice, balances not negative, usage within the allowance |
| Billing.BillingTables.ExpirePendingOrders | src/modules/billing/services/payment-reconcile.service.ts:22-27 | Keeps the tables valid, leaves nothing pending past its time and nothing for a tick at any earlier time to do, and changes only overdue pending orders |
| Billing.BillingTables.ConsumeQuota | src/modules/billing/services/quota.service.ts:33-62 | A use of one to ten units is charged exactly once: free exactly when it fits what is left of the day, else to the balance exactly when that covers it, else not at all; no other user or day changes |
| Billing.BillingTables.RefundQuota | src/modules/billing/services/quota.service.ts:66-78 | Given the tables a granted use left, a refund on the same day leaves every account as it was before the use |
| Billing.RefundUndoesUseIff | src/modules/billing/services/quota.service.ts:33-78 | A refund undoes a granted use if and only if the use was paid or the day has not changed since |
| BillingProtocol.StepReconciles | src/modules/billing/services/payment.service.ts:89-113 | Every single step of every actor keeps the ledger equation |
| BillingProtocol.BalancesReconcile | src/modules/billing/services/quota.service.ts:48-78 | Over every interleaving, each user's balance equals the credits of their completed orders minus the paid units calls were granted plus the paid units refunded, and is never negative |
| BillingProtocol.ReachableInv | src/modules/billing/services/payment.service.ts:69-113 | In every reachable state: a signature on exactly the completed orders and never shared, one crediting per completed order with its owner and credits, rows within the allowance, submissions that quote their order's credits |
| BillingProtocol.StepKeepsTables | src/modules/billing/services/payment.service.ts:89-113 | One step from a sound state leaves sound tables and only moves orders forward |
| BillingProtocol.StepKeepsSubmissions | src/modules/billing/services/payment.service.ts:69-83 | One step keeps what submissions in progress read true of their orders |
| BillingProtocol.SubmitReadAnswer | src/modules/billing/services/payment.service.ts:70-77 | In any reachable state, reading the order leads to a payment if and only if it belongs to that user and is pending; a missing or foreign order is not found, an expired one is rejected, and a completed one, credited exactly once before, is reported as processed; no table changes |
| BillingProtocol.CompletedIsPaid | src/modules/billing/services/payment.service.ts:79-98 | In every run, a completed order carries the signature of a payment made for it: one sent and confirmed by a submission that began by its owner reading that order, or a seen transfer to the merchant with its memo |
| BillingProtocol.FailedSendAnswers | src/modules/billing/services/payment.service.ts:79 | A send that is not confirmed changes no table, and its call never completes anything |
| BillingProtocol.SubmitCompleteAnswer | src/modules/billing/services/payment.service.ts:79-113 | The exact reply of a confirmed submission in each case: processed before when the order is no longer pending, a conflict when the signature is taken, otherwise the credits it added; only the last changes anything |
| BillingProtocol.OrdersOnlyAdvance | src/modules/billing/services/payment.service.ts:95-98 | From any moment of a run to its end, orders out of pending never change at all and the others keep owner and credits: completed and expired are terminal |
| BillingProtocol.CreditedExactlyOnce | src/modules/billing/services/payment.service.ts:85-113 | However submits, transfers and expiry race, an order is credited once if it is completed and never otherwise |
| BillingProtocol.NoSharedSignature | src/modules/billing/entities/payment-order.entity.ts:36-37 | No two completed orders share a transaction signature |
| BillingProtocol.ExpiredOnlyWhenDue | src/modules/billing/services/payment-reconcile.service.ts:22-27 | In any run, an expired order was expired by a tick later than its time, never early and by nothing else |
| BillingProtocol.TickLeavesNoneOverdue | src/modules/billing/services/payment-reconcile.service.ts:22-27 | After a tick no order is pending past its time |
| BillingProtocol.SuccessReply | src/modules/billing/services/payment.service.ts:79-82 | A success reply always quotes the order's credits; it added them itself exactly when it says the order was not processed before, and the order is completed exactly when the cron had not expired it |
| BillingProtocol.SuccessWithoutCredit | src/modules/billing/services/payment.service.ts:82 | A run in which the cron expires the order between read and completion, the reply says 50 credits and the balance is zero |
| BillingProtocol.TransferCompletesIff | src/modules/billing/handlers/payment-transfer.handler.ts:25-52 | A seen transfer of any amount completes a pending order if and only if it goes to the configured merchant, carries exactly that order's memo, and its signature completed no order before |
| BillingProtocol.AnyAmountCompletes | src/modules/billing/handlers/payment-transfer.handler.ts:25-52 | So a transfer of any amount completes and credits a pending order of any price |
| BillingProtocol.OneLamportCompletes | src/modules/billing/services/payment.service.ts:85-98 | A run in which one lamport completes an order of 50 000 000 |
| BillingProtocol.UseAlone | src/modules/billing/services/quota.service.ts:33-62 | A use whose two statements nothing interrupts is, in the protocol, the charge of the service on its usage day |
| BillingProtocol.RefundGivesBack | src/modules/billing/services/quota.service.ts:66-78 | A refund in the protocol gives back to the source it names, on the day it is asked for |
| BillingProtocol.StepRow | src/modules/billing/services/quota.service.ts:36-75 | From an exact usage row, a step lands on an exact row if and only if refunds stay within grants and the step is not a first use of the day above the allowance |
| BillingProtocol.FreeRowExactIff | src/modules/billing/services/quota.service.ts:36-75 | In every run a day's row is within 0 and 10; it equals units granted minus refunded throughout if and only if no day opens with a use above ten and refunds never run ahead of grants |
| StakingHistory.PageDownIs | src/modules/staking/services/staking.service.ts:263-266 | A page is the newest signatures of a range, at most fifty, without gaps; a longer range leaves its oldest end out |
| StakingHistory.LatestClaimsTrue | src/modules/staking/services/staking.service.ts:255-282 | A latest sync facing at most fifty unseen signatures saves a row whose claims are true of what was fetched |
| StakingHistory.OlderClaimsTrue | src/modules/staking/services/staking.service.ts:284-315 | So does every older sync |
| StakingHistory.StepNoHole | src/modules/staking/services/staking.service.ts:255-315 | One sync that is not overrun keeps the row free of holes |
| StakingHistory.OverrunLoses | src/modules/staking/services/staking.service.ts:263-267 | A sync facing more than fifty leaves a signature below the newest watermark unfetched |
| StakingHistory.LostForGood | src/modules/staking/services/staking.service.ts:263-302 | A signature lost that way stays lost: no later sync asks for it again |
| StakingHistory.SyncLeavesNoHoleIff | src/modules/staking/services/staking.service.ts:255-315 | After any sequence of latest and older syncs over a growing log, everything between the watermarks was fetched, and the flag means everything below the newest one was, if and only if no latest sync that started from a watermark or the flag faced more than fifty unseen signatures |
| StakingHistory.LatestCatchesUp | src/modules/staking/services/staking.service.ts:255-282 | A latest sync always ends on the newest signature of the log |
| StakingHistory.OlderSyncsReachOldest | src/modules/staking/services/staking.service.ts:284-315 | From a row without holes, one older sync per batch below the watermark and one more raise the flag, and then everything below the newest watermark was fetched |
| StakingHistory.HistorySync.BackfillLatestHistory | src/modules/staking/services/staking.service.ts:255-370 | The method in place does the sync the theorem is about; and unless it is overrun it leaves no hole even when the records are stored and saving the row fails |
| StakingHistory.HistorySync.BackfillOlderHistory | src/modules/staking/services/staking.service.ts:284-370 | The same for the older sync, which is never overrun, the empty page included |
| StakingHistoryRaces.StepKeepsClaimsIff | src/modules/staking/services/staking.service.ts:354-370 | From rows whose claims are true, one event of any request leads to a row whose claims are not if and only if it is an overrun fetch that leaves out a signature nobody has stored, or a mixed save that gives an ill-formed row or claims such a signature from the gap between the two rows |
| StakingHistoryRaces.ClaimsThroughoutIff | src/modules/staking/services/staking.service.ts:193-206 | However reads, fetches, stores and the two statements of each save interleave over several requests and a growing log: every row stored or about to be stored claims only what was fetched, at every moment, if and only if no such step occurs |
| StakingHistoryRaces.RacingSyncsLeaveNoHole | src/modules/staking/services/staking.service.ts:255-370 | So the saved row hides no hole when no latest fetch is overrun and no save lands between the select and the update of another |
| StakingHistoryRaces.MixedSavesHideHole | src/modules/staking/services/staking.service.ts:363-369 | A run without an overrun in which two saves mix their columns and the row claims signatures nobody fetched |
| StakingHistoryRaces.SyncAlone | src/modules/staking/services/staking.service.ts:255-370 | A request that nothing interrupts does, in the interleaved protocol, the sync of the service |
| StakingHistoryPages.QueryDescends | src/modules/staking/services/staking.service.ts:236-252 | The page query holds exactly the wallet's rows below the cursor, strictly descending by block time and signature |
| StakingHistoryPages.QueryResumes | src/modules/staking/services/staking.service.ts:244-249 | Asking below the k-th row of a query gives exactly the rest of that query |
| StakingHistoryPages.PageIsPrefix | src/modules/staking/services/staking.service.ts:208-211 | A page is a prefix of the query; the cursor is null exactly when nothing is left, and otherwise names the page's last row |
| StakingHistoryPages.UnknownCursorEndsWalk | src/modules/staking/services/staking.service.ts:242-243 | A cursor that no row of the table holds gives an empty page and no further cursor |
| StakingHistoryPages.FollowCursorsReadsQuery | src/modules/staking/services/staking.service.ts:208-216 | Following the cursors to the end reads the query's rows exactly and in order for every page size of at least one |
| StakingHistoryPages.FirstPageOnwardReadsEverything | src/modules/staking/services/staking.service.ts:181-217 | From the first page on, every row of the wallet is read once, newest first |
| StakingHistoryPages.GrowthNeitherRepeatsNorSkips | src/modules/staking/services/staking.service.ts:208-252 | With rows inserted between pages, no row is read twice or out of order, and a finished walk has read every row there was at its start |
| StakingHistoryPages.SeenIffStoredInTime | src/modules/staking/services/staking.service.ts:208-252 | A finished walk over a growing table sees a row if and only if the row was stored while its place still lay below the cursor |
| StakingHistoryWalk.WalkMissesExactlyLateRows | src/modules/staking/services/staking.service.ts:181-217 | Over any number of tracked addresses whose logs keep growing, a finished walk misses exactly the rows an older sync stored after the cursor had passed their place, and reads every other row stored by its end, in order |
| StakingHistoryWalk.SyncChosen | src/modules/staking/services/staking.service.ts:193-206 | The first request syncs the newest signatures of an address; a later one syncs older ones exactly when fewer rows than a page are stored and the oldest end is not known, and otherwise leaves the address alone |
| StakingHistoryWalk.SyncsOlderIff | src/modules/staking/services/staking.service.ts:193-206 | Following cursors syncs older history at some request if and only if the first answer has a cursor and the first sync left some address with fewer rows than a page and its oldest end not reached |
| StakingHistoryWalk.OneAddressNeverSyncsOlder | src/modules/staking/services/staking.service.ts:193-211 | With one tracked address that never happens: a cursor is only given out while the address holds more rows than a page |
| StakingHistoryWalk.WalkSyncsOnce | src/modules/staking/services/staking.service.ts:181-217 | When it does not happen, a long enough walk finishes and reads exactly what its first request left stored |
| StakingHistoryWalk.WalkReadsWholeLogsIff | src/modules/staking/services/staking.service.ts:181-217 | Such a walk reads every record of every log if and only if its first request left all of them fetched |
| StakingHistoryWalk.FirstWalkReadsWholeLogIff | src/modules/staking/services/staking.service.ts:193-217 | A first walk over one address reads the whole history if and only if no record is older than the newest fifty signatures |
| StakingHistoryLateRow.LateRowIsMissed | src/modules/staking/services/staking.service.ts:193-206 | A wallet of two addresses whose walk stores a record at its second request and never reads it, however long it goes on |
| StakingChain.RequiredIsLeast | src/modules/staking/services/staking.service.ts:588-592 | The required lamports are the least amount that buys the tokens to be burnt: the ceiling and the floor form an adjunction |
| StakingChain.RequiredWithinOneToken | src/modules/staking/services/staking.service.ts:497-592 | Burning what a request buys never needs more than the request, and falls short of it by less than one pool token |
| StakingChain.SplittingNeverGains | src/modules/staking/services/staking-chain.utils.ts:167-175 | Splitting an amount never converts to more, and to at most one unit less, in both directions |
| StakingChain.ConversionsAreMonotoneAndLossy | src/modules/staking/services/staking-chain.utils.ts:167-175 | Both conversions are monotone, and there and back never gains |
| StakingChain.ReadBackU64 | src/modules/staking/services/staking-chain.utils.ts:44-63 | Reading at the offset where a value was written gives it back modulo 2^64, whatever surrounds it |
| StakingChain.WriteBackU64 | src/modules/staking/services/staking-chain.utils.ts:44-63 | Writing what was read gives the same eight bytes |
| StakingChain.Concat | src/modules/staking/services/staking-chain.utils.ts:65-74 | The buffer filled by moving offsets is the parts in order |
| StakingChain.HistoryReadsAmountBuilt | src/modules/staking/services/staking-chain.utils.ts:386-397 | For stake, native stake and native withdraw, the lamports the history reads equal the amount built in modulo 2^64, so exactly the amount if and only if it fits |
| StakingChain.DataLayout | src/modules/staking/services/staking-chain.utils.ts:256-370 | Instruction data starts with the discriminator; at offset 8 an unstake carries its pool tokens and a native stake its seed, and the history reads no lamports from either kind of unstake |
| StakingChain.DecodeValidatorList | src/modules/staking/services/staking-chain.utils.ts:147-161 | The loop decodes the announced number of entries at their stride, or fails where a read runs past the buffer |
| StakingChain.DecodesIffLongEnough | src/modules/staking/services/staking-chain.utils.ts:147-161 | It succeeds if and only if the buffer holds all entries the count announces, and then gives that many |
| StakingChain.EntryRoundTrip | src/modules/staking/services/staking-chain.utils.ts:152-157 | An entry laid out in 73 bytes decodes to itself anywhere in a buffer |
| StakingChain.ListRoundTrip | src/modules/staking/services/staking-chain.utils.ts:151-158 | So does a list of any length |
| StakingChain.AccountRoundTrip | src/modules/staking/services/staking-chain.utils.ts:147-161 | The whole account, its count field included, decodes to the list encoded |
| FallbackWithdrawal.SelectsFirstLargest | src/modules/staking/services/staking.service.ts:577-598 | The choice is always the first active validator of maximal stake, it fails exactly when none is active, and it covers the requirement exactly when any active validator does |
| FallbackWithdrawal.HeadCoversFirst | src/modules/staking/services/staking.service.ts:594 | In a list by falling stake the search for a covering validator can only stop at the head |
| FallbackWithdrawal.PlanIsPayable | src/modules/staking/services/staking.service.ts:486-549 | Either plan burns the most tokens the request buys. One on the reserve is payable exactly when the reserve is not below its rent; one on a validator names the first active validator of maximal stake, asks it for no more than requested, less than one token short of it, and it can pay whenever any active validator can; and exactly when each of the two errors arises |
| FallbackWithdrawal.ReserveBelowRentIsNotRescued | src/modules/staking/services/staking.service.ts:508-510 | For every existing reserve below its rent and every request that buys at least one token, the plan draws on a reserve that cannot pay, even where the fallback would choose a validator that can |
| TokenPrice.FreshIsNeverRehydrated | src/modules/tokens/services/token-price.service.ts:53-76 | What a reader would serve as fresh is never replaced; a rehydrate that does run finds a stale entry and keeps its slot and native price |
| TokenPrice.StoredIsFreshForFiveMinutes | src/modules/tokens/services/token-price.service.ts:24-26 | To a look that takes hash and time to live at once, what either script stores is fresh for exactly the staleness threshold: the TTL written and the TTL asked for fit together |
| TokenPrice.BestIsLastOfHighestSlot | src/modules/tokens/services/token-price.service.ts:40-46 | The register's value is the last arrival among those of the highest slot |
| TokenPrice.DeliverHoldsBest | src/modules/tokens/services/token-price.service.ts:27-52 | However long the writes go on, as long as none finds the key expired, they leave exactly that arrival |
| TokenPrice.DeliveryOrderIsIrrelevant | src/modules/tokens/services/token-price.service.ts:27-52 | Any two delivery orders of writes with distinct slots, in neither of which the key expires, end in the same entry |
| TokenPriceRaces.StepRegisterIff | src/modules/tokens/services/token-price.service.ts:27-76 | One command keeps the entry the register by slot unless it is the deletion a reader sends after meeting a value of another type, and a price has been stored since |
| TokenPriceRaces.RegisterIff | src/modules/tokens/services/token-price.service.ts:123-141 | From a key that holds no price, over every interleaving of writers, rehydrates, expiry and readers command by command: the entry is a last-writer-wins register by slot at every moment, and its slot never goes back without an expiry, if and only if no such delayed deletion hits a live entry |
| TokenPriceRaces.AbsentIsRegister | src/modules/tokens/services/token-price.service.ts:27-76 | From an absent key that never happens, so both laws always hold |
| TokenPriceRaces.DelayedDropLetsOldSlotIn | src/redis/services/redis.service.ts:198-209 | From a foreign value: a deletion delayed past a write at slot 5 lets a write at slot 3 in |
| TokenPriceRaces.ServedIsFresh | src/modules/tokens/services/token-price.service.ts:210-229 | Over every interleaving, a price served from Redis was stored, and within the threshold before its time to live was read, unless something was stored between the reading of the hash and the reading of the time to live |
| TokenPriceRaces.StaleServedIff | src/modules/tokens/services/token-price.service.ts:214-224 | A reader left with a stale hash serves it if and only if the key was stored since and that later entry is fresh |
| TokenPriceRaces.OldPriceServed | src/modules/tokens/services/token-price.service.ts:214-224 | A run that serves a price a thousand seconds old |
| TokenPriceRaces.ReadAlone | src/modules/tokens/services/token-price.service.ts:123-141 | A read that nothing interrupts serves, in the interleaved protocol, what the service answers and leaves the key as the service does |
| TokenPriceService.PriceService.SetPrice | src/modules/tokens/services/token-price.service.ts:88-121 | Stores a valid price exactly when its slot is not behind the entry; then readers see it for exactly the threshold, and otherwise the entry looks the same at every later moment; other mints are untouched |
| TokenPriceService.PriceService.GetFreshRedisPrice | src/modules/tokens/services/token-price.service.ts:210-229 | Answers the cached price when present, positive and fresh, and drops a value of another type |
| TokenPriceService.PriceService.GetPrice | src/modules/tokens/services/token-price.service.ts:123-141 | The answer is the fresh entry's price without a change, else the catalog's valid price with its change, else zero, and zero only then; the key is left as one read leaves it and other keys alone |
| TokenPriceService.AnswerQuotes | src/modules/tokens/services/token-price.service.ts:123-141 | What a read answers in each case; zero exactly when no fresh entry and no valid catalog price exist |
| TokenPriceService.ReadLeaves | src/modules/tokens/services/token-price.service.ts:123-141 | What a read leaves: an entry stored within the last five minutes untouched; otherwise the catalog's valid price, stored for a day with slot and native price kept; without one only a value of another type is dropped |
| TokenPriceService.PriceService.ReadCached | src/modules/tokens/services/token-price.service.ts:149-158 | Splits the mints exactly into those served from Redis and those that need the database |
| TokenPriceService.PriceService.ReadCatalog | src/modules/tokens/services/token-price.service.ts:160-175 | Prices exactly the mints the database has a valid price for and rehydrates those keys only |
| TokenPriceService.PriceService.GetPrices | src/modules/tokens/services/token-price.service.ts:143-184 | The same answer for each mint of a batch, and each key left as a single read would, however often a mint is repeated |
| ChatHistory.SanitizeHistoryMessages | src/modules/chat/services/chat.service.ts:452-506 | The three loops compute the specification function |
| ChatHistory.SanitizedStartsCleanIff | src/modules/chat/services/chat.service.ts:452-506 | For any window the result is a suffix of it, and starts with neither a tool result nor a tool call if and only if no tool result that some call in the window claims stands behind nothing but orphaned results |
| ChatHistory.SanitizedDropsExactly | src/modules/chat/services/chat.service.ts:467-501 | Of any window exactly two stretches in front go: the orphaned results up to the first message that is none, and, when that one calls tools, the unbroken stretch of calls and results it begins |
| ChatHistory.ClaimedToolStaysInFront | src/modules/chat/services/chat.service.ts:439-450 | A tool result claimed only by a later call stays at the front, against the strategy the comment states |
| ChatHistory.SanitizedWindow | src/modules/chat/services/chat.service.ts:452-506 | For every history of user messages, plain replies and tool-call groups with unique ids, answered or not, and every suffix window, what survives is exactly the whole blocks after the cut, less leading groups |
| ChatHistory.WholeBlocksAreSuffix | src/modules/chat/services/chat.service.ts:443-450 | Those blocks are the last ones of the history, again well formed, and start with a user or plain assistant message |
| ChatHistory.HistoryIsAcceptable | src/modules/chat/services/chat.service.ts:437-441 | In a history of complete blocks every tool result follows the call that asked for it |
| ChatHistory.SanitizedWindowIsAcceptable | src/modules/chat/services/chat.service.ts:435-450 | So every sanitised window of a well-formed history meets the rule the comment states |
| ChatHistory.SanitizedWindowIsAnswered | src/modules/chat/services/chat.service.ts:484-501 | When every call of the history was answered, every call of every sanitised window is |
| RateLimiter.RecentIsSuffix | src/infra/coingecko/coingecko.service.ts:48 | On ascending times the filter keeps a suffix and drops only requests that left the window |
| RateLimiter.LimitedMeansAtMostLimit | src/infra/coingecko/coingecko.service.ts:45-57 | The spacing invariant means that no stretch shorter than the window holds more requests than the limit |
| RateLimiter.FilterKeepsEnough | src/infra/coingecko/coingecko.service.ts:48 | The filtered list always still knows every request that can matter |
| RateLimiter.SlidingWindowLimiter.WaitIsExact | src/infra/coingecko/coingecko.service.ts:49-53 | Slack aside, the computed wait is the shortest: recording at a moment keeps the limit over the whole record if and only if the wait has passed |
| RateLimiter.SlidingWindowLimiter.Record | src/infra/coingecko/coingecko.service.ts:45-54 | With callers one at a time on a clock that does not go back, any limit + 1 consecutive requests of the whole record span at least the window |
| RateLimiter.TogetherKeepLimitIff | src/infra/coingecko/coingecko.service.ts:45-54 | Callers that overlap and record at one moment keep the limit if and only if, with the requests still inside the window by then, they do not exceed it |
| RateLimiter.SlidingWindowLimiter.OverlappingCallersIff | src/infra/coingecko/coingecko.service.ts:45-54 | The same for callers of the limiter that enter together, wait as told and record together; a single one always keeps the limit |
| RateLimiter.OverlappingCallersBreakLimit | src/infra/coingecko/coingecko.service.ts:45-54 | After a full window has just been used up, n callers that overlap keep the limit exactly when n does not exceed it, so limit + 1 of them break it |
| DiscoveryWindows.GetTrending | src/modules/discovery/services/discovery.service.ts:317-352 | For any offset, any limit of at least one and any mix of cached and missing windows, the slice equals the slice of the full ordered list, and every window cached is current |
| DiscoveryWindows.WindowHolds | src/modules/discovery/services/discovery.service.ts:322-338 | The w-th window holds the rows at positions 100 w to 100 w + 99, as far as there are any |
| DiscoveryWindows.SliceHolds | src/modules/discovery/services/discovery.service.ts:348-352 | A slice holds the rows between its bounds, as far as there are any |
| DiscoveryWindows.PopulateCategoryWindows | src/modules/discovery/services/discovery.service.ts:498-511 | Writes exactly the windows of the filtered list and leaves the others |
| DiscoveryWindows.WindowsConcatenateBack | src/modules/discovery/services/discovery.service.ts:507-510 | Joined in order, the written windows are the filtered list |
| DiscoveryWindows.GetCategories | src/modules/discovery/services/discovery.service.ts:448-473 | The slice equals that of the filtered list, whichever windows were missing and past the end |
| DiscoveryWindows.WindowsFitIff | src/modules/discovery/services/discovery.service.ts:152-176 | Ordered by one column, each window holds the same rows in whichever order it is read if and only if no two rows of equal value meet at the end of a window |
| PendingRegistrationRaces.StepKeepsRegistry | src/modules/auth/services/auth.service.ts:301-326 | Under every interleaving, each key holds what was drawn for its address and each token is written once |
| PendingRegistrationRaces.LinkStopsForGood | src/modules/auth/services/auth.service.ts:164-184 | A link that worked and then stopped, because it was verified, replaced or a day old, never works again, under every interleaving of every call |
| PendingRegistrationRaces.StepKeepsAtMostOneIff | src/modules/auth/services/auth.service.ts:304-310 | From at most one usable token an address, a command leads to two if and only if it writes a token while another of the address is usable |
| PendingRegistrationRaces.OneUsableThroughoutIff | src/modules/auth/services/auth.service.ts:301-326 | In every interleaving of every call, at most one link per address works at every moment if and only if no save writes its token while another token of the address is usable |
| PendingRegistrationRaces.OverlapLeavesTwoUsable | src/modules/auth/services/auth.service.ts:304-310 | Two overlapping registrations of one address reach that, and leave two links that both work |
| PendingRegistrationRaces.LateVerifyHidesNewerLink | src/modules/auth/services/auth.service.ts:182-326 | A verification that ends after a second registration reaches it too: it takes the newer link's address key, and a third registration, overlapping nothing, leaves two links that both work |
| PendingRegistrationRaces.ReadFindsUsable | src/modules/auth/services/auth.service.ts:304-307 | When a save reads the address key and no other call for the address is under way, the key leads to the one usable token of the address, which the save then removes |
| PendingRegistrationRaces.StepKeepsConsistent | src/modules/auth/services/auth.service.ts:301-326 | One command of any call keeps every usable token reachable from its address, or about to be |
| PendingRegistrationRaces.DisciplinedIsNeverBlind | src/modules/auth/services/auth.service.ts:141-184 | When calls for one address do not overlap, no save ever writes while another token of the address is usable |
| PendingRegistrationRaces.OneUsableTokenPerAddress | src/modules/auth/services/auth.service.ts:269-280 | So then at most one link per address works, whatever calls for other addresses and the clock do in between |
| PendingRegistrationRaces.SaveAlone | src/modules/auth/services/auth.service.ts:301-311 | A save that nothing but the clock interrupts is, in the protocol, the save of the service |
| PendingRegistrationRaces.VerifyAlone | src/modules/auth/services/auth.service.ts:164-184 | A verification that nothing interrupts finds what its token leads to and leaves neither key |
| PendingRegistrationRaces.ResendAlone | src/modules/auth/services/auth.service.ts:269-280 | A resend that nothing interrupts saves the registration its address leads to under a fresh token, otherwise unchanged, or does nothing |
| PendingRegistration.KeyLeadsToUsable | src/modules/auth/services/auth.service.ts:317-321 | In what sequential use keeps, the address key leads to the one usable token of the address |
| PendingRegistration.SameKeyIff | src/redis/services/redis.service.ts:43 | Two addresses share a key if and only if they agree letter by letter up to ASCII case |
| PendingRegistration.PendingRegistrations.SavePendingRegistration | src/modules/auth/services/auth.service.ts:301-311 | With a fresh token, the address leads to it, it to the registration for one day, no other token of the address works, and the links of every other address are as they were |
| PendingRegistration.PendingRegistrations.DeletePendingRegistration | src/modules/auth/services/auth.service.ts:323-326 | Neither key is left |
| PendingRegistration.PendingRegistrations.VerifyEmail | src/modules/auth/services/auth.service.ts:164-184 | A verified link is spent and so is its address; no link of the address works afterwards, and no other address is touched |
| PendingRegistration.PendingRegistrations.ResendVerificationEmail | src/modules/auth/services/auth.service.ts:269-280 | A resend finds the registration in any letter case and replaces its link: the new token works, no other token of the address does; without a pending registration nothing changes |

## Left out

- Floating point: profit, prices and amounts are exact reals; `toFixed(6)` and `Number(lamports)` are not modelled, amounts are compared in lamports.
- Extracting swaps from Helius transfers (`mapToActivity`, `isSwap`, `enrichActivitiesWithSwapDetails`), the symbol shown next to a record, and result caching of charts.
- PnlService.GetSolPriceNear: takes the daily prices in ascending order, as the price history builds them, and says what second they are latest for when each is keyed by the start of its day; building that history is not modelled.
- PnlService.GetPnlChart: takes the rows in ascending order, as the database query returns them, and a positive interval, as the interval table gives; the tables of time frames and intervals are left out.
- PnlService.CalculatePnl: models the array sort as a value, so the reordering of the caller's own array is not captured.
- Redis, Postgres, RPC, HTTP and mail: maps, tables with atomic steps, or an append-only log stand for them; retries, logging and commands that fail silently are left out.
- Unavailable Redis: every model assumes the client is connected.
- Billing.BillingTables.InsertOrder: takes an identifier that is not in use (a fresh UUID); the memo column is always the one built from the identifier, so its later update is not modelled, and the hourly order limit is left out.
- BillingProtocol.SuccessReply: `submitAndConfirm` is one step that yields a signature or fails, building and checking the Solana transaction is left out.
- BillingProtocol.TransferCompletesIff: the signature column is compared as text; the cluster of an event does not matter to the code and is left out.
- Usage days are numbers of UTC+7 days since the epoch instead of ISO date strings.
- StakingHistory.SyncLeavesNoHoleIff: a signature is its position in the remote log, pages are never reordered by the RPC, and a transaction that cannot be parsed counts as looked at.
- StakingHistoryRaces.ClaimsThroughoutIff: speaks of the rows still in flight as well as the stored one; a save is a select and an update of the changed columns, other columns and transactions are left out.
- StakingHistoryPages.FirstPageOnwardReadsEverything: signatures are ordered as integers, for any total order the database collates them by; the cluster column is left out because one cluster is configured.
- StakingHistoryWalk.WalkMissesExactlyLateRows: one page size for the whole walk, a fixed set of tracked addresses, and the syncs of one request done before its page is read.
- The stored row's last-synced time, and one signature shared by several tracked addresses.
- StakingChain.HistoryReadsAmountBuilt: the eight discriminator bytes are any eight bytes, account keys and PDAs are left out; nothing bounds an amount below 2^64, so the statement is modulo 2^64.
- StakingChain.DecodeValidatorList: the byte array is a whole buffer, not a view into a larger one.
- `classifyNativeStakeStatus`, decoding of pool and stake accounts, and native position listing: they would only add easy members.
- FallbackWithdrawal.PlanIsPayable: creating the destination account and saving it in the native table are left out.
- TokenPrice.DeliveryOrderIsIrrelevant: compares entries without the time they expire at, which depends on when the last accepted write arrived.
- TokenPriceRaces.ServedIsFresh: freshness is counted to the moment the time to live is read, what happens between that and the answer is not bounded.
- TokenPriceService.PriceService.GetFreshRedisPrice: a read that meets a value of another type deletes it without anything in between; the two commands are apart in TokenPriceRaces.
- TokenPriceService.PriceService.GetPrices: reads of one batch are taken in order, and no other call comes in between; races on one key are in TokenPriceRaces.
- ChatHistory.SanitizedWindow: message contents, page context and tool names do not matter to the sanitiser and are plain text; the model calls, tools and streaming are left out.
- RateLimiter.SlidingWindowLimiter.Record: callers run one at a time; overlapping ones are in TogetherKeepLimitIff, as long as they record at one moment.
- DiscoveryWindows.GetTrending: the rows come in one order; the query orders by one column without a tie-breaker, and WindowsFitIff says when windows read in different orders still fit. Windows in the cache are those of the list as it stands, so the model does not capture a list that changes before a window expires; totals, filters that bypass the cache and the row mapping are left out.
- DiscoveryWindows.GetCategories: as for trending, and a window does not expire between being refilled and being read.
- PendingRegistrationRaces.OneUsableThroughoutIff: lower-casing is that of ASCII letters, tokens are drawn fresh, and no token looks like JSON.
- `verifyEmail` and `register` beyond the two key families: the users table, password hashing, JWT and mail.
- Controllers, DTOs, migrations, notifications, and `runLlmLoop`, whose recursion has no measure.
