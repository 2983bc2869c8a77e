# A verified model of the market-data platform's hard core

The project models the parts of the platform whose correctness is not visible from one function
body, and proves what they promise.

| files | what they model |
|---|---|
| SlidingWindow, RateLimiter, Clocks | the two-level sliding-window limiter in front of the data interface |
| LruCache | the TTL and least-recently-used cache of the sidecar |
| SingleFlight | the single-flight protocol of the stock speed lane, as interleaved steps of any number of threads |
| WarmLease, ConceptLanes | the warm thread: rounds, publishing shared rows in place, the lease; filling two lanes from each other |
| TradingCalendar, BackfillPlan, ChunkLoops | the history backfill: trading days, planned spans, budgeted chunks, resuming |
| QuoteBisection, QuoteBatch, QuoteAttribution | batch quotes: bisecting around unsupported codes, asking hosts in turn, giving rows back to symbols |
| BrowserTables, PeriodLoad, BrowserRows, BrowserCells, BrowserQuery, Pagination | the wide-table query: batched loads, point-in-time reports, single-date and multi-date rows, cached pages |
| CanonicalSchema, ColumnRename | building, checking and validating a canonical schema; renaming columns to it |
| ChartMath | session slots, session points, the running average and the moving average of the charts |
| StableSort, Strings, Slices, Options | the stable sort, the order of strings, cutting sequences into pieces, and optional values, which several of them use |

State that the program changes step by step is a class or a method with loops; its contracts tie
the new state to functions, and the lemmas state what those functions promise over all inputs, all
runs or all interleavings.

## What the proofs found

- **Limiter.** Pruning keeps a stamp that is exactly 60 s old. With one limit and exact sleeps the
  bound holds if and only if no call meets a tie (`Tie`: after the first pruning more stamps than
  the limit are left and the one to wait for is younger than the oldest one). A tie needs a first
  clock reading equal to the last stamp; limit 2 with stamps 0, 59, 60, 60 is one. A limit below
  one on an empty window is an index error.
- **LRU cache.** A key is *not* kept merely because fewer than maxsize other keys were *set* since
  its last use: hits also move keys behind it. It is kept exactly while never maxsize other keys
  stand behind it; in particular while fewer than maxsize distinct other keys are *used*.
- **Single flight.** It bounds concurrency, not repetition: over every interleaving, a thread that
  registers computes rows that the cache holds if and only if they were stored after its miss and
  not dropped since, and no other flight of the key is registered.
- **Backfill.** An interruption continues correctly if and only if the last loaded day lies before
  the 21-day tail; otherwise the days just loaded are taken for the tail and the plan reports
  completion too early. A run plans exactly the trading days of its span, except exactly when the
  span is not empty but none of its days trades: then it fetches the last trading day before the
  span, and, if that day lies before the tail, every later run fetches it once more.
- **Market-wide periods.** They run as one chunk, so without a limit on the chunks a run that does
  not fail reports completion if and only if there are no more periods than the budget.
- **Rotation.** The collector goes round at the end of the code list, so a full run collects every
  code once and in order if and only if all codes fit one run or the run size divides their number;
  otherwise the last chunk starts over with the first codes.
- **Quotes.** A row that names no wanted symbol is taken for the symbol at its position. All
  symbols are right if and only if every row after the first unsupported code names its symbol.
- **Wide table.** A multi-date row equals the single-date rows side by side whenever the
  single-date query keeps its date; that is when the primary daily table has rows on that date or
  none before it. Otherwise the single-date query shows an earlier date. Then the multi-date row
  shows null in every column of the primary table, and the two agree there if and only if the code
  has no row on the earlier date or one that shows as null. A column of another daily table shows
  what that table holds on the requested date in the one form and on the earlier date in the other.
- **Unique keys.** The keys of a fresh schema are columns, except exactly when no key rule applies
  and the interface renames the first field. A forecast whose only field is `type` is such a case.
- **Renaming.** A target with a present source is lost if and only if it is a column already and
  its own mapping wins another name: that name is not a column, and no mapping for it that goes
  first (ts_code, then by name) has its field among the columns. With a to b and b to c the columns
  a, b become a, c.

## Assumptions

- The clock never runs backwards and a sleep lasts at least as long as asked; `ideal` clocks sleep
  exactly. Arithmetic on floats is arithmetic on reals.
- Each method of the cache, each locked section of the rank engine and each step of the
  single-flight protocol is atomic.
- SQL selects are filters over the rows of a table in one fixed order; the sockets, the HTTP
  clients and the interface of the data vendor are parameters (functions, or values chosen freely).
- A request is one step on the query cache. The program awaits the database between looking a key
  up and storing its result, so overlapping requests of one key can each run the query, and pages
  cut while they overlap can come from different executions.
- Digests of cache keys are injective, and the text of a column's id is not the text of another
  column's id.

## Model

| member | source | states |
|---|---|---|
| SlidingWindow.IssueKeepsPeakBound | backend/app/services/collectors/tushare.py:40-50 | one call under its own limit, after a tick of the clock, keeps every stamp spaced by the largest limit used so far |
| SlidingWindow.IssueKeepsBound | backend/app/services/collectors/tushare.py:40-50 | with one fixed limit, any limit + 1 consecutive stamps still span a window after one more call |
| SlidingWindow.PeaksAreLargest | backend/app/services/collectors/tushare.py:31-37 | the peaks used in the bound are limits of calls so far, and the largest ones |
| SlidingWindow.EveryRunWithinPeak | backend/app/services/collectors/tushare.py:31-68 | over every run with a different limit for each call, stamps are spaced by the largest limit used so far |
| SlidingWindow.AnyIntervalHoldsAtMostPeak | backend/app/services/collectors/tushare.py:53-68 | spaced stamps mean that no half-open 60 s interval, wherever it starts, holds more stamps than the largest limit |
| SlidingWindow.EveryIntervalOfEveryRun | backend/app/services/collectors/tushare.py:31-68 | over every run, no 60 s interval holds more stamps than the largest limit any of its calls used |
| SlidingWindow.SafeExactlyWithoutTie | backend/app/services/collectors/tushare.py:40-50 | a call that leaves at its release keeps the bound if and only if it meets no tie; without a tie it leaves at the earliest safe instant; a tie needs an unticked clock |
| SlidingWindow.RunBoundedExactlyWithoutTies | backend/app/services/collectors/tushare.py:40-68 | a whole run with exact sleeps is bounded if and only if no call meets a tie |
| SlidingWindow.TieBreaksTheBound | backend/app/services/collectors/tushare.py:42-49 | the concrete tie: limit 2, stamps 0, 59, 60, 60 |
| SlidingWindow.EarliestIsLeastSafe | backend/app/services/collectors/tushare.py:44-47 | from the earliest instant on, and never before it, one more stamp keeps the bound |
| SlidingWindow.WaitIsAtMostOneWindow | backend/app/services/collectors/tushare.py:44-47 | the earliest safe instant is at most one window away |
| SlidingWindow.PoppedAll | backend/app/services/collectors/tushare.py:42-43 | a pruned deque is exactly what a scan of the whole history finds in the window |
| RateLimiter.Prune | backend/app/services/collectors/tushare.py:42-43 | the pruning loop drops only stamps over a window old and leaves the window of the full history |
| RateLimiter.DrainWindow | backend/app/services/collectors/tushare.py:40-50 | no call leaves a window before its release, with exact sleeps it leaves exactly then, and it fails exactly when a limit below one meets an empty window |
| RateLimiter.ReleaseIsEarliestForBoth | backend/app/services/collectors/tushare.py:61-65 | leaving the account window and then the interface window is leaving at the earliest instant that both admit, although the second sleep comes after the first check |
| RateLimiter.EarliestForBothIsWithinOneWindow | backend/app/services/collectors/tushare.py:61-65 | both windows together delay a call by at most one window |
| RateLimiter.Limiter.constructor | backend/app/services/collectors/tushare.py:26-28 | the empty limiter is valid and safe |
| RateLimiter.Limiter.DrainAccount | backend/app/services/collectors/tushare.py:62 | the account deque is drained; the state between calls stays valid |
| RateLimiter.Limiter.DrainApi | backend/app/services/collectors/tushare.py:60-64 | the deque of a capped interface is drained, created if missing |
| RateLimiter.Limiter.Record | backend/app/services/collectors/tushare.py:65-68 | one stamp goes on the account history and the same one on the interface history; both bounds are kept |
| RateLimiter.Limiter.CallUnder | backend/app/services/collectors/tushare.py:61-68 | one call under a given limit: it leaves exactly when both windows release it, records one stamp, keeps the bounds, and fails exactly when a limit below one meets an empty window |
| RateLimiter.Limiter.WaitBeforeProCall | backend/app/services/collectors/tushare.py:31-68 | each call obeys the caller's limit, else the one of the settings, else 500, 200 or 50 by the points of the account, and the cap of a capped interface; it keeps the account bound and every interface bound over the whole run and leaves exactly when both windows release it; it fails exactly when a limit below one meets an empty window, and then records nothing |
| LruCache.TtlLruCache.constructor | backend/app/tdx_sidecar/cache.py:13-16 | an empty cache of at least one place |
| LruCache.TtlLruCache.Get | backend/app/tdx_sidecar/cache.py:18-27 | finds the unexpired value and moves its entry to the end, or drops an expired entry |
| LruCache.TtlLruCache.Set | backend/app/tdx_sidecar/cache.py:29-33 | puts the entry last and evicts from the front down to maxsize |
| LruCache.TtlLruCache.Len | backend/app/tdx_sidecar/cache.py:35-36 | the number of entries |
| LruCache.RunKeepsShape | backend/app/tdx_sidecar/cache.py:18-36 | over every sequence of operations the size never exceeds maxsize and no key comes twice |
| LruCache.EntriesComeFromLastSets | backend/app/tdx_sidecar/cache.py:29-31 | every entry ever held carries the value and the expiry of the last set of its key |
| LruCache.GetReturnsLastUnexpiredSet | backend/app/tdx_sidecar/cache.py:18-27 | whatever a get returns is the value of the last set of its key, and has not expired |
| LruCache.RunKeepsOrderOfUse | backend/app/tdx_sidecar/cache.py:26-33 | after any operations the entries stand in the order of their keys' last use |
| LruCache.StepRetention | backend/app/tdx_sidecar/cache.py:18-33 | one operation on another key keeps a key exactly while fewer than maxsize keys stand behind it |
| LruCache.RunRetention | backend/app/tdx_sidecar/cache.py:18-33 | the same over any operations on other keys |
| LruCache.GetIsExact | backend/app/tdx_sidecar/cache.py:18-33 | a get returns the last set's value if and only if that has not expired and never maxsize other keys stood behind the key since its last use |
| LruCache.FewUsesKeepTheValue | backend/app/tdx_sidecar/cache.py:18-33 | a value is kept while fewer than maxsize distinct other keys are used |
| LruCache.FewSetsDoNotKeepTheValue | backend/app/tdx_sidecar/cache.py:26-33 | counting only the keys that were set is not enough: a concrete run |
| SingleFlight.EveryInterleavingKeepsInv | backend/app/tdx_sidecar/ranks.py:545-606 | every interleaving of any number of threads keeps the protocol's invariant |
| SingleFlight.OneOwnerPerKey | backend/app/tdx_sidecar/ranks.py:553-560 | at most one thread computes or has yet to clean up for a key |
| SingleFlight.RegisteredExactlyWhileOwned | backend/app/tdx_sidecar/ranks.py:553-560 | a key is registered exactly while one owner is between its registration and its own pop, and holds that owner's event |
| SingleFlight.NoOrphanWaiter | backend/app/tdx_sidecar/ranks.py:562-606 | nobody waits on an unset event without a live owner that will set it, exceptions included |
| SingleFlight.AnswersWereStored | backend/app/tdx_sidecar/ranks.py:549-565 | whatever a call returns is empty or was stored by an owner of the same key |
| SingleFlight.KeysAreEqualExactly | backend/app/tdx_sidecar/ranks.py:35-36 | two pools get one key if and only if they hold the same symbols, each equally often |
| SingleFlight.AnswersAreForTheSamePool | backend/app/tdx_sidecar/ranks.py:545-601 | over every interleaving a non-empty answer is the beginning, as long as was asked for, of rows that some thread stored for a pool of the same symbols as the one this call was made for |
| SingleFlight.OwnersAlwaysRelease | backend/app/tdx_sidecar/ranks.py:567-606 | from every reachable state an owner goes from its outcome, rows or an exception, to its pop whatever the other threads and the cache do in between; then its event is set, its key is free and its waiters can wake |
| SingleFlight.OthersLeaveThread | backend/app/tdx_sidecar/ranks.py:545-606 | no step of the other threads moves a thread, so none disables its next step |
| SingleFlight.CachedSinceMissExactly | backend/app/tdx_sidecar/ranks.py:549-565 | over every interleaving, the cache holds the key of a thread that missed it if and only if an owner stored it after the miss and nothing dropped it since |
| SingleFlight.RecomputesExactly | backend/app/tdx_sidecar/ranks.py:549-601 | registering computes stored rows again if and only if that holds and no other flight of the key is registered |
| SingleFlight.CleanRunsServeEveryone | backend/app/tdx_sidecar/ranks.py:562-565 | without failures, timeouts and lost entries no waiter comes back empty-handed |
| SingleFlight.SecondFlightAfterStore | backend/app/tdx_sidecar/ranks.py:549-558 | it happens: a thread that missed before the rows were stored computes them again after the pop |
| SingleFlight.TwoMissesBeforeOneFlight | backend/app/tdx_sidecar/ranks.py:549-558 | such a state is reached by two threads that ask at the same time |
| WarmLease.WriteRanks | backend/app/tdx_sidecar/ranks.py:305-308 | the ranks 1, 2, ... are written into the shared rows |
| WarmLease.RewriteRanks | backend/app/tdx_sidecar/ranks.py:314-316 | rewriting the ranks without the lock changes no row that a reader can see |
| WarmLease.RankEngine.constructor | backend/app/tdx_sidecar/ranks.py:330-345 | the engine starts with nothing published |
| WarmLease.SortedIsFasterFirst | backend/app/tdx_sidecar/ranks.py:39-44 | in the sorted list no row is faster than one before it; a missing speed counts as minus ten to the eighteenth |
| WarmLease.RankEngine.BeginRound | backend/app/tdx_sidecar/ranks.py:224-229 | a round begins at progress 0 and renews the lease of what is served |
| WarmLease.RankEngine.PublishPartial | backend/app/tdx_sidecar/ranks.py:300-310 | what was built is published ranked and the fastest first, with a full lease |
| WarmLease.RankEngine.FinishRound | backend/app/tdx_sidecar/ranks.py:314-323 | the end of a round publishes with a full lease and leaves every visible rank as it was |
| WarmLease.RankEngine.Renew | backend/app/tdx_sidecar/ranks.py:191-194 | the lease is renewed between rounds while something is served |
| WarmLease.RankEngine.AbandonRound | backend/app/tdx_sidecar/ranks.py:233-237 | a round that is left early keeps what is published and its lease |
| WarmLease.RankEngine.QuotePhase | backend/app/tdx_sidecar/ranks.py:243-267 | progress grows from 0 to 0.35, whatever stops it |
| WarmLease.RankEngine.SpeedPhase | backend/app/tdx_sidecar/ranks.py:269-312 | every batch is published sorted; at the end there is one row for each concept, in order, and the list served is their sorted list |
| WarmLease.RankEngine.BuildBatch | backend/app/tdx_sidecar/ranks.py:288-299 | one new row for each code of a batch |
| WarmLease.RankEngine.RunWarmRound | backend/app/tdx_sidecar/ranks.py:224-328 | every section of a round changes the lease as allowed; a finished round has published one row per concept, ranked and the fastest first, with a full lease |
| WarmLease.RankEngine.PublishPhase | backend/app/tdx_sidecar/ranks.py:269-323 | a phase that is not cut short ends the round with a full lease and every concept served |
| WarmLease.RankEngine.Round | backend/app/tdx_sidecar/ranks.py:179-194 | one pass of the loop, exceptions included: the start of a round, entries inside it, its end, then exactly one renewal |
| WarmLease.PassKeepsRoundByRound | backend/app/tdx_sidecar/ranks.py:179-194 | such passes keep the trace round by round: every finish is followed by exactly one renewal and then the next round |
| WarmLease.RankEngine.WarmLoop | backend/app/tdx_sidecar/ranks.py:179-197 | the traces of the loop are round by round, for any number of rounds, however they end |
| WarmLease.RankEngine.SpeedMeta | backend/app/tdx_sidecar/ranks.py:330-345 | warm, stale and progress as the state says; stale implies warm; the progress shown is in [0, 1] |
| WarmLease.ExpiryIsOneLease | backend/app/tdx_sidecar/ranks.py:191-194 | in every run the expiry is exactly one lease after the last renewal |
| WarmLease.NeverWithdrawn | backend/app/tdx_sidecar/ranks.py:224-323 | in every run what is published is never empty again and the expiry never moves back |
| WarmLease.ProgressGrowsInARound | backend/app/tdx_sidecar/ranks.py:229-302 | inside a round the progress only grows and stays in [0, 1] |
| WarmLease.WarmBetween | backend/app/tdx_sidecar/ranks.py:330-340 | between two sections the lane is warm at every instant if and only if a round runs or the gap ends within one lease of the last renewal |
| WarmLease.WarmIntoTheNextRound | backend/app/tdx_sidecar/ranks.py:191-228 | in every trace of the loop, from every finished round into the next one, the lane is warm at every instant if and only if neither gap exceeds one lease |
| ConceptLanes.Index | backend/app/tdx_sidecar/ranks.py:441-442 | the index of a list by code finds the last row of each code |
| ConceptLanes.FillLane | backend/app/tdx_sidecar/ranks.py:443-451 | the gaps of one lane's shared rows are filled from the row of the same code of the other lane, nothing else changes |
| ConceptLanes.EnrichLanes | backend/app/tdx_sidecar/ranks.py:432-460 | both passes: the second one sees what the first one filled |
| ConceptLanes.EnrichPublished | backend/app/tdx_sidecar/ranks.py:432-460 | for published rows both lanes show the same fields of a code afterwards, and no value that was shown is replaced |
| TradingCalendar.NextExists | backend/app/services/trading_calendar/service.py:45-52 | for every finite set of holidays a day has one least later trading day |
| TradingCalendar.NextTradingDay | backend/scripts/run_backfill_history.py:294-300 | the search ends for every finite set of holidays, at the least later weekday that is no holiday |
| TradingCalendar.NearestTradingDay | backend/app/services/trading_calendar/service.py:54-62 | finds the latest trading day at or before a day, and fails exactly when none of the last 366 days trades |
| TradingCalendar.TradingDaysInRange | backend/app/sync/tia_collect/trade_date.py:19-28 | exactly the trading days of a range in increasing order or, when there are none, the latest of the fifteen days up to its end |
| TradingCalendar.TradingDayInRange | backend/app/sync/tia_collect/trade_date.py:19-25 | every listed day is a trading day of the range |
| TradingCalendar.TradingDayIsListed | backend/app/sync/tia_collect/trade_date.py:19-25 | every trading day of the range is listed |
| TradingCalendar.TradingDaysAreExact | backend/app/sync/tia_collect/trade_date.py:19-25 | in increasing order, so each once |
| TradingCalendar.StepBackIsNotLater | backend/app/catalog/tia_probe_registry.py:145-152 | the last trading day is not after the reference day |
| TradingCalendar.FindLastTradingDay | backend/app/catalog/tia_probe_registry.py:145-152 | the latest trading day of the fifteen days up to the reference day, or else the reference day itself |
| TradingCalendar.StretchIsDerivedAgain | backend/app/sync/tia_collect/trade_date.py:19-28 | a stretch of a planned list that is handed on as its first and last day is derived again as the same stretch |
| TradingCalendar.DaysAfter | backend/app/sync/tia_collect/trade_date.py:19-25 | the days after the first m are the trading days after the m-th one |
| BackfillPlan.MinFrom | backend/scripts/run_backfill_history.py:331-337 | the earliest loaded day of the tail, if any |
| BackfillPlan.MaxBetween | backend/scripts/run_backfill_history.py:340-348 | the last loaded day of the historical segment, if any |
| BackfillPlan.TradeDateBackfillSpan | backend/scripts/run_backfill_history.py:320-358 | read off the table alone: the span contains no loaded day, ends the day before the first loaded day of the last 21 days (or at the end), so every later day has a loaded day of them on or before it, and starts the trading day after the last loaded day before that (or at the start) |
| BackfillPlan.SpanAvoidsLoadedDays | backend/scripts/run_backfill_history.py:331-358 | the planned span never contains a loaded day, whatever the table holds |
| BackfillPlan.ReplanContinues | backend/scripts/run_backfill_history.py:320-358 | after an interruption before the tail the next plan is exactly what is left |
| BackfillPlan.ReplanContinuesExactlyBeforeTail | backend/scripts/run_backfill_history.py:331-353 | an interrupted backfill continues if and only if its last loaded day lies before the tail; otherwise none of the rest is ever planned |
| BackfillPlan.EarlyCompletion | backend/scripts/run_backfill_history.py:331-353 | the smallest case: five days to load, a stop after one, and nothing is planned any more |
| BackfillPlan.CampaignSkipsNothing | backend/scripts/run_backfill_history.py:320-358 | any number of interrupted and resumed runs fetch the trading days of the first span in order, none skipped and none twice, when that span is empty or holds a trading day |
| BackfillPlan.PlannedIsSpanDaysExactly | backend/scripts/run_backfill_history.py:682-687 | a run plans exactly the trading days of its span, except exactly when the span is not empty and none of its days trades |
| BackfillPlan.QuietSpanStartsGlobally | backend/scripts/run_backfill_history.py:340-349 | such a span starts at the global start, with nothing loaded after it |
| BackfillPlan.QuietSpanRepeatsExactly | backend/app/sync/tia_collect/trade_date.py:26-27 | the last trading day before it is fetched, and again by every later run, if and only if that day lies before the tail; otherwise nothing is planned any more |
| BackfillPlan.WeekendStartRepeats | backend/app/sync/tia_collect/trade_date.py:26-27 | the smallest case: a history that starts on a weekend |
| ChunkLoops.ChunkBudget | backend/scripts/run_backfill_history.py:148-149 | a chunk has as many days as asked for, kept between 1 and 200 |
| ChunkLoops.RunFitsBudgetExactly | backend/scripts/run_backfill_history.py:467 | codes per run times periods is within the budget of 200 if and only if there are no more periods than that, and then no more codes would fit |
| Slices.PiecesCover | backend/scripts/run_backfill_history.py:687-690 | the chunks are non-empty, no larger than asked, and side by side they are everything from the offset to the end |
| Slices.PiecesCount | backend/scripts/run_backfill_history.py:683-684 | there are as many chunks as the rounded-up division says |
| ChunkLoops.FullRunTakesPlannedChunks | backend/scripts/run_backfill_history.py:484-490 | a full run takes exactly the planned number of chunks if and only if there is a unit |
| ChunkLoops.StopAndContinue | backend/scripts/run_backfill_history.py:137-139 | in the trade-date mode stopping after k chunks and continuing from chunk k + 1 is one full run |
| ChunkLoops.StopAndContinueRotations | backend/scripts/run_backfill_history.py:137-139 | and so it is in the rotation mode and in the period mode |
| ChunkLoops.RunTradeDate | backend/scripts/run_backfill_history.py:677-718 | without a failure exactly the allowed chunks of the planned days are collected, although each is handed on as two days only, a failure ends the run after the failing chunk, and completion is reported exactly without failure |
| ChunkLoops.RunRotation | backend/scripts/run_backfill_history.py:719-756 | the same for rotations over the codes |
| ChunkLoops.RunPeriod | backend/scripts/run_backfill_history.py:757-825 | the same for rotations sized by the number of periods |
| ChunkLoops.RunMarketPeriods | backend/scripts/run_backfill_history.py:769-788 | a market-wide interface runs one chunk, which completes the plan if and only if it does not fail and the chunks are limited or the periods are within the budget |
| ChunkLoops.PiecesFromChunk | backend/scripts/run_backfill_history.py:137-139 | from a later chunk on, exactly the rest of the planned chunks is left |
| ChunkLoops.RotationsAreAsMany | backend/scripts/run_backfill_history.py:722-756 | rotations are as many as chunks of codes |
| ChunkLoops.RotationsCoverAndWrap | backend/app/sync/tia_collect/stock_codes.py:36-44 | a rotation run collects every code from its offset on and then the first few again |
| ChunkLoops.RotationIsDisjointExactly | backend/app/sync/tia_collect/stock_codes.py:36-44 | it collects every code exactly once, in order, if and only if all codes fit one run or the run size divides their number |
| QuoteBisection.BisectionIsComplete | backend/app/tdx_sidecar/quotes.py:137-153 | one row for every supported code and nothing else, in request order |
| QuoteBisection.CeilLog2IsLeast | backend/app/tdx_sidecar/quotes.py:150-153 | the depth of the halving is the least h with n at most 2^h |
| QuoteBisection.CallBound | backend/app/tdx_sidecar/quotes.py:137-153 | with k unsupported codes among n at most 2 k ceil(log2 n) + 1 questions |
| QuoteBisection.CallsAreLinear | backend/app/tdx_sidecar/quotes.py:137-153 | never more than 2 n - 1 questions, whatever the host does |
| QuoteBisection.BoundIsMet | backend/app/tdx_sidecar/quotes.py:137-153 | one unsupported code among 2^h takes exactly 2 h + 1 questions |
| QuoteBatch.NormalizeIsIdempotent | backend/app/tdx_sidecar/quotes.py:22-27 | a normalised symbol stays as it is |
| QuoteBatch.SpellingsAreNormalized | backend/app/tdx_sidecar/quotes.py:22-27 | any spelling of a valid symbol, upper or lower case, with any white space around it, is normalised to it |
| QuoteBatch.NormalizedIsSpelling | backend/app/tdx_sidecar/quotes.py:22-27 | and nothing else is |
| QuoteBatch.MarketsOfExchanges | backend/app/tdx_sidecar/quotes.py:39-48 | Shanghai is asked as market 1, Shenzhen as market 0 |
| QuoteBatch.RowNamesWhatWasAsked | backend/app/tdx_sidecar/quotes.py:39-80 | a row that carries the market and code a symbol was asked by names that symbol |
| QuoteBatch.NamedSymbolAsksForTheRow | backend/app/tdx_sidecar/quotes.py:39-80 | the symbol a row names asks for the row's market and code |
| QuoteBatch.PairsDiffer | backend/app/tdx_sidecar/quotes.py:39-48 | different symbols are asked by different pairs |
| QuoteBatch.ParseRow | backend/app/tdx_sidecar/quotes.py:83-130 | an item is degraded exactly when it has no price, and a price is positive |
| QuoteBatch.ParsedItemSays | backend/app/tdx_sidecar/quotes.py:83-130 | every number of an item is that of the row's cell of its own name: the price is the first positive one of price, last and close, else a hundredth of the reserved bytes; the previous close the first of its three names; price = previous close * (1 + change / 100) |
| QuoteBatch.DayRangeIsKept | backend/app/tdx_sidecar/quotes.py:83-130 | a row whose price lies between its low and its high gives an item with that low, price and high |
| QuoteBatch.DistinctDiffer | backend/app/tdx_sidecar/quotes.py:172-178 | no symbol is kept twice |
| QuoteBatch.DistinctContents | backend/app/tdx_sidecar/quotes.py:172-178 | exactly the valid symbols are kept |
| QuoteBatch.DistinctGrows | backend/app/tdx_sidecar/quotes.py:172-180 | in the order of first appearance, so the first hundred are the first hundred |
| QuoteBatch.CleanSymbols | backend/app/tdx_sidecar/quotes.py:172-180 | the loop keeps the first hundred distinct valid symbols |
| QuoteBatch.PairsOf | backend/app/tdx_sidecar/quotes.py:190-196 | each symbol's pair leads back to that symbol |
| QuoteBatch.BatchesAreComplete | backend/app/tdx_sidecar/quotes.py:226-228 | batches of eighty and their splits leave no trace in the rows |
| QuoteBatch.OneHostCallBound | backend/app/tdx_sidecar/quotes.py:226-228 | one host is asked at most 14 k + 2 times for k unsupported codes |
| QuoteBatch.FirstUsefulHost | backend/app/tdx_sidecar/quotes.py:220-237 | the rows are those of the first host that has any, and the last error is that of the host before it |
| QuoteBatch.NoUsefulHost | backend/app/tdx_sidecar/quotes.py:220-237 | without such a host there are no rows, and the last error is that of the last host |
| QuoteBatch.ActiveIsLastConnected | backend/app/tdx_sidecar/quotes.py:220-242 | and the active host is the last one that connected |
| QuoteBatch.AskHost | backend/app/tdx_sidecar/quotes.py:226-228 | the batches of one host |
| QuoteBatch.AskHosts | backend/app/tdx_sidecar/quotes.py:220-242 | hosts are asked in turn; rows, last error and active host are as the attempts say |
| QuoteBatch.ItemIsFromLastRow | backend/app/tdx_sidecar/quotes.py:262-288 | an item is made from the last row taken for its symbol, or blank |
| QuoteBatch.BySymbol | backend/app/tdx_sidecar/quotes.py:262-273 | rows are given to the wanted symbol they name, or else to the one at their position |
| QuoteBatch.FetchQuotes | backend/app/tdx_sidecar/quotes.py:156-296 | exactly one item for each distinct valid symbol, in order, whatever the hosts do; degraded exactly when no item has a price |
| QuoteAttribution.RowOfPair | backend/app/tdx_sidecar/quotes.py:137-153 | a supported code's row stands as many places early as there are unsupported codes before it |
| QuoteAttribution.PairOfRow | backend/app/tdx_sidecar/quotes.py:137-153 | every row is some supported code's |
| QuoteAttribution.AttributionExactly | backend/app/tdx_sidecar/quotes.py:262-273 | every symbol gets its own row, and unsupported ones none, if and only if every row after the first unsupported code names its symbol |
| QuoteAttribution.EachItemFromItsOwnRow | backend/app/tdx_sidecar/quotes.py:226-288 | when every row names its symbol each item is made from its own row, however the batches were cut and split |
| QuoteAttribution.FetchFromNamingHost | backend/app/tdx_sidecar/quotes.py:156-296 | the whole batch: if the first host with rows names them, every item of the reply is made from its own symbol's row and says what the cells of that row say, or is blank exactly when that host does not support its code |
| QuoteAttribution.UnnamedRowGoesAstray | backend/app/tdx_sidecar/quotes.py:268-271 | the concrete failure: the first symbol gets the second one's row |
| BrowserTables.LoadBatch | backend/app/services/query/browser_query.py:593-600 | one batch: the last selected row of each of its codes, the others as before |
| BrowserTables.Load | backend/app/services/query/browser_query.py:655-679 | loading in batches of five hundred codes is loading without batches |
| BrowserTables.LoadedIsLast | backend/app/services/query/browser_query.py:655-679 | what is loaded, read off the table: for each code asked for the last selected row, and nothing exactly when there is none |
| PeriodLoad.IsoOrder | backend/app/services/query/browser_query.py:707 | comparing YYYY-MM-DD texts is comparing dates |
| PeriodLoad.BestIsFirstGreatest | backend/app/services/query/browser_query.py:703-708 | the report kept has the greatest date of all selected ones and is the first with that date |
| PeriodLoad.LoadPeriodBatch | backend/app/services/query/browser_query.py:697-708 | a batch finds its codes' reports and leaves codes of earlier batches alone |
| PeriodLoad.LoadPeriod | backend/app/services/query/browser_query.py:681-709 | read off the table: each code has the report with the greatest date not after the as-of date (and of the unified date, if there is one), the first row of that date; it is missing exactly when it has no such report; the fold over all batches is the unbatched selection |
| BrowserRows.PutThenGet | backend/app/services/query/browser_query.py:443-479 | a cell holds the last value written to its column |
| BrowserRows.SingleRowCells | backend/app/services/query/browser_query.py:442-481 | every cell of a single-date row: that of the last selection of its indicator |
| BrowserRows.MultiRowCells | backend/app/services/query/browser_query.py:317-371 | every cell of a multi-date row: that of the last selection of its indicator, at the column's date |
| BrowserRows.SideBySide | backend/app/services/query/browser_query.py:245-388 | a multi-date row shows for each of its dates the cells of the single-date row at that date, adjustment included |
| BrowserRows.MultiRowColumns | backend/app/services/query/browser_query.py:313-343 | and has no other columns |
| BrowserCells.AdjustedPrices | backend/app/services/query/adj_price.py:8-38 | backward adjustment multiplies by the day's factor, forward adjustment also divides by the latest one and so leaves the latest day alone; without a factor the price stays |
| BrowserCells.PlainCell | backend/app/services/query/browser_query.py:456-468 | a selection that is not an adjusted price shows the cell of the code's last row on the date |
| BrowserCells.MissingCell | backend/app/services/query/browser_query.py:456-468 | and null without such a row |
| BrowserCells.BackwardCell | backend/app/services/query/browser_query.py:456-468 | a backward adjusted cell is the table's price times the factor of the day in the table of factors |
| BrowserCells.ForwardCell | backend/app/services/query/browser_query.py:456-468 | a forward adjusted cell is that over the factor of the code's latest date |
| BrowserCells.UnadjustedCell | backend/app/services/query/browser_query.py:456-468 | without a factor on the day, or with the adjustment none, it is the price itself |
| BrowserCells.StaticCell | backend/app/services/query/browser_query.py:450-455 | a static cell is that of the code's last row in the list of stocks or in its own table |
| BrowserCells.PeriodCell | backend/app/services/query/browser_query.py:469-471 | a period cell is that of the code's point-in-time report |
| BrowserCells.NameCell | backend/app/services/query/browser_query.py:443-447 | every row shows its code, and the name from the list of stocks, else the stock code there, else the code |
| BrowserCells.CellsAreValues | backend/app/services/query/browser_query.py:442-481 | these values are the cells of both forms, of the last selection of each indicator |
| BrowserQuery.ValidateIndicators | backend/app/services/query/browser_query.py:390-418 | the first failing check decides; otherwise every selection has its registered indicator |
| BrowserQuery.PicksAreRegistered | backend/app/services/query/indicator_registry.py:184-188 | one id stands for one indicator |
| BrowserQuery.ResolveKeepsExactly | backend/app/services/query/browser_query.py:619-653 | a date is kept if and only if the table has rows on it or none up to it; otherwise the latest earlier date with rows is used |
| BrowserQuery.LoadAdj | backend/app/services/query/browser_query.py:711-759 | the factors of a date and the latest ones, when a selection needs them |
| BrowserQuery.AssembleRows | backend/app/services/query/browser_query.py:429-481 | the rows of the single-date query, cell by cell, from what was loaded |
| BrowserQuery.ExecuteSingle | backend/app/services/query/browser_query.py:113-243 | the single-date query: its date, its rows, and its errors in order |
| BrowserQuery.RefusedExactly | backend/app/services/query/browser_query.py:390-427 | a query is refused exactly when one of the conditions fails, with the error of the first: 40 selections, registered and available, no period with several dates, 1 to 8000 codes, a trading day within a year of each date, an active list of stocks |
| BrowserQuery.ReportsArePointInTime | backend/app/services/query/browser_query.py:681-709 | the reports of a query are point-in-time reports of the tables of its period selections |
| BrowserQuery.ColumnSpecs | backend/app/services/query/browser_query.py:317-343 | one column for each daily selection and date, one for every other selection |
| BrowserQuery.AssembleMultiRows | backend/app/services/query/browser_query.py:345-371 | the rows of the multi-date query |
| BrowserQuery.ExecuteMulti | backend/app/services/query/browser_query.py:245-388 | the multi-date query: its dates, its rows, and its errors in order, period indicators refused |
| BrowserQuery.MultiShowsSingle | backend/app/services/query/browser_query.py:113-243 | if the single-date query keeps its date, the multi-date row shows all of its cells |
| BrowserQuery.MovesExactly | backend/app/services/query/browser_query.py:130-146 | it moves away exactly when the primary table has no rows on the date but some before it, and then to the latest of those |
| BrowserQuery.DailyCells | backend/app/services/query/browser_query.py:352-362 | every daily column, of whichever table: the column's date in the one form, the shown date in the other |
| BrowserQuery.MovedCellsAgreeExactly | backend/app/services/query/browser_query.py:130-146 | after a move the multi-date row shows null in a primary column, and the single-date row agrees if and only if the code's row on the earlier date is missing or shows as null |
| BrowserQuery.MovedCellsDiffer | backend/app/services/query/browser_query.py:130-146 | a concrete database in which they differ |
| BrowserQuery.ChoosePrimary | backend/app/services/query/browser_query.py:130-136 | tushare_daily if it is used, else some used daily table |
| BrowserQuery.NearestDates | backend/app/services/query/browser_query.py:265-271 | the latest trading days of the asked dates, or an error when one has none within a year |
| Pagination.OrderedIsStablePermutation | backend/app/services/query/browser_query.py:765-774 | the sort is a stable permutation in both directions, with missing values last ascending and first descending |
| Pagination.OrderedByValue | backend/app/services/query/browser_query.py:765-774 | numbers stand by size and texts by code point, in the direction asked for |
| Pagination.MixedExactly | backend/app/services/query/browser_query.py:765-774 | a column cannot be sorted exactly when one row holds a number in it and another one a text |
| Pagination.KeysAreSharedExactly | backend/app/services/query/browser_query.py:46-54 | requests share an entry if and only if they ask for the same query in the same order for the same user |
| Pagination.PageIsCut | backend/app/services/query/browser_query.py:80-94 | a page holds the items from skip on, at most limit of them, all when they are fewer, and is numbered from one |
| Pagination.BrowserQueryCache.Get | backend/app/services/query/browser_cache.py:16-41 | finds what has not expired and drops what has |
| Pagination.BrowserQueryCache.Set | backend/app/services/query/browser_cache.py:43-57 | stores under the key with its lifetime |
| Pagination.Execute | backend/app/services/query/browser_query.py:56-111 | one request: from the cache or by running the query, then one page |
| Pagination.EntryStays | backend/app/services/query/browser_query.py:62-74 | while an entry lives, no other request changes it |
| Pagination.OneExecutionServesAll | backend/app/services/query/browser_query.py:62-111 | within the lifetime every page is cut from one execution, cached or not |
| Pagination.HitsAreFresh | backend/app/services/query/browser_query.py:56-78 | over every run an answer from the cache is for the same query, order and user, from the last request that ran it, within its lifetime, and not for a refresh |
| Pagination.MissesRun | backend/app/services/query/browser_query.py:67-78 | every other answer is what the database says now, or the error of a column that cannot be sorted |
| Pagination.PagesJoin | backend/app/services/query/browser_query.py:80-111 | consecutive pages put together are the beginning of that execution's list |
| Pagination.PagesAreTheExecution | backend/app/services/query/browser_query.py:46-111 | pages that reach the total are the whole sorted list, with one total and one set of columns, whatever other requests come between |
| StableSort.SortPermutes | backend/app/services/query/browser_query.py:774 | the sort neither loses nor repeats elements |
| StableSort.SortSorts | backend/app/services/query/browser_query.py:774 | no element comes strictly before an earlier one |
| StableSort.SortIsStable | backend/app/services/query/browser_query.py:774 | elements with equal keys keep their order, in both directions |
| StableSort.SortedAndStableIsUnique | backend/app/services/query/browser_query.py:774 | order and stability leave only one result |
| CanonicalSchema.Build | backend/app/services/catalog/canonical_standard.py:114-192 | without fields an error; otherwise one column for each name, from its first field, and a mapping for every field |
| CanonicalSchema.ColumnsOfFields | backend/app/services/catalog/canonical_standard.py:148-162 | the columns are exactly the canonical names of the fields |
| CanonicalSchema.RenamingsByPrecedence | backend/app/catalog/field_override_registry.py:47-66 | an interface's own renaming comes before identities, these before reserved words, and any other field keeps its name |
| CanonicalSchema.ColumnIsOfField | backend/app/services/catalog/canonical_standard.py:148-166 | a column has the name and the type of its field, and may be null unless it is a key |
| CanonicalSchema.ColumnIsOfFirstField | backend/app/services/catalog/canonical_standard.py:148-162 | its field is the first one with that name |
| CanonicalSchema.ColumnNamesDiffer | backend/app/services/catalog/canonical_standard.py:148-162 | no two columns have one name |
| CanonicalSchema.UniqueKeysExactly | backend/app/services/catalog/canonical_standard.py:48-69 | which keys a set of fields has, key by key: the code and the trade date whenever they are there, the other dates in their order of precedence, else the first field |
| CanonicalSchema.Checklist | backend/app/services/catalog/canonical_standard.py:282-358 | the checklist counts what a schema says, without knowing how it was built |
| CanonicalSchema.StatusSays | backend/app/services/catalog/canonical_standard.py:292-320 | a field is missing exactly when no column has its name, and mistyped exactly when the last column of that name was made from it with another type |
| CanonicalSchema.ExtraExactly | backend/app/services/catalog/canonical_standard.py:322-340 | a column is extra exactly when no field is stored in it |
| CanonicalSchema.StatusesAddUp | backend/app/services/catalog/canonical_standard.py:342-344 | every field is counted under one of the three statuses |
| CanonicalSchema.ExtrasAreCounted | backend/app/services/catalog/canonical_standard.py:322-345 | the count of extra columns is 0 exactly when there is none, and all exactly when all are |
| CanonicalSchema.CoverageIsShare | backend/app/services/catalog/canonical_standard.py:347 | the coverage is the share of matched fields in percent, to one decimal, and 0 without fields |
| CanonicalSchema.FreshSchemaPasses | backend/app/services/catalog/canonical_standard.py:282-358 | a fresh schema passes it for all tables and fields: all matched, nothing missing, mistyped or extra |
| CanonicalSchema.RoundTenthIsNear | backend/app/services/catalog/canonical_standard.py:347 | rounding to one decimal is at most half a tenth off, keeps whole tenths, and takes the even one in the middle |
| CanonicalSchema.BuildAndCheck | backend/app/services/catalog/canonical_standard.py:342-357 | building and checking gives coverage 100 |
| CanonicalSchema.KeysAreColumnsExactly | backend/app/services/catalog/canonical_standard.py:48-69 | the unique keys of a fresh schema are columns, except exactly when no rule applies and the interface renames the first field |
| CanonicalSchema.ValidateForDdl | backend/app/services/catalog/canonical_standard.py:228-260 | exactly the errors that are there, so none exactly for a ready schema |
| CanonicalSchema.FreshIsReadyExactly | backend/app/services/catalog/canonical_standard.py:228-260 | a fresh schema is ready, with the same exception |
| CanonicalSchema.TypesBySuffix | backend/app/services/tia/schema_inference.py:47-54 | names that end in _date are dates, those that end in _vol, _amount, _ratio or _rate are numbers |
| CanonicalSchema.ShippedTablesAreTame | backend/app/catalog/field_override_registry.py:10-66 | the shipped tables rename no field that the key rules look for and leave renamed names unused |
| CanonicalSchema.ShippedNames | backend/app/catalog/field_override_registry.py:10-20 | what the shipped tables rename whatever the interface |
| CanonicalSchema.ShippedOverrides | backend/app/catalog/field_override_registry.py:36-45 | the four interface and field pairs that are renamed otherwise |
| CanonicalSchema.ShippedOverrideNames | backend/app/catalog/field_override_registry.py:36-45 | and their names |
| CanonicalSchema.ForecastTypeIsNotReady | backend/app/catalog/field_override_registry.py:40 | the exception happens: a forecast whose only field is its type |
| ColumnRename.ApplyMappings | backend/app/services/catalog/canonical_standard.py:368-387 | the renaming loop over the mappings, ts_code first, then by name |
| ColumnRename.DistinctStaysDistinct | backend/app/services/catalog/canonical_standard.py:374-387 | renaming keeps every column in its place and distinct columns distinct |
| ColumnRename.RenamedExactly | backend/app/services/catalog/canonical_standard.py:377-384 | a field is renamed if and only if it is a column, its target is not, and its mapping goes before every other mapping for that target whose field is a column |
| ColumnRename.TargetIsKeptExactly | backend/app/services/catalog/canonical_standard.py:377-384 | a target with a present source is missing from the output if and only if a mapping of that target itself wins another name in this sense |
| ColumnRename.SelfMappedTargetsAreKept | backend/app/services/catalog/canonical_standard.py:378-384 | no target is lost when targets map to themselves |
| ColumnRename.ChainLosesATarget | backend/app/services/catalog/canonical_standard.py:378-384 | the concrete loss |
| ColumnRename.TsCodeWins | backend/app/services/catalog/canonical_standard.py:361-384 | ts_code wins among several sources of a target that is not a column yet |
| ChartMath.HmMinutes | frontend-watch/src/utils/chartMath.ts:33-37 | there is a result exactly when some place of the text holds a time of day, and it is that of the least such place |
| ChartMath.TimeOfText | frontend-watch/src/utils/chartMath.ts:33-51 | a text whose first time of day is hh:mm means 60 hh + mm minutes |
| ChartMath.SlotsFollowTheSession | frontend-watch/src/utils/chartMath.ts:44-60 | the minutes 570 to 690 and 780 to 900 fill the slots 0 to 239 in order; only the last two minutes of each half share one |
| ChartMath.EverySlotIsReached | frontend-watch/src/utils/chartMath.ts:44-60 | every slot is that of some minute |
| ChartMath.ToSessionPoints | frontend-watch/src/utils/chartMath.ts:71-87 | one point for each slot that has a bar with a price, with the price, volume and amount of the last such bar (0 for a quantity that is missing, infinite or at most a millionth), in strictly increasing order |
| ChartMath.AmountVwapLooksValid | frontend-watch/src/utils/chartMath.ts:99-110 | true exactly when six in ten of the first twelve positive points have a price-like ratio |
| ChartMath.SamplesAreFirst | frontend-watch/src/utils/chartMath.ts:99-109 | the samples are the first positive points: every positive point is one unless twelve come before it |
| ChartMath.PriceLikeExactly | frontend-watch/src/utils/chartMath.ts:104-105 | price-like means that the amount is between 0.4 and 2.5 times what the volume costs at the close |
| ChartMath.CumulativeAvg | frontend-watch/src/utils/chartMath.ts:116-145 | the running sums give the average of every prefix: total amount over total volume of the points that have both, else total turnover over total volume, else the mean of the closes |
| ChartMath.ModeIsByWhatIsThere | frontend-watch/src/utils/chartMath.ts:136-142 | which prices contribute: ratios, closes with volume, or all closes |
| ChartMath.AverageIsBetween | frontend-watch/src/utils/chartMath.ts:116-145 | every average lies between the least and the greatest contributing price of its prefix |
| ChartMath.Sma | frontend-watch/src/utils/chartMath.ts:147-157 | the running sum gives the plain mean of every full window, and null before the first one |

## Left out

- RateLimiter.Limiter.WaitBeforeProCall: the bounds are stated for runs in which the clock moves between a recorded stamp and the next call's first reading; without that only the exact condition and the counterexample hold.
- RateLimiter.ReleaseIsEarliestForBoth: needs a ticked clock for the same reason.
- ChunkLoops.RunRotation: the number of codes per run is a parameter, and the code list holds at most ten thousand codes.
- BackfillPlan.CampaignSkipsNothing: states nothing for a first span that is not empty but holds no trading day, for which PlannedIsSpanDaysExactly and QuietSpanRepeatsExactly say what happens; days for which the vendor returns no rows, and partly loaded days, are not modelled; the end date is fixed; re-planned runs of the other modes are not compared, because their span changes once rows exist.
- WarmLease.RankEngine.SpeedMeta: the clock is read just before the lock is taken; the model reads both at once.
- WarmLease.RankEngine.QuotePhase: the change rows that each batch publishes are not modelled; they are new rows each time and no lease depends on them.
- WarmLease.RankEngine.WarmLoop: thread pools, sleeping between batches and the watchdog log are not modelled.
- SingleFlight.AnswersAreForTheSamePool: which rows an owner computes is left free; for pools over forty symbols they depend on the order of the pool, which the key ignores.
- ConceptLanes.EnrichLanes: the same filling of stock lanes, with names, is not modelled.
- QuoteBatch.FetchQuotes: the missing vendor library, resolving the connection file and the log are not modelled; infinite numbers are not told from finite ones; upper case and white space are those of ASCII.
- QuoteBatch.ParseRow: numbers are reals, and market and code cells are already read as a number and a text.
- BrowserRows.SideBySide: column ids are structured, so an indicator id that looks like another column's id is not modelled.
- BrowserQuery.ExecuteSingle: warnings, column labels, the audit log and the resolution of the universe are not modelled.
- BrowserQuery.ExecuteMulti: the same.
- Pagination.BrowserQueryCache.Get: the lookup in Redis that comes first is not modelled.
- Pagination.BrowserQueryCache.Set: nor is the store in Redis.
- Pagination.Execute: one step, while the program awaits between the lookup and the store; aggregations (not part of the cache key), the JSON form of dates in cached pages and Pydantic validation are not modelled.
- CanonicalSchema.Build: labels, probe parameters, the sources of the fields and the later enrichment of the keys are not modelled.
- CanonicalSchema.TypesBySuffix: the lists of single text, date and number names are transcribed and nothing else is stated about them; the other results hold for any typing of names.
- CanonicalSchema.ValidateForDdl: index columns and the registry of unique keys are not modelled.
- ChartMath.Sma: windows are whole and not negative.
- ChartMath.CumulativeAvg: rounding of floating-point numbers is not modelled.
- Index quotes: the second round of questions with the other market number is not modelled; it would repeat the batch form.
- Sockets, HTTP clients, SQL text and reflection, CRUD services, routers, user interface, authentication, settings and reports: plumbing.
