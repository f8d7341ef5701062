# Verified model of the LLM gateway control plane

A Dafny 4.11 model of the hardest logic of the repository, and proofs about it. Each module follows one component:

- `RequestIngest`, `RequestIngestSafety`, `RequestIngestLedger`, `RequestIngestRows`, `RequestIngestRuns`, `RequestIngestAcks`, `RequestIngestProgress`: many consumers of one Redis consumer group storing completion events, as a step relation in which every await of the consumer loop is a step of its own, any step may fail and any consumer may die.
- `CursorCodec`, `Instants`, `KeysetOrder`, `KeysetPaging`: the pagination cursor as printer and parser, timestamps on the time line, and keyset paging over a table that other sessions change between fetches.
- `BenchmarkChord`, `BenchmarkSafety`, `BenchmarkRuns`, `BenchmarkProgress`, `BenchmarkEndings`: a benchmark run as a chord of concurrent header tasks and a callback, each statement of the recount being a step of its own.
- `RateLimiter`, `RateLimiterRuns`: the fixed-window limiter with its timed sweep, as a class, and its bounds over whole runs.
- `LeastSquares`, `Projection`: the projection's regression and the path it draws.
- `NiceInterval`, `AxisTicks`: the axis interval with hysteresis, and its ticks.
- `BucketEdges`, `ChartFields`, `TimeSeriesDecimation`, `TimeSeriesReadings`, `OhlcDecimation`: the two chart decimators.
- `TrafficAggregates`, `TrafficGroups`: the dashboard queries and how their answers fit together.
- `LiveRange`, `LiveCursor`: the animated y-range of the live chart and the reading under its cursor.
- `PromptVersions`, `PromptVersionsSafety`, `PromptVersionsContents`, `PromptVersionsRuns`: append-only prompt versions under concurrent transactions.
- `Arithmetic`, `Wrappers`: products and quotients; options and results.

Chart, cost and clock arithmetic is over `int` and `real`. Loops, and objects that are updated in place, are methods and classes tied to functions; the lemmas say what those functions mean.

Where the code differs from what its comments or design suggest, the model follows the code:

- A request row is assigned before its transaction commits, so a commit that raises without effect still publishes a delta for a row that was never stored (`SomeDeltaNamesNoRow`). A published row was stored if and only if its commit took effect (`DeltasAreConserved`).
- Retry-After is honoured if and only if less than a second of the window is left (`RetryAfterIsExactlyEnoughWhen`); one second more always suffices.
- `completed_items` can go down while a run is in progress (`ProgressCanRegress`): exactly when a write overwrites a later recount that saw more finished items (`WriteLowersIffOvertaken`). It never overstates and is exact at close.
- The last interior bucket of the time-series decimator is empty on every input, so the last row is sampled twice, and the rows between row 0 and the first bucket are never sampled (`DecimationPicks`).
- The live range holds its data if and only if the interpolation speed is at most 1 (`DataIsHeldIffSpeedAtMostOne`).
- A benchmark run one of whose header tasks raises stays running for ever (`RaisedTaskBlocksClosing`); a run closes if and only if it has items and nothing raises (`StoppedRunIsClosedIff`). The API makes no run without items; that case is the worker's own guard.

Assumptions about what surrounds the code: Redis delivers each stream entry to one consumer of the group, and entries once delivered are not re-read; Postgres makes an insert wait for an uncommitted row with the same unique key and fail on a committed one; each benchmark header task is delivered once, and items are not deleted during a run; a commit either takes effect or does not, and one that takes effect but whose reply is lost is a commit like any other, since the loop acks and publishes its row all the same; the monotonic clock starts at or above 0; SHA-256 digests of different keys differ; ids of new rows are fresh.

## Model

| member | source | states |
|---|---|---|
| RequestIngestSafety.StepKeepsOwnership | backend/app/services/request_ingest_service.py:236-270 | Every step of every consumer, producer, catalogue change or delete keeps the consumers' unfinished stretches of the stream inside what was delivered and pairwise apart |
| RequestIngestSafety.StepKeepsTable | backend/app/services/request_ingest_service.py:83-136 | Every step keeps: a row about to be committed was built from its own message under the catalogue versions read for it and has no committed namesake, no two open transactions hold the same event id, no event id is in two rows, and the table is the one-at-a-time replay of the serial order |
| RequestIngestLedger.StepKeepsAccount | backend/app/services/request_ingest_service.py:249-270 | Every step keeps each delivered stream position in exactly one place: taken by the serial order, given up on, or still held by a consumer; nothing undelivered is in any |
| RequestIngestLedger.StepKeepsBalance | backend/app/services/request_ingest_service.py:249-270 | Every step keeps, for each row, stored plus announced-by-a-failed-commit copies equal to published plus lost plus carried ones |
| RequestIngestLedger.StepKeepsTraces | backend/app/services/request_ingest_service.py:249-270 | Every step keeps: stored rows come from distinct serialised positions, rows whose commit raised from distinct positions given up on, and every row in the table was stored |
| RequestIngestRuns.RunKeepsInv | backend/app/services/request_ingest_service.py:236-280 | All layers of the invariant hold after any run of steps from a state that has them |
| RequestIngestRuns.IngestIsSerialisable | backend/app/services/request_ingest_service.py:83-136 | For any number of consumers, any interleaving, failures and crashes: the table is the last of a sequence of tables, from the empty one, in which each serialised event adds the one row its columns and the catalogue versions it saw give it, or nothing when its id is in the table or there is no such row, and each delete removes exactly the rows it names; every delivered event is in that sequence once, given up on, or pending, exactly one of the three |
| RequestIngestRuns.RowsComeFromTheirMessages | backend/app/services/request_ingest_service.py:83-158 | In every reachable state each row ever stored or announced comes from the delivered message at its own stream position: every column is that message's field (its entry id for a missing event id, `unknown` for a missing model); its project is the message's own, else that of the first key with the message's prefix that is not revoked; its key is that key's, none if there is none, and the message's own without a prefix; all of it in catalogue versions of the run, in which what it refers to existed |
| RequestIngestRuns.RowsAreAttributable | backend/app/services/request_ingest_service.py:90-101 | A stored or announced row's event names a project, or has a prefix that some unrevoked key had in some catalogue version: any other event gets no row and no delta |
| RequestIngestRows.EventYieldsItsRow | backend/app/services/request_ingest_service.py:103-158 | The reference run yields a row for an event if and only if it is the row the columns describe, first unrevoked key and existing references included |
| RequestIngestRows.LookupsReadTheCurrentCatalogue | backend/app/services/request_ingest_service.py:138-158 | Each of the two lookups reads the catalogue of its own moment, finds the project or key described, and an event for which no project can be found goes no further |
| RequestIngestRows.InsertsMeetTheCurrentTables | backend/app/services/request_ingest_service.py:122-136 | An insert goes through if and only if no committed row has its event id and everything it refers to exists at that moment |
| RequestIngestRuns.OneRowPerEvent | backend/app/models/request.py:43 | No event id is ever in two rows, although check and insert are separate steps |
| RequestIngestRuns.ServedExactly | backend/app/services/request_ingest_service.py:86-101 | Without deletes the one-at-a-time run has a row for an event id if and only if some event in it with that id has a row: it names a project or an unrevoked key's prefix, and all it refers to exists |
| RequestIngestRuns.DeltasAreConserved | backend/app/services/request_ingest_service.py:249-270 | In every reachable state each row that was stored, or whose commit raised without effect, is published, lost or carried, once; no row gets two deltas; a published row was stored if and only if its commit took effect |
| RequestIngestRuns.FailedCommitIsAnnounced | backend/app/services/request_ingest_service.py:255-270 | A commit that raises without effect, the row being assigned already, is followed by an ack and a delta for a row the table does not hold |
| RequestIngestRuns.SomeDeltaNamesNoRow | backend/app/services/request_ingest_service.py:249-270 | A concrete run from the empty table publishes a delta for a row that was never stored: that every delta names a stored row is false of the code |
| RequestIngestRuns.DeltasNameStoredRows | backend/app/services/request_ingest_service.py:249-270 | In runs in which no commit raises, every delta names a stored row |
| RequestIngestRuns.WithoutFailuresNothingIsWrittenOff | backend/app/services/request_ingest_service.py:257-268 | Only failing steps give up events, lose deltas or leave announced rows unstored |
| RequestIngestRuns.CleanRunsConserveTotals | backend/app/services/request_ingest_service.py:161-176 | In a run with no failure, when all consumers are idle, deltas and stored rows agree as multisets, so every column has the same sum, and every delivered event no longer pending is in the serial order |
| RequestIngestAcks.StepKeepsAcks | backend/app/services/request_ingest_service.py:263-268 | Every step keeps an acknowledged message delivered and awaited by no consumer; every step that is no failure keeps each delivered message acknowledged or awaited |
| RequestIngestAcks.AckedMessagesAreSettled | backend/app/services/request_ingest_service.py:257-268 | In every reachable state an acknowledged message was delivered, is awaited by no consumer, and is in the serial order or was given up on, one of the two: an ack does not mean a row |
| RequestIngestAcks.CleanRunsAcknowledge | backend/app/services/request_ingest_service.py:249-270 | In a run with no failure the acknowledged messages are exactly the delivered ones no consumer has yet to acknowledge, all of them in the serial order; with all consumers idle, exactly the delivered ones not pending |
| RequestIngestAcks.AcknowledgedRunsConserveTotals | backend/app/services/request_ingest_service.py:161-176 | In a run with no failure, once every delivered message is acknowledged and the consumers are idle, deltas and stored rows agree as multisets and in every column's sum, and the serial order holds exactly the delivered messages |
| RequestIngestProgress.MessageIsIngestedAlone | backend/app/services/request_ingest_service.py:249-270 | From any state, a message a consumer holds whose row is new, refers to what exists and is in no open insert is stored, acknowledged and announced in eight steps of its consumer alone, which is then ready for its next message |
| RequestIngestProgress.MessageIsSkippedAlone | backend/app/services/request_ingest_service.py:86-101 | From any state, a message whose event is in the table, or for which no project can be found, is acknowledged by its consumer alone, without a failure, with nothing stored or announced |
| RequestIngestProgress.BatchesAreRead | backend/app/services/request_ingest_service.py:238-244 | A consumer done with its batch can take exactly 1 to 100 of the undelivered entries, takes the oldest, and may lose the reply; this needs only the ownership every run keeps |
| RequestIngestProgress.MishapsAreOpen | backend/app/services/request_ingest_service.py:249-280 | Every await of the loop may fail where it may succeed, and a consumer may die at any step |
| CursorCodec.IsoRoundTrip | backend/app/repositories/base.py:39-47 | Every valid timestamp, naive or with any microsecond offset below a day, is read back from its ISO text, which has no vertical bar |
| CursorCodec.UuidRoundTrip | backend/app/repositories/base.py:39-47 | Every 128-bit id is read back from its hyphenated text (section 4 of RFC 9562), which has no vertical bar |
| CursorCodec.Base64RoundTrip | backend/app/repositories/base.py:40-45 | The base64url decoder (section 5 of RFC 4648) undoes the encoder on every byte string, padding included |
| CursorCodec.Base64IsOpaque | backend/app/repositories/base.py:40 | Encoded text uses only the URL-safe alphabet and is empty only for no bytes |
| CursorCodec.CursorRoundTrip | backend/app/repositories/base.py:38-50 | decode_cursor undoes encode_cursor for every timestamp and id, and a cursor is never the empty string that would mean no cursor |
| CursorCodec.CursorsAreInjective | backend/app/repositories/base.py:38-40 | Different positions have different cursors |
| CursorCodec.DecodedCursorsAreCanonical | backend/app/repositories/base.py:43-50 | Whatever text decodes, its position is valid and re-encoding it decodes to the same position |
| KeysetPaging.Repository.ListPage | backend/app/repositories/base.py:80-115 | A page request with any cursor text fails exactly when the text does not decode; otherwise the page holds the newest `limit` rows past the cursor, newest first by date, clock time and id, no row past the cursor that is not in it is newer than its last one, and it has a cursor, that of its last row, exactly when a further row exists |
| KeysetPaging.Repository.Add | backend/app/repositories/base.py:129-133 | Adding a row with a fresh id adds just that row and keeps the table keyed |
| KeysetPaging.Repository.DeleteById | backend/app/repositories/base.py:139-146 | Deleting by id removes exactly the row with that id and reports whether there was one |
| Instants.InstantsOrderByFields | backend/app/repositories/base.py:95-100 | Of two valid timestamps with one offset, one comes first if and only if its year, month, day, hour, minute, second and microsecond are lexicographically smaller, and they are one instant only if all agree |
| Instants.OffsetMovesInstant | backend/app/repositories/base.py:95-100 | Changing only the offset moves the instant the other way by as much; a naive timestamp is read as offset 0 |
| Instants.DaysHaveEqualLength | backend/app/repositories/base.py:95-100 | From midnight to the next is 86,400,000,000 microseconds across month ends, leap days and year ends |
| Instants.ClockRunsEvenly | backend/app/repositories/base.py:95-100 | Within a day instants differ by the hours, minutes, seconds and microseconds between the clock readings |
| KeysetPaging.OlderIsBelow | backend/app/repositories/base.py:93-100 | The position order used in paging is the order by date, clock time and id |
| KeysetPaging.CursorMeansKey | backend/app/repositories/base.py:93-114 | Reading a row's own cursor gives that row's position |
| KeysetPaging.CursorsCarryPositions | backend/app/repositories/base.py:93-115 | A walk through cursor texts is a walk through positions: same pages, same end |
| KeysetPaging.OwnCursorsAreWellFormed | backend/app/repositories/base.py:93-115 | A walk that follows its own cursors never meets a malformed one and can always go on until the last page |
| KeysetPaging.PagingUnderWriters | backend/app/repositories/base.py:80-115 | With arbitrary inserts and deletes between fetches the rows come newest first by date, clock time and id across all pages, none twice, all from a table that was really there, and a finished walk returns every row present throughout, even if a cursor's row is gone and times tie |
| KeysetPaging.QuiescentPaging | backend/app/repositories/base.py:100-115 | On an unchanging table the concatenated pages are the whole table, newest first by date, clock time and id, every page but the last is full, and there are max(1, ceil(n / limit)) of them |
| KeysetPaging.UnfinishedPagingIsShort | backend/app/repositories/base.py:93-115 | On an unchanging table a walk that still has a cursor has taken fewer than max(1, ceil(n / limit)) pages |
| KeysetPaging.FollowingTheCursorEnds | backend/app/repositories/base.py:93-115 | From any point of a walk over an unchanging table, following the cursor reaches a page without one, after exactly max(1, ceil(n / limit)) pages in all |
| KeysetOrder.FetchIsSlice | backend/app/repositories/base.py:93-115 | The limit-plus-one probe yields the rows past the position that no other such row precedes, and announces a next position exactly when rows remain below it |
| KeysetOrder.WalkDescends | backend/app/repositories/base.py:93-115 | Across all pages of a walk over changing tables positions strictly descend and stay at or above the next one |
| KeysetOrder.WalkSkipsNothing | backend/app/repositories/base.py:93-115 | A row present at every fetch is returned or still lies below the next position |
| KeysetOrder.WalkInventsNothing | backend/app/repositories/base.py:93-115 | Every returned row was in the table its page came from |
| KeysetOrder.DescendingIsSorted | backend/app/repositories/base.py:100 | The only strictly descending listing of a keyed table is its sorted form |
| KeysetOrder.QuiescentWalk | backend/app/repositories/base.py:100-115 | Contents, page sizes and page count of a finished walk over an unchanging table |
| KeysetOrder.UnfinishedWalkIsShort | backend/app/repositories/base.py:100-115 | A walk over an unchanging table that has not ended has returned limit rows per page and fewer rows than the table holds, so it has fewer pages than needed |
| BenchmarkChord.WriteComputedMetrics | workers/tasks/benchmark.py:213-239 | The callback's two loops write a row for an item, metric and value if and only if some success of that item reports that value as its latency, cost, input tokens or output tokens under that metric's name; a missing cost has no row; the count returned is the number of rows |
| BenchmarkSafety.StepKeepsInv | backend/app/repositories/benchmark.py:51-85 | Every step of every header task, recount statement and callback keeps: item status and task progress agree, no stored, held or published count exceeds the items really finished, the callback sees only returned tasks and exact counts |
| BenchmarkSafety.RunKeepsInv | workers/tasks/benchmark.py:107-341 | The invariant holds after any run |
| BenchmarkRuns.ProgressNeverOverstates | backend/app/repositories/benchmark.py:51-85 | For every interleaving and every late write, completed_items <= finished items <= total_items, and no published event overstates |
| BenchmarkRuns.AnnouncedCountsAreSpaced | workers/tasks/benchmark.py:331-341 | In every run each published progress event counts a multiple of five items, or all of them |
| BenchmarkRuns.NotifyAnnounces | workers/tasks/benchmark.py:331-341 | ... and a recount is published exactly when it counted one of these |
| BenchmarkProgress.WriteLowersIffOvertaken | backend/app/repositories/benchmark.py:67-83 | A write lowers completed_items if and only if the recount it overwrites was made after the writer's own and saw more finished items |
| BenchmarkProgress.ProgressIsMonotoneIff | backend/app/repositories/benchmark.py:51-85 | The counter never goes down in a run, its close included, if and only if no write of the run was overtaken in that way |
| BenchmarkProgress.UndisturbedProgressIsMonotone | backend/app/repositories/benchmark.py:51-85 | If no recount is written between a task's own recount and its write, the counter never goes down |
| BenchmarkProgress.FinishedGrows | workers/tasks/benchmark.py:130-177 | The number of finished items never goes down along a run |
| BenchmarkProgress.ProgressCanRegress | backend/app/repositories/benchmark.py:67-83 | A concrete run in which a late write takes the stored counter from 2 back to 1: progress is not monotone |
| BenchmarkRuns.ClosedRunIsExact | workers/tasks/benchmark.py:276-293 | A closed run has every item finished and all three counts equal; it is FAILED exactly when no item is COMPLETE; its metric rows are those of the header results, whose success agrees with the stored statuses |
| BenchmarkRuns.ClosedRunIsFinal | workers/tasks/benchmark.py:276-293 | Once a run is closed no step of any task can still change it |
| BenchmarkRuns.SomeRunsNeverClose | workers/tasks/benchmark.py:60-73 | A run with a header task that raised, or without items, is never closed |
| BenchmarkEndings.StepDecreasesWork | workers/tasks/benchmark.py:60-341 | Every step of every task and of the callback leaves less work |
| BenchmarkEndings.EveryRunIsBounded | workers/tasks/benchmark.py:60-341 | No run of n items takes more than 8 n + 6 steps |
| BenchmarkEndings.StoppedRunIsClosedIff | workers/tasks/benchmark.py:96-104 | A run in which nothing can happen any more is closed if and only if it has items and neither a header task nor the callback raised |
| BenchmarkEndings.EveryRunStops | workers/tasks/benchmark.py:60-341 | Every run continues to one that has stopped, and is closed then under exactly that condition |
| BenchmarkEndings.RaisedTaskBlocksClosing | workers/tasks/benchmark.py:98-103 | Once a header task has raised no continuation closes the run |
| BenchmarkEndings.SomeTaskMayRaise | workers/tasks/benchmark.py:98-103 | Every run with items can reach such a state |
| BenchmarkRuns.ComputedRowsFacts | workers/tasks/benchmark.py:213-239 | Metric rows belong to successes, at most one per item and metric, four per success less one per missing cost |
| BenchmarkRuns.ClosedRunRows | workers/tasks/benchmark.py:213-239 | In a closed run a row is stored for an item, metric and value if and only if the gateway call made for that item in the run came back a success with that value for that metric |
| BenchmarkRuns.ClosedRunMetrics | workers/tasks/benchmark.py:213-239 | A closed run has between three and four metric rows per COMPLETE item, for those items only, at most one per item and metric |
| RateLimiter.Middleware.Dispatch | backend/app/main.py:177-221 | Exempt paths, a non-positive limit and a missing key pass through untouched; any other request is answered and the state, sweep included, becomes what the transition function gives |
| RateLimiter.Middleware.Sweep | backend/app/main.py:214-219 | The deleting loop leaves exactly the buckets whose window began at most 60 s ago |
| RateLimiterRuns.SweepIsInvisible | backend/app/main.py:209-219 | Every request of every run gets the answer of a limiter that never deletes a bucket |
| RateLimiterRuns.StoredWindowsAreRecent | backend/app/main.py:209-219 | After each admitted request every stored window began within the last 120 s |
| RateLimiterRuns.SlidingBoundHolds | backend/app/main.py:190-207 | Any closed interval of length L > 0 admits at most (ceil(L/60) + 1) * limit - 1 requests of a key, a single instant at most limit |
| RateLimiterRuns.AnyMinute | backend/app/main.py:190-207 | Any closed minute admits at most 2 * limit - 1 requests of a key |
| RateLimiterRuns.SlidingBoundIsAttained | backend/app/main.py:190-207 | For every limit and every length some run attains the sliding bound, so it is the least one |
| RateLimiterRuns.MinuteBoundIsAttained | backend/app/main.py:190-207 | In particular some run admits 2 * limit - 1 requests in a minute |
| RateLimiterRuns.QuietKeyReturns | backend/app/main.py:192-198 | After a rejection a quiet key's next request is admitted exactly when more than 60 s have passed since its window began, whatever other keys did |
| RateLimiterRuns.RetryAfterPlusOneSuffices | backend/app/main.py:196-204 | Waiting Retry-After plus one second is always enough |
| RateLimiterRuns.RetryAfterIsExactlyEnoughWhen | backend/app/main.py:196-204 | Waiting exactly Retry-After seconds is enough if and only if less than a second of the window was left at the rejection: the header understates the wait otherwise |
| RateLimiterRuns.RetryAfterIsTimeLeft | backend/app/main.py:196-197 | In any run a rejection's Retry-After is between 1 and 60: the whole seconds left in the key's window, or 1 when less than a second is left |
| LeastSquares.LinearRegressionSlope | frontend/components/charts/projection-utils.ts:114-134 | The accumulating loop returns the slope of the four sums, 0 below two points |
| LeastSquares.DenominatorIsPairwise | frontend/components/charts/projection-utils.ts:129 | The denominator is the sum over pairs of squared time differences |
| LeastSquares.GuardFiresIffSameTime | frontend/components/charts/projection-utils.ts:129-132 | With whole-millisecond times the 1e-12 guard fires exactly when all times coincide |
| LeastSquares.SlopeMinimisesResiduals | frontend/components/charts/projection-utils.ts:114-134 | For every list of points no line has smaller squared residuals than the returned slope with its intercept, and unless all times coincide every other line is strictly worse |
| Projection.BuildAutoFutureValues | frontend/components/charts/projection-utils.ts:136-188 | The path starts at the anchor; stepped it holds every interval's point on the line through the anchor, with endpoints only the last; dates are cut to whole milliseconds |
| Projection.BuildProjectionPath | frontend/components/charts/projection-utils.ts:261-335 | Manual points win when there are two; no data or an unreadable anchor gives no path; target mode needs a target; everything else is the automatic path from the readable history up to the anchor |
| Projection.EvenCadence | frontend/components/charts/projection-utils.ts:65-112 | On evenly dated rows the cadence is their step, whichever row is the anchor |
| Projection.EvenDatesContinue | frontend/components/charts/projection-utils.ts:181-185 | On evenly dated rows every projected date is where that later row would be |
| Projection.RegressionFindsLine | frontend/components/charts/projection-utils.ts:114-134 | Points on one line, at two times or more, have that line's slope as regression |
| Projection.AnchorSlopeOfLine | frontend/components/charts/projection-utils.ts:155-166 | On points of one line both methods return its slope, or 0 exactly when they see no two different times |
| Projection.LineIsContinued | frontend/components/charts/projection-utils.ts:136-188 | If the readable history lies on a line, every projected value lies on the same line, by either method, at any horizon; without two different times it is flat |
| Projection.EndpointsAreEnds | frontend/components/charts/projection-utils.ts:168-187 | The endpoint path is the first and last point of the stepped path |
| Projection.AnchorIsLastNotAfter | frontend/components/charts/projection-utils.ts:55-63 | The anchor is the last row without an index, and otherwise the last row not after the index, or the first row |
| Projection.CadenceOnAnyRows | frontend/components/charts/projection-utils.ts:65-112 | On any rows the cadence is the step into the anchor if it goes forward in time, else the total span over the number of steps if that does, else 24 hours |
| Projection.MeanCadence | frontend/components/charts/projection-utils.ts:84-100 | With all dates readable that fallback is the mean of the steps between consecutive rows |
| Projection.AnchorSlopeOfAny | frontend/components/charts/projection-utils.ts:155-166 | On any history the last segment's slope takes its first point to its second, the regression's slope leaves residuals no line undercuts, and without two times to go by the slope is 0 |
| Projection.StepIsOnRay | frontend/components/charts/projection-utils.ts:168-185 | Every projected value lies on the ray from the anchor with the slope used, and its date is the time cut to a whole millisecond towards zero |
| NiceInterval.SearchSpan | frontend/components/charts/live-y-axis.tsx:42-49 | The division loop ends and stops at the first span whose next division would be too close |
| NiceInterval.PickNiceInterval | frontend/components/charts/live-y-axis.tsx:15-55 | The method with its three searches returns the specified interval on every input with a positive gap |
| NiceInterval.ChainForm | frontend/components/charts/live-y-axis.tsx:35-39 | After 3q + r divisions of 10^k each sequence is at 10^(k-q) times its r-th fraction |
| NiceInterval.SearchedInterval | frontend/components/charts/live-y-axis.tsx:34-54 | A searched interval is 10^j times one of 1, 0.5, 0.4, 0.25, 0.2, its labels are less than 2.5 gaps apart, and at least a gap apart exactly when those of the power of ten above the range are, which a chart one gap high guarantees |
| NiceInterval.SearchedIntervalIsLeast | frontend/components/charts/live-y-axis.tsx:34-54 | No smaller nice number keeps the labels a gap apart |
| NiceInterval.KeptExactlyWhen | frontend/components/charts/live-y-axis.tsx:24-54 | On every chart an interval is kept if and only if its labels are between half a gap and three gaps apart, except that a chart too short for a label per power of ten gets that power whatever came before; at the same range every result is kept |
| NiceInterval.Hysteresis | frontend/components/charts/live-y-axis.tsx:10-32 | An interval searched at one range is kept at another if and only if that range is in its band, on charts at least one gap high: always when the range shrinks by up to a sixth or grows up to double, never when it falls below a third or grows fivefold |
| AxisTicks.StableTickValues | frontend/components/charts/live-y-axis.tsx:141-157 | The tick loop returns the rounded multiples of the interval from the first to the last index, dropping fractions when decimals are not allowed |
| AxisTicks.TickIndices | frontend/components/charts/live-y-axis.tsx:145-149 | A multiple is ticked exactly when it lies within half an interval of the domain |
| AxisTicks.TickAt | frontend/components/charts/live-y-axis.tsx:147-156 | With decimals allowed the i-th tick is the i-th multiple from the first one, rounded |
| AxisTicks.TickValues | frontend/components/charts/live-y-axis.tsx:141-157 | The ticks are, in ascending order, exactly the multiples of the interval within half an interval of the domain, each to the nearest 1e-10, whole numbers only unless decimals are allowed |
| BucketEdges.EdgeIsQuotient | frontend/components/charts/decimate-time-series.ts:31-39 | Flooring k * (total / count) over exact quotients is integer division k * total / count |
| BucketEdges.EdgesIncrease | frontend/components/charts/decimate-time-series.ts:31-39 | With at least as many rows as buckets, every edge is past the one before |
| BucketEdges.OuterEdges | frontend/components/charts/decimate-time-series.ts:31-39 | The first edge is 0 and the last the number of rows |
| TimeSeriesDecimation.BucketShape | frontend/components/charts/decimate-time-series.ts:34-39 | Interior buckets are non-empty and adjoin, except the last one, which is empty and sits at the last row; rows before the first bucket are in none |
| TimeSeriesDecimation.AverageOf | frontend/components/charts/decimate-time-series.ts:38-54 | The averaging loop returns the mean of the next bucket, or the last row when it is empty |
| TimeSeriesDecimation.LargestTriangle | frontend/components/charts/decimate-time-series.ts:56-72 | The search loop returns the first row of the bucket with the largest triangle |
| TimeSeriesDecimation.DecimateTimeSeries | frontend/components/charts/decimate-time-series.ts:1-79 | Short input or a small limit is returned as it is; otherwise the result is the rows at the sampled indices, all accesses in bounds |
| TimeSeriesDecimation.LargestIsFirst | frontend/components/charts/decimate-time-series.ts:60-72 | The pick of a non-empty bucket has an area no smaller than any in the bucket and larger than every earlier one |
| TimeSeriesDecimation.PickIsLargest | frontend/components/charts/decimate-time-series.ts:33-76 | Every bucket but the last is represented by its first largest triangle over the previous pick and the next mean; the last one by the last row |
| TimeSeriesDecimation.DecimationPicks | frontend/components/charts/decimate-time-series.ts:1-79 | Exactly maxPoints rows, the first being row 0 and the last two both the last row; up to there indices strictly increase, one from each bucket; rows between 0 and the first bucket are never taken |
| TimeSeriesReadings.SampledRowsDeviateMost | frontend/components/charts/decimate-time-series.ts:37-78 | From each interior bucket the row kept is the first of those the drawn line would miss by most: furthest, above or below, from the line between the row kept before and the middle of the next bucket |
| TimeSeriesReadings.AreaIsTriangle | frontend/components/charts/decimate-time-series.ts:65-74 | Rows are compared by the area of the triangle over the previous pick, the row and the next bucket's middle, by the shoelace formula |
| TimeSeriesReadings.TargetIsMean | frontend/components/charts/decimate-time-series.ts:43-56 | That middle is at the mean of the next bucket's indices and heights, or the last row when the bucket is empty |
| TimeSeriesReadings.BucketBounds | frontend/components/charts/decimate-time-series.ts:34-42 | Buckets start one past the integer quotients; the next bucket ends where the one after it starts, the last ones at the last row |
| TimeSeriesReadings.LastTargets | frontend/components/charts/decimate-time-series.ts:41-56 | The two last interior picks are measured against the last row itself |
| TimeSeriesReadings.RowReading | frontend/components/charts/decimate-time-series.ts:11-31 | A row's y is its first number, or with keys the mean of exactly the numbers it has under them, or else its own index |
| OhlcDecimation.HighIsGreatest | frontend/components/charts/decimate-time-series.ts:111-121 | A candle's high is the greatest numeric high of its bucket, attained, or the last row's field when none is numeric |
| OhlcDecimation.LowIsLeast | frontend/components/charts/decimate-time-series.ts:111-121 | Likewise for the least low |
| OhlcDecimation.Bucket | frontend/components/charts/decimate-time-series.ts:109-130 | The inner loop computes the candle of its bucket |
| OhlcDecimation.BucketsTile | frontend/components/charts/decimate-time-series.ts:101-107 | With 2 <= maxPoints < n every bucket is non-empty and together they tile the rows |
| OhlcDecimation.DecimateOhlcData | frontend/components/charts/decimate-time-series.ts:90-134 | Short input or a small limit is returned as it is; otherwise exactly the candles of the maxPoints buckets |
| OhlcDecimation.CandleAt | frontend/components/charts/decimate-time-series.ts:101-130 | Candle i is the summary of exactly the rows between edges i and i + 1 |
| OhlcDecimation.SummaryOfConcat | frontend/components/charts/decimate-time-series.ts:109-130 | Summarising two adjacent stretches and joining is summarising the whole |
| OhlcDecimation.CandlesKeepSummary | frontend/components/charts/decimate-time-series.ts:90-134 | After any number of buckets the candles collapse to the same candle as their rows |
| OhlcDecimation.DecimationKeepsExtremes | frontend/components/charts/decimate-time-series.ts:90-134 | maxPoints candles with the first open, last close, greatest high and least low of all rows |
| OhlcDecimation.DecimationComposes | frontend/components/charts/decimate-time-series.ts:90-134 | Decimating twice keeps the same totals as decimating once |
| TrafficAggregates.GroupsMerge | backend/app/repositories/request.py:164-187 | Any set of exact groups merges to the query over just their rows, latency means weighted by count |
| TrafficAggregates.GroupsMergeToWhole | backend/app/repositories/request.py:164-187 | Every grouped query merges back to the ungrouped one |
| TrafficAggregates.GroupByHasAnswer | backend/app/repositories/request.py:164-187 | Every grouped query has an answer |
| TrafficAggregates.AnswersAgree | backend/app/repositories/request.py:164-187 | Two answers to a grouped query hold the same groups |
| TrafficGroups.SeriesMergesToSummary | backend/app/repositories/request.py:66-100 | Over any window the time buckets add up to the summary's count, cost, tokens and count-weighted mean latency, and their errors are its total minus its successes |
| TrafficAggregates.TruncComposes | backend/app/repositories/request.py:161-163 | Truncating to minutes and then hours, or hours and then days, is truncating once, before the epoch too |
| TrafficAggregates.SeriesRollUp | backend/app/repositories/request.py:152-198 | Every hour or day bucket is the merge of exactly the finer buckets that fall into it, of which there is at least one |
| TrafficAggregates.SeriesIsUnique | backend/app/repositories/request.py:230-234 | The time-ordered answer is unique, so the day breakdown and the daily series cannot disagree |
| TrafficGroups.ModelsMergeToSummary | backend/app/repositories/request.py:217-222 | In the model breakdown a model has a group if and only if some row has it, with the aggregates of exactly the rows that do, and the groups add up to the total |
| TrafficGroups.ProvidersMergeToAttributed | backend/app/repositories/request.py:223-229 | In the provider breakdown a type has a group if and only if some row's provider has it, with the aggregates of exactly those rows, and the groups and the rows that name no existing provider add up to the total |
| TrafficGroups.TagsMergeToWeighted | backend/app/repositories/request.py:235-237 | The tag breakdown adds up to cost and count weighted by each row's number of tags |
| TrafficGroups.QueryByColumn | backend/app/repositories/request.py:66-100 | A query returns the number of rows, the sum of their costs, the sum of all input plus all output tokens, the number that did not succeed and the mean latency, 0 for no rows |
| TrafficGroups.QueryIgnoresOrder | backend/app/repositories/request.py:66-100 | Aggregates do not depend on the order of the rows |
| TrafficGroups.TimeBreakdown | backend/app/repositories/request.py:161-198 | In the time series a bucket has a point if and only if it starts on a whole minute, hour or day of UTC and some request falls between its start and the next, with the aggregates of exactly those requests |
| TrafficGroups.TagBreakdown | backend/app/repositories/request.py:235-237 | In the tag breakdown a tag has a group if and only if some row carries it, with the aggregates of the rows listed once per occurrence of the tag in them |
| TrafficGroups.WindowRows | backend/app/repositories/request.py:208-213 | The window of a query holds exactly the project's rows from its start on and before its end |
| TrafficAggregates.WindowsMerge | backend/app/repositories/request.py:208-213 | Two adjacent half-open windows merge to the whole one |
| LiveRange.ComputeTargetRange | frontend/components/charts/live-line-chart.tsx:89-117 | The loop and the padding return the target range, (0, 100) without data |
| LiveRange.TargetHoldsData | frontend/components/charts/live-line-chart.tsx:97-116 | With data the target range holds every data value and the live value strictly inside |
| LiveRange.TargetIsTight | frontend/components/charts/live-line-chart.tsx:97-116 | The target is the least range of the data and the live value, widened by its pad on both sides |
| LiveRange.TargetHeight | frontend/components/charts/live-line-chart.tsx:97-116 | The target is centred on the data and live values and 1.3 times as high as their range, 1.06 times when exaggerated; of a zero range it is 20, or 0.08 |
| LiveRange.FrameCoversTarget | frontend/components/charts/live-line-chart.tsx:119-143 | With speed at most 1 the next frame covers the target from any previous frame |
| LiveRange.EveryFrameHoldsItsData | frontend/components/charts/live-line-chart.tsx:119-143 | In every run, however the data, value and mode jump, every frame drawn from data holds all of it and the live value |
| LiveRange.OvershootLosesData | frontend/components/charts/live-line-chart.tsx:119-143 | For every speed above 1 and every first value two ticks from the start of the animation leave a data point outside |
| LiveRange.DataIsHeldIffSpeedAtMostOne | frontend/components/charts/live-line-chart.tsx:119-143 | Every frame of every animation at a speed holds its data if and only if the speed is at most 1 |
| LiveRange.DotStaysInRange | frontend/components/charts/live-line-chart.tsx:119-143 | A dot inside the range never leaves it over any run with data |
| LiveRange.Animation.constructor | frontend/components/charts/live-line-chart.tsx:336-341 | The animation starts at (0, 100) with the dot at the value |
| LiveRange.Animation.OnTick | frontend/components/charts/live-line-chart.tsx:376-386 | A tick overwrites the animation frame with the next one, which holds the data and the value |
| LiveRange.ExcessDecays | frontend/components/charts/live-line-chart.tsx:127-136 | Under fixed props, once the range covers the target, each excess and the dot's distance are multiplied by exactly 1 - speed per frame |
| LiveRange.RangeSettles | frontend/components/charts/live-line-chart.tsx:119-143 | From any frame, n frames after the first the excess is at most 1 / (1 + n * speed) of what it was |
| LiveCursor.InterpolateAtTime | frontend/components/charts/live-line-chart.tsx:145-185 | In any order the binary search answers on a segment that brackets the time, and its zero-difference guard never fires; in time order it equals the linear scan |
| LiveCursor.BracketIsUnique | frontend/components/charts/live-line-chart.tsx:160-170 | In time order at most one segment brackets a time |
| LiveCursor.SegmentStaysBetween | frontend/components/charts/live-line-chart.tsx:179-184 | On a segment the reading stays between its two values |
| LiveCursor.ReadingIsOnLine | frontend/components/charts/live-line-chart.tsx:160-184 | Between the ends every reading lies on the straight line through the two points around it |
| LiveCursor.ReadingStaysInRange | frontend/components/charts/live-line-chart.tsx:145-185 | The linear-scan reading never leaves the range of the data |
| LiveCursor.PassesThrough | frontend/components/charts/live-line-chart.tsx:145-185 | The line passes through its points, among ties through the last, or the first at the left end |
| PromptVersionsSafety.LatestCounts | backend/app/repositories/prompt.py:67-71 | Under the invariant the latest number is the number of the prompt's versions |
| PromptVersionsSafety.TakenNumbers | backend/app/models/prompt.py:45-49 | Under the invariant the unique index holds exactly the numbers 1..n of a prompt |
| PromptVersionsSafety.StepKeepsInv | backend/app/repositories/prompt.py:73-93 | Every step of every transaction, prompt creation and deletion keeps consecutive histories, copies true to older versions, and at most one open inserter per prompt, at number n + 1 |
| PromptVersionsSafety.RunKeepsInv | backend/app/repositories/prompt.py:73-93 | The invariant holds after any run |
| PromptVersionsRuns.NumbersAreConsecutive | backend/app/repositories/prompt.py:67-93 | For every interleaving with aborts and deletes the committed versions of a prompt are numbered 1..n in commit order, and every rollback holds the content of the older version it names |
| PromptVersionsRuns.HistoryIsAppendOnly | backend/app/models/prompt.py:1-7 | From any point of any run on a living prompt's history only gets longer, unchanged before that; a deleted prompt stays deleted |
| PromptVersionsRuns.StaleReadsAbort | backend/app/repositories/prompt.py:83-93 | An insert goes through exactly when its number is still one past the committed ones; a stale read aborts; only a transaction that would still be next ever waits |
| PromptVersionsRuns.VersioningIsSerialisable | backend/app/repositories/prompt.py:73-93 | The committed prompts and versions are those of running, one at a time and in commit order, the creations, deletions and commits of the run, each commit with the prompt and content its transaction's latest begin step asked for |
| PromptVersionsContents.CommitStoresWhatWasBegun | backend/app/repositories/prompt.py:73-93 | A commit appends one version: of the prompt of its transaction's latest begin step, with exactly the content begun and marked as written, or exactly the content of the older version rolled back to and marked as its copy, numbered one past the prompt's history |
| PromptVersionsContents.CreationStoresFirstText | backend/app/api/v1/prompts.py:47-68 | A prompt created with a first text starts with version 1 holding exactly that text; without one, or with an empty one, it has no version |
| PromptVersionsContents.EveryVersionWasAskedFor | backend/app/repositories/prompt.py:73-93 | Every committed version's content was supplied by an earlier begin step or creation of its prompt if it is marked as written, and was that of the version a rollback named if it is marked as a copy |
| PromptVersionsRuns.RequestsGoThroughAlone | backend/app/repositories/prompt.py:73-93 | In every reachable state, while no transaction has inserted into a living prompt, a new transaction that writes to it or rolls it back to an older version goes through when left alone and appends exactly its version |
| PromptVersionsRuns.RollbackBeginsOnOlder | backend/app/api/v1/prompts.py:215-225 | A rollback can begin exactly on a version of the living prompt's history that is not its last one |
| PromptVersionsRuns.EndingsAreOpen | backend/app/api/v1/prompts.py:106-113 | Any open transaction can be given up with nothing else changed, any new prompt made, and a prompt deleted exactly when it lives and nobody has inserted into it, which leaves it no version |

## Left out

- Field coercions of ingested events (numbers, decimals, statuses, tags, truncation) and columns that are only copied: each is a one-line conversion; an event here arrives with its fields read.
- Backoff, blocking reads and the stop event of the consumer loop: they decide when a step happens, not what it does; a run here is any sequence of steps.
- DecodeCursor: accepts the ISO form that isoformat() prints and UUID text as Python prints or commonly reads it, and treats the other ISO spellings Python 3.11 accepts (week dates, basic format, a comma before the fraction) as malformed; cursors the API itself issues are never among them.
- CursorCodec.DecodedCursorsAreCanonical: speaks of the cursors the modelled decoder accepts, so not of those other spellings.
- KeysetPaging.Repository.ListPage: answers those other spellings with the malformed-cursor error, where Python would read them; requires a limit of at least 1, which the API guarantees; project scoping and extra filters only choose the table. A naive timestamp is compared as UTC.
- NiceInterval.PickNiceInterval: requires a positive gap; with a gap of 0 or less the division loop of the source does not end.
- RateLimiterRuns.SlidingBoundHolds: stated for a limit of at least 1; with less the middleware lets every request pass.
- Redelivery of a benchmark header task after a worker crash: a second run resets its item and progress claims stop holding.
- Scorer dispatch, prompt rendering and dataset reading of a benchmark item: calls into other systems; a task here gets some result.
- The commit of a recount is taken together with its update statement.
- Rounding and float conversion of percentages, costs and chart values, infinities and not-a-number: arithmetic is exact.
- Integer-like field names, which JavaScript lists first, in the first-number search of the time-series decimator: fields are taken in insertion order.
- Reading dates and values out of chart rows (Date, number or string): a row of `Projection` arrives with its date and value read or unreadable.
- The usage rankings, leaderboard and error-reason queries: the same grouping with a limit on top.
- Extraction of prompt variables, diffs between versions, the system prompt and note stored beside a version's content, and the prompt's name, description and timestamps.
- Edge fading of labels, Bezier paths, scales, React state and event wiring: drawing.
- OAuth, tokens, hashing, encryption, API keys, providers, deployments, routing configuration, retention schedules, backups, health probes and migrations: driven by outside systems or plain plumbing.
