# Call ledger: event ingestion, stale-call reconciliation, metrics and monitor

This project models the ledger-consistency core of a small call-tracking
service. A telephony webhook posts `call_started` and `call_ended` events;
the service keeps one row per call in a `calls` table (id, from number, to
number, start instant, end instant, duration in seconds, status
`started | ended | failed`). A scheduled job force-closes calls that were
left open between one and two hours. A metrics endpoint folds four read
queries into a snapshot under a retry-with-backoff combinator. A monitor
endpoint counts the calls still open after two hours.

Layout, one module per file:

- `wrappers.dfy` (`Wrappers`): `Option`.
- `utils.dfy` (`Utils`): the phone-number grammar and the `formatDuration`
  rendering ("1h 2m 3s"), with a parser that inverts the rendering.
- `retry.dfy` (`Retry`): `withRetry` as a loop over the outcomes of
  successive invocations. It returns the waits instead of sleeping.
- `calls.dfy` (`Calls`): the row type, the well-formedness invariant of the
  ledger, and `CallTable`, the storage collaborator. It is a class whose
  `rows` map is changed by `Insert` and `Close`.
- `events.dfy` (`Events`): the POST handler. `EventEffect` gives its meaning
  on ledger values. `Post`, `CallStarted` and `CallEnded` run it against a
  `CallTable` and are proved equal to it. They use the corrected date check
  `CheckEnd`; the handler as written is `CheckEndAsWritten` (see
  "## Findings").
- `stale_calls.dfy` (`StaleCalls`): the sweep. `Sweep` gives its meaning on
  values. `CheckStaleCalls` is the row-by-row loop over a `CallTable`.
- `monitor.dfy` (`Monitor`): the overdue count and how it relates to the
  sweep window.
- `metrics.dfy` (`Metrics`): the snapshot computation and the retried
  endpoint.

Instants are integers in milliseconds. Parsing is abstracted:

- the request's `started` is an already-parsed instant, or absent;
- `ended` is one of three cases: not a date, a date that is not ISO-8601,
  or an instant.

The store's own failures are inputs of each operation:

- an insert fault;
- a failed fetch;
- the outcome of an update;
- the set of rows whose reconciler update fails;
- the query batches seen by the metrics attempts.

Key collisions are decided by the ledger itself. The clock is a parameter
(`now`).

## Model

| member | source | states |
|---|---|---|
| Utils.IsValidPhoneNumber | src/lib/utils.ts:9-12 | accepted exactly when the text has at least one character, every character is an ASCII digit, and the one exception allowed is a '+' in first position |
| Utils.PhoneRejections | src/lib/utils.ts:9-12 | the empty text, a lone '+', and any text with a '+' after the first position are rejected |
| Utils.Split | src/lib/utils.ts:17-19 | hours*3600 + minutes*60 + seconds gives back the input, with minutes and seconds below 60 |
| Utils.DecimalString | src/lib/utils.ts:24-31 | the decimal text of a count is non-empty and all digits, with no leading zero: it starts with '0' exactly when the count is 0, and is one character long exactly when the count is below 10 |
| Utils.DecimalStringRoundTrip | src/lib/utils.ts:24-31 | reading the decimal text back yields the number |
| Utils.JoinParts | src/lib/utils.ts:21-33 | the parts pushed for hours, minutes and seconds, joined with single spaces, give the rendering |
| Utils.FormatDuration | src/lib/utils.ts:14-34 | the pushed-then-joined parts equal the rendering FormattedDuration: "0s" when not positive, else the non-zero hours and minutes and always the seconds, separated by spaces |
| Utils.FormattedDurationUnits | src/lib/utils.ts:15-31 | for a positive count: an 'h' appears exactly when the whole hours are non-zero, an 'm' exactly when the leftover minutes are non-zero, and the text ends in 's' |
| Utils.FormattedDurationRoundTrip | src/lib/utils.ts:14-34 | parsing the rendering gives back the number of seconds (0 for a non-positive input), so the rendering loses nothing |
| Retry.WithRetry | src/lib/retry.ts:2-18 | invokes the operation at most maxRetries times; stops at the first value; rethrows the last error after exactly maxRetries failures; every earlier invocation threw; the generic "all retry attempts failed" error occurs exactly when maxRetries <= 0, with no invocation; the k-th wait is delay * 2^k, with no wait after the last attempt |
| Calls.ElapsedSeconds | src/app/api/events/route.ts:82-84 | whole seconds rounded down: secs*1000 <= end-start < secs*1000+1000; non-negative exactly when the end is not before the start |
| Calls.Closed | src/app/api/events/route.ts:140-148 | the update sets status ended, the end instant and the duration, and keeps id, numbers and start |
| Calls.IdsWithStatus | src/app/api/metrics/route.ts:35-42 | the filtered ids are ledger keys, and a row's id is among them exactly when the row carries the requested status |
| Calls.StatusCountsBounded | src/types/types.ts:38-46 | failed and open calls together never outnumber the rows |
| Calls.InsertError | src/app/api/events/route.ts:37-48 | the insert fails exactly when the store faults or the id is already present; an injected store fault is the error reported; a collision with no other fault reports 23505 |
| Calls.CallTable.Insert | src/app/api/events/route.ts:37-43 | reports InsertError; adds the row when there is no error and leaves the table unchanged otherwise, so a collision never overwrites |
| Calls.CallTable.Find | src/app/api/events/route.ts:54-58 | finds a row exactly when the id is present, and it is that row |
| Calls.CallTable.Close | src/app/api/events/route.ts:140-147 | replaces the row with that id by its closed form, when present, and changes nothing else |
| Events.EventResponse.StatusCode | src/app/api/events/route.ts:14-197 | every answer is one of 200, 201, 400, 404, 409, 500; 201 exactly for "call started logged", 200 exactly for "call ended logged", 404 exactly for "call not found", 409 exactly for the duplicate id, 500 exactly for the failed update and internal errors |
| Events.StoreErrorResponse | src/app/api/events/route.ts:169-195 | a store error answers 409 exactly for 23505, 400 exactly for 22001, and 500 for every other code |
| Events.Fetched | src/app/api/events/route.ts:54-62 | a row is fetched exactly when the id is given, the fetch succeeds and the id is present |
| Events.CheckEnd | src/app/api/events/route.ts:60-138 | 404 without a row; 400 "already ended" for an ended row; 400 "invalid date" when `ended` is not an ISO instant; accepted exactly when the whole seconds from start to end lie in [0, 3600], and then the duration is the floor of the elapsed time; for an open row and an ISO end, fewer than 0 whole seconds is refused as a negative duration and more than 3600 as too long, carrying the formatDuration rendering of those seconds; every rejection is 400 or 404 |
| Events.CheckEndAsWritten | src/app/api/events/route.ts:86-97 | differs from CheckEnd exactly for an open row whose `ended` is not a date, and there answers the 500 of the RangeError |
| Events.UnreadableEndIsServerError | src/app/api/events/route.ts:80-97 | for an open call and an unreadable `ended`, the handler as written answers 500 where the corrected check answers 400 |
| Events.StartEffect | src/app/api/events/route.ts:30-52 | 201 exactly when id, from and to are present, there is no store fault and the id is new; a missing id, from or to answers "missing fields"; an injected store fault answers as the catch block maps its code; the row is then added as started, with the given start or else now, and every other row is kept; any other answer leaves the ledger as it was; a repeated id answers 409; the ledger invariant is preserved |
| Events.EndEffect | src/app/api/events/route.ts:53-162 | 200 exactly when the row is fetched, CheckEnd accepts and the update applies; the open row is then closed with the elapsed whole seconds, at most 3600, and the response carries their rendering; otherwise nothing changes; every refusal of CheckEnd (404, "already ended", invalid date, negative, too long) is the response; a store error on update answers as the catch block maps its code; no matching row on update gives 500; keys are never added or removed; ended rows never change; the ledger invariant is preserved |
| Events.EventEffect | src/app/api/events/route.ts:14-197 | a bad phone number on either side answers 400 before anything else and changes nothing; an unknown type answers 400; for call_started, "missing fields" occurs exactly when the id is absent; every non-2xx answer leaves the ledger as it was; at most one row is added; ended rows are immutable; the ledger invariant is preserved |
| Events.CallStarted | src/app/api/events/route.ts:30-52 | the response and the new table are exactly StartEffect of the old table |
| Events.CallEnded | src/app/api/events/route.ts:53-162 | the response and the new table are exactly EndEffect of the old table |
| Events.Post | src/app/api/events/route.ts:14-197 | the response and the new table are exactly EventEffect of the old table |
| Events.SecondStartIsDuplicate | src/app/api/events/route.ts:37-48 | after a successful call_started, any further clean call_started for that id answers 409 and changes nothing |
| Events.SecondEndIsRejected | src/app/api/events/route.ts:70-78 | after a successful call_ended, any further call_ended for that id that reaches the row answers "already ended" and changes nothing |
| Events.OneHourBoundary | src/app/api/events/route.ts:122-138 | an end 3600.999 s after the start is accepted with 3600; one at 3601 s is refused with the rendering of 3601 |
| Events.EndBeforeStartIsNegative | src/app/api/events/route.ts:112-120 | an end before the start of an open call is refused as a negative duration |
| StaleCalls.Candidates | src/app/jobs/check-stale-calls.ts:17-22 | a row's id is a candidate exactly when the row is open and started in [now-2h, now-1h], both ends included |
| StaleCalls.ForceClosed | src/app/jobs/check-stale-calls.ts:38-44 | the forced close sets status ended, ends the call now, records the elapsed time rounded down to whole seconds, and keeps id, numbers and start |
| StaleCalls.ForceClosedWithinTwoHours | src/app/jobs/check-stale-calls.ts:36-45 | a forced close of a candidate records a duration between 3600 and 7200 s |
| StaleCalls.CloseAll | src/app/jobs/check-stale-calls.ts:35-55 | keeps the set of ids; every row in the given set is force-closed at now and every other row is left exactly as it was |
| StaleCalls.Sweep | src/app/jobs/check-stale-calls.ts:10-61 | keeps the ids; leaves every non-candidate and every failed update unchanged; a candidate whose update succeeds ends now, with the elapsed whole seconds and its other columns kept |
| StaleCalls.CheckStaleCalls | src/app/jobs/check-stale-calls.ts:10-61 | a failed fetch returns 0 and changes nothing; otherwise the table becomes Sweep of the old one, visiting candidates in any order, and the count is the number of candidates whose update succeeded, never more than the candidates |
| StaleCalls.SweepDurationsWithinTwoHours | src/app/jobs/check-stale-calls.ts:36-45 | every duration the sweep writes lies between one and two hours |
| StaleCalls.SweepIdempotent | src/app/jobs/check-stale-calls.ts:17-22 | a second sweep at the same instant with the same failures changes nothing |
| StaleCalls.SweepRetryCompletes | src/app/jobs/check-stale-calls.ts:47-54 | a clean retry at the same instant closes exactly what a clean first sweep would have closed |
| StaleCalls.SweepPreservesLedgerValid | src/app/jobs/check-stale-calls.ts:36-45 | the sweep keeps the ledger well formed, even though its durations pass the 3600 s ceiling of the event path |
| StaleCalls.SweepScenarios | src/app/jobs/check-stale-calls.ts:17-22 | a call open 90 minutes is closed with 5400 s; calls open 30 or 150 minutes are left alone |
| Monitor.Overdue | src/app/api/monitor/route.ts:11-17 | exactly the open calls that started strictly before now-2h; a subset of the open calls |
| Monitor.MonitorGet | src/app/api/monitor/route.ts:6-38 | 200 exactly when the query neither reports an error nor throws; the count is the number of overdue calls, at most the number of open calls; error and exception each give their 500 |
| Monitor.OpenCallBands | src/app/api/monitor/route.ts:11-17 | every open call is in exactly one band: started within the last hour, a sweep candidate, or overdue |
| Monitor.SweepKeepsOverdue | src/app/api/monitor/route.ts:13-17 | a sweep at the same instant leaves the overdue set unchanged |
| Monitor.SweptCallNeverOverdue | src/app/api/monitor/route.ts:13-17 | a call the sweep closed is never counted as overdue afterwards |
| Monitor.OverdueGrows | src/app/api/monitor/route.ts:11-17 | with the ledger fixed, the overdue set and its count only grow as time passes |
| Monitor.TwoHourBoundary | src/app/api/monitor/route.ts:17 | a call started exactly two hours ago is a sweep candidate and not overdue; one millisecond earlier it is overdue and no longer a candidate |
| Metrics.ValidDurations | src/app/api/metrics/route.ts:59-61 | a number is among the durations exactly when some cell holds it, and there are as many durations as non-null cells |
| Metrics.ValidDurationsCounts | src/app/api/metrics/route.ts:59-61 | each number occurs among the durations exactly as many times as the cells hold it |
| Metrics.ValidDurationsAppend | src/app/api/metrics/route.ts:59-61 | the filter keeps the column's order: the durations of two columns laid end to end are their durations laid end to end |
| Metrics.MaxOf | src/app/api/metrics/route.ts:76-77 | an element of the list, no smaller than any element |
| Metrics.MinOf | src/app/api/metrics/route.ts:78-79 | an element of the list, no larger than any element |
| Metrics.SumBounds | src/app/api/metrics/route.ts:72-75 | the sum of n values in [lo, hi] lies between n copies of lo and n copies of hi |
| Metrics.ScaleIsProduct | src/app/api/metrics/route.ts:72-75 | n copies of x add up to x * n |
| Metrics.ErrorRate | src/app/api/metrics/route.ts:71 | 0 when there are no calls; never negative; 0 exactly when there are no failures or no calls; at most 100 when the failures are a part of the total; otherwise rate * total = failed * 100 |
| Metrics.AverageDuration | src/app/api/metrics/route.ts:72-75 | 0 for an empty list; otherwise the mean times the length is the sum |
| Metrics.AverageWithinBounds | src/app/api/metrics/route.ts:72-75 | the mean lies within any bounds that every element lies within |
| Metrics.AverageBetweenMinAndMax | src/app/api/metrics/route.ts:72-79 | minimum <= mean <= maximum |
| Metrics.ComputeMetrics | src/app/api/metrics/route.ts:31-81 | a rejected batch rethrows its reason; a value is returned exactly when all four results are present, and otherwise "Failed to fetch complete metrics data" is thrown; each count is its result's count or 0; the error rate is ErrorRate of those counts |
| Metrics.DurationStatistics | src/app/api/metrics/route.ts:59-80 | with no numeric duration, mean, maximum and minimum are 0; otherwise the maximum and minimum are durations present in the column, bound every duration, and enclose the mean, which is the sum of the numeric durations divided by their number |
| Metrics.CountOrZero | src/app/api/metrics/route.ts:63-65 | a result's count when it has one, and 0 when the count is null |
| Metrics.ErroredResultsZeroFill | src/app/api/metrics/route.ts:46-65 | results that are present but carry errors and null payloads yield an all-zero snapshot, not a failure |
| Metrics.MetricsOfLedger | src/app/api/metrics/route.ts:32-80 | on a well-formed ledger the snapshot counts all rows, the failed rows and the open rows; failed plus open never exceed the total; the error rate is in [0, 100]; 0 <= min <= max <= 7200 |
| Metrics.ExampleDurations | src/app/api/metrics/route.ts:59-61 | nulls are dropped from [10, null, 20, 30] |
| Metrics.ExampleStatistics | src/app/api/metrics/route.ts:72-79 | [10, 20, 30] has mean 20, maximum 30, minimum 10 |
| Metrics.ExampleErrorRate | src/app/api/metrics/route.ts:71 | one failed call of four is an error rate of 25 |
| Metrics.MetricsExample | src/app/api/metrics/route.ts:63-80 | durations 10, 20, 30 with one failed call of four give mean 20, max 30, min 10 and error rate 25 |
| Metrics.EmptyLedgerMetrics | src/app/api/metrics/route.ts:63-80 | the empty ledger gives zero for every figure |
| Metrics.GetMetrics | src/app/api/metrics/route.ts:18-95 | 401 with no attempt when there is no session; otherwise 1 to 3 attempts, all but the last thrown; 200 exactly when one of the first three attempts returns, carrying that attempt's snapshot; a 500 comes after three attempts, carries the third attempt's error, and waited 1000 and then 2000 ms |

## Findings

| source | as written | input that shows it | evidently intended | confidence | as-written member | corrected member |
|---|---|---|---|---|---|---|
| src/app/api/events/route.ts:86-97 | the debug log formats the end instant with `toISOString()` before the date checks; on an invalid date this throws a RangeError, which the catch block turns into a 500 "Invalid time value" | a call_ended for an open call with `ended` absent or unreadable, e.g. `"yesterday"` | the 400 "Invalid date format" of the check at lines 92-97 | high (not executed) | Events.CheckEndAsWritten, Events.UnreadableEndIsServerError | Events.CheckEnd |

## Left out

- Events.EndEffect: uses the corrected `CheckEnd`. For an open call whose
  `ended` is not a date, the handler as written answers 500 "Invalid time
  value" (modelled by `CheckEndAsWritten`); EndEffect answers 400.
- Events.EventEffect: built on EndEffect, so it gives the corrected 400 for
  an unreadable `ended`, not the 500 of the handler as written.
- Events.CallEnded: proved equal to EndEffect, so it carries the same
  corrected date check.
- Events.Post: proved equal to EventEffect, so it carries the same corrected
  date check.
- Timestamp parsing is not modelled. `started` and `ended` arrive as
  instants, and the `Stamp` cases stand for what `new Date` and `parseISO`
  make of the text.
- The event handler reads the stored start with a `Z` appended. The
  reconciler parses it without one. For a column stored without an offset
  and a host clock not in UTC, the two disagree by the host's offset. The
  model treats both as the same instant. The `Z` form is also assumed to
  parse, so the debug log at events/route.ts line 67 does not throw.
- Events.InternalError: carries the store error's code where the handler
  answers with the error's message text.
- Input that is not a string (for example a numeric `call_id` or `from`) and
  a body that is not JSON are not modelled. The JSON read happens before the
  `try` block. The `from`/`to` half of the missing-fields check can never
  fire: an absent number is read as the text "undefined" and is refused by
  the phone check first.
- A `call_ended` may close a row whose status is `failed`, as the code
  allows. The model keeps that behaviour.
- StaleCalls.CheckStaleCalls: uses one instant `now` for the whole sweep.
  The job reads the clock again for each update, so its durations can
  exceed the window by the time the loop itself takes.
- An update that matches no row reports no error in the reconciler, so it
  still counts. The model never deletes rows, so that case does not arise.
- Concurrency is not modelled: the race between a `call_ended` and the sweep
  on the same call, and the concurrent `Promise.all` queries of the metrics
  endpoint. Each operation is applied atomically, one after another, and a
  rejected batch carries one reason.
- Metrics.ErrorRate and Metrics.AverageDuration: computed in exact rational
  arithmetic rather than IEEE-754 doubles, so rounding is not modelled.
- Retry.WithRetry: does not sleep; it returns the waits. A `maxRetries` that
  is not an integer is not modelled.
- The metrics queries' `error` fields are ignored by the code. Only a missing
  result object fails an attempt. A store that answers with error objects
  therefore gets an all-zero snapshot (Metrics.ErroredResultsZeroFill). The
  model follows the code here, where a stricter reading would fail the
  aggregation.
- Authentication is a boolean `hasSession`. An exception raised while
  creating the client or reading the session (a 500) is not modelled.
- Console logging, the cron route that schedules the job, and the creation
  of the store client from environment variables are outside this model.
