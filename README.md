# tmago core, modelled in Dafny

tmago is a command-line API tester. It reads a YAML file that lists HTTP endpoints. For each endpoint the file gives:

- an expected status code;
- a maximum response time;
- the values expected at top-level keys of a JSON response;
- a retry policy;
- optionally, a number of concurrent virtual users and a total number of requests.

For each endpoint the `Runner` does one of two things:

- **Single path:** it tries the request until one valid response arrives or the retries run out.
- **Concurrent path:** it starts the users and folds their results into one `TestResult`.

Every finished record goes to the `Reporter`, which:

- computes latency percentiles and response-size statistics;
- later aggregates all records into the figures of the HTML report.

This project models that core:

- `config.dfy` (module `Config`): the configuration records, and `Config.Validate` with its first-offender error order.
- `validator.dfy` (module `Validator`): `Validator.Validate`, which holds a response against an expectation and yields the ordered list of violations.
- `sorting.dfy` (module `Sorting`): an ascending sort of durations. It has a reference definition, an in-place insertion sort on an `array`, and a proof that any sorted permutation equals it.
- `reporter.dfy` (module `Reporter`): `calculatePercentiles`, the `Reporter` object with its `results` list, `AddResult`, and the integer statistics of `prepareReport`.
- `runner.dfy` (module `Runner`): the retry loop of `runSingle`; the per-user request loop and the result and error folds of `runConcurrent`; and `Run` over all endpoints with the `Runner` object.
- `common.dfy` (module `Common`): Go's truncating integer division, `m[k]++` on Go maps, sums, and extrema.

The network, clocks and goroutine scheduling are parameters of the model:

- **Single path:** `outcome(i)` is the outcome of attempt `i`, and `elapsed(i)` is its measured duration.
- **Concurrent path:** `step(u, j)` is what user `u` sees at its `j`-th request.
- **Delivery order:** `arrivals` and `failures` are the orders in which the two channels deliver. They are constrained only to be permutations (multiset equality) of what the users sent; the predicate `Delivered` states this.

Durations are integers (nanoseconds, as in Go's `time.Duration`).

## Model

| member | source | states |
|---|---|---|
| Config.CheckEndpoint | internal/config/config.go:78-90 | an endpoint is accepted iff it is well-formed; a missing URL is reported first, then a missing method, then users without a total, each naming the endpoint |
| Config.CheckEndpoints | internal/config/config.go:78-92 | the loop over the endpoints, returning the first endpoint's error; characterised by `Config.CheckEndpointsAccepts` and `Config.CheckEndpointsFirstOffender` |
| Config.Validate | internal/config/config.go:72-93 | rejects an empty endpoint list first, then runs the endpoint loop; characterised by `Config.ValidateAccepts`, `Config.EmptyConfigRejected` and `Config.ValidateReportsFirstOffender` |
| Config.EmptyConfigRejected | internal/config/config.go:73-76 | a config without endpoints is rejected with "no endpoints defined" |
| Config.CheckEndpointsAccepts | internal/config/config.go:78-92 | the endpoint loop accepts iff every endpoint is well-formed |
| Config.ValidateAccepts | internal/config/config.go:72-93 | `Validate` accepts iff there is at least one endpoint and every endpoint is well-formed |
| Config.CheckEndpointsFirstOffender | internal/config/config.go:78-91 | the error returned is the one of the first ill-formed endpoint |
| Config.CheckEndpointIntended | internal/config/config.go:87-90 | the corrected check: it accepts exactly the well-formed endpoints whose users have a positive total, and reports every error the written check reports |
| Config.ValidateReportsFirstOffender | internal/config/config.go:72-93 | `Validate` reports the first ill-formed endpoint, and endpoints after it do not change the verdict |
| Config.RequestsPerUserShare | internal/runner/runner.go:126 | `Total / Users` is the largest share `n` with `n * Users <= Total` |
| Common.GoDiv | internal/runner/runner.go:126 | Go's integer `/`, truncating toward zero, defined only for a non-zero divisor; `Common.GoDivBounds` states the truncation |
| Common.GoDivBounds | internal/runner/runner.go:126 | by a positive divisor the quotient is rounded down for a non-negative dividend and up for a negative one |
| Common.Inc | internal/runner/runner.go:106 | Go's `m[k]++` on a map: key `k` gains one, counting a missing key as 0, and every other key keeps its count |
| Common.MapSeq | internal/reporter/reporter.go:29-32 | a function applied to each element, in order, as the copying loops do |
| Common.MaxFrom | internal/reporter/reporter.go:198-200 | the running `if x > max { max = x }` from a start value: at least the start and every element, and equal to one of them |
| Common.MinFrom | internal/reporter/reporter.go:201-203 | the running `if x < min { min = x }` from a start value: at most the start and every element, and equal to one of them |
| Config.RequestsPerUser | internal/runner/runner.go:126 | `Total / Users` with Go's truncation; `Config.RequestsPerUserShare` characterises it |
| Config.FewerRequestsThanUsersAccepted | internal/config/config.go:87-90 | a config with `0 < Total < Users` passes validation, yet gives each user zero requests |
| Validator.CheckValue | internal/validator/validator.go:81-88 | one value check adds no violation iff the key is present and its `%v` text equals the expected one; otherwise it adds exactly "path not found" or the mismatch with both texts |
| Validator.CheckPasses | internal/validator/validator.go:81-84 | a value check passes when the key is present and its `%v` text equals the expected one; `Validator.CheckValue` and `Validator.CheckValuesEmpty` state it |
| Validator.CheckValues | internal/validator/validator.go:80-90 | the value checks' violations in list order; characterised by `Validator.CheckValuesConcat`, `Validator.CheckValuesCount` and `Validator.CheckValuesEmpty` |
| Validator.Violations | internal/validator/validator.go:56-98 | the status, duration and body violations of one response, in that order; characterised by `Validator.ValidIff`, `Validator.StatusViolationFirst`, `Validator.DurationViolation` and `Validator.ViolationCount` |
| Validator.Validated | internal/validator/validator.go:56-98 | the shape of every result of `Validate`: valid iff no violation, status code 0, empty body; `Validator.Validate` ensures it |
| Validator.CheckAll | internal/validator/validator.go:80-90 | the loop over the expected values yields the violations of the checks, in order |
| Validator.Validate | internal/validator/validator.go:56-98 | the result's errors are the status, duration and body-check violations in that order; `IsValid` holds iff there are none; the duration is kept; the status code and body are never filled in, so the result is `Validated` |
| Validator.CheckValuesConcat | internal/validator/validator.go:80-90 | the checks' violations concatenate over a split of the checks |
| Validator.CheckValuesCount | internal/validator/validator.go:80-90 | there is one violation per failing check, no more than there are checks, and each is "path not found" or a mismatch |
| Validator.CheckValuesEmpty | internal/validator/validator.go:80-90 | the checks yield no violation iff every check passes |
| Validator.ValidIff | internal/validator/validator.go:63-93 | a response is valid iff the status matches, the duration is within the maximum, and (when there are checks) the body decodes and every check passes |
| Validator.StatusViolationFirst | internal/validator/validator.go:63-66 | a status mismatch is the first violation; there is never a second one, and there is none when the status matches |
| Validator.DurationViolation | internal/validator/validator.go:69-72 | a response that is too slow yields exactly one "too slow" violation, right after the status violation if there is one, and no other "too slow" entry; a response in time yields none |
| Validator.NoChecksNoParse | internal/validator/validator.go:74 | without value checks the body is never decoded, and there are at most two violations |
| Validator.MalformedBodyOneViolation | internal/validator/validator.go:76-78 | an undecodable body with checks yields one final "failed to unmarshal" violation, preceded only by status and duration violations |
| Validator.ViolationCount | internal/validator/validator.go:56-98 | the exact number of violations, at most 2 plus the number of checks |
| Validator.TitleScenario | internal/validator/validator.go:80-88 | a `title` check passes on the expected value and reports the mismatch on another value |
| Sorting.Insert | internal/reporter/reporter.go:141-143 | insertion adds exactly one occurrence of the element |
| Sorting.InsertSorted | internal/reporter/reporter.go:141-143 | insertion keeps a sequence ascending |
| Sorting.InsertAt | internal/reporter/reporter.go:141-143 | the element lands just before the first larger one |
| Sorting.Sort | internal/reporter/reporter.go:141-143 | the sorted rearrangement by repeated insertion; `Sorting.SortSorts` proves it ascending and a permutation |
| Sorting.SortSorts | internal/reporter/reporter.go:141-143 | the reference sort is ascending and a permutation of its input |
| Sorting.SortedUnique | internal/reporter/reporter.go:141-143 | two ascending permutations of the same collection are equal, so `sort.Slice`'s own algorithm gives the same array |
| Sorting.SinkInto | internal/reporter/reporter.go:141-143 | one insertion step extends the sorted prefix by one and leaves the rest of the array unchanged |
| Sorting.SortInPlace | internal/reporter/reporter.go:141-143 | sorting in place leaves the array equal to the sorted rearrangement of its old contents |
| Reporter.Rank | internal/reporter/reporter.go:146-150 | the index `n * p / 100` of percentile `p` is in range for every `p < 100` |
| Reporter.RankMonotone | internal/reporter/reporter.go:146-150 | a higher percentile never has a lower index |
| Reporter.PercentilesOf | internal/reporter/reporter.go:136-152 | the five percentiles read at the `Rank` indices of a sorted list, all zero for an empty one; characterised by `Reporter.PercentilesOfSorted` and `Reporter.NoDurationsNoPercentiles` |
| Reporter.PercentilesOfSorted | internal/reporter/reporter.go:145-151 | on a sorted list, P50 ≤ P75 ≤ P90 ≤ P95 ≤ P99 ≤ the maximum, and each is an element of the list |
| Reporter.PercentilesOrdered | internal/reporter/reporter.go:136-152 | the percentiles of any non-empty duration list are ordered and each is one of the measured durations |
| Reporter.NoDurationsNoPercentiles | internal/reporter/reporter.go:137-139 | no durations give all-zero percentiles |
| Reporter.CalculatePercentiles | internal/reporter/reporter.go:136-152 | sorts the caller's slice in place into its sorted rearrangement, and returns the percentiles read from it |
| Reporter.Durations | internal/reporter/reporter.go:29-32 | one duration per request detail, in order, as an instance of `Common.MapSeq` |
| Reporter.Sizes | internal/reporter/reporter.go:41-42 | one response size per request detail, in order, as an instance of `Common.MapSeq` |
| Reporter.Total | internal/reporter/reporter.go:50 | the `totalSize += size` sum of the sizes; `Reporter.SizeStatsBounds` bounds its mean |
| Reporter.SizeStatsOf | internal/reporter/reporter.go:38-54 | minimum from the first size, maximum from zero, truncated mean; `Reporter.SizeStatsBounds` proves the bounds |
| Reporter.SizeStatsBounds | internal/reporter/reporter.go:38-54 | the minimum and maximum are sizes that occur and bound all sizes, and the truncated average lies between them |
| Reporter.Finish | internal/reporter/reporter.go:27-57 | the record as `AddResult` stores it; characterised by `Reporter.FinishKeepsRecord` and `Reporter.FinishChangesOnlyStatistics` |
| Reporter.FinishKeepsRecord | internal/reporter/reporter.go:27-57 | `AddResult` changes no field except the percentiles and the response sizes |
| Reporter.FinishChangesOnlyStatistics | internal/reporter/reporter.go:27-57 | besides that: without details, the percentiles are zero and the size statistics are untouched; with details, the percentiles are ordered |
| Reporter.MaxLatencies | internal/reporter/reporter.go:198-200 | the records' maximum latencies, in order |
| Reporter.MinLatencies | internal/reporter/reporter.go:201-203 | the records' minimum latencies, in order |
| Reporter.GlobalAverageAsWritten | internal/reporter/reporter.go:193-218 | the global average panics iff the records' request counts sum to zero |
| Reporter.RequestsSum | internal/reporter/reporter.go:192 | the summed `TotalRequests`; `Reporter.ReportOrderIndependent` and `Reporter.GlobalAverageAsWritten` use it |
| Reporter.FailuresSum | internal/reporter/reporter.go:195 | the summed `FailureCount`; `Reporter.ReportOrderIndependent` proves it independent of the order |
| Reporter.TimeoutsSum | internal/reporter/reporter.go:196 | the summed `TimeoutCount`; `Reporter.ReportOrderIndependent` proves it independent of the order |
| Reporter.BytesSum | internal/reporter/reporter.go:194 | the summed `BytesTransferred`; `Reporter.ReportOrderIndependent` proves it independent of the order |
| Reporter.LatencySum | internal/reporter/reporter.go:193 | the summed `AverageLatency * TotalRequests`; `Reporter.LatencySumBetween` bounds it |
| Reporter.GlobalAveragePanicsWithoutRequests | internal/reporter/reporter.go:218 | records that all have zero requests make `prepareReport` divide by zero |
| Reporter.GlobalAverage | internal/reporter/reporter.go:218 | the corrected average agrees with the source wherever the source does not panic, and is 0 otherwise |
| Reporter.LatencySumBetween | internal/reporter/reporter.go:193 | the request-weighted latency sum lies between `lo` and `hi` times the number of requests |
| Reporter.GlobalAverageBetween | internal/reporter/reporter.go:193-218 | the global average lies between the smallest and largest per-record averages |
| Reporter.ReportOf | internal/reporter/reporter.go:174-225 | the integer report: the records, their count, the summed requests and the global statistics; characterised by `Reporter.ReportOrderIndependent`, `Reporter.ExtremaMonotone` and `Reporter.EmptyReport` |
| Reporter.ExtremaMonotone | internal/reporter/reporter.go:185-203 | more records never lower the global maximum and never raise the global minimum (which starts at 24 h) |
| Reporter.ReportOrderIndependent | internal/reporter/reporter.go:174-225 | the global statistics, total requests and endpoint count do not depend on the order of the records |
| Reporter.EmptyReport | internal/reporter/reporter.go:182-225 | no records give zero totals, a zero maximum and a 24 h minimum |
| Reporter.CollectDurations | internal/reporter/reporter.go:29-32 | builds a fresh array holding the details' durations in order |
| Reporter.ResponseSizeStats | internal/reporter/reporter.go:38-54 | the size loop computes the minimum, the maximum and the truncated average of the sizes |
| Reporter.Reporter.constructor | internal/reporter/reporter.go:17-21 | a new reporter has no results |
| Reporter.Reporter.AddResult | internal/reporter/reporter.go:27-57 | appends exactly the record with its percentiles and size statistics filled in |
| Reporter.Reporter.PrepareReport | internal/reporter/reporter.go:174-225 | the report is the aggregate of the current records: their sums, extrema and average |
| Runner.AttemptBound | internal/runner/runner.go:91 | the retry loop runs `Count + 1` times, and not at all for a negative count |
| Runner.AttemptError | internal/runner/runner.go:100-114 | the `lastErr` an unsuccessful attempt leaves: the transport error, or "validation failed" with the response's violations; `Runner.SingleResultSpec` states that the last one is returned |
| Runner.FirstValidBelow | internal/runner/runner.go:91-112 | finds the first valid attempt below a bound; every earlier attempt is invalid, and if none is found there is no valid attempt below the bound |
| Runner.Attempts | internal/runner/runner.go:91-115 | the number of attempts made is at least one (for a non-negative count) and at most the bound |
| Runner.Reached | internal/runner/runner.go:100-105 | no more attempts reach the server than were made |
| Runner.SingleCodes | internal/runner/runner.go:105-106 | the histogram after the first `k` attempts; `Runner.SingleCodesTally` and `Runner.SingleCodesCounts` give it in closed form |
| Runner.ReachedResponses | internal/runner/runner.go:100-106 | the responses of the attempts that reached the server, in order; `Runner.ReachedResponsesCount` counts them |
| Runner.ReachedResponsesValidated | internal/runner/runner.go:100-106 | with validated responses, every reached response is validated |
| Runner.SingleCodesZero | internal/runner/runner.go:105-106 | with validated responses, the single-path histogram of a fresh record is empty or has only key 0, counting every reached attempt |
| Runner.ReachedResponsesCount | internal/runner/runner.go:100-106 | one counted response per attempt that reached the server |
| Runner.SingleCodesTally | internal/runner/runner.go:105-106 | the single path's histogram is the tally of the responses that reached the server |
| Runner.SingleCodesCounts | internal/runner/runner.go:105-106 | in closed form: the single path's histogram gains exactly each reached response's status code, counted once per response |
| Runner.SingleResult | internal/runner/runner.go:89-119 | the record and error `runSingle` ends with; characterised by `Runner.SingleResultSpec`, `Runner.SingleResultFound` and `Runner.SingleResultExhausted` |
| Runner.SingleResultSpec | internal/runner/runner.go:89-119 | `runSingle` counts every attempt that got a response; if some attempt within the bound is valid, it adds one success and no failure, keeps the first valid attempt's latency and returns no error; otherwise it adds one failure and no success, makes all the attempts, keeps the latency and returns the last attempt's error; nothing else changes |
| Runner.Schedule | internal/runner/runner.go:92-97 | attempts alternate with sleeps of the retry delay, with no sleep before the first attempt |
| Runner.SingleResultFound | internal/runner/runner.go:108-112 | the state at a valid attempt that had no valid predecessor is the final result |
| Runner.SingleResultExhausted | internal/runner/runner.go:115-118 | with no valid attempt, the loop runs to the end, counts a failure and returns the last error |
| Runner.RunSingle | internal/runner/runner.go:89-119 | the retry loop computes exactly the single-path result and error, and sleeps between attempts only |
| Runner.AlwaysInvalidScenario | internal/runner/runner.go:89-119 | two retries against an always-invalid server give three requests, one failure and the last validation error |
| Runner.ImmediateSuccessScenario | internal/runner/runner.go:89-119 | a valid first response ends the loop after one request, with that latency |
| Runner.AlwaysUnreachableScenario | internal/runner/runner.go:89-119 | an unreachable server adds no request count and no status code, but one failure and the last transport error |
| Runner.ReachedNone | internal/runner/runner.go:100-106 | attempts that never reach the server leave the counters and the histogram unchanged |
| Runner.UserRun | internal/runner/runner.go:137-153 | a user sends responses in request order until it stops at its first error; it sends all its requests iff it stops with no error |
| Runner.Continues | internal/runner/runner.go:139-147 | a slot at which the goroutine goes on: the context is not done and the request returned a response; `Runner.UserRun` states that a user sends responses exactly while it continues |
| Runner.StopFailure | internal/runner/runner.go:139-147 | the error a user sends before returning: `ctx.Err()` when the context is done, else the request's error; `Runner.UserRun` and `Runner.AllFailures` state it |
| Runner.UserRunStopped | internal/runner/runner.go:139-147 | once a user has returned, further rounds add nothing |
| Runner.UserLoop | internal/runner/runner.go:137-153 | one user's goroutine loop produces exactly that user's messages |
| Runner.AllSent | internal/runner/runner.go:133-155 | the users send at most `users * perUser` results |
| Runner.AllFailures | internal/runner/runner.go:133-155 | at most one error per user, each a cancellation or a transport error |
| Runner.PerUser | internal/runner/runner.go:126 | the non-negative share of requests per user; `Config.RequestsPerUserShare` characterises it |
| Runner.Delivered | internal/runner/runner.go:133-162 | the channels deliver exactly what the users sent, in some order (equal multisets); `Runner.ArrivalBounds` and `Runner.ConcurrentOrderIndependent` use it |
| Runner.Supplied | internal/runner/runner.go:121-162 | for a concurrent endpoint: a non-negative `Total` (`make(chan …, Total)` panics otherwise) and channels that are `Delivered`; `Runner.Runner.Run` requires it of every endpoint |
| Runner.Reasons | internal/runner/runner.go:172 | one message per violation, in order |
| Runner.InvalidReasons | internal/runner/runner.go:171-172 | the messages of the invalid results, in arrival order; `Runner.InvalidReasonsConcat` and `Runner.InvalidReasonsAllValid` characterise it |
| Runner.DurationsOf | internal/runner/runner.go:175-181 | the received results' durations, in order, as an instance of `Common.MapSeq` |
| Runner.Tally | internal/runner/runner.go:167 | one `StatusCodes[code]++` per received result; `Runner.TallyCounts` gives it in closed form |
| Runner.MinUnset | internal/runner/runner.go:175-177 | Go's running minimum in which 0 means unset; characterised by `Runner.MinUnsetOfPositive` and `Runner.MinUnsetOrderMatters` |
| Runner.Collected | internal/runner/runner.go:165-182 | the record after the arrivals; characterised by `Runner.CollectedCounts` and `Runner.CollectedOrderIndependent` |
| Runner.CollectedCounts | internal/runner/runner.go:168-172 | every received result adds exactly one success or one failure |
| Runner.TallyCounts | internal/runner/runner.go:167 | the histogram gains exactly each received status code, counted once per result |
| Runner.CodesPermutation | internal/runner/runner.go:166-167 | the set of codes received does not depend on the arrival order |
| Runner.TallyOrderIndependent | internal/runner/runner.go:167 | the histogram does not depend on the arrival order |
| Runner.CollectedOrderIndependent | internal/runner/runner.go:165-182 | counts, histogram, maximum latency and total latency do not depend on the arrival order |
| Runner.MaxDurationMonotone | internal/runner/runner.go:178-180 | more results never lower the maximum latency |
| Runner.MinUnsetOfPositive | internal/runner/runner.go:175-177 | with positive durations, the "0 means unset" minimum is the least received duration |
| Runner.MinUnsetOrderMatters | internal/runner/runner.go:175-177 | with a zero duration the minimum depends on the arrival order |
| Runner.JoinAll | internal/runner/runner.go:185-194 | the `"%v; %v"` chain over the error channel; `Runner.JoinAllKeepsEvery` proves it loses and reorders nothing |
| Runner.JoinAllKeepsEvery | internal/runner/runner.go:185-194 | there is a joined error iff some error was sent, and it holds every sent error once, in arrival order |
| Runner.ConcurrentAverageAsWritten | internal/runner/runner.go:196-198 | the average panics iff `TotalRequests > 0` but no result was received |
| Runner.ConcurrentAverage | internal/runner/runner.go:196-198 | the corrected average agrees with the source wherever the source does not panic, and keeps the old value otherwise |
| Runner.ConcurrentBase | internal/runner/runner.go:128-130 | the record marked concurrent, with the user count and `Total` as its request count; `Runner.ConcurrentSummary` states these fields |
| Runner.Absorb | internal/runner/runner.go:165-182 | one iteration of the result loop; `Runner.Receive` is proved against it and `Runner.AbsorbAllClosed` gives the whole fold in closed form |
| Runner.AbsorbAll | internal/runner/runner.go:165-182 | the result loop's running values after all arrivals; `Runner.AbsorbAllClosed` gives them in closed form and `Runner.ReceiveResults` is proved against it |
| Runner.ConcurrentResult | internal/runner/runner.go:121-201 | the record and error `runConcurrent` ends with; characterised by `Runner.ConcurrentSummary`, `Runner.ConcurrentOrderIndependent` and `Runner.ConcurrentAverageBetween` |
| Runner.AbsorbAllCounts | internal/runner/runner.go:165-182 | the fold's histogram, success, failure and latency-total fields are the closed-form tallies |
| Runner.AbsorbAllErrors | internal/runner/runner.go:171-172 | the fold appends the invalid results' messages in arrival order |
| Runner.AbsorbAllLatencies | internal/runner/runner.go:175-180 | the fold's minimum and maximum are the closed-form extrema of the durations |
| Runner.AbsorbAllClosed | internal/runner/runner.go:165-182 | the whole fold state in closed form |
| Runner.Receive | internal/runner/runner.go:166-181 | one received result updates the state by exactly one fold step |
| Runner.ReceiveResults | internal/runner/runner.go:165-182 | the loop over the result channel computes the fold of the arrivals |
| Runner.CollectResults | internal/runner/runner.go:165-182 | the result loop yields the record folded from the arrivals, and their total latency |
| Runner.JoinErrors | internal/runner/runner.go:185-194 | the loop over the error channel computes the joined error |
| Runner.RunConcurrent | internal/runner/runner.go:121-201 | `runConcurrent` computes the concurrent-path record and error, with the guarded average of "## Findings" |
| Runner.InvalidReasonsConcat | internal/runner/runner.go:171-172 | the collected messages concatenate over a split of the arrivals |
| Runner.InvalidReasonsAllValid | internal/runner/runner.go:168-172 | all-valid arrivals add no message |
| Runner.AllSentComplete | internal/runner/runner.go:133-155 | if every request succeeds, exactly `users * perUser` results are sent and no error |
| Runner.AllSentEmpty | internal/runner/runner.go:137-147 | with zero requests per user, or when every user fails at once, nothing is sent |
| Runner.ArrivalBounds | internal/runner/runner.go:133-155 | at most `PerUser * Users <= Total` results arrive and at most one error per user, each a cancellation or a transport error |
| Runner.ConcurrentSummary | internal/runner/runner.go:121-201 | the concurrent record is marked concurrent with the user count and total; it counts one outcome per received result, at most `Total`; there is at most one error per user; the returned error exists iff some user failed, and holds all of them |
| Runner.ConcurrentOrderIndependent | internal/runner/runner.go:165-198 | counts, histogram, maximum and average latency do not depend on the arrival order |
| Runner.ConcurrentAverageBetween | internal/runner/runner.go:181-198 | the concurrent average lies between the smallest and largest received durations |
| Runner.ConcurrentMinLatency | internal/runner/runner.go:175-177 | with positive durations the minimum latency is the least received duration |
| Runner.ZeroCodesHistogram | internal/runner/runner.go:167 | the received results, none of which carries a status code, all land in bucket 0 |
| Runner.ConcurrentCodesZero | internal/runner/runner.go:165-167 | with validated responses, the concurrent histogram of a fresh record is empty or has only key 0, counting every arrival |
| Runner.AllValidConcurrent | internal/runner/runner.go:121-201 | all-valid users give `perUser * users` successes, no failures, no new messages and no error |
| Runner.FiveUsersScenario | internal/runner/runner.go:121-201 | 5 users and 50 requests give 10 requests per user and 50 successes |
| Runner.ArrivalsValid | internal/runner/runner.go:148-166 | every result that arrives was sent by some user |
| Runner.AllSentFromSteps | internal/runner/runner.go:137-148 | every sent result is the response to one request of one user |
| Runner.AverageDividesByZero | internal/runner/runner.go:196-198 | with `Total > 0` but nothing received, the average divides by zero |
| Runner.ValidatedConfigDividesByZero | internal/runner/runner.go:126-198 | a config that passes `Validate` with 3 users and 2 requests makes `runConcurrent` divide by zero |
| Runner.Fresh | internal/runner/runner.go:55-61 | a new record names the endpoint, with zero counters and empty collections |
| Runner.WithError | internal/runner/runner.go:64-75 | a non-nil error appended once to the record's errors; `Runner.RecordErrors` states it |
| Runner.EndpointRecord | internal/runner/runner.go:55-77 | one endpoint's record from the path its `Users` selects; `Runner.RecordNamesEndpoint` and `Runner.RecordErrors` characterise it, and `Runner.RunEndpoint` is proved against it |
| Runner.Records | internal/runner/runner.go:52-80 | the finished records of all endpoints, in order; `Runner.OneRecordPerEndpoint` characterises it |
| Runner.RecordsUpTo | internal/runner/runner.go:52-80 | the first `n` endpoints give `n` records |
| Runner.RecordsUpToAt | internal/runner/runner.go:52-80 | record `k` is endpoint `k`'s finished record |
| Runner.OneRecordPerEndpoint | internal/runner/runner.go:52-80 | `Run` adds one record per endpoint, in order; each names its endpoint and is concurrent iff the endpoint has users |
| Runner.RecordNamesEndpoint | internal/runner/runner.go:55-78 | an endpoint's record carries its name, method and URL, and is concurrent iff users are set |
| Runner.RecordErrors | internal/runner/runner.go:63-75 | a record's errors are the path's own messages, followed by the returned error, if any |
| Runner.UnreachableRunReportDividesByZero | internal/runner/runner.go:52-80 | a run whose only endpoint has a negative `Users` (it passes `Validate` when URL and method are set) and was never reached makes `prepareReport` divide by zero |
| Runner.ZeroTotalRunReportDividesByZero | internal/runner/runner.go:121-130 | a run whose only endpoint has users but `Total` 0 (which `Validate` would reject, but `Run` does not call it) counts no request, so `prepareReport` divides by zero |
| Runner.EmptyRunReportDividesByZero | internal/runner/runner.go:51-88 | a config with no endpoints fails `Validate`, but `Run` does not call it: no record is stored, `prepareReport` divides by zero, and the corrected report keeps the 24 h minimum |
| Runner.LogShareAsWritten | internal/runner/runner.go:79 | the log line's `Total/Users` panics exactly when `Users` is 0 |
| Runner.LogShare | internal/runner/runner.go:79 | the corrected line prints a share exactly for concurrent endpoints, and then it is the share `runConcurrent` uses and the one Go prints |
| Runner.PlainEndpointLogDividesByZero | internal/runner/runner.go:79 | an endpoint with `Users` 0 passes `Validate` once its URL and method are set, and the line as written panics on it, while the corrected one does not divide |
| Runner.NegativeTotalPassesValidate | internal/config/config.go:87 | an endpoint with users and a negative total passes `Validate`, no run of it can be supplied because `make(chan …, Total)` panics, and the corrected check rejects it |
| Runner.RunEndpoint | internal/runner/runner.go:53-77 | one endpoint's iteration builds the record of the path its config selects |
| Runner.Runner.RunAndReport | internal/runner/runner.go:53-78 | one iteration of `Run`'s loop appends exactly the endpoint's finished record to the reporter |
| Runner.Runner.constructor | internal/runner/runner.go:32-44 | a new runner holds the config and a fresh, empty reporter |
| Runner.Runner.Run | internal/runner/runner.go:51-88 | `Run` appends to the reporter exactly the endpoints' finished records, in config order |

## Left out

- HTTP requests (`makeRequest`, the `http.Client` and its 30-second timeout, request headers and body) are left out. Each attempt's outcome is a parameter: a validated response, or a failure before a response.
- Goroutines, the `sync.WaitGroup`, the two channels and `ctx.Done()` are left out. Only one thing about the concurrent schedule is kept: `arrivals` and `failures` are permutations of what the users sent. A user sees a cancellation through `step`.
- Clocks and sleeping (`time.Now`, `time.Since`, `time.Sleep`) are left out. Measured durations are parameters. The single path's sleeps appear as an `Event` trace. The concurrent path's per-request `Delay` sleep is not modelled.
- Floating-point figures are left out: `SuccessRate`, `RequestsPerSecond`, `ErrorRate` and `prepareChartData`.
- Timestamps are left out: `StartTime`, `EndTime` and `StartTest`.
- `GenerateHTML`, the template, the report file, and `Run`'s error return from it are left out.
- The logger, including its use in `Validate`, is left out. The share printed by the log line at runner.go:79 is modelled, by `Runner.LogShareAsWritten` and `Runner.LogShare` (see "## Findings").
- Reporter.ReportOf, Reporter.EmptyReport, Reporter.Reporter.PrepareReport, Runner.ConcurrentResult, Runner.RunConcurrent, Runner.OneRecordPerEndpoint, Runner.Runner.Run: these model the run with the corrected averages of "## Findings" (`Runner.ConcurrentAverage`, `Reporter.GlobalAverage`), and without the panic of the log line at runner.go:79. Go does not finish a run in three cases. It stops at runner.go:79 after the first endpoint whose `Users` is 0, which is any endpoint without a `concurrent:` block. It stops at runner.go:197 when a concurrent endpoint with `Total` > 0 receives nothing. It stops at reporter.go:218 when no request was counted, for instance with no records at all, so the 24 h minimum of `Reporter.EmptyReport` never reaches a Go report. The `...AsWritten` members and the lemmas named in "## Findings" state when each of these panics happens.
- `LoadConfig`, YAML decoding and the command-line layer (`cmd/`, `main.go`) are not part of this model. `Run` never calls `Config.Validate`, and the model follows that.
- `json.Unmarshal` and `fmt.Sprintf("%v", …)` are parameters: `decode` maps body bytes to a top-level object or a failure, and `canon` maps a value to its printed text.
- Message texts are constructors (`Violation`, `Failure`, `Message`), not formatted strings.
- Fixed-width integers are unbounded here, so int64 overflow of durations, sums and `time.Duration` conversions is not modelled.
- `RunConcurrent` requires `Total >= 0`, because Go's `make(chan …, Total)` panics on a negative size. `Validate` lets such a total through; see "## Findings".
- internal/logger/logger.go defines no `Info` or `Warn` method, so the calls to them at runner.go:79 and in validator.go do not build against the logger as shown. The model takes the code as if those calls built and only logged.
- `Reporter.Rank`: the percentile index `int(float64(n) * 0.p)` is modelled as `n * p / 100` in exact arithmetic. Float rounding of the product is not modelled.
- `Sorting.SortInPlace`: `sort.Slice` is modelled by an insertion sort. `Sorting.SortedUnique` shows that any algorithm yielding a sorted permutation gives the same array.
- The runner never fills `RequestDetails`, `BytesTransferred` or `TimeoutCount`. The model carries them as fields and uses them in `AddResult` and the report as the source does.
- `TestResult.ValidationFailures` is never read or written by the core, so it is not modelled.
- `RequestDetail.Timestamp` is not modelled, for the same reason as the other timestamps.
- Behaviour of the code that the model keeps on purpose:
  - On the single path, `TotalRequests` counts every attempt that got a response, not one per endpoint.
  - Each failing user sends one error of its own.
  - The status-code histogram has only key 0, because `Validate` never fills `StatusCode`. When the responses are `Validated`, as every result of `Validate` is, `Runner.SingleCodesZero` and `Runner.ConcurrentCodesZero` prove this of both paths' records.
  - `Run`'s doc comment promises to run the endpoints concurrently and to return an error when `runSingle` or `runConcurrent` does. The code runs them one after another. It appends such an error to the record's `Errors` and goes on to the next endpoint (runner.go:63-75). It returns only the error of `GenerateHTML`. The model follows the code: `Runner.RecordErrors`, and `Runner.Runner.Run` returns nothing.

## Findings

| source | as written | input that shows it | evidently intended | confidence | as-written member | corrected member |
|---|---|---|---|---|---|---|
| internal/runner/runner.go:196-198 | divides the total latency by `SuccessCount + FailureCount` whenever `TotalRequests > 0` | a valid config with 3 users and `Total` 2 (zero requests per user), or users that all fail on their first request: nothing arrives and the division panics | average over the received results, skipped when none arrived | not executed | Runner.ConcurrentAverageAsWritten (shown by Runner.ValidatedConfigDividesByZero, Runner.AverageDividesByZero) | Runner.ConcurrentAverage (Runner.ConcurrentAverageBetween) |
| internal/reporter/reporter.go:218 | divides the weighted latency by the summed `TotalRequests` without a guard | a config with no endpoints, a run whose only endpoint is single-path with a negative `Users` and is never reached, or a run whose only endpoint is concurrent with `Total` 0 (`Run` never calls `Validate`): `TotalRequests` is 0 and `prepareReport` panics | a zero average when no request was counted | not executed | Reporter.GlobalAverageAsWritten (shown by Reporter.GlobalAveragePanicsWithoutRequests, Runner.EmptyRunReportDividesByZero, Runner.UnreachableRunReportDividesByZero, Runner.ZeroTotalRunReportDividesByZero) | Reporter.GlobalAverage (Reporter.GlobalAverageBetween) |
| internal/runner/runner.go:79 | the log line after every endpoint prints `Total/Users`, whatever the path | any endpoint without a `concurrent:` block: `Users` is 0, `Validate` accepts it, and the division panics once its record is stored, so no later endpoint runs and no report is written | a line that only logs, printing the per-user share for concurrent endpoints only | not executed; the logger shown has no `Info` method, so this is what the line does once it builds | Runner.LogShareAsWritten (shown by Runner.PlainEndpointLogDividesByZero) | Runner.LogShare |
| internal/config/config.go:87 | rejects users whose total is exactly 0 | an endpoint with `Users` 1 and `Total` -1 passes `Validate`, then `make(chan …, Total)` at runner.go:123 panics | reject users without a positive total | not executed | Runner.NegativeTotalPassesValidate | Config.CheckEndpointIntended |
