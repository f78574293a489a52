# Verified model of the Google Cloud exporters' stateful core

This project models, in Dafny, the parts of the OpenTelemetry exporters for Google Cloud that carry
state, arithmetic or an encoding, and proves what they promise. Run `dafny verify dfyconfig.toml`.

- **Cumulative normalization.** `DataPoints` holds the contents of the four kinds of point and their
  machine arithmetic. `Normalization` is the decision about one point of one series, and `Decisions` says field by field
  what it does in each case. `PointCache` and
  `Normalizer` are the program's form: mutable points, two caches that overwrite them in place and are
  collected by separate tickers, index loops over buckets. `NormalizerRuns` and `CacheLifetime` run
  these objects over arbitrary interleavings of many series and show that each series behaves as its
  own state machine. `Runs` and `CachePresence` say what is cached after any mixture of points and
  ticks; `ClosedForm` gives everything a series of any kind exports, rising or falling, from its raw
  points and ticks alone; `ExportedIntervals`, `NeverFallingSeries`, `AfterResets`, `ResetPromise`,
  `Counters` and `Summaries` prove what whole runs keep of the documented promises. The program has one method, one map and one copy function for each kind of point;
  they differ in five operations (copy, order, comparability, subtraction, zero point), so here the
  kind is part of the data and of the cache key.
- **Histograms.** `ExponentialHistograms`: subtraction at absolute bucket indices and the exported
  distribution. `Histograms`: exact subtraction of explicit buckets.
- **Write-ahead log.** `WriteAheadLog`: a protocol of append and pop steps with its history, safety over
  every run, and the exporter object that takes these steps under faults.
- **Logs.** `LogBatches` and `LogSplits`: the request-batching loop and the splitting of long texts.
- **Traces.** `Utf8` and `Truncation`: truncatable strings, over the grammar of section 4 of RFC 3629.
- **Propagation.** `Numerals` and `Propagator`: the X-Cloud-Trace-Context header.
- **Series identity.** `Identifiers`: the bytes fed to the series hash.

Timestamps are unsigned 64-bit nanoseconds that `AsTime` reads as signed ones; the interval theorems
assume no range for them, the theorems about series without start times place their points after the
epoch (a start time of zero at or after a point's time is an explicit reset). Counts, integer values and offsets wrap as in the program. Sums and double values
are real numbers. I/O results (replies of the export call, failing log operations, results of write
requests, the growth factor 2^(2^-scale)) are parameters.

## Where the code and its documentation differ

- The normalizer is documented not to modify values after a reset. The zero point is written over the
  old start point without clearing a number's value or a histogram's sum: values 10, 5, 7 are exported
  as 5 and then -3 under one start time (`IntegerIsModified`, `DoubleIsModified`), and histogram sums
  10, 4, 6 end in -4 (`HistogramSumIsModified`). For every kind, `UnmodifiedAfterResetsIff` says of whole
  runs exactly when the promise is kept, in terms of the raw points, and `UnmodifiedSinceResetIff` says
  it of every run from any state of the caches in which a reset is detected. It always holds for summaries.
- It is documented to detect subsequent resets. Until the first detected reset, and for numbers again
  after every point that was not seen as one, a point is compared with the *exported* value before it,
  which is reduced by the first one: 10, 30, 25 are exported as 20 and then 15 under the first start time
  (`Counters.FallIsMissed`, `Summaries.FallIsMissed`). `Counters.AllFallsDetectedIff` and
  `Summaries.AllFallsDetectedIff` say exactly for which series every fall is detected,
  `FallsWithinStartIff` exactly where an exported value falls within its start time, and
  `FirstFallDetectedIff` exactly which first falls are seen.
- The fallback for a missing previous point is commented as never happening. `FallbackIff` says exactly
  after which ticks it is reached, for every series; `PreviousCanBeLost` is a run that does.
- Label values containing the separator bytes are not escaped. `EveryConditionIsNeeded` gives a pair of
  different series with the same byte stream for each condition of `StreamIsInjective`.
- A popper run that fails to reopen the write-ahead log leaves the exporter without one, and the next push
  dereferences it (`Drive`).
- The shutdown drain tests for an out-of-range error. `ReadWalAndExport` never returns one.
- The batching loop ends only if every entry is smaller than the request limit (`LoopEndsIff`). On one
  entry of the limit's size every iteration sends an empty batch (`OversizedEntryIsNeverSent`).
- A header with span number zero written as "00" is accepted although "0" is not (`ZeroSpanIsAccepted`),
  and flags from 2 to 9 come back as 1 (`HigherFlagsBecomeOne`). `Reinjection` and `RoundTripIff` are
  the exact conditions.

## Model

| member | source | states |
|---|---|---|
| DataPoints.InPlaceCopyIsFreshCopyIff | exporter/collector/internal/datapointstorage/datapointcache.go:292-332 | overwriting a cached point equals storing a fresh minimal copy exactly when the point brings a value or sum, or there was none before |
| DataPoints.SubtractZeroed | exporter/collector/internal/normalization/standard_normalizer.go:216-231 | against a zeroed start every count and bucket stays raw, also all of a summary; only a histogram's sum is reduced, by the sum left in the start point |
| DataPoints.AfterResetIsZeroed | exporter/collector/internal/normalization/standard_normalizer.go:184-192 | the zero point written over the start clears counts and buckets of every kind but numbers, and leaves an old histogram sum in place |
| DataPoints.UntouchedAfterResetIff | exporter/collector/internal/normalization/standard_normalizer.go:354-356 | subtracting what a reset leaves in the start slot changes nothing exactly when the overwritten start had no residue for the point |
| DataPoints.WrapU64Is | exporter/collector/internal/normalization/standard_normalizer.go:120-146 | counts: the unsigned result is the same modulo 2^64 |
| DataPoints.WrapI64Is | exporter/collector/internal/normalization/standard_normalizer.go:311-321 | integer values: the signed result is the same modulo 2^64 |
| DataPoints.WrapI32Is | exporter/collector/internal/normalization/standard_normalizer.go:133-146 | bucket offsets: the signed result is the same modulo 2^32 |
| DataPoints.TimeIsSigned | exporter/collector/internal/normalization/standard_normalizer.go:269-283 | a timestamp is read as the signed 64-bit number with the same bits |
| Decisions.FirstPointIsDropped | exporter/collector/internal/normalization/standard_normalizer.go:250-260 | without a start point, a point whose start time is missing or not before its time is dropped, and both slots hold it |
| Decisions.StartedPointPasses | exporter/collector/internal/normalization/standard_normalizer.go:250-260 | without a start point, any other point is exported as it came and nothing is cached |
| Decisions.OtherBucketsBeginAnew | exporter/collector/internal/normalization/standard_normalizer.go:65-76 | a point with other bounds or another scale than the start point is dropped, and both slots hold it |
| Decisions.FallIsReset | exporter/collector/internal/normalization/standard_normalizer.go:269-283 | an explicit reset, or a value, a count or a sum alone below the previous one (or the start point's, if that one is gone): kept unchanged but for a start time a millisecond before it; the slots hold it and a zero point |
| Decisions.StalePointIsDropped | exporter/collector/internal/normalization/standard_normalizer.go:284-292 | a point not after the start point is dropped, and the slots keep their times and data |
| Decisions.OtherPointIsReduced | exporter/collector/internal/normalization/standard_normalizer.go:294-296 | any other point, with a start time of its own or not, is exported under the start point's time with every quantity reduced by the start point's, and stored like that |
| PointCache.MinimalCopyTo | exporter/collector/internal/datapointstorage/datapointcache.go:285-332 | the setters, one after the other, produce the minimal copy; the start timestamp of the stored point is not written |
| PointCache.Cache.Get | exporter/collector/internal/datapointstorage/datapointcache.go:82-90 | hands out the stored point itself and marks it used; no other key changes |
| PointCache.Cache.Set | exporter/collector/internal/datapointstorage/datapointcache.go:93-104 | the whole cache afterwards is the old one with one key replaced by the in-place copy; the caller's point stays outside of what the cache owns |
| PointCache.Cache.Gc | exporter/collector/internal/datapointstorage/datapointcache.go:185-240 | deleting during iteration in any order keeps exactly the used points, now unused |
| PointCache.SetThenGet | exporter/collector/internal/datapointstorage/datapointcache.go:93-104 | whatever the caller does with its point after Set, Get returns the copy; it is a fresh minimal copy exactly when the point brought what it overwrote |
| CacheLifetime.PresentIffUsedWithinOneTick | exporter/collector/internal/datapointstorage/datapointcache.go:185-240 | over every interleaving of Get, Set and ticks a key is present exactly when some use of it was followed by at most one tick |
| CacheLifetime.Drive | exporter/collector/internal/datapointstorage/datapointcache.go:80-240 | the mutable cache, run on any operations, holds for each key what the operations on that key alone give |
| Normalizer.BucketBoundariesEqual | exporter/collector/internal/normalization/standard_normalizer.go:233-243 | true exactly for equal bounds |
| Normalizer.SubtractExponentialBuckets | exporter/collector/internal/normalization/standard_normalizer.go:133-146 | the filled slice is the aligned difference that ExponentialHistograms reasons about |
| Normalizer.Subtract | exporter/collector/internal/normalization/standard_normalizer.go:120-130 | the setters produce the difference of the whole point and give it the start point's timestamp |
| Normalizer.StandardNormalizer.AssumeReset | exporter/collector/internal/normalization/standard_normalizer.go:178-193 | the point gets its reset start time in place, previous holds it, and start holds the zero point written over the old start; other series keep theirs |
| Normalizer.StandardNormalizer.ResetDetected | exporter/collector/internal/normalization/standard_normalizer.go:172-179 | the test reads the previous point, or the start point itself when the previous one was collected, and marks it used |
| Normalizer.StandardNormalizer.KeepDifference | exporter/collector/internal/normalization/standard_normalizer.go:205-208 | subtracting from the caller's point changes neither the aliased start point nor anything else in the start cache |
| Normalizer.StandardNormalizer.Normalize | exporter/collector/internal/normalization/standard_normalizer.go:50-112 | the mutable point and both caches change exactly as the series' decision says, every other series is untouched, a dropped point is unchanged |
| Runs.StartedPointsPass | exporter/collector/internal/normalization/standard_normalizer.go:250-260 | over every mixture of points and ticks of every kind, up to the first point without a usable start time every point is exported as it came, and that one is dropped; if there is none, nothing is ever cached |
| NormalizerRuns.Drive | exporter/collector/internal/normalization/standard_normalizer.go:36-48 | in every run of interleaved series and ticks the object's exports and caches are, for each series, those of the run of its own points |
| NormalizerRuns.DriveDocumented | exporter/collector/internal/normalization/standard_normalizer.go:27-35 | end to end on the mutable object: whatever else runs through the same caches, a series of points without usable start times is exported as intervals that start before they end and share a start or do not overlap |
| NormalizerRuns.DriveStarted | exporter/collector/internal/normalization/standard_normalizer.go:250-260 | end to end on the mutable object: a series whose points all have usable start times is exported as it came, and neither cache ever holds anything of it |
| Runs.LivelyTick | exporter/collector/internal/datapointstorage/datapointcache.go:185-240 | as long as a point arrives between two ticks of the same cache, ticks change nothing a decision reads |
| CachePresence.FallbackIff | exporter/collector/internal/normalization/standard_normalizer.go:263-268 | for every series of every kind without usable start times: the start point is cached without the previous one exactly when, since the last point, the previous cache ticked at least twice and the start cache at most once |
| CachePresence.SteadyRun | exporter/collector/internal/datapointstorage/datapointcache.go:185-240 | over every mixture of points and ticks each of the two points is cached exactly as long as its cache ticked at most once, unused exactly after a tick, and the start time is not after the last point |
| Runs.PreviousCanBeLost | exporter/collector/internal/normalization/standard_normalizer.go:263-268 | a concrete run in which the start point is cached and the previous point is not |
| ExportedIntervals.RunInOrder | exporter/collector/internal/normalization/standard_normalizer.go:247-297 | in every run with timestamps a millisecond apart, whatever the start times: kept points start before they end, and each one keeps the start of any earlier one or starts at or after its end, unless it was exported as it came |
| ExportedIntervals.UnknownStartsGiveDisjointIntervals | exporter/collector/internal/normalization/standard_normalizer.go:27-35 | for points without a usable start time every kept point starts before it ends, and any two kept intervals share their start or do not overlap |
| ExportedIntervals.ResetContinuesIff | exporter/collector/internal/normalization/standard_normalizer.go:270-272 | a reset point does not overlap the point before it exactly when they are a millisecond apart |
| NeverFallingSeries.NeverFallsRun | exporter/collector/internal/normalization/standard_normalizer.go:32-33 | for any series of any kind that never falls, with at most one start-cache tick before each point since the last one and any number of previous-cache ticks, the first point is dropped, every later one is exported relative to it, and no reset is ever seen, the fallback to the start point included |
| NeverFallingSeries.RelativeIffTimely | exporter/collector/internal/datapointstorage/datapointcache.go:185-240 | over every mixture of points and ticks, a never-falling series is exported relative to its first point exactly when no point comes after two or more start-cache ticks |
| NeverFallingSeries.CountersAreRelative | exporter/collector/internal/normalization/standard_normalizer.go:311-321 | integer counters: value is raw minus first without wrap-around, start is the first timestamp |
| NeverFallingSeries.SummariesAreRelative | exporter/collector/internal/normalization/standard_normalizer.go:380-390 | never-falling summaries: count and sum are raw minus first, start is the first timestamp |
| NeverFallingSeries.ExponentialsStayExact | exporter/collector/internal/normalization/standard_normalizer.go:120-146 | growing exponential histograms are exported as exact differences at every absolute index, balanced, with exported buckets that add up to the exported count |
| NeverFallingSeries.HistogramsStayExactIff | exporter/collector/internal/normalization/standard_normalizer.go:216-231 | explicit-bucket histograms that never fall are exported as exact differences, count and every bucket, exactly when the first point's buckets are dominated |
| NeverFallingSeries.FirstFall | exporter/collector/internal/normalization/standard_normalizer.go:263-296 | the next point after any timely never-falling run and any ticks: dropped when the start point was collected, otherwise a reset exactly when it is below the last exported data, or below the first point when the previous one was collected |
| NeverFallingSeries.FirstFallDetectedIff | exporter/collector/internal/normalization/standard_normalizer.go:34 | a fall of an exported counter to v is detected exactly when v is below last minus first; any other fall is exported under the old start |
| AfterResets.AfterResetRun | exporter/collector/internal/normalization/standard_normalizer.go:345-372 | from any cache state: after a detected reset every point of a lively run is kept, counts and buckets raw, the sum raw for a reset and otherwise less exactly what the reset found in the start slot (nothing for a summary), and every fall opens a new start time, for summaries only a fall does |
| AfterResets.NothingFallsWithinAStart | exporter/collector/internal/normalization/standard_normalizer.go:78-111 | among kept points with one start time neither the count nor a summary's sum falls, and start times never go back |
| AfterResets.RawAfterResetIff | exporter/collector/internal/normalization/standard_normalizer.go:35 | one step, whether or not the point carries a value: the next kept point after a reset keeps its value exactly when the overwritten start point left no residue |
| ClosedForm.FreshRun | exporter/collector/internal/normalization/standard_normalizer.go:247-297 | for every kind of series that carries values or sums, rising and falling at will, and every timely run, lost previous points included: the first point is dropped, and every later one is exported with the value and start time that a recursion over the raw points gives |
| ClosedForm.ResetRun | exporter/collector/internal/normalization/standard_normalizer.go:269-296 | the same from any state of the caches in which a reset is detected |
| ResetPromise.UnmodifiedAfterResetsIff | exporter/collector/internal/normalization/standard_normalizer.go:35 | for every kind and whole runs: all values after every reset are exported raw exactly when nothing drops below what was exported before it, or each point after the first drop is either one from which the first point takes nothing or a reset next to the raw point before it |
| ResetPromise.UnmodifiedSinceResetIff | exporter/collector/internal/normalization/standard_normalizer.go:35 | for every kind, from any cache state with a detected reset: all later values are exported raw exactly when from each of them the overwritten start point takes nothing, or it is a reset next to the raw point before it (next to the zero point if that one was collected) |
| ResetPromise.RawAfterFirstResetIff | exporter/collector/internal/normalization/standard_normalizer.go:35 | the first drop is exported as a reset, and all later values are raw exactly under that condition |
| ResetPromise.NoResetIff | exporter/collector/internal/normalization/standard_normalizer.go:269 | no reset is seen exactly when no point drops below what was exported before it |
| ResetPromise.IntegerIsModified | exporter/collector/internal/normalization/standard_normalizer.go:35 | integers 10, 5, 7 are exported as 5 and -3 under one start time |
| ResetPromise.DoubleIsModified | exporter/collector/internal/normalization/standard_normalizer.go:35 | so are doubles |
| ResetPromise.HistogramSumIsModified | exporter/collector/internal/normalization/standard_normalizer.go:35 | histograms with sums 10, 4, 6 and counts 2, 1, 2 are exported with sums 4 and -4 under one start time |
| Counters.CounterRun | exporter/collector/internal/normalization/standard_normalizer.go:263-296 | integer or double counters that rise and fall at will: every value after the first is raw if it is seen as a reset and less the first one otherwise, also after resets |
| Counters.FallSeenIff | exporter/collector/internal/normalization/standard_normalizer.go:269 | if the previous point is cached, nothing but a fall of a non-negative counter is seen as a reset, and a fall exactly when it is the second point's, follows a seen reset, or is deeper than the first value; if it is not, exactly what is below the first value is seen |
| Counters.AllFallsDetectedIff | exporter/collector/internal/normalization/standard_normalizer.go:34 | every fall of a run is exported as a reset exactly when every fall after the second point shows: it follows a raw reset or is deeper than the first value, or, with the previous point collected, is below the first value |
| Counters.FallsWithinStartIff | exporter/collector/internal/normalization/standard_normalizer.go:34 | an exported value falls below the one before it under the same start time exactly when the raw value is in a window as wide as the first value, or it is a reset whose start time is the one in use |
| Counters.AllRawIff | exporter/collector/internal/normalization/standard_normalizer.go:35 | all exported values are raw exactly when the first value is zero or every later point is a reset next to the raw one before it |
| Counters.FallIsMissed | exporter/collector/internal/normalization/standard_normalizer.go:34 | values 10, 30, 25 are exported as 20 and 15 under the first start time |
| Summaries.AllFallsDetectedIff | exporter/collector/internal/normalization/standard_normalizer.go:34 | every fall of count or sum is exported as a reset exactly when the first one drops below what was exported before it and no later one comes after the previous point was collected |
| Summaries.FallIsMissed | exporter/collector/internal/normalization/standard_normalizer.go:34 | counts and sums 10, 30, 25 are exported as 20 and 15 under the first start time |
| Histograms.HistogramIsExactIff | exporter/collector/internal/normalization/standard_normalizer.go:216-231 | subtraction of explicit buckets loses no count to wrap-around exactly when the start's count and buckets are dominated |
| Histograms.ExactHistogramIsBalanced | exporter/collector/internal/normalization/standard_normalizer.go:216-231 | an exact difference of two histograms whose buckets add up to their counts has buckets that add up to its count |
| ExponentialHistograms.SubtractionIsExactIff | exporter/collector/internal/normalization/standard_normalizer.go:133-146 | with 32-bit offset differences included, subtraction is exact at every absolute index exactly when the start is dominated bucket by bucket |
| ExponentialHistograms.BucketDifference | exporter/collector/internal/normalization/standard_normalizer.go:133-146 | without any condition: every bucket is reduced modulo 2^64 by the start's bucket with the same absolute index, or, if the offsets differ by more than a 32-bit number, by one 2^32 indices off |
| ExponentialHistograms.TotalOfDifference | exporter/collector/internal/normalization/standard_normalizer.go:133-146 | under domination no count is lost, not even of start buckets outside the point's range |
| ExponentialHistograms.SubtractionKeepsBalance | exporter/collector/internal/normalization/standard_normalizer.go:120-130 | count = zero + positives + negatives survives subtraction, without underflow |
| ExponentialHistograms.ExponentialHistogramPoint | exporter/collector/metrics.go:1088-1143 | the exported point: slot 0 counts zero and all negatives, the last slot nothing, slot k - offset + 1 holds the count of the absolute index k with the bounds growth^k and growth^(k+1); mean times count is the sum |
| ExponentialHistograms.ExportedCountsAddUpIff | exporter/collector/metrics.go:1089-1105 | a balanced point's exported buckets are positives + 2 and add up to the exported count exactly when the count fits a signed 64-bit number or the counts at or below zero, or one positive bucket, do not |
| ExponentialHistograms.IntPowerStep | exporter/collector/metrics.go:1115-1125 | bounds grow by one factor per index, over all integers (IntPowerOfZero: from 1) |
| ExponentialHistograms.ExportedBoundsAgree | exporter/collector/metrics.go:1115-1125 | OTLP bucket offset + i and exported slot i + 1 have the same bounds, for negative offsets too |
| WriteAheadLog.EveryRunIsSafe | exporter/collector/metrics.go:546-626 | in every run of pushes, pops, faults and restarts: written = removed + still in the log in order; exports climb through the requests without skipping and have reached every removed one, and each one received exactly the request that was written; at most one sentinel, in slot one or two; a log once written is never empty |
| WriteAheadLog.FirstExportsInWriteOrder | exporter/collector/metrics.go:561-586 | if some request was handed to export, every request before it was, earlier and as it was written |
| WriteAheadLog.RemovedWereExported | exporter/collector/metrics.go:620-623 | every removed request is among those the service received |
| WriteAheadLog.OnlySentinelIsEmpty | exporter/collector/metrics.go:1651-1653 | a request is empty exactly if it has neither name nor time series |
| WriteAheadLog.ExportWithBackoff | exporter/collector/metrics.go:568-586 | the service receives the request once per try and nothing else; 12 tries, fewer exactly when a reply is not one of the two retryable codes or the backoff reaches the limit; sleeps 2^k - 1 seconds, less than twice the limit |
| WriteAheadLog.Log.TruncateFront | exporter/collector/metrics.go:609-623 | at least one entry always stays |
| WriteAheadLog.Exporter.Push | exporter/collector/metrics.go:424-442 | with an open log an append at last + 1 is one protocol step; without one the push crashes and nothing changes |
| WriteAheadLog.Exporter.Drive | exporter/collector/metrics.go:293-338 | every sequence of pushes, popper runs and restarts is a run of the protocol, a push crashes exactly when the call before it was a popper run that could not reopen the log, and what has been written is what was accepted |
| WriteAheadLog.Exporter.ReadWalAndExport | exporter/collector/metrics.go:551-626 | whatever fails, a call is one protocol step, and for each combination of faults it is said which one, with how many tries, whether it pads and truncates, and with which error; the service receives the entry that was read |
| WriteAheadLog.PopDecreases | exporter/collector/metrics.go:588-623 | each truncating pop lowers requests left plus entries left |
| WriteAheadLog.Exporter.Drain | exporter/collector/metrics.go:691-703 | without faults the shutdown drain ends, every written request has been received by the service and removed, and exactly the sentinel is left, or the empty log |
| LogBatches.PushLogs | exporter/collector/logs.go:277-322 | ends, each iteration being the step that LoopEndsIff iterates; the batches are maximal pieces that use up the entries in order; the call succeeds exactly when every batch was written, and is retryable exactly when some batch failed with a retryable error |
| LogBatches.BatchingSendsEverything | exporter/collector/logs.go:302-314 | batches are non-empty, stay below the limit, and concatenate to the entries |
| LogBatches.BatchingIsUnique | exporter/collector/logs.go:288-295 | maximality leaves only one way to batch |
| LogBatches.LoopEndsIff | exporter/collector/logs.go:280-315 | the loop ends exactly when every entry is smaller than the limit |
| LogBatches.OversizedEntryIsNeverSent | exporter/collector/logs.go:280-315 | with one entry of the limit's size every iteration finds that it does not fit, sends the empty batch before it, and changes nothing |
| LogSplits.SplitText | exporter/collector/logs.go:613-654 | a text is split exactly when it exceeds the room left by a smaller overhead; then into the fewest numbered non-empty chunks that fit the room, even up to one byte, that concatenate to the text, chunk i being the bytes from floor(i * length / n) to floor((i + 1) * length / n) |
| LogSplits.Shrink | exporter/collector/logs.go:636-641 | the end moves back only as far as needed; SplitText shows it never moves |
| LogSplits.CeilDivIsLeast | exporter/collector/logs.go:623 | the number of splits is the least that gives enough room, and at most one per byte |
| Utf8.GrammarIsEncoding | exporter/trace/trace_proto.go:351-353 | the characters of the grammar are exactly the encodings of the code points without surrogates up to 0x10FFFF |
| Utf8.LastByteIsBadIff | exporter/trace/trace_proto.go:351-353 | decoding backwards reports a bad last byte exactly when no character of the grammar ends there, for arbitrary bytes |
| Utf8.PrefixIsValidIff | exporter/trace/trace_proto.go:349-356 | the valid prefixes of a valid string are those that end with a character |
| Utf8.SanitizeKeepsIff | exporter/trace/trace_proto.go:342-344 | sanitizing leaves alone exactly the valid strings |
| Utf8.SanitizeIsValid | exporter/trace/trace_proto.go:339-344 | sanitizing always yields valid UTF-8 |
| Utf8.SanitizeKeepsChars | exporter/trace/trace_proto.go:342-344 | read from the front, every character survives in order and every byte that starts none is dropped |
| Truncation.Trunc | exporter/trace/trace_proto.go:347-377 | for arbitrary bytes: ends, keeps the longest prefix within the limit that is empty or ends with a character, and reports the number of bytes removed, or 2^31 - 1 if that is larger |
| Truncation.TruncSanitized | exporter/trace/trace_proto.go:151 | for every string: the longest valid prefix of the sanitized string within the limit, at most three bytes short of it, with the number of dropped bytes, or 2^31 - 1 if that is larger |
| Truncation.TruncTwice | exporter/trace/trace_proto.go:347-366 | truncating again changes nothing |
| Numerals.HexAt | propagator/propagator.go:113-114 | two lower-case hexadecimal digits per byte, the high half first |
| Numerals.BigEndianSnoc | propagator/propagator.go:106-107 | the last byte of a span ID is the least significant one |
| Numerals.DecimalSnoc | propagator/propagator.go:113-117 | the value of a string of decimal digits |
| Numerals.PutUint64 | propagator/propagator.go:156-157 | the eight bytes read back as the number |
| Propagator.MatchIsComplete | propagator/propagator.go:42 | every header of the grammar is matched with its own groups, so the pattern is unambiguous |
| Propagator.SpanContextFromHeader | propagator/propagator.go:121-175 | accepts exactly the headers of the grammar with a usable trace ID, span text and span number, and returns the context they denote |
| Propagator.AcceptedIff | propagator/propagator.go:121-160 | the accepted headers, character by character, down to the zero trace ID, the span text "0" and numbers of 2^64 and more |
| Propagator.ExtractsIff | propagator/propagator.go:140-175 | what an accepted header says: trace digits, span number, and a flag that is 0 if it is absent or 0 and 1 otherwise |
| Propagator.ExtractedIsUnique | propagator/propagator.go:121-175 | a header denotes one context |
| Propagator.Inject | propagator/propagator.go:98-118 | sets one header of the carrier, or none |
| Propagator.InjectedIs | propagator/propagator.go:98-118 | the text of the header for every context; none exactly if the flags have a hexadecimal letter |
| Propagator.Extract | propagator/propagator.go:188-199 | keeps the current context unless the header is accepted |
| Propagator.RoundTripIff | propagator/propagator.go:98-175 | extracting the injected header returns the context, marked remote, exactly for a non-zero trace ID, a non-zero span ID and flags 0 or 1 |
| Propagator.Propagate | propagator/propagator.go:98-199 | the same through a carrier |
| Propagator.Reinjection | propagator/propagator.go:98-175 | re-injecting an accepted header gives one that extracts to the same context exactly for a non-zero span number, and the same header exactly if it was canonical |
| Propagator.ZeroSpanIsAccepted | propagator/propagator.go:98-175 | for every usable trace ID: span number "00" is accepted as span ID zero, and injecting what it means writes a header that is refused |
| Propagator.HigherFlagsBecomeOne | propagator/propagator.go:98-175 | flags 2 to 9 of an otherwise valid context come back as 1 |
| Identifiers.SortStrings | exporter/collector/internal/datapointstorage/datapointcache.go:270-274 | keys in any order come out in the one sorted order |
| Identifiers.LessIsFirstDifference | exporter/collector/internal/datapointstorage/datapointcache.go:274 | the order: a proper prefix first, otherwise the first byte that differs decides |
| Identifiers.SortedIsUnique | exporter/collector/internal/datapointstorage/datapointcache.go:274 | a set of keys has one sorted order, so iteration order does not matter |
| Identifiers.HashOfMap | exporter/collector/internal/datapointstorage/datapointcache.go:269-281 | what is written depends on the map alone |
| Identifiers.Identifier | exporter/collector/internal/datapointstorage/datapointcache.go:250-267 | the whole byte stream fed to the hash |
| Identifiers.StreamOfParts | exporter/collector/internal/datapointstorage/datapointcache.go:252-266 | the bytes: type, name and the three maps in this order with 0xFE between them |
| Identifiers.StreamOfTwo | exporter/collector/internal/datapointstorage/datapointcache.go:275-280 | the bytes of a map: in key order, each key and each value followed by 0xFF |
| Identifiers.AttributeKeys | exporter/collector/internal/datapointstorage/datapointcache.go:256-260 | the attribute map has exactly the keys of the attributes |
| Identifiers.LastAttributeWins | exporter/collector/internal/datapointstorage/datapointcache.go:256-260 | the value of a key is the one put last |
| Identifiers.CompareIdentifiers | exporter/collector/internal/datapointstorage/datapointcache.go:250-267 | end to end: two calls with clean arguments write the same bytes exactly when type, name, extra labels, resource labels and the sets of attribute pairs agree |
| Identifiers.StreamIsInjective | exporter/collector/internal/datapointstorage/datapointcache.go:244-281 | if type and name are free of 0xFE, extra labels and attributes of 0xFE and 0xFF, and resource labels of 0xFF, two series feed the same bytes exactly when they are the same |
| Identifiers.ValidUtf8IsClean | exporter/collector/internal/datapointstorage/datapointcache.go:244-247 | valid UTF-8 never contains the separators |
| Identifiers.EveryConditionIsNeeded | exporter/collector/internal/datapointstorage/datapointcache.go:249-267 | for each of these seven conditions, two different series that feed the same bytes, one meeting all conditions and the other all but this one |

## Left out

- Floating point: sums, double values and bounds are real numbers without NaN or rounding; the split indices of long texts are exact quotients.
- The hash function itself: only its input is modelled, so collisions after hashing are not excluded.
- Locks: each operation of a cache and of the log is atomic. Concurrent calls for one series between the reads and the writes of one normalization are not modelled.
- The log library's file format and protobuf encoding: an entry is a request or the sentinel, a failing operation has no effect, and a restart reopens the same entries.
- Batching of 200 time series per request, conversion of metrics to time series, descriptors, labels and monitored resources: simple mappings.
- The file watch that wakes the popper, and when a shutdown happens.
- ClosedForm.FreshRun: points that carry a value or a sum; a point without one keeps what the cached point had (InPlaceCopyIsFreshCopyIff), and runs in which the start point is collected between two points begin anew (RelativeIffTimely shows that they must).
- Histogram deviation, exemplars, min and max, quantiles, flags and attributes of points: the normalizer does not touch them.
- LogSplits.SplitText: without the unique ID that is printed from log name and timestamp; when the entry size equals the overhead the quotient is infinite, and its conversion to an integer is up to the platform; the result of that conversion is a parameter that is at most one, as on amd64.
- LogBatches.PushLogs: only entries below the limit, as the loop does not end on others (LoopEndsIff says so of its iterated step); one project at a time; the request metadata for the quota project is not modelled.
- UTF-8 decoding: the decoder returns sizes, not code points.
- ExponentialHistograms.SubtractionIsExactIff: bucket slices are shorter than 2^31, which the size limit of a protobuf message guarantees.
- Normalizer.StandardNormalizer.Normalize: one method stands for the four Normalize*DataPoint methods, and histogram points have one bucket more than bounds, as OTLP demands; other shapes can index past the start point's buckets in the program.
- Authentication, clients, configuration, detectors, the SDK metric exporter and the disabled normalizer.
