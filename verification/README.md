# moshwatch in Dafny

A model of the stateful core of the moshwatch daemon, with proofs of the properties the daemon relies on:

- **The session registry** (`SessionIds`, `Records`, `SlidingWindow`, `Retransmits`, `HealthPolicy`, `PeerTracking`,
  `Eviction`, `Registry`): a class holding the table of session records, changed by one telemetry event or one
  discovery scan at a time. `RecordLog` ties each bounded record to the unbounded log of everything its session ever
  reported. `RegistryRuns` and `RegistryProperties` state what holds after every run of events and scans; `CounterGaps`
  says when an unreported counter hides a fall, and `RegistryPolicy` restates the policies (health, ageing, eviction,
  refusal, what an event leaves in a record) in the fields of records, events and configuration alone.
- **Exports** (`Sorting`, `Export`): the bounded, ordered summary export and its counters.
- **The telemetry connection** (`LineReader`, `TelemetryStream`): bounded frames, the invalid-frame limit, and why every
  event that reaches the registry belongs to its verified peer.
- **The history store** (`DayFiles`, `Samples`, `HistoryStore`, `HistoryQuery`, `HistoryRuns`, `RecordedSamples`): day files
  under a retention limit and a byte budget, with deletes and writes that may fail at any point, newest-first queries,
  and whole runs of the sampler.
- **The snapshot publisher** (`Publisher`): requesters and the rate-limited worker as interleaved atomic steps.
- **Supporting policies** (`Text`, `Accept`, `Coherence`, `DetachedRoaming`): the text sanitiser, content negotiation for
  the metrics endpoint, and the route-continuity report.

The registry, the history store, the line source and the history directory are classes that change in place; loops that
update variables are methods with loops, proved against a function or predicate about which the properties are then
proved. Times are unbounded integers, floating-point numbers are reals, and 64-bit counters saturate explicitly.

## What the proofs found

Places where the code does something other than its names or its documentation suggest. The code was followed; for each
there is the exact condition and a concrete input.

- An active session can be evicted by telemetry in exactly one case: a `SessionClose` with `shutdown = false`, for a
  session not yet tracked, when the table is full of active sessions. It passes admission as closing but is stored as
  active, and the lowest of them all goes (`EventEvictsActiveExactly`, `TelemetryLosesActiveExactly`; input:
  `CornerReachable`, where it is the established session).
- The stale cutoff is three cleanup intervals only while that product fits in 63 bits (`StaleCutoffExact`; input:
  `StaleCutoffNegative`).
- A fall of a counter escapes the reset exactly when events that do not report the counter lie between the two reports
  (`FallRemainsIffHidden`); a window's figure is then zero whenever its later end is below its earlier one
  (`WindowFigures`; input: `HiddenRegression`).
- The history store's byte counter is the true total after a call iff the call recounted, or the counter was right
  before, or the directory ended empty and the counter had not been above it (`RecordSummaries`; input:
  `StaleByteCounter`, a directory that could not be listed at start-up).
- When both metrics formats are refused and OpenMetrics the more specifically, OpenMetrics is served all the same
  (`NegotiationExact`; input: `EverythingRefused`).
- A route shift is a change of digest, or an endpoint that came or went (`ShiftExactly`, `ShiftIsAddressChange`); a client
  that detaches and returns from the same address is judged as roaming (input: `DetachIsReportedAsRoaming`, three
  telemetry steps). A session without a shift is never reported as coherent: even the decision named "observed without
  roaming claim" needs one (`BuildReport`; input: `SteadySessionInsufficient`).
- A bound of one character drops a text that begins with whitespace (`DroppedExactly`; input: `LeadingSpaceDropped`).

## Model

| member | source | states |
|---|---|---|
| Registry.ServiceState.constructor | crates/moshwatchd/src/state.rs:74-80 | a new registry tracks nothing and has dropped nothing |
| Registry.ServiceState.ApplyTelemetryAt | crates/moshwatchd/src/state.rs:90-263 | the in-place update by one event reaches exactly the specified state: upgrade of a legacy placeholder, admission, absorption, then the cap |
| Registry.ServiceState.Absorb | crates/moshwatchd/src/state.rs:159-261 | the field-by-field update of one record equals the specified record: clamped time, resets, upserts, trimming, windows, health, shutdown flag |
| Registry.ServiceState.RefreshDiscovery | crates/moshwatchd/src/state.rs:265-348 | a scan reaches exactly the specified state: sightings folded in order, asymmetric ageing of what was not seen, then the cap |
| Registry.ServiceState.EnforceSessionCap | crates/moshwatchd/src/state.rs:470-487 | the eviction loop ends with the top records under the cap and counts every eviction, saturating |
| Registry.ServiceState.RejectNewActiveInstrumentedSession | crates/moshwatchd/src/state.rs:489-513 | refuses exactly a new active session on a full table of active sessions, and counts the refusal |
| RegistryPolicy.EventLeaves | crates/moshwatchd/src/state.rs:90-263 | over every run, the record an event leaves, field by field: identity, clamped time, first label kept, reported addresses preferred, measurements, newest point and sample, reset mark, shutdown flag, health |
| RegistryPolicy.FallsExactly | crates/moshwatchd/src/state.rs:683-702 | the counters reset iff one of the eight totals is reported before and after and is lower after |
| RegistryPolicy.ReachableWindows | crates/moshwatchd/src/state.rs:215-244 | over every run, a record keeps a point for every report since the last reset within the configured time and for no other, and its windows are those of 10 s and 60 s |
| RegistryPolicy.StoredHealthExactly | crates/moshwatch-core/src/protocol.rs:674-712 | over every run, a stored instrumented session is critical iff smoothed RTT, 60 s loss or silence is at its critical threshold, healthy iff every reported signal is below its warning threshold, and degraded otherwise |
| RegistryPolicy.ExportedHealthExactly | crates/moshwatchd/src/state.rs:515-536 | an exported summary is the stored one with both ages advanced by the time since the last observation, and has the health of those signals |
| RegistryPolicy.RefusedExactly | crates/moshwatchd/src/state.rs:489-513 | an event is refused iff it would bring a new session, not closing, into a full table of active sessions |
| RegistryPolicy.SightingLeaves | crates/moshwatchd/src/state.rs:271-321 | a found process is tracked as legacy iff no instrumented record of it is, and what its legacy record then holds |
| RegistryPolicy.FoundAreTracked | crates/moshwatchd/src/state.rs:271-336 | every process a scan finds is tracked after the ageing pass |
| RegistryPolicy.AgeingExactly | crates/moshwatchd/src/state.rs:323-346 | a record the scan does not name survives iff it is younger than max(discovery interval, 5 s) when legacy or closed, max(three cleanup intervals, 30 s) when active |
| RegistryPolicy.UnnamedLeavesExactly | crates/moshwatchd/src/state.rs:323-347 | over every run, so a scan drops an unnamed instrumented session iff it is that old; a legacy one of that age goes, and a younger one only for the cap |
| RegistryPolicy.CapEvictsLowest | crates/moshwatchd/src/state.rs:784-809 | whoever the cap evicts comes before whoever it keeps: legacy, closed, active; then older observation, older start, smaller id |
| RegistryPolicy.StepEvictsLowest | crates/moshwatchd/src/state.rs:470-487 | so on every step of every run, and only when the table is over the cap |
| Eviction.FindWorst | crates/moshwatchd/src/state.rs:470-487 | in whatever order the table is walked, finds the record that goes first under the eviction order |
| Eviction.CappedIsTop | crates/moshwatchd/src/state.rs:470-487 | repeated eviction leaves exactly the `cap` greatest records (or all of them) |
| Eviction.TopUnique | crates/moshwatchd/src/state.rs:784-809 | that set is unique, so the outcome does not depend on the hash-map order |
| Eviction.EvictsOnlyBelow | crates/moshwatchd/src/state.rs:784-809 | if the records of a class and above fit, only lower classes are evicted |
| SessionIds.IdDeterminesIdentity | crates/moshwatchd/src/state.rs:539-545 | the formatted session id determines kind, process id and start time |
| SessionIds.StringLessExactly | crates/moshwatchd/src/state.rs:803 | ids are compared by their first difference, a prefix being smaller |
| SessionIds.IdForms | crates/moshwatchd/src/state.rs:539-545 | the form of the two ids |
| SlidingWindow.TrimHistory | crates/moshwatchd/src/state.rs:730-744 | the pop-from-the-front loop keeps exactly the suffix specified by the window |
| SlidingWindow.RetainedStep | crates/moshwatchd/src/state.rs:704-744 | upsert then trim keeps the deque equal to the whole log, last write winning, cut to the window before its newest entry |
| SlidingWindow.RetainedShape | crates/moshwatchd/src/state.rs:704-744 | what is retained is strictly increasing in time and ends with the newest entry |
| SlidingWindow.RetainedLogged | crates/moshwatchd/src/state.rs:704-744 | every retained entry is in the log and young enough |
| SlidingWindow.RetainedCovers | crates/moshwatchd/src/state.rs:704-744 | every young enough instant of the log has a retained entry |
| Retransmits.RetransmitPct | crates/moshwatchd/src/state.rs:571-649 | the backwards scan computes the specified window |
| Retransmits.WindowBaseline | crates/moshwatchd/src/state.rs:571-649 | a window is complete iff the oldest sample is at least that old; its deltas are against the newest sample old enough; otherwise it is empty |
| Retransmits.LongerWindowCompleteImpliesShorter | crates/moshwatchd/src/state.rs:237-244 | a complete long window implies a complete short one |
| Retransmits.PercentageInRange | crates/moshwatchd/src/state.rs:571-649 | a percentage that is present lies between 0 and 100, for any samples |
| Retransmits.RatioExactly | crates/moshwatchd/src/state.rs:571-649 | transmissions are updates, retransmits and empty acks together; the percentage is retransmits per transmission, unknown iff there was none |
| Retransmits.ExactDeltas | crates/moshwatchd/src/state.rs:571-649 | on advancing counters the saturating deltas are exact differences and the long window's are at least the short one's |
| HealthPolicy.WorseSignalsWorseHealth | crates/moshwatch-core/src/protocol.rs:674-712 | worse readings never give better health |
| HealthPolicy.HealthNeverImproves | crates/moshwatchd/src/state.rs:515-536 | for a fixed record, exported health never gets better as time passes; legacy sessions stay legacy |
| HealthPolicy.SilenceIsCritical | crates/moshwatch-core/src/protocol.rs:674-712 | once the silence reaches the critical threshold every export says critical |
| HealthPolicy.MaterializedFrame | crates/moshwatchd/src/state.rs:515-536 | materialising touches only health and the two ages |
| PeerTracking.PeerStep | crates/moshwatchd/src/state.rs:547-569 | the constant-size peer record stays equal to a function of the whole address log |
| PeerTracking.PeerTimesOrdered | crates/moshwatchd/src/state.rs:547-569 | changed-at is at most last-seen, which is at most last-observed |
| PeerTracking.RouteShiftIffChanged | crates/moshwatch-core/src/protocol.rs:454-458 | the status shows a shift iff the non-null address log ever changed value |
| RecordLog.AbsorbAgrees | crates/moshwatchd/src/state.rs:159-261 | absorbing an event keeps the record equal to the retained view of its whole log, and never takes the time-regression branch |
| RecordLog.WindowsAligned | crates/moshwatchd/src/state.rs:215-235 | both deques have the same strictly increasing timestamps, ending at the last observation |
| RecordLog.WindowSinceReset | crates/moshwatchd/src/state.rs:161-169 | every retained counter sample was reported since the last reset, so no window spans one |
| RecordLog.WindowsExact | crates/moshwatchd/src/state.rs:237-244 | if every event reports all counters, both windows hold exact differences and the long deltas are at least the short ones |
| CounterGaps.FallBetweenNeighbours | crates/moshwatchd/src/state.rs:700-702 | between a report and a lower one lie two neighbouring reports that fall |
| CounterGaps.FallRemainsIffHidden | crates/moshwatchd/src/state.rs:683-702 | for each window counter: a fall is left standing after the last reset iff two events report it, the later lower, with at least one event between them and none of those reporting it |
| CounterGaps.WindowFigures | crates/moshwatchd/src/state.rs:571-649 | every figure of a complete window is the exact difference of its two ends, or a saturated zero exactly when the later end is below the earlier; for a counter both ends report, only across a hidden fall |
| RecordLog.HiddenRegression | crates/moshwatchd/src/state.rs:700-702 | the input: a log in which one missing value hides a fall from the reset, and a complete window shows zero |
| RegistryRuns.NextIsRegistryStep | crates/moshwatchd/src/state.rs:90-348 | the steps of a run are the registry's two operations |
| RegistryRuns.StepGood | crates/moshwatchd/src/state.rs:90-348 | every step keeps the invariant: identity, twins never both tracked, agreement with the logs, the cap, and the two counts |
| RegistryRuns.RunGood | crates/moshwatchd/src/state.rs:90-348 | after every run the tracked count is inserts minus evictions minus age-outs and within the cap, and drops are refusals plus evictions, saturating |
| RegistryProperties.EventEvictsActiveExactly | crates/moshwatchd/src/state.rs:125-131 | an accepted event makes the cap evict an active session iff it is the misclassified close on a full active table |
| RegistryProperties.CornerReachable | crates/moshwatchd/src/state.rs:254-262 | that case occurs: with room for one session, such a close observed after an open takes the established session out |
| RegistryProperties.DiscoveryEvictsOnlyLegacy | crates/moshwatchd/src/state.rs:347 | after a scan the cap removes only legacy records |
| RegistryProperties.TelemetryKeepsActive | crates/moshwatchd/src/state.rs:90-263 | outside that corner telemetry never removes an active session |
| RegistryProperties.TelemetryLosesActiveExactly | crates/moshwatchd/src/state.rs:90-263 | a telemetry step removes an active session iff it is that corner and the session is the lowest in the eviction order, the newcomer included |
| RegistryProperties.DiscoveryLosesOnlyStale | crates/moshwatchd/src/state.rs:323-347 | a scan removes an active session only if it did not see it and its age reached the stale cutoff |
| RegistryProperties.ActiveLeavesOnlyWhenStale | crates/moshwatchd/src/state.rs:323-347 | over whole runs, that is the only way an active session ever leaves |
| RegistryProperties.StaleCutoffExact | crates/moshwatchd/src/state.rs:323 | the cutoff is the larger of three cleanup intervals and 30 s iff that product does not overflow |
| RegistryProperties.StaleCutoffNegative | crates/moshwatchd/src/state.rs:323-345 | the input: an interval for which the cutoff is negative, so that one scan that misses an active session ages it out |
| RegistryProperties.DiscoveryPreservesInstrumented | crates/moshwatchd/src/state.rs:270-321 | a scan leaves every surviving instrumented record unchanged in every field |
| RegistryProperties.TelemetryPreservesOthers | crates/moshwatchd/src/state.rs:133-136 | an event changes no record but its own |
| RegistryProperties.QuietRecordUnchanged | crates/moshwatchd/src/state.rs:265-348 | over any number of steps without its telemetry, an instrumented record stays as it was |
| RegistryProperties.QuietHealthNeverImproves | crates/moshwatchd/src/state.rs:515-536 | over such a run its exported health never improves |
| RegistryProperties.NeverObservedInFuture | crates/moshwatchd/src/state.rs:651-681 | with a clock that never runs back no record was last observed after it |
| RegistryProperties.ReachableRecord | crates/moshwatchd/src/state.rs:90-348 | every record of every reachable state sits under its own id, equals the retained view of its log, and has its peer times in order |
| RegistryProperties.TimeRegressionUnreachable | crates/moshwatchd/src/state.rs:170-182 | the time-regression reset is never taken |
| Export.Summaries | crates/moshwatchd/src/state.rs:350-358 | the full list holds each session once, in the listing order |
| Export.SessionListUnique | crates/moshwatchd/src/state.rs:762-782 | only one list does |
| Export.ListedByUrgency | crates/moshwatchd/src/state.rs:762-782 | in the list each session is at least as urgent as those after it: critical, degraded, legacy, healthy; then slower, unknown last; then by id |
| Export.KeepBest | crates/moshwatchd/src/state.rs:360-442 | insert, sort and pop keeps the first entries of the list of all sessions walked so far |
| Export.ExportSummaries | crates/moshwatchd/src/state.rs:360-442 | the bounded export equals the first entries of the full list; totals, cells and the truncation count are those of the whole table |
| Export.CellsPartition | crates/moshwatchd/src/state.rs:350-442 | the health cells add up to the two kinds and these to the total; kind-inconsistent cells are zero |
| Publisher.InvariantAlways | crates/moshwatchd/src/main.rs:585-620 | every interleaving keeps the invariant: an unpublished version is always still announced or in hand |
| Publisher.NoLostUpdate | crates/moshwatchd/src/main.rs:75-80 | whenever the system is at rest the published snapshot is of the latest version, and publishes start at least the refresh interval apart |
| Publisher.WorkerComesToRest | crates/moshwatchd/src/main.rs:595-618 | while no requester acts, the worker can take only a bounded number of steps |
| Publisher.StuckMeansPublished | crates/moshwatchd/src/main.rs:595-618 | the worker can be stuck for good only when parked, and then everything is published |
| TelemetryStream.HandleStream | crates/moshwatchd/src/main.rs:495-583 | the loop applies exactly the acceptable lines it saw, in order, each as the event it claims under its peer's identity, and is cut off at the eighth invalid line since the last accepted one, however the stream is chunked |
| TelemetryStream.JudgedExactly | crates/moshwatchd/src/main.rs:708-730 | a line is applied iff it is at most 16 KiB, not blank, decodable, from the peer's pid and a supported executable, within 60 s of now and 10 s of the peer's start, with absent or finite non-negative RTTs; what the event then carries; and when it counts as blank |
| TelemetryStream.AppliedExactly | crates/moshwatchd/src/main.rs:502-580 | so for any number of lines, by position |
| TelemetryStream.CutOffExactly | crates/moshwatchd/src/main.rs:517-573 | the cut-off condition holds iff some stretch of lines without an accepted one holds eight invalid ones |
| TelemetryStream.AppliedTrustworthy | crates/moshwatchd/src/main.rs:557-580 | whatever the bytes, every applied event carries its peer's identity under its peer's key and plausible measurements |
| TelemetryStream.AcceptedIsTrustworthy | crates/moshwatchd/src/main.rs:708-730 | an accepted line yields such an event, stamped within the allowed skew |
| TelemetryStream.TrustworthyIsPermitted | crates/moshwatchd/src/main.rs:574-580 | such events are the telemetry steps the registry runs are about |
| TelemetryStream.PeersApart | crates/moshwatchd/src/main.rs:574 | two peers write the same key only if they are the same process |
| LineReader.DrainLineRemainder | crates/moshwatchd/src/history.rs:645-664 | consumes through the end of the line, whatever the chunks, and reports its true length |
| LineReader.ReadBoundedLine | crates/moshwatchd/src/history.rs:602-643 | consumes exactly one physical line, returns it if it fits and its true length if it does not |
| LineReader.ReadAllLines | crates/moshwatchd/src/history.rs:194-211 | repeated reads yield the plain line split without the oversized lines |
| LineReader.SplitLinesPartition | crates/moshwatchd/src/history.rs:602-643 | the line split loses and reorders nothing and breaks only after newlines |
| LineReader.StrippedExactly | crates/moshwatchd/src/history.rs:212-217 | stripping takes off exactly the line feeds and carriage returns at the end |
| Text.SanitizeText | crates/moshwatchd/src/sanitize.rs:64-109 | the one-pass loop computes the specified text |
| Text.SanitizedIsPresentable | crates/moshwatchd/src/sanitize.rs:64-109 | output is within the bound, free of control characters, and without repeated or edge whitespace |
| Text.PresentableIsFixed | crates/moshwatchd/src/sanitize.rs:64-109 | such a text is returned unchanged |
| Text.PresentableExactly | crates/moshwatchd/src/sanitize.rs:64-109 | what such a text is, character by character |
| Text.ShownExactly | crates/moshwatchd/src/sanitize.rs:64-109 | every kind of space becomes a plain one, any other control character a question mark |
| Text.TrimExactly | crates/moshwatchd/src/sanitize.rs:96-101 | trimming takes off exactly the whitespace at either end |
| Text.CutExactly | crates/moshwatchd/src/sanitize.rs:64-109 | a text too long is cut to a beginning of it and three dots, within the bound |
| Text.SanitizedIdempotent | crates/moshwatchd/src/sanitize.rs:64-109 | sanitising twice is sanitising once, for every bound |
| Text.ExactAcceptsImage | crates/moshwatchd/src/sanitize.rs:126-128 | the exactness test accepts exactly the texts the sanitiser can return |
| Text.DroppedExactly | crates/moshwatchd/src/sanitize.rs:64-109 | exactly when a text is dropped |
| Text.LeadingSpaceDropped | crates/moshwatchd/src/sanitize.rs:64-109 | the input: a space and a letter, with room for one character |
| Samples.SampleIdempotent | crates/moshwatchd/src/sanitize.rs:33-58 | sanitising a sample again changes nothing |
| Samples.SampleIdentityIntact | crates/moshwatchd/src/sanitize.rs:33-58 | a sample is accepted iff its identity is valid, and that identity is never changed |
| Samples.SampleExactly | crates/moshwatchd/src/sanitize.rs:33-58 | every field of an accepted sample: measurements kept iff within bounds, texts kept iff presentable, all else untouched |
| Samples.ObserverExactly | crates/moshwatchd/src/sanitize.rs:111-116 | an observer's two names are kept together or not at all |
| RecordedSamples.RunStorable | crates/moshwatchd/src/state.rs:90-348 | over every run of plausible steps each tracked summary has presentable texts, non-negative round-trip times and percentages in range |
| RecordedSamples.RecordedSampleSurvivesExactly | crates/moshwatchd/src/sanitize.rs:33-58 | the sample recorded for a reachable instrumented session comes back from the sanitiser unchanged iff its process id is positive and the observer's names are presentable |
| RecordedSamples.TrustworthyIsPlausible | crates/moshwatchd/src/main.rs:481-493 | what a telemetry connection applies is such a step |
| DayFiles.FileDayInvertsFileName | crates/moshwatchd/src/history.rs:433-436 | the day written into a file name is the day read back from it |
| DayFiles.ListSorted | crates/moshwatchd/src/history.rs:309-314 | the sorted listing does not depend on the directory's order |
| DayFiles.ListedByDay | crates/moshwatchd/src/history.rs:309-314 | from earlier to later days, and by name within a day |
| DayFiles.DayBucketExactly | crates/moshwatchd/src/history.rs:519-521 | a day bucket is the whole number of days since the epoch, rounded down |
| DayFiles.DayNames | crates/moshwatchd/src/history.rs:433-436 | the form of a day file's name |
| DayFiles.SumSizes | crates/moshwatchd/src/history.rs:390 | adding up the file sizes gives the total, in any order |
| HistoryStore.HistoryDir.Remove | crates/moshwatchd/src/history.rs:345-347 | a delete removes the one file or fails and changes nothing |
| HistoryStore.HistoryDir.Append | crates/moshwatchd/src/history.rs:152-157 | an append writes everything, or fails having written part or nothing |
| HistoryStore.Store.constructor | crates/moshwatchd/src/history.rs:55-84 | a new store starts with the size found on disk and zero counters |
| HistoryStore.Store.RefreshCurrentBytes | crates/moshwatchd/src/history.rs:276-280 | the byte counter becomes the true total, or stays if the directory cannot be listed |
| HistoryStore.Store.PruneOldFiles | crates/moshwatchd/src/history.rs:317-365 | deletes expired files only, all of them unless a delete fails, and lowers the byte counter by what is gone |
| HistoryStore.RetentionLimit | crates/moshwatchd/src/history.rs:317-320 | the current day and the days before it within the retention setting are kept |
| HistoryStore.Store.EnsureDiskBudget | crates/moshwatchd/src/history.rs:367-431 | evicts oldest first, only while the payload still does not fit, never the current or a later day; says "fits" only when it does |
| HistoryStore.Store.WritePayload | crates/moshwatchd/src/history.rs:138-173 | the payload is appended to the current day's file, dropped and counted, or reported failed; whenever the directory can be listed and the payload alone is within the budget the byte counter ends as the true total, and otherwise nothing changes |
| HistoryStore.Store.RecordSummaries | crates/moshwatchd/src/history.rs:96-173 | whatever fails, the disk ends within the budget or no fuller than before, only past days are deleted and only today's file grows; exactly when the byte counter is the true total; without failures the step is a clean one, and a written or dropped payload could be encoded |
| HistoryStore.StaleByteCounter | crates/moshwatchd/src/history.rs:60-84 | the input: a store started on a directory that cannot be listed still counts zero after an idle call once it can |
| HistoryStore.StillDayFiles | crates/moshwatchd/src/history.rs:433-436 | the store leaves only day files behind |
| HistoryQuery.HistoryFilesFrom | crates/moshwatchd/src/history.rs:282-315 | whatever order the directory yields, the names of the day of the query's start and later, oldest first |
| HistoryQuery.ReadMatches | crates/moshwatchd/src/history.rs:188-250 | the line loop over one file finds its matching samples |
| HistoryQuery.PushNewestFirst | crates/moshwatchd/src/history.rs:251-256 | pushing newest-first and popping the overflow keeps the newest samples |
| HistoryQuery.QuerySession | crates/moshwatchd/src/history.rs:175-264 | the early-stopping query returns the last matches the naive oldest-to-newest scan would end with: every returned sample is of the session and not before the start, and one that was left out comes before all that were returned, which are then as many as asked for |
| HistoryQuery.NewestMatches | crates/moshwatchd/src/history.rs:243-262 | the last matches of any sample sequence, by position |
| HistoryQuery.FileSamplesExactly | crates/moshwatchd/src/history.rs:194-242 | a file yields the samples of its lines in order: those of at most 64 KiB, not blank, decodable and accepted by the sanitiser |
| HistoryQuery.SkippingDaysLosesNothing | crates/moshwatchd/src/history.rs:282-315 | if files hold only samples of their own day, skipping earlier days loses nothing |
| HistoryRuns.CleanStepHolds | crates/moshwatchd/src/history.rs:96-173 | a clean step keeps the disk equal to the accepted batches from some day on, and moves that day only forward |
| HistoryRuns.RunHolds | crates/moshwatchd/src/history.rs:96-173 | so after every call of every such run, with the day at least the retention limit and at most today |
| HistoryStore.EncodePayload | crates/moshwatchd/src/history.rs:490-517 | the encoding loop yields one line per sample, in order, or fails with the first sample that cannot be encoded |
| HistoryStore.OfferedExactly | crates/moshwatchd/src/history.rs:104-107 | exactly the instrumented sessions are offered, in order, each field of the sample from its own field of the summary |
| HistoryRuns.PayloadRoundTrip | crates/moshwatchd/src/history.rs:490-517 | an encoded payload reads back as the samples it was made from |
| HistoryRuns.QueryFindsLog | crates/moshwatchd/src/history.rs:175-264 | after such a run the naive scan of the files a query looks at finds exactly the matching samples of the kept batches, in recording order |
| HistoryRuns.QueryResultChronological | crates/moshwatchd/src/history.rs:261-263 | query results are in chronological order |
| HistoryRuns.RunsFileByDay | crates/moshwatchd/src/history.rs:519-521 | files written by the store hold only samples of their own day |
| HistoryRuns.SampleHistory | crates/moshwatchd/src/main.rs:343-369 | calling the store tick after tick on an empty directory: if nothing failed, the directory holds exactly the accepted batches from the run's last threshold day on, and the change of the drop counter is samples offered minus samples written |
| HistoryRuns.SampleThenQuery | crates/moshwatchd/src/history.rs:175-264 | after such sampling a query returns the newest matching samples of the accepted and kept batches, in the order recorded |
| Accept.AcceptItemQuality | crates/moshwatchd/src/metrics.rs:227-284 | the parameter loop computes what an item says: void parameters void it, the last value of each parameter counts |
| Accept.HeaderPreference | crates/moshwatchd/src/metrics.rs:206-221 | folding the items of a header gives the best match for each format |
| Accept.RequestedFormat | crates/moshwatchd/src/metrics.rs:122-153 | folding all `Accept` headers gives the decision specified for all their items |
| Accept.BestIsBest | crates/moshwatchd/src/metrics.rs:192-204 | merging finds the most specific match and, among those, the one of highest quality |
| Accept.FormatsExactly | crates/moshwatchd/src/metrics.rs:227-284 | when an item speaks for each format, by media type, version and charset, and with what quality |
| Accept.TiesExactly | crates/moshwatchd/src/metrics.rs:143-190 | equally acceptable formats are decided by specificity, in favour of plain text, which is also the default |
| Accept.EqualLetters | crates/moshwatchd/src/metrics.rs:133 | names are compared without regard to the case of A to Z |
| Accept.SplitOnceExactly | crates/moshwatchd/src/metrics.rs:130-132 | a pair is split at the first separator |
| Accept.UnquotedExactly | crates/moshwatchd/src/metrics.rs:242-244 | a value loses exactly the quotes around it |
| Accept.NegotiationOrderFree | crates/moshwatchd/src/metrics.rs:192-221 | reordering or repeating items, or moving them between header lines, never changes the decision |
| Accept.SplitAcrossLines | crates/moshwatchd/src/metrics.rs:125-142 | one header line with two lists means the same as two lines |
| Accept.NegotiationExact | crates/moshwatchd/src/metrics.rs:143-190 | the decision is an acceptable format of highest quality, or none if there is none, iff not both are refused with OpenMetrics the more specific |
| Accept.EverythingRefused | crates/moshwatchd/src/metrics.rs:186-189 | headers for which a refused format is served |
| Coherence.SortStable | crates/moshwatch-core/src/protocol.rs:522 | the sort orders by time and keeps the given order within an instant |
| Coherence.StableSortUnique | crates/moshwatch-core/src/protocol.rs:522 | only one sequence does |
| Coherence.RouteEpochs | crates/moshwatch-core/src/protocol.rs:524-542 | the pass that lengthens the last epoch or opens a new one encodes the points by maximal runs |
| Coherence.EncodingUnique | crates/moshwatch-core/src/protocol.rs:524-542 | there is only one such encoding |
| Coherence.EpochsFaithful | crates/moshwatch-core/src/protocol.rs:524-549 | epochs expand back to the labels, adjacent ones differ, indices are consecutive, counts add up to the points, and epochs are label changes plus one |
| Coherence.ShiftIffTwoLabels | crates/moshwatch-core/src/protocol.rs:549 | there is a shift iff two points carry different labels, whatever their order |
| Coherence.MaxGapExact | crates/moshwatch-core/src/protocol.rs:544-547 | the reported gap is attained between neighbours and exceeded by none |
| Coherence.BuildReport | crates/moshwatch-core/src/protocol.rs:475-604 | the decision for roaming is given iff identity is stable, the label really changed, and there is liveness, recovery and a port or packet signal; the weaker decision likewise has its exact condition; the score is the weighted sum of the signals |
| Coherence.SignalsExactly | crates/moshwatch-core/src/protocol.rs:551-565 | the signals a report weighs, read off the summary and the history |
| Coherence.PointsExactly | crates/moshwatch-core/src/protocol.rs:480-521 | the points of a report, from the history or from the summary alone |
| Coherence.LabelExactly | crates/moshwatch-core/src/protocol.rs:428-432 | an endpoint that is absent or blank has no label, any other its digest |
| Coherence.ShiftExactly | crates/moshwatch-core/src/protocol.rs:428-432 | for any digest: there is a shift iff two endpoints have different digests, or some points have an endpoint and others have none |
| Coherence.ShiftIsAddressChange | crates/moshwatch-core/src/protocol.rs:428-432 | if no two endpoints of the history collide, a shift agrees with a change of address iff the address changed, or all points have an endpoint, or none has |
| DetachedRoaming.DetachIsReportedAsRoaming | crates/moshwatch-core/src/protocol.rs:475-604 | the input: after three telemetry steps in which a client detaches and returns from its one address, the exported record meets the roaming evidence while the compact status shows no shift |
| DetachedRoaming.DetachPermitted | crates/moshwatchd/src/main.rs:574-580 | those steps are ones a verified peer can cause |
| Coherence.SteadySessionInsufficient | crates/moshwatch-core/src/protocol.rs:570-577 | the input: a session with every signal but one unchanging address meets neither positive condition |
| Coherence.RegistryHistoryInOrder | crates/moshwatchd/src/state.rs:444-462 | on the history of any reachable record the sort changes nothing |
| Coherence.SessionDetailExactly | crates/moshwatchd/src/state.rs:444-462 | the newest points are exported, as many as configured, and the rest is counted |
| Coherence.CompactStatusExact | crates/moshwatch-core/src/protocol.rs:454-472 | for every reachable record the compact status reports a shift iff the address log ever changed, with confidence 90 then, 72 without, and 25 for a legacy session |

## Left out

- Sockets, HTTP, timeouts, semaphores, tracing and runtime statistics; a telemetry read that fails or times out is one nondeterministic outcome.
- JSON, TOML and protobuf encoding: the history codec and the frame decoder are arbitrary functions. Where a round trip is claimed, `Reproduces` says what the codec must satisfy, including lines short enough to be read back; which samples the sanitiser then returns as they are is `RecordedSampleSurvivesExactly`.
- SHA-256: the endpoint digest is an arbitrary function; the truncation to twelve digits can make labels collide, which only `ShiftIsAddressChange` excludes, and only among the endpoints of the history at hand.
- Peer credentials, executable checks and `/proc` parsing: a verified peer and the list of discovered sessions are inputs.
- Floating-point rounding: reals throughout. Telemetry round-trip times reach the registry finite, as the stream handler guarantees.
- Overflow of 64-bit time arithmetic (differences, skew and drift checks) and of the history store's byte and sample counters, which are unbounded here; the multiplication in the stale cutoff and the cast after it are modelled.
- Memory ordering: the publisher's steps are atomic and sequentially consistent. The read of the state and the replacement of the published snapshot are separate steps.
- Directory entries that are not regular day files are absent from the model's directory; a directory either can or cannot be listed throughout one call, and per-entry metadata errors are not modelled.
- File permissions, symbolic-link checks and token files.
- The HashMap iteration order is an arbitrary choice wherever a result could depend on it; hash collisions do not exist.
- Configuration defaults and validation: its range checks are preconditions where they are needed.
- The metric catalogue, OTLP export, the terminal interface, and build and install scripts.
- HistoryRuns.RunHolds: a clock that never runs back, times within 64 bits and no failing delete or write are hypotheses, as the original promises nothing then. The sampler's loop stops after finitely many ticks.
- Clocks: the time at which a telemetry line is judged is an arbitrary function of its position; all other times are inputs.
