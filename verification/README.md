# InduSense: a verified model of its stateful core

InduSense is a chain of services: MQTT ingestion, a stream processor, an anomaly
detector, an alert service and an incident store. Between the library calls sit
small state machines and numeric loops. This project models them in Dafny and
proves what they keep over whole runs.

| file | models |
|---|---|
| `Window.dfy` | the event-time sample buffer and its window statistics |
| `StreamProcessor.dfy` | claim, raw write, series registry, republish, dead letter |
| `Ewma.dfy`, `Moments.dfy`, `RealArith.dfy` | the online baseline, its z-scores and verdicts, and the weighted moments behind both numeric models |
| `IsolationForest.dfy` | growing, routing and scoring isolation trees |
| `Detector.dfy`, `DetectorFleet.dfy` | the durable claim, the tracker map and the feature store of one instance, and many crashing instances that share the claims |
| `Reliability.dfy` | retry with backoff, the circuit breaker, and the protected write |
| `Ingestion.dfy` | the MQTT acknowledgement protocol |
| `Incidents.dfy`, `IncidentRace.dfy`, `TransitionRace.dfy` | the incident lifecycle run serially, and `open_or_attach` and `transition` interleaved statement by statement |
| `Alerts.dfy`, `AlertRace.dfy` | alert deduplication, cooldown and escalation run serially, and several instances interleaved statement by statement |
| `AnomalyCount.dfy`, `RateLimiter.dfy` | the sliding-window anomaly counter and the fixed-window rate limiter |

`dafny verify dfyconfig.toml` checks everything. `Wrappers.dfy` holds the
`Option` and `Result` datatypes; `Dependencies.dfy` says how a call to a shared
dependency can end; `SeriesIds.dfy` names a series.

## How the source is rendered

- Floats are `real`. Event times are whole microseconds; other clocks are
  integers or reals. Rounding is not modelled.
- `math.sqrt` is any function that is non-negative and squares back to its
  argument on the non-negative reals. The forest's `c(n)` and `2^y` are any
  functions with the few properties named in `IsCorrection` and `IsExp2`.
- Random draws are an arbitrary stream, read by position.
- Each SQL statement and each Redis command is one atomic update of a map, set
  or sequence. A partial unique index is a guard on the insert or update.
- Calls to Kafka, InfluxDB, Redis, PostgreSQL and MQTT end as an input says. A
  write may land any number of times whether it is confirmed or not, and a claim
  may take effect although the call raises.
- A row and the audit event that follows it carry the clock readings of their own
  statements.
- Objects whose methods update their fields are classes. Each method is proved
  equal to a function of the old state, and the theorems are about runs of
  those functions. The concurrent protocols are step machines, quantified over
  all step sequences.

## Where the code and its documentation differ

The model follows the code.

- docs/alerting.md:52-53 says a recurrence reopens a resolved incident. Once an
  alert has opened a new incident for the machine, the unique index refuses
  that move (`Incidents.RecurrenceBlocksReopening`).
- services/alert-service/store.py:39-43 speaks of cooldown since resolution.
  The code measures from `triggered_at`. `Alerts.CooldownDiffersIff` says exactly
  which alerts it lets through that the comment would refuse;
  `Alerts.CreatedOnResolution` is a run with one.
- services/alert-service/store.py:72 relies on the unique index against races.
  The index covers OPEN rows only, so racing instances keep one OPEN alert a scope
  (`AlertRace.AlwaysOneOpen`), but keep the cooldown exactly when no insert comes
  too late for its check (`AlertRace.SpacedIff`, `AlertRace.RacingInstancesBreakCooldown`).
- docs/alerting.md:31-33 escalates alerts that stay OPEN. The sweep's update does
  not look at the status or the severity again, so an alert acknowledged since the
  select is still raised (`AlertRace.RaisesClosedIff`, `AlertRace.AcknowledgedIsRaised`),
  and two sweepers can count two levels for one rung (`AlertRace.OnRungIff`,
  `AlertRace.RacingSweepersLeaveLadder`).
- shared/incidents.py:77-81 says CLOSED is terminal and the audit trail honest. The
  update of a transition does not look at the status its select read, so a race can
  reopen a closed incident (`TransitionRace.StaleUpdateReopensClosed`).
  `TransitionRace.SoundIff` says exactly when the trail keeps telling the status.
- shared/incidents.py:125-126 says a repeated alert is logged as attached. A
  caller that loses the insert race is answered by its second select and logs
  nothing. `IncidentRace.AnswersCount` gives the law over every interleaving and
  when it is the serial one; `IncidentRace.LoserLogsNothing` is a run where it is not.
- services/stream-processor/main.py:131-133 says an uncommitted message must be
  redelivered. Its claim survives, so until the claim expires every redelivery is
  taken for a duplicate (`StreamProcessor.HeldEventIsLost`); one that comes later is
  processed (`StreamProcessor.ExpiryRecovers`). `StreamProcessor.SettledIff` and
  `StreamProcessor.CommittedIsLostIff` say exactly which events end up stored and
  which committed ones do not, over every delivery sequence.
- services/anomaly-detector/idempotency.py:1 says exactly once. What is claimed is
  done at most once, and not at all when the claim's answer is lost or its instance
  crashes (`DetectorFleet.CrashLosesEvent`, `DetectorFleet.LostAnswerLosesEvent`);
  `DetectorFleet.TrackedIff` says exactly which events are folded in. An anomaly may
  reach the topic several times or never (`DetectorFleet.RetryLandsTwoCopies`,
  `DetectorFleet.FailedCallLandsNone`, `DetectorFleet.AnnouncedIff`).
- services/api/middleware.py:197-201 counts per window. The minute is read before the
  script runs, and a script that runs after the counter has expired starts the count
  again (`RateLimiter.CounterIsExactIff`, `RateLimiter.LateScriptRestartsCount`).

One branch is no such difference: services/ingestion/main.py:136-138 acknowledges a
message on an unrecognized topic without storing it, but the handler is registered for
the three filters only, and none of their topics reaches it
(`Ingestion.SubscribedIsRecognized`). `Ingestion.AckSafeIff` shows that it is the only
branch where an ack does not mean a stored copy.

## Model

| member | source | states |
|---|---|---|
| `Window.SeriesBuffer.Add` | services/stream-processor/window.py:56-73 | the walk, the insert and the prefix trim leave a time-ordered buffer: the new sample behind all that are not later, then everything at or after the newest time less the longest window |
| `Window.SeriesBuffer.InsertionPoint` | services/stream-processor/window.py:60-63 | the backward walk finds the stable insertion point |
| `Window.SeriesBuffer.TrimBefore` | services/stream-processor/window.py:65-73 | dropping a leading run removes exactly the samples older than the cutoff |
| `Window.InsertAtTime` | services/stream-processor/window.py:60-63 | insertion is stable: the sample joins its own instant last and no other instant changes |
| `Window.SortByTimeIsStableSort` | services/stream-processor/window.py:56-63 | repeated insertion is the stable sort by event time of the history |
| `Window.StableSortUnique` | services/stream-processor/window.py:56-63 | a history has only one stable sort, so the specification leaves no freedom |
| `Window.OrderedDetermined` | services/stream-processor/window.py:56-73 | a time-ordered buffer is determined by what it holds at each instant |
| `Window.BufferRefinesHistory` | services/stream-processor/window.py:56-73 | after any arrival sequence the buffer is the stable sort of everything ever added, restricted to the longest window before the newest sample; for any window length, negative ones included |
| `Window.BufferDetermined` | services/stream-processor/window.py:56-73 | two histories that agree at every instant leave the same buffer |
| `Window.StatsOfFullHistory` | services/stream-processor/window.py:75-83 | for windows up to the longest, asked no earlier than the newest sample, the answer is that of the untrimmed history |
| `Window.TrimInvisibleIff` | services/stream-processor/window.py:65-83 | for any cutoff at all, the trim changes the window's samples exactly when some sample lies inside the window but before the trim point |
| `Window.StatsBounds` | services/stream-processor/window.py:86-109 | min <= average <= max, and the squared deviation is at most (max - average)(average - min) |
| `Window.StatsDescribe` | services/stream-processor/window.py:86-109 | for every non-empty window: the count, an average that times the count is the sum, a non-negative deviation whose square times the count is the sum of squared deviations, extremes that are values and bound all others, and a rate that times the elapsed time is the rise, or zero |
| `Window.QueryDescribes` | services/stream-processor/window.py:75-84 | a query answers exactly when some sample lies at or after the cutoff, and then describes exactly those samples |
| `Window.RateBounds` | services/stream-processor/window.py:96-100 | with strictly increasing times the rate of change lies between the least and greatest slope of consecutive samples |
| `StreamProcessor.Deduplicator.Claim` | services/stream-processor/dedup.py:37-41 | set if absent with expiry: true exactly when the id was never claimed or its claim has expired |
| `StreamProcessor.SeriesRegistry.Record` | services/stream-processor/registry.py:45-53 | only the series of the key's id changes, by one arrival; the key is kept from the first sample |
| `StreamProcessor.Processor.ProcessMessage` | services/stream-processor/main.py:130-204 | parse, claim, write, record, publish and dead-letter change the whole state as specified for every pattern of failures, unconfirmed writes and unanswered claims, and commit as specified |
| `StreamProcessor.Processor.ProcessFirstCopy` | services/stream-processor/main.py:163-204 | the part only the first copy of an event reaches |
| `StreamProcessor.Processor.FlushOnce` | services/stream-processor/main.py:217-230 | the two loops produce one point for every series and window that has samples, equal to the window query of the state, and no other |
| `StreamProcessor.FlushDescribes` | services/stream-processor/main.py:217-230 | every series and window with a sample gets its point, and each point describes exactly the samples of its series since the window began |
| `StreamProcessor.RunShardsRecorded` | services/stream-processor/registry.py:45-53 | whatever fails, each series is exactly the buffer of its own recorded samples, and no other series exists |
| `StreamProcessor.KeysAreFirst` | services/stream-processor/registry.py:45-53 | the key kept for a series is that of its first recorded event |
| `SeriesIds.SameSeriesIff` | services/stream-processor/registry.py:24-25 | two series share an id if and only if device and metric agree, for device names without the separator |
| `StreamProcessor.RunClaims` | services/stream-processor/dedup.py:37-41 | every claim in force was made by a delivery of that id, and expires one lifetime after it |
| `StreamProcessor.RecordedOnce` | services/stream-processor/main.py:150-187 | no event id is aggregated twice while its copies keep within the claim's lifetime, whatever else fails |
| `StreamProcessor.RecordedOnceIff` | services/stream-processor/dedup.py:37-41 | with healthy stores and a monotone clock, aggregation is exactly-once if and only if every copy arrives within the lifetime counted from each earlier copy |
| `StreamProcessor.SmoothRecordsAll` | services/stream-processor/main.py:150-187 | with healthy stores and no expiry, the recorded events are exactly the delivered ones |
| `StreamProcessor.HistoryDetermined` | services/stream-processor/registry.py:45-53 | at each instant the history of a series depends only on the set of recorded events |
| `StreamProcessor.DeliveryInvariance` | services/stream-processor/main.py:150-187 | two delivery sequences carrying the same events, permuted and repeated at will, leave every series buffer identical |
| `StreamProcessor.StatsInvariance` | services/stream-processor/main.py:217-226 | hence no window statistic of any series tells the two apart |
| `StreamProcessor.QueryIsFullHistory` | services/stream-processor/main.py:217-226 | a window query is answered as if every recorded sample of the series had been kept in time order |
| `StreamProcessor.CommittedIsSettled` | services/stream-processor/main.py:130-204 | every committed message ends up written and republished, or dead-lettered, or was a copy of an id with a claim in force |
| `StreamProcessor.SettledIff` | services/stream-processor/main.py:130-204 | over every delivery sequence an event ends up written and republished, or dead-lettered, if and only if some copy of it arrives with no claim on its id in force, is told it is the first, and its writes land |
| `StreamProcessor.RunWrites` | services/stream-processor/main.py:130-204 | over every delivery sequence the raw store, the processed topic and the dead-letter topic hold exactly what the taken and the malformed deliveries landed there, in order and under which stage; nothing else is written |
| `StreamProcessor.CopiesWritten` | services/stream-processor/main.py:172-204 | the number of copies of an event in the raw store and in the topic is the sum of the landings over its taken deliveries |
| `StreamProcessor.DeadLetteredIff` | services/stream-processor/main.py:139-204 | a message is dead-lettered under a stage if and only if some delivery of it failed at that stage and a dead letter landed |
| `StreamProcessor.HealthyRunHasNoDeadLetters` | services/stream-processor/main.py:204-204 | nothing is dead-lettered when payloads parse and writes are confirmed |
| `StreamProcessor.CommitsIff` | services/stream-processor/main.py:130-204 | an offset is committed if and only if its malformed payload is dead-lettered, or its claim is answered and either another claim is in force or every write relied on is confirmed |
| `StreamProcessor.CommittedIsLostIff` | services/stream-processor/main.py:131-133 | a committed event reached neither the stores nor the dead letters if and only if it was committed under a claim in force and every copy that met none was left unanswered or unstored |
| `StreamProcessor.SettledWithinLifetime` | services/stream-processor/main.py:150-204 | while no claim expires one delivery decides: the first whose claim took effect |
| `StreamProcessor.HeldEventIsLost` | services/stream-processor/main.py:172-185 | a run that loses an event within the lifetime: a double failure after the claim turns the redelivery into a committed duplicate |
| `StreamProcessor.ExpiryRecovers` | services/stream-processor/dedup.py:37-41 | the same run loses nothing in the end if a third copy arrives once the claim has expired |
| `Ewma.EwmaTracker.Update` | services/anomaly-detector/stats.py:27-47 | one update moves mean, variance and count as specified, and judges the sample against the baseline before it |
| `Ewma.ZScoreIs` | services/anomaly-detector/stats.py:27-47 | the z-score of a sample is its deviation from the weighted mean of those before it in units of their weighted standard deviation, with its sign, zero while there is no spread, and comes with the count of all samples |
| `Ewma.RunIsWeightedMoments` | services/anomaly-detector/stats.py:27-47 | after any series, mean and variance are those of all samples under weights alpha(1-alpha)^(n-i), the remainder on the first; the weights sum to one |
| `Ewma.RunBounds` | services/anomaly-detector/stats.py:27-47 | the mean stays within the data, and 0 <= variance <= (max - mean)(mean - min) <= (max - min)^2 / 4 |
| `Ewma.WeightsStep` | services/anomaly-detector/stats.py:42-44 | one more sample scales every older weight by 1 - alpha |
| `Moments.MeanAndVarianceBounds` | services/anomaly-detector/stats.py:42-44 | the bound on any weighted mean and variance, used for both numeric models |
| `Ewma.RunConverts` | services/anomaly-detector/stats.py:42-44 | reading a series in another unit converts the baseline and nothing else |
| `Ewma.ReadingsConvert` | services/anomaly-detector/stats.py:27-47 | a change of unit leaves every z-score and sample count of the run unchanged |
| `Ewma.VerdictsUnitIndependent` | services/anomaly-detector/stats.py:68-86 | and so every verdict, severity and score |
| `Ewma.StatCheckBands` | services/anomaly-detector/stats.py:68-86 | quiet below one threshold or the sample minimum, then WARNING, HIGH from 1.3 thresholds and CRITICAL from 1.6, with the deviation in units of two thresholds, capped at one, for a score |
| `Ewma.StatCheckMonotone` | services/anomaly-detector/stats.py:68-86 | a larger deviation is never judged milder, scores lie in [0.5, 1], and the check is quiet exactly below the threshold or the sample minimum |
| `IsolationForest.FeatureRange` | services/anomaly-detector/isolationforest.py:137-144 | the loop finds the least and greatest value of the column, or raises exactly when a row lacks the feature |
| `IsolationForest.TrySplit` | services/anomaly-detector/isolationforest.py:91-100 | one attempt: the drawn feature, the drawn split inside its range, rejected when a side is empty |
| `IsolationForest.BuildTree` | services/anomaly-detector/isolationforest.py:83-112 | the tree, or the index error, and the draws consumed are those of the specified growth, for rows of any lengths |
| `IsolationForest.AttemptFailsIff` | services/anomaly-detector/isolationforest.py:91-100 | an attempt raises exactly when a row lacks the drawn feature, and otherwise fails exactly when the feature is constant or the split draw is zero |
| `IsolationForest.StaysLeafIff` | services/anomaly-detector/isolationforest.py:84-112 | a node above the depth limit with more than one row stays a leaf if and only if each of as many attempts as the first row has features draws a constant feature or a zero |
| `IsolationForest.SplitsAtFirst` | services/anomaly-detector/isolationforest.py:88-107 | otherwise the first other attempt decides: it raises, or splits its feature at the drawn part of its range, and the subtrees grow one level down, left first, from the rows on either side with the draws that follow |
| `IsolationForest.SplitsWheneverItCan` | services/anomaly-detector/isolationforest.py:88-107 | with no constant feature and no zero draw the first feature drawn is split at the drawn part of its range |
| `IsolationForest.LeavesAreForced` | services/anomaly-detector/isolationforest.py:83-112 | without zero draws every leaf of a grown tree is at the depth limit, holds at most one row, or has a feature that is constant on its rows |
| `IsolationForest.GrowPartitions` | services/anomaly-detector/isolationforest.py:83-112 | whatever the draws, growth that does not raise leaves a partition of the data no higher than the depth left |
| `IsolationForest.PartitionRoutes` | services/anomaly-detector/isolationforest.py:115-120 | every training row has each feature it is routed by |
| `IsolationForest.RectangularGrows` | services/anomaly-detector/isolationforest.py:87-112 | rows of one width never meet the index error, and no split is past that width |
| `IsolationForest.RaggedCanFail` | services/anomaly-detector/isolationforest.py:137-144 | a row shorter than the first is met by some draws, which raise |
| `IsolationForest.LeafSizeIsRoutedCount` | services/anomaly-detector/isolationforest.py:115-120 | each leaf's size is the number of training rows routed to it, and no leaf is empty for non-empty data |
| `IsolationForest.EdgesEqualInternalRows` | services/anomaly-detector/isolationforest.py:115-120 | edges walked, summed over rows, equal rows present, summed over internal nodes |
| `IsolationForest.PathLengthIsRoute` | services/anomaly-detector/isolationforest.py:115-120 | the path length is the depth of the row's leaf plus the correction for that leaf's size |
| `IsolationForest.GrownTreeConserves` | services/anomaly-detector/isolationforest.py:83-120 | the conservation laws together, for every tree grown from any data and any draws |
| `IsolationForest.CeilLog2Exact` | services/anomaly-detector/isolationforest.py:73-73 | the depth limit is the least height whose power of two covers the subsample |
| `IsolationForest.DepthLimitExact` | services/anomaly-detector/isolationforest.py:73-73 | so it is for the depth limit of a forest, which is one for the smallest subsamples |
| `IsolationForest.FitIsolationForest` | services/anomaly-detector/isolationforest.py:67-80 | the loop fits the requested number of trees, each grown on its own subsample of the right size to the depth limit with the draws that follow; it cannot raise on rows of one width |
| `IsolationForest.FittedTrees` | services/anomaly-detector/isolationforest.py:67-80 | each tree is what growth leaves on its own sample, and partitions it within the depth limit |
| `IsolationForest.ForestLeavesAreForced` | services/anomaly-detector/isolationforest.py:67-112 | no tree of a forest stops early |
| `IsolationForest.ScoreBounds` | services/anomaly-detector/isolationforest.py:55-64 | for any row, seen or not, the score lies in (0, 1] and above what the depth limit allows, or is 0 for a forest that cannot tell; it raises exactly when the row lacks a feature it is routed by |
| `IsolationForest.ScoreIs` | services/anomaly-detector/isolationforest.py:55-64 | the score is two to the power of minus the mean, over the trees, of the edges to the leaf plus the correction for its size, in units of the norm |
| `IsolationForest.WideRowsScore` | services/anomaly-detector/isolationforest.py:55-64 | a forest whose splits stay within the row's width scores it |
| `IsolationForest.ScoreAntitone` | services/anomaly-detector/isolationforest.py:55-64 | a row isolated in fewer steps never scores lower |
| `Detector.FeatureStore.Record` | services/anomaly-detector/featurestore.py:23-46 | latest value stored, vector assembled when complete, appended to a buffer cut to its last bufferSize vectors |
| `Detector.StatisticalTrackers.Update` | services/anomaly-detector/stats.py:58-65 | only the series' own tracker changes, created fresh when new |
| `Detector.Ledger.ClaimOnce` | services/anomaly-detector/idempotency.py:28-38 | true only for the first claim of an id |
| `Detector.Service.ProcessMessage` | services/anomaly-detector/main.py:127-249 | claim before any detector state, then baselines, features, the detectors, announcement and commit as specified for every pattern of failures, unconfirmed writes and unanswered claims |
| `Detector.StateIsFoldOfFirstCopies` | services/anomaly-detector/main.py:158-195 | without crashes the detector state is the fold over the first claiming copies only, those whose claim was answered |
| `Detector.JudgeIsJudgedAfter` | services/anomaly-detector/main.py:185-197 | the detectors are given the z-score and count that close the series' readings, and the device's latest values once all of them are there |
| `Detector.RunWrites` | services/anomaly-detector/main.py:127-249 | over every delivery sequence the anomaly topic and the dead-letter topic hold exactly what the answered first copies on which the detectors fire, and the malformed messages, landed there, in order and under which stage |
| `Detector.CopiesPublished` | services/anomaly-detector/main.py:197-231 | an event has as many anomaly copies as its one announcing delivery landed, and none without one |
| `Detector.CommitsIff` | services/anomaly-detector/main.py:127-249 | an offset is committed if and only if its malformed payload is confirmed as a dead letter, or its claim is answered and it is no first copy, or nothing fires, or its publication or dead letter is confirmed |
| `Detector.TrackersAreBaselines` | services/anomaly-detector/stats.py:58-65 | each tracker is the baseline of its own series |
| `Detector.LatestIsLast` | services/anomaly-detector/featurestore.py:29-30 | the stored value of a metric is the last one reported by the device |
| `Detector.TrainingIsLastVectors` | services/anomaly-detector/featurestore.py:35-44 | each training buffer is exactly the last bufferSize latest-value vectors assembled for its machine type |
| `Detector.LastOfIs` | services/anomaly-detector/featurestore.py:42-44 | what a buffer keeps is the end of the sequence, as much as its size allows |
| `Detector.ObservedVector` | services/anomaly-detector/featurestore.py:29-46 | the vector an observation returns holds the device's latest values in the order given, once it has them all |
| `Detector.StableCatalogIsRectangular` | services/anomaly-detector/catalog.py:67-98 | while the catalog keeps a machine type's metrics, its training rows have one width |
| `DetectorFleet.AdvanceAtMostOnce` | services/anomaly-detector/main.py:158-195 | each step of any instance keeps the at-most-once invariant |
| `DetectorFleet.UninterruptedIsHandle` | services/anomaly-detector/main.py:127-249 | an instance that nothing interrupts does to ledger and topic what the service does with one message |
| `DetectorFleet.DetectionAtMostOnce` | services/anomaly-detector/idempotency.py:28-38 | over all interleavings of instances, crashes, redeliveries and lost answers, each id enters the baselines, enters training, and reaches a publishing call at most once in total; every copy in the topic comes from such a call |
| `DetectorFleet.OneAnomalyAnEvent` | services/anomaly-detector/kafka_io.py:111-138 | all copies in the topic for one event are one anomaly of one publishing call, however often it retries and however late a copy lands |
| `DetectorFleet.TrackedIff` | services/anomaly-detector/main.py:158-185 | over every interleaving an event is folded into a baseline if and only if an instance put its id in the ledger, was told so, and tracked it without crashing in between |
| `DetectorFleet.LoggedIff` | services/anomaly-detector/main.py:158-224 | and it comes to a publishing call if and only if that instance went on past the feature store to a firing detector without crashing |
| `DetectorFleet.CopiesOfCall` | services/anomaly-detector/kafka_io.py:34-45 | the topic holds as many copies of an announced event as its one call landed, none included, and one for each that landed late |
| `DetectorFleet.AnnouncedIff` | services/anomaly-detector/main.py:223-237 | so an event has a copy in the topic if and only if it came to a publishing call that landed one in time or late |
| `DetectorFleet.CrashLosesEvent` | services/anomaly-detector/idempotency.py:28-38 | a run in which a crash after the claim leaves the event folded in by nobody, its redelivery a known duplicate |
| `DetectorFleet.LostAnswerLosesEvent` | services/anomaly-detector/main.py:158-166 | a run in which a claim that takes effect and raises does so |
| `DetectorFleet.RetryLandsTwoCopies` | services/anomaly-detector/kafka_io.py:34-45 | a run with two copies of one anomaly in the topic |
| `DetectorFleet.FailedCallLandsNone` | services/anomaly-detector/main.py:223-237 | a run with a publishing call and no copy |
| `Reliability.CircuitBreaker.MayProceed` | shared/reliability.py:80-93 | admits when closed, or once when open past the cooldown, then half-open |
| `Reliability.CircuitBreaker.RecordSuccess` | shared/reliability.py:95-98 | closes and clears the count |
| `Reliability.CircuitBreaker.RecordFailure` | shared/reliability.py:100-110 | reopens a half-open breaker, else counts and opens at the threshold |
| `Reliability.RetryWithBackoff` | shared/reliability.py:26-54 | stops at the first success or permanent error, else after the budget; the i-th sleep is base * 2^i; an empty budget is the failed assertion |
| `Reliability.RetryDetermined` | shared/reliability.py:26-54 | that specification has one answer |
| `Reliability.BackoffTotal` | shared/reliability.py:37-51 | a call of k attempts sleeps base * (2^(k-1) - 1) in total and keeps its budget |
| `Reliability.ClosedIffBelowThreshold` | shared/reliability.py:80-110 | over every interleaving, closed exactly while the failure count is below the threshold |
| `Reliability.BreakerIsItsHistory` | shared/reliability.py:80-110 | over every interleaving the phase, the opening time and whom the breaker admits, told from the operations so far: failures since the last success, the last failure, and trials since |
| `Reliability.OneTrialBetweenRecords` | shared/reliability.py:85-93 | a breaker that is not closed admits at most one call between two recorded outcomes |
| `Reliability.TrialRespectsCooldown` | shared/reliability.py:89-93 | and none within the cooldown of any earlier recorded failure |
| `Reliability.KafkaIo.ProtectedWrite` | services/stream-processor/kafka_io.py:129-143 | refused calls touch nothing; admitted ones are retried and their outcome recorded |
| `Reliability.CallsAreOperations` | services/stream-processor/kafka_io.py:135-143 | each sequential call asks, and each that is let through records its outcome, everything but success as a failure |
| `Reliability.NeverStuckHalfOpen` | services/stream-processor/kafka_io.py:135-143 | a sequential client never finds the breaker half-open between calls |
| `Reliability.RecoversAfterCooldown` | services/stream-processor/kafka_io.py:135-143 | a cooldown after the last report the next call is admitted whatever came before, and its success closes the breaker with a clean count |
| `Reliability.DeadRunThrottled` | services/stream-processor/kafka_io.py:135-143 | against a dead dependency, each admission beyond the threshold costs one more cooldown |
| `Reliability.LoadBound` | services/stream-processor/kafka_io.py:129-143 | admitted calls by time T are at most threshold + floor(T / cooldown), with at most maxRetries writes each |
| `Ingestion.KafkaSink.WriteDeadLetter` | services/ingestion/kafka_producer.py:124-147 | one attempt at the dead-letter topic, reported faithfully |
| `Ingestion.KafkaSink.Publish` | services/ingestion/kafka_producer.py:87-119 | own topic first, dead letter after that fails, an uncaught error when serialization fails |
| `Ingestion.ProcessMessage` | services/ingestion/main.py:122-265 | every branch of both handlers: what is written, and whether the message is acked, left, or kills its worker |
| `Ingestion.ProcessWrites` | services/ingestion/main.py:143-265 | each topic gains exactly the landings of its own write; a message is dead-lettered only if it is malformed or its own topic does not confirm it |
| `Ingestion.Inbox.OnMessage` | services/ingestion/mqtt_client.py:145-163 | enqueued without blocking, or left unacked when stopping or full |
| `Ingestion.Inbox.Drain` | services/ingestion/main.py:113-119 | the drain loop handles the backlog in order and acks exactly the messages whose handling says so |
| `Ingestion.DrainedIsDurable` | services/ingestion/main.py:113-119 | every recognized message acked by a drain is durable when it ends |
| `Ingestion.DrainIsExact` | services/ingestion/main.py:113-119 | how far a drain gets, which messages it acks in which order, and how many copies of each it lands |
| `Ingestion.UninterruptedIsDrain` | services/ingestion/main.py:105-119 | one worker alone, stepping through the protocol, does what the drain loop does |
| `Ingestion.StopEndsIntake` | services/ingestion/mqtt_client.py:145-163 | no message is taken in after the shutdown signal |
| `Ingestion.SubscribedIsRecognized` | services/ingestion/mqtt_client.py:165-169 | no subscribed topic reaches the branch that acks without storing, and each subscription is dispatched to its own handler |
| `Ingestion.AckIffConfirmed` | services/ingestion/main.py:143-265 | a recognized message is acked exactly when the last write it came to was confirmed, and is then durable |
| `Ingestion.NextSafe` | services/ingestion/main.py:105-119 | every step of callback, workers, shutdown and crash keeps the safety invariant, for messages of any topic |
| `Ingestion.AckImpliesDurable` | services/ingestion/main.py:105-265 | over all interleavings an acked message of a subscribed topic is in its topic or the dead-letter topic, whatever else is delivered, and the queue keeps its capacity |
| `Ingestion.AckSafeIff` | services/ingestion/main.py:122-138 | a message is durable whenever acked, in every run of every capacity, if and only if the dispatcher recognizes its topic |
| `Ingestion.NothingLost` | services/ingestion/mqtt_client.py:53-59 | at every point of every run a recognized message is acked and durable, or one redelivery acks it exactly when its last write is confirmed and has then made it durable |
| `Ingestion.UnrecognizedIsDropped` | services/ingestion/main.py:136-138 | a message of an unrecognized topic is acked with no copy anywhere |
| `Incidents.FindActive` | shared/incidents.py:129-132 | the select finds an active incident of the machine exactly when there is one |
| `Incidents.Store.OpenOrAttachAlert` | shared/incidents.py:120-170 | attaches to the active incident or opens one, with the matching event |
| `Incidents.Store.MoveTo` | shared/incidents.py:172-193 | the valid move, its timestamps and its event, or an error and no change |
| `Incidents.Store.AssignTo` | shared/incidents.py:195-199 | the assignment and its event, or an error and no change |
| `Incidents.Store.ResolveWithNotes` | shared/incidents.py:201-204 | notes first, then the move |
| `Incidents.RunAudited` | shared/incidents.py:120-204 | after every serial run each row's status and assignee replay from its events, which chain from OPEN by allowed moves; each of its times is set exactly if its events reach the status, and is no later than the last event that does; no machine has two active incidents; calls to open = incidents + attachments |
| `Incidents.ValidIff` | shared/incidents.py:82-92 | the lifecycle table: forward up to RESOLVED, from there to CLOSED, and back only from RESOLVED to INVESTIGATING |
| `Incidents.ActiveIff` | migrations/000005_incidents.up.sql:28-29 | the index ranges over exactly the statuses short of RESOLVED |
| `Incidents.OpenLeaves` | shared/incidents.py:128-170 | a call to open attaches its alert to an active incident of the machine, or opens one from it, logs that and changes nothing else |
| `Incidents.MoveLeaves` | shared/incidents.py:172-193 | a move that succeeds changes the status and its time on one row and logs old status, new status, actor and time |
| `Incidents.AssignLeaves` | shared/incidents.py:195-199 | an assignment changes one field of one row and logs user, actor and time |
| `Incidents.ResolveLeaves` | shared/incidents.py:201-204 | a resolve writes its notes in any case, and moves and logs exactly if the incident is not yet resolved |
| `Incidents.NotesAreLast` | shared/incidents.py:201-204 | after every run the notes are those of the last resolve request that found the incident |
| `Incidents.RunDated` | shared/incidents.py:172-193 | with a monotone clock the trail is in time order, and a resolution or closing time lies between the event that logged it and the event before |
| `Incidents.ClosedEndsTrail` | shared/incidents.py:82-88 | CLOSED ends a trail and follows only RESOLVED |
| `Incidents.TimestampsMeanStatus` | shared/incidents.py:185-191 | closed_at is set iff CLOSED, resolved_at iff some entry reached RESOLVED |
| `Incidents.ClosedForever` | shared/incidents.py:77-88 | nothing that follows reopens a closed incident or adds to its trail |
| `Incidents.TransitionSucceedsIff` | shared/incidents.py:178-191 | a move succeeds exactly when the row exists, the table allows it, and the unique index has room; otherwise nothing changes |
| `Incidents.RecurrenceBlocksReopening` | shared/incidents.py:191-191 | after a new incident for the machine, a resolved one cannot go back to INVESTIGATING |
| `Incidents.RefusedResolve` | shared/incidents.py:201-204 | a resolve is refused exactly on missing, resolved or closed incidents, and then leaves its notes and nothing else |
| `IncidentRace.NeverTwoActive` | migrations/000005_incidents.up.sql:28-29 | over every interleaving of statements and status changes no machine has two active incidents |
| `IncidentRace.UninterruptedIsSerial` | shared/incidents.py:128-170 | a call that nothing interrupts is the serial operation |
| `IncidentRace.ReturnedWasActive` | shared/incidents.py:129-170 | every id a call returns was an active incident of its machine at some instant inside the call, before the call had its answer |
| `IncidentRace.EveryIncidentHasOneCreator` | shared/incidents.py:144-170 | each incident opened in the run has exactly one caller that is told it created it |
| `IncidentRace.AnswersCount` | shared/incidents.py:120-170 | over every interleaving, answered calls + openings not yet logged = incidents opened + attachments logged + calls answered by their second select; so the serial law holds if and only if there are none of the last |
| `IncidentRace.LoserLogsNothing` | shared/incidents.py:155-165 | a run where it fails: two answered calls, one incident, no attachment |
| `IncidentRace.FailureIff` | shared/incidents.py:157-164 | a call ends in the error if and only if its second select runs while its machine has no active incident |
| `IncidentRace.FailureNeedsDeactivation` | shared/incidents.py:157-165 | and then the incident that refused its insert left the active states between the refusal and that select |
| `IncidentRace.FailureReachable` | shared/incidents.py:163-164 | and that does happen |
| `TransitionRace.UninterruptedIsSerial` | shared/incidents.py:172-193 | a transition that nothing interrupts is the serial operation |
| `TransitionRace.NextSoundIff` | shared/incidents.py:172-193 | each statement keeps every trail telling its row's status unless it is a stale update or an event logged ahead of an earlier change |
| `TransitionRace.SoundIff` | shared/incidents.py:172-193 | over every interleaving of inserts, selects, updates and events, each trail with its changes still to be logged chains from OPEN by allowed moves and ends at the row's status throughout, if and only if every update finds the status its select read and no event is logged ahead of an earlier change of its incident |
| `TransitionRace.QuietTrailIsFaithful` | shared/incidents.py:172-193 | and then the logged trail alone does so whenever nothing is waiting to be logged |
| `TransitionRace.LeavesClosedIff` | shared/incidents.py:182-191 | a statement takes an incident out of CLOSED if and only if it is a stale update |
| `TransitionRace.ClosedForever` | shared/incidents.py:77-81 | without stale updates and overtaken events CLOSED is terminal under every interleaving |
| `TransitionRace.StaleUpdateReopensClosed` | shared/incidents.py:178-191 | a run that reopens a closed incident and breaks its trail |
| `Alerts.Latest` | services/alert-service/store.py:45-48 | the newest alert of a scope |
| `Alerts.AlertStore.CreateAlertIfDue` | services/alert-service/store.py:38-79 | suppressed while unresolved or cooling down, else inserted under the unique index |
| `Alerts.AlertStore.DueAlerts` | services/alert-service/store.py:81-105 | exactly the OPEN alerts below level two whose waiting time has passed |
| `Alerts.AlertStore.Escalate` | services/alert-service/store.py:107-114 | severity, level and time of one alert |
| `Alerts.AlertStore.RunSweep` | services/alert-service/main.py:339-360 | the sweep loop raises every alert that is due and whose update does not fail by one rung, stamped with the time of its own update, and touches no other |
| `Alerts.RunSpaced` | services/alert-service/store.py:38-79 | in every reachable state at most one alert of a scope is unresolved, it is the newest, and alerts of a scope are at least the cooldown apart |
| `Alerts.CreationDecision` | services/alert-service/store.py:50-73 | the verdict of a call, told from all alerts of the scope: open exactly when one is unresolved, cooldown exactly when all are resolved and one is too recent, else created |
| `Alerts.CreationEffect` | services/alert-service/store.py:57-79 | a created alert is the one addition to the table, OPEN, fresh, of the given scope and severity; a suppressed call adds nothing |
| `Alerts.AlertRateBound` | services/alert-service/store.py:50-55 | any interval of length d holds at most floor(d / cooldown) + 1 alerts of a scope |
| `Alerts.RunOnLadder` | services/alert-service/main.py:347-358 | rank = initial rank + level <= 2 along every run, escalations more than the waiting time apart, INFO never moves |
| `Alerts.EscalatesIff` | services/alert-service/store.py:92-94 | a sweep raises exactly the OPEN alerts below CRITICAL on the ladder whose waiting time has passed; the level guard holds none back |
| `Alerts.SweepRaisesIff` | services/alert-service/main.py:339-360 | what a sweep does to each alert, told from its fields: one severity and one level up with the time of its update, or nothing |
| `Alerts.NotOpenNeverEscalates` | services/alert-service/store.py:92-92 | in serial runs an alert that has left OPEN is never escalated again |
| `Alerts.CooldownDiffersIff` | services/alert-service/store.py:39-55 | in every reachable state the code departs from a cooldown since resolution exactly when the newest alert is resolved, triggered a cooldown ago, and was resolved less than one ago; it then creates the alert |
| `Alerts.CreatedOnResolution` | services/alert-service/store.py:53-54 | a run that does so |
| `AlertRace.UninterruptedIsSerial` | services/alert-service/store.py:38-79 | a creating call that nothing interrupts is the serial one |
| `AlertRace.UninterruptedSweepIsSerial` | services/alert-service/main.py:339-360 | and so is a sweep |
| `AlertRace.AlwaysOneOpen` | migrations/000004_alerting.up.sql:48-48 | over every interleaving of the statements of any number of instances, at most one alert of a scope is OPEN |
| `AlertRace.InsertKeepsSpacedIff` | services/alert-service/store.py:57-73 | an insert keeps the spacing if and only if it is refused or its check, made again at that instant, would pass |
| `AlertRace.SpacedIff` | services/alert-service/store.py:38-79 | over every interleaving the spacing holds throughout if and only if every successful insert's check would still pass at its moment |
| `AlertRace.RacingInstancesBreakCooldown` | services/alert-service/store.py:57-73 | a run of two instances that breaks it |
| `AlertRace.OnRungIff` | services/alert-service/main.py:347-358 | over every interleaving each alert stays one rung up for every escalation if and only if every update finds the severity its select read |
| `AlertRace.LoneSweeperKeepsLadder` | services/alert-service/main.py:339-360 | with one sweeping instance that always holds, whatever happens between its statements, and no level exceeds two |
| `AlertRace.LoneSweeperWaits` | services/alert-service/main.py:339-360 | with one sweeping instance and a monotone clock the raises of an alert lie more than the waiting time apart, and the first as far from its triggering, whatever runs between the statements |
| `AlertRace.RaisesClosedIff` | services/alert-service/store.py:107-114 | an update raises an alert that is no longer OPEN if and only if the alert was acknowledged or resolved since the select that found it due |
| `AlertRace.AcknowledgedIsRaised` | services/alert-service/main.py:339-354 | a run in which an acknowledged alert is raised |
| `AlertRace.RacingSweepersLeaveLadder` | services/alert-service/main.py:347-354 | a run of two sweepers that counts two levels for one rung |
| `AnomalyCount.AnomalyCountTracker.Record` | services/alert-service/anomalycount.py:19-40 | the key's list is filtered by the cutoff and extended, other keys keep theirs, the length is returned |
| `AnomalyCount.StoredAreSurvivors` | services/alert-service/anomalycount.py:35-39 | the list is exactly the entries that survived every later cutoff, in arrival order |
| `AnomalyCount.CountAgainstFullHistory` | services/alert-service/anomalycount.py:20-34 | for any windows, the count never exceeds the full-history count, and equals it exactly when no earlier entry in the window was dropped by a call in between |
| `AnomalyCount.NewestCountIsExact` | services/alert-service/anomalycount.py:20-34 | with one window length, of any sign, it is exact whenever the call's time is the largest so far |
| `AnomalyCount.KeysAreIndependent` | services/alert-service/anomalycount.py:37-39 | a key's list depends on its own calls only |
| `RateLimiter.Limiter.RunScript` | services/api/middleware.py:187-193 | increment, with an expiry set when the count starts at one |
| `RateLimiter.Limiter.Admit` | services/api/middleware.py:208-226 | rejected exactly when the count that its script returns, some time after the minute of its key was read, exceeds the limit; let through when the store is down |
| `RateLimiter.CounterIsExactIff` | services/api/middleware.py:187-210 | a key's counter holds its exact number of requests if and only if every script of the key runs within the lifetime the first one gave it, and never more |
| `RateLimiter.WithinMinuteIsPunctual` | services/api/middleware.py:210-212 | scripts that run inside the minute of their key are always in time |
| `RateLimiter.AcceptedPerStart` | services/api/middleware.py:208-226 | on every trace at least the first limit counted requests of a minute pass, and at most limit for every time its counter was started |
| `RateLimiter.AcceptedPerMinute` | services/api/middleware.py:208-226 | with punctual scripts exactly the first limit counted requests of a minute are accepted |
| `RateLimiter.LateScriptRestartsCount` | services/api/middleware.py:210-212 | a run in which a late script lets two requests of one minute past a limit of one |
| `RateLimiter.IntervalBound` | services/api/middleware.py:208-226 | any interval of k minutes, aligned or not, passes at most limit requests for every start of the counters of the k + 1 minutes it touches |
| `RateLimiter.PunctualIntervalBound` | services/api/middleware.py:208-226 | with punctual scripts that is at most (k + 1) * limit requests |

## Left out

- The MQTT, Kafka, Redis, PostgreSQL and InfluxDB clients, HTTP, tracing, metrics, logging, configuration, authentication, the frontend and the simulator: library calls, or single-branch facts.
- `rule_check`, `isolation_check`, `combine_detections`, `condition_matches`, `scope_matches` and `_duration_label`: single comparisons and lookups that keep no state.
- The failure of the aggregate batch write, which drops its points: `StreamProcessor.Processor.FlushOnce` ends with the points.
- The tag metadata kept with a series: it is taken from the first sample, so it is order-independent only if all samples of a series carry the same tags.
- `ForestRegistry` and the retraining timer: a map of forests replaced from time to time.
- The sampling behind `_sample_without_replacement`: any choice of distinct rows is accepted.
- StreamProcessor.DeliveryInvariance: one processor instance; several consumer instances share the claims but each holds its own buffers.
- StreamProcessor.Processor.ProcessMessage: a crash is not a step; inside one message it leaves in the stores what an unanswered claim or an unconfirmed write leaves, and it loses the series held in memory.
- Ewma.EwmaTracker.Update: the source raises on the square root of a negative variance, which `Ewma.RunBounds` excludes for alpha in [0, 1]; for other alpha the model leaves the z-score open.
- IsolationForest.ScoreBounds: float rounding and the value of the logarithm in `c(n)` are not modelled; that `c` never decreases is a premise.
- Detector.Service.ProcessMessage: the detectors are any function of what tracker and store give them; `Ewma.StatCheckBands` and `IsolationForest.ScoreIs` describe two of them. One that raises, on a row too short for its forest or a zero threshold, ends the instance like the crash step of `DetectorFleet.Advance`.
- DetectorFleet.DetectionAtMostOnce: effects are logged by event id; the numeric state of several instances is not tracked, since each starts afresh after a crash.
- Reliability.LoadBound: one caller at a time, as in the stream processor's single consume loop; exceptions outside Python's `Exception` are not modelled.
- Ingestion.AckImpliesDurable: a message and its redeliveries are one identity; the reuse of MQTT packet identifiers across connections is not modelled.
- Incidents.RunAudited: serial runs; `TransitionRace` interleaves transitions, without their times, assignees and notes. The resolution notes are not audited because the source logs no event for them; machine identifiers are non-empty.
- IncidentRace.AnswersCount: the statements of the other operations are single steps that change a status or log an event; their own selects are not modelled.
- Alerts.RunSpaced: the statements of one call run together, as with one instance a scope; `AlertRace` interleaves them. Resolution is an environment step because no code path performs it.
- Alerts.AlertStore.RunSweep: nothing else runs between the statements of one sweep; `AlertRace` interleaves them.
- RateLimiter.IntervalBound: one clock and a reachable store; key strings are the triple of bucket, address and minute, so two pairs whose texts run together are kept apart.
