# Verified model of Oshimai's core

Oshimai drives load and faults against a service and draws conclusions from what it sees. This project models
the parts where those conclusions come from state or arithmetic, and proves what each part promises, for every
input, run or interleaving.

| file | what it models |
|---|---|
| `Histogram.dfy`, `HistogramRace.dfy` | the latency histogram: as an object used by one caller, and as atomic operations of any number of racing recordings and percentile reads |
| `SlidingWindow.dfy`, `CircuitBreaker.dfy` | the ring of time slices against a log of everything recorded; the breaker over any sequence of readings |
| `PageRank.dfy`, `LinearSystem.dfy`, `DependencyGraph.dfy`, `TraceMiner.dfy` | recorded spans to a transition matrix to a ranked call graph; that the equation behind the ranks has a solution |
| `Template.dfy`, `Postman.dfy` | the variable scanner against a tokeniser and printer; the importer's rewriting of Postman syntax |
| `Transitions.dfy`, `Scenarios.dfy`, `Engine.dfy`, `Fuzz.dfy` | weighted choice, validation, a virtual user's session, the generated smoke test |
| `DeadManSwitch.dfy` | the chaos driver wrapper with its timers, stale callbacks and context monitors |
| `Bisection.dfy`, `Autopilot.dfy` | the search for a breaking point, and for a safe number of users |
| `Scheduler.dfy`, `PresetStore.dfy`, `EventBus.dfy` | weekly triggers, custom presets, live event fan-out |
| `Sums.dfy`, `Counting.dfy`, `Sorting.dfy`, `Text.dfy`, `Options.dfy` | shared mathematics and the library operations the program calls |

## How the model reads the program

- Floating-point numbers are exact reals. The logarithm in the histogram is replaced by what it computes: the
  largest k with 1000 * 1.01^k at most the latency.
- Code that updates fields under a lock is a class whose methods are proved against a function of the old state.
  Where several goroutines matter, a step relation over atomic operations is given as well, and the results hold
  after every sequence of steps. The class methods and the steps use the same functions.
- Clocks, random rolls, step outcomes, statuses and variables, load-test scores and the answers of the underlying
  chaos driver are inputs. Functions of a call number stand for outside parties that may answer differently each time.
- A Go map is visited in any order. Library sorts are any ordered rearrangement.
- The percentile reader keeps, for the statement only, the bucket counts of the moment it loaded the total and the
  latencies behind them.
- The dependency graph resolves every edge to node positions before the rounds, the program inside them; every
  edge's ends are nodes, so the skip in that loop is never taken.
- The capacity search's closure keeps its list of trials and running maximum while the bisection calls it; here
  both are collected from the finished list of trials.

## Where code and documentation differ

The model follows the code.

- The chaos package promises that a fault can never be left applied (`pkg/chaos/driver.go:7-11`). Once the driver
  has failed with a fault active, no timer is left for it; what may still end it is a callback already waiting for
  the lock, or a context monitor that has decided to revert or still watches that fault.
  `DeadManSwitch.ActiveFaultCanEndExactlyWhenSomeoneIsLeft` is the exact condition. A fault is left for good, for
  instance, by a driver that fails to apply it but leaves it active, or by a context monitor whose own revert fails:
  `DeadManSwitch.FailedApplyIsLeftBehind`, `DeadManSwitch.FailedMonitorLeavesTheFaultBehind`.
- A watchdog callback or a context monitor that lost the race for the lock reverts the next fault early
  (`DeadManSwitch.StaleCallbackRevertsNewerFault`, `DeadManSwitch.DecidedMonitorRevertsNewerFault`);
  `DeadManSwitch.AppliedFaultLastsExactlyWhenNothingIsLate` says exactly when a fault is safe from that.
- Reported percentiles are bucket edges, the minimum is exact, so P50 can be below Min:
  `Histogram.MedianBelowMinimum`, with the exact condition in `Histogram.MinimumBelowPercentile`.
- Recording into the histogram is documented as thread-safe (`pkg/loadengine/metrics.go:36-37`). No recording is ever
  lost, but figures read while recordings race need not be ordered: `HistogramRace.RacingFiguresNeedNotBeOrdered`,
  with the exact condition for a percentile to be within the maximum in
  `HistogramRace.WithinMaximumExactlyWhenFinished`.
- The sliding window covers its whole length only when the bucket width divides it:
  `SlidingWindow.ExactWhenWidthDivides`.
- Validation looks transition targets up without surrounding space, sessions look them up as written:
  `Engine.NeverMissesExactlyWhenResolvable`, `Engine.UntrimmedTargetGoesMissing`.
- Cancellation between two attempts of a retrying step leaves no result, which the session then dereferences
  (ending `Panicked`). Sessions are free of that exactly when no step they can reach retries:
  `Engine.NeverPanicsExactlyWithoutRetries`.
- A capacity search of a service that is unhealthy at the low end still reports that end as safe:
  `Autopilot.SafeExactlyWhenLowEndIsHealthy`, `Autopilot.SearchOfABrokenService`.
- A schedule's time of day is compared in UTC but its weekday on the server, so on a server away from UTC it may be
  due a day early or late: `Scheduler.DueAtNamedMinuteExactlyWhenSameDay`.
- The rewriting of Postman variables changes the meaning of keys with a closing brace or a leading dot, and of a
  variable that starts inside a ${...}, such as "${{key}}". `Postman.ImportKeepsMeaningExactlyWhenSafe` is the
  exact condition for every text.

## Model

| member | source | states |
|---|---|---|
| `PageRank.RoundContracts` | pkg/generator/dependency_graph.go:98-113 | one power-iteration round brings any two rank vectors closer in L1 distance by the factor 0.85, for any edge list whose rows sum to at most one |
| `PageRank.ApproachesFixedPoint` | pkg/generator/dependency_graph.go:93-113 | after k rounds the ranks are within 0.85^k of their starting distance from every fixed point |
| `PageRank.FixedPointUnique` | pkg/generator/dependency_graph.go:98-113 | there is at most one ranking to converge to |
| `PageRank.FixedPointExists` | pkg/generator/dependency_graph.go:98-113 | and there is one, with every rank at least 0.15/n and a mass in [0.15, 1], for any edge list whose rows sum to at most one |
| `PageRank.SurferEquation` | pkg/generator/dependency_graph.go:98-112 | a round gives every node 0.15 / n plus 0.85 times what all nodes pass on to it |
| `LinearSystem.Solution` | pkg/generator/dependency_graph.go:100-112 | the system x = b + Q x behind it has a solution, no smaller than b, whenever Q is nonnegative with column sums below one |
| `PageRank.RanksApproachTheRanking` | pkg/generator/dependency_graph.go:93-113 | after k rounds from the uniform start the ranks are within 2 * 0.85^k, in total, of that one ranking |
| `PageRank.DampingAfterAllRounds` | pkg/generator/dependency_graph.go:30-33 | for the 25 rounds the program makes, that is less than 0.0346 |
| `PageRank.MassBounds` | pkg/generator/dependency_graph.go:94-113 | total rank stays within [0.15, 1] over every round |
| `PageRank.RanksPositive` | pkg/generator/dependency_graph.go:100-112 | no rank ever falls below 0.15/n, whatever the edge weights |
| `PageRank.PowerIterate` | pkg/generator/dependency_graph.go:93-113 | the in-place loop applies the random-surfer equation exactly 25 times |
| `DependencyGraph.BuildDependencyGraph` | pkg/generator/dependency_graph.go:39-139 | the graph holds each endpoint and each non-END edge exactly once, edges by source and target, endpoints from the highest score down, each with its traffic and its rank relative to the highest; an empty matrix gives an empty graph |
| `DependencyGraph.CriticalityIsAScore` | pkg/generator/dependency_graph.go:115-136 | every criticality lies in (0, 1] and the endpoint listed first scores 1 |
| `DependencyGraph.ChainCriticality` | pkg/generator/dependency_graph.go:93-136 | when one endpoint leads to one other with any probability p > 0, the target is listed first with score 1 and the source scores 1 / (1 + 0.85 p) |
| `DependencyGraph.RowsBoundFlows` | pkg/generator/dependency_graph.go:69-85 | matrix rows that send on at most all their traffic give edge lists the contraction applies to |
| `TraceMiner.MineBehavioralTransitions` | pkg/generator/otel_miner.go:46-141 | the counts are exactly the adjacent pairs, and one END per trace, of the traces in order of increasing start; probabilities are counts over row totals |
| `TraceMiner.EarlierLeadsToLater` | pkg/generator/otel_miner.go:82-92 | when one span of a trace comes next after another in time, a transition from the earlier to the later is counted, in whatever order they were recorded |
| `TraceMiner.TwoRequests` | pkg/generator/otel_miner.go:82-112 | the whole matrix of a trace of two requests |
| `TraceMiner.TwoRequestsRanked` | pkg/generator/dependency_graph.go:43-139 | and its graph: the later request is the more critical, the earlier scores 1 / 1.85 |
| `TraceMiner.EndpointIsVerbAndRoute` | pkg/generator/otel_miner.go:169-176 | an endpoint is its verb in capitals, GET if blank, and its route, whatever the case and the space around them |
| `TraceMiner.TotalsCountSpans` | pkg/generator/otel_miner.go:57-112 | every span with a trace id and a route is the source of exactly one transition, and no other span is |
| `TraceMiner.RowsAddUp` | pkg/generator/otel_miner.go:86-112 | each row of counts sums to its total |
| `TraceMiner.EndColumnCountsTraces` | pkg/generator/otel_miner.go:104-111 | the END column sums to the number of traces |
| `TraceMiner.RowsAreDistributions` | pkg/generator/otel_miner.go:114-125 | each row of probabilities is positive and sums to one |
| `Sorting.LexLeqIsDictionaryOrder` | pkg/generator/dependency_graph.go:59 | names are ordered by the first character in which they differ, a prefix before what continues it |
| `TraceMiner.KeyIsNotEnd` | pkg/generator/otel_miner.go:169-176 | no endpoint key can be confused with END |
| `TraceMiner.MinedRanksAreSettled` | pkg/generator/dependency_graph.go:69-113 | the graph of any mined matrix has rank mass in [0.15, 1], every rank at least 0.15/n, and ranks within 0.0346, in total, of the one ranking that satisfies the random-surfer equation |
| `Histogram.ReadingErrorBound` | pkg/loadengine/metrics.go:44-58 | reading a bucket back is exact below 1 ms, less than one percent low above, never high |
| `Histogram.LogBucketIsLargestGrowth` | pkg/loadengine/metrics.go:49-57 | the bucket is the largest k with 1000 * 1.01^k at most the latency, clamped to the last of 2500 buckets; read back it gives that edge in whole microseconds |
| `Histogram.ScanTo` | pkg/loadengine/metrics.go:105-119 | the cumulative scan stops at the bucket of the sample at the rank, before its end |
| `Histogram.SampleAtIsTheOnlyOne` | pkg/loadengine/metrics.go:105-119 | the sample a percentile p stands for is the only number with fewer than p percent of the samples below it and at least p percent at it or below |
| `Histogram.PercentileErrorBound` | pkg/loadengine/metrics.go:88-120 | a reported percentile is within those bounds of the number with fewer than p percent of the samples below it and at least p percent at it or below |
| `Histogram.PercentilesOrdered` | pkg/loadengine/metrics.go:137-145 | reported percentiles are ordered like the percentages and never exceed the maximum |
| `Histogram.MinimumBelowPercentile` | pkg/loadengine/metrics.go:132-145 | the exact condition for the minimum not to exceed a reported percentile |
| `Histogram.MedianBelowMinimum` | pkg/loadengine/metrics.go:132-155 | one latency of 1015 us is reported with a median of 1010 us |
| `Histogram.HDRHistogram.Record` | pkg/loadengine/metrics.go:38-85 | buckets, count, sum, minimum and maximum represent the recorded latencies, with the new one added |
| `Histogram.HDRHistogram.Percentile` | pkg/loadengine/metrics.go:88-120 | all four cases: nothing recorded, at most 0, at least 100, and the nearest rank in between |
| `Histogram.HDRHistogram.Stats` | pkg/loadengine/metrics.go:123-146 | exact minimum, maximum and mean, and P50 <= P90 <= P95 <= P99 <= Max |
| `HistogramRace.ScansNeverFallThrough` | pkg/loadengine/metrics.go:60-120 | however recordings and percentile reads interleave, a read reaches its rank inside the loop |
| `HistogramRace.RacingScanIsBracketed` | pkg/loadengine/metrics.go:60-120 | a racing percentile looks for the rank that is p percent of the total it loaded, rounded up, and lies between the sample at its rank among the latencies in their buckets when it began and the one at the same rank among those there at any later time |
| `HistogramRace.QuiescentIsSequential` | pkg/loadengine/metrics.go:60-84 | once all recordings have finished, every field is what one caller would have left: no increment and no extreme is lost |
| `HistogramRace.WithinMaximumExactlyWhenFinished` | pkg/loadengine/metrics.go:60-146 | a percentile read in any interleaving is within the stored maximum if and only if it is 0 or a recording of at least that latency has finished |
| `HistogramRace.RacingFiguresNeedNotBeOrdered` | pkg/loadengine/metrics.go:123-146 | an interleaving in which P50 is read as 1 us, then P99 as 0, with the maximum still 0 |
| `SlidingWindow.RingIsExact` | pkg/loadengine/sliding_window.go:52-133 | when the width divides the length, the ring holds exactly the logged events whose slice starts after now minus the window |
| `SlidingWindow.ExactWhenWidthDivides` | pkg/loadengine/sliding_window.go:25-49 | the ring is exact for every log and every reading time if and only if the width divides the length |
| `SlidingWindow.RingNeverOverCounts` | pkg/loadengine/sliding_window.go:104-118 | for any width the counters of the active slots, added up, claim no more requests, errors or latencies of any bucket than the log has inside the window, and what they hold is part of it |
| `SlidingWindow.RingLosesEvents` | pkg/loadengine/sliding_window.go:59-68 | for every other width, two recordings one turn apart lose the first while it is in the window |
| `SlidingWindow.SliceOf` | pkg/loadengine/sliding_window.go:52-58 | an event belongs to the slice that starts at the last multiple of the width |
| `SlidingWindow.SlidingWindow.Record` | pkg/loadengine/sliding_window.go:52-80 | the ring goes on accounting for the log with the new event appended |
| `SlidingWindow.SlidingWindow.Stats` | pkg/loadengine/sliding_window.go:93-133 | requests, errors, error rate and the percentiles of the merged histogram are those of the held events, never more requests or errors than the log has inside the window |
| `CircuitBreaker.TrippedExactlyOnARun` | pkg/loadengine/circuit_breaker.go:75-128 | tripped if and only if some ConsecutiveBreaches adjacent readings had enough requests and all broke the enabled error limit, or all broke the enabled latency limit; then cancelled exactly once |
| `CircuitBreaker.TripGivesTheReason` | pkg/loadengine/circuit_breaker.go:106-118 | the reason names a limit that was broken in a row, the error rate first |
| `CircuitBreaker.TrippingIsPermanent` | pkg/loadengine/circuit_breaker.go:79-81 | no later reading changes anything |
| `CircuitBreaker.CircuitBreakerMonitor.Evaluate` | pkg/loadengine/circuit_breaker.go:75-128 | the counters, flag and cancellations after one more reading |
| `CircuitBreaker.CircuitBreakerMonitor.IsTripped` | pkg/loadengine/circuit_breaker.go:131-135 | the flag reported is the existence of such a run in everything read so far |
| `Template.SessionState.Interpolate` | pkg/vusession/state.go:97-148 | scanning equals tokenising, then substituting, then failing on the first variable not set |
| `Template.ValuesGoIn` | pkg/vusession/state.go:105-160 | in any text, a ${key}, {{key}} or {{.key}} after text without markers becomes the variable's value, nothing for nil, or fails if it is not set, and the rest is treated on its own |
| `Template.OneValueGoesIn` | pkg/vusession/state.go:105-160 | so one variable in plain text becomes exactly its value |
| `Template.SessionState.SetMultiple` | pkg/vusession/state.go:43-52 | the state overridden by the given items, whatever the order they are visited in |
| `Template.PlainTextMeansItself` | pkg/vusession/state.go:98-100 | the early exit is only a shortcut |
| `Text.TrimSpaceStrips` | pkg/vusession/state.go:115-132 | trimming a key takes away the white space on either side and nothing else |
| `Text.WhiteSpaceIs` | pkg/vusession/state.go:115-132 | and white space is what Unicode says it is |
| `Template.PrintReadsBack` | pkg/vusession/state.go:108-145 | a token list survives printing and scanning if and only if it is printable |
| `Postman.InterpolatePostmanVars` | pkg/generator/postman_importer.go:197-214 | the rewriting prints the tokens Postman sees in the text |
| `Postman.RewriteKeepsPostmanMeaning` | pkg/generator/postman_importer.go:195-214 | for every text, the rewritten template means what Postman meant if and only if those tokens are printable |
| `Postman.ImportKeepsTokensExactlyWhenSafe` | pkg/generator/postman_importer.go:195-214 | for every text, interpolating the rewritten text is interpolating the original, token for token, if and only if no {{...}} starts inside a ${...} and every other key is free of closing braces and of a leading dot |
| `Postman.ImportKeepsMeaningExactlyWhenSafe` | pkg/generator/postman_importer.go:195-214 | under exactly that condition every session gets the same text from both, or both fail on the same variable |
| `Template.SomeVarsTellApart` | pkg/vusession/state.go:105-146 | different token lists are told apart by some session's variables |
| `Postman.RewriteKeepsTokens` | pkg/generator/postman_importer.go:195-214 | for a text without "${", only the keys matter |
| `Postman.SafeImportInterpolatesAlike` | pkg/generator/postman_importer.go:195-214 | a safe text gives every session the same text, or fails on the same variable |
| `Postman.DollarBeforeVariable` | pkg/generator/postman_importer.go:197-214 | no text "${{key}}" is safe: the original starts with a variable, the rewriting with a plain dollar sign |
| `Postman.FlattenPostmanItems` | pkg/generator/postman_importer.go:183-193 | requests are collected depth first, in order |
| `Postman.RequestsStay` | pkg/generator/postman_importer.go:183-193 | nothing but requests comes out, and requests alone come out as they are |
| `Postman.FoldersAreTransparent` | pkg/generator/postman_importer.go:183-193 | grouping neighbouring entries into a folder, anywhere, changes nothing |
| `Transitions.RollsPartition` | pkg/vusession/transition.go:88-97 | the candidates' prefix-sum intervals partition [0, W): each roll is owned by exactly one, and the share of each is its weight, else its probability, else one |
| `Transitions.WeightsDecide` | pkg/vusession/transition.go:85-111 | when every candidate has a weight, one is selected exactly when the scaled roll falls between the running totals of whole weights before and after it |
| `Transitions.TwoWeights` | pkg/vusession/transition.go:85-111 | of weights v and w the first is selected exactly for rolls with roll * (v + w) < v |
| `Transitions.NumbersAreCompared` | pkg/vusession/transition.go:120-212 | a comparison of a status or of a variable that reads as a number with a number means what it says, for all six operators |
| `Transitions.TextsAreCompared` | pkg/vusession/transition.go:176-212 | other comparisons of a variable are of its text, empty if it is not set, and have no order |
| `Transitions.SelectNextTransition` | pkg/vusession/transition.go:54-101 | candidates are the transitions whose condition is true, and the one owning the roll is chosen; the final fallback is never reached |
| `Transitions.FlagCanHoldUnlessNegated` | pkg/vusession/transition.go:120-150 | a condition without an operator can hold after a success if and only if it is not "!success", known or not |
| `Transitions.SuccessCanHoldExactlyWhenTrue` | pkg/vusession/transition.go:131-195 | a comparison of the success, split at the first operator found, can hold if and only if it is "== true" or "!=" anything else |
| `Scenarios.ValidateScenario` | pkg/vusession/parser.go:60-115 | accepts exactly the well-formed scenarios and fills in missing step ids; a problem it reports is one the scenario has |
| `Scenarios.IsEndInAnyCase` | pkg/vusession/parser.go:89 | the targets that end a session are those spelling END in any case |
| `Scenarios.ValidationIsStable` | pkg/vusession/parser.go:78-84 | validation gives a step without an id its key and changes nothing else; an accepted scenario is accepted again, unchanged |
| `Engine.VirtualUser.Execute` | pkg/vusession/engine.go:108-186 | the history and ending of a session, for every outside behaviour |
| `Engine.SessionsArePaths` | pkg/vusession/engine.go:117-177 | a history is a path from the initial step along condition-true transitions, or a failed step's fallback edge, of at most maxSteps steps |
| `Engine.NeverMissesExactlyWhenResolvable` | pkg/vusession/engine.go:133-138 | for a validated scenario, no session from a given step, such as the initial one, takes the missing-step branch if and only if, in every step that can be reached from there, each transition whose condition can hold has a target that names a step or the end as written |
| `Engine.TrimmedTargetsNeverMiss` | pkg/vusession/parser.go:87-93 | targets without surrounding space are enough |
| `Engine.UntrimmedTargetGoesMissing` | pkg/vusession/parser.go:88-93 | a validated scenario that loses its session at once |
| `Engine.ExecuteStepWithRetry` | pkg/vusession/engine.go:188-212 | the retry loop makes attempts in turn with a cancellation check before each retry |
| `Engine.AttemptsAreThoseConfigured` | pkg/vusession/engine.go:189-211 | the policy "retry" with n > 0 allows exactly n further attempts, any other none |
| `Engine.TriedUntilFirstSuccess` | pkg/vusession/engine.go:197-211 | a result is that of the first successful attempt, or of the last one allowed |
| `Engine.InterruptedExactlyBetweenRetries` | pkg/vusession/engine.go:198-203 | there is no result if and only if cancellation is seen between a failed attempt and a retry still allowed |
| `Engine.NeverPanicsExactlyWithoutRetries` | pkg/vusession/engine.go:141-163 | no session from a given step dereferences a missing result if and only if no step that can be reached from there, along fallbacks and transitions whose condition can hold, retries |
| `Engine.PanicOnlyAtRetryingStep` | pkg/vusession/engine.go:141-154 | a session that does was at a step that retries |
| `Fuzz.BuildFuzzScenario` | pkg/generator/fuzz.go:128-195 | one linked step per variant of each fuzzable step in id order, with pairwise distinct ids, accepted by validation; nothing to fuzz exactly when no fuzzable step has a payload that can be mutated |
| `Fuzz.OneStepPerCase` | pkg/generator/fuzz.go:31-164 | the smoke test has exactly one step for each mutation of each POST, PUT or PATCH payload, under its own id, sending the mutated body to the original's verb and path |
| `Fuzz.FuzzIdInjective` | pkg/generator/fuzz.go:147 | ids of different variants or steps differ |
| `Fuzz.ChainIsWellFormed` | pkg/generator/fuzz.go:171-194 | the generated scenario always passes validation, unchanged |
| `Fuzz.SuccessfulSessionVisitsAll` | pkg/generator/fuzz.go:171-178 | an all-success session visits every variant exactly once, in order, and ends cleanly if and only if the step limit allows |
| `DeadManSwitch.EveryInterleavingIsSafe` | pkg/chaos/driver.go:104-196 | injected implies its own watchdog armed or its callback queued, queued once past expiry; at rest implies no active fault; half-way states are never visible |
| `DeadManSwitch.AppliedFaultIsWatched` | pkg/chaos/driver.go:128-144 | a fault applied in any reachable state gets a watchdog of its own that cannot fire early and reverts it when its duration is over |
| `DeadManSwitch.AppliedFaultLastsExactlyWhenNothingIsLate` | pkg/chaos/driver.go:104-163 | whatever goes on behind a fault applied in any reachable state, short of callers and its own context ending, it stays injected up to its expiry if and only if no callback was waiting and no monitor had decided to revert when it was applied; if earlier contexts may end too, also if and only if none was still watched under the same fault id |
| `DeadManSwitch.WatchdogReverts` | pkg/chaos/driver.go:137-144 | with a driver that can revert, an injected fault is gone once its deadline, timer and callback have come |
| `DeadManSwitch.NothingInjectedPastExpiry` | pkg/chaos/driver.go:136-144 | past the expiry, with no callback waiting, nothing is injected |
| `DeadManSwitch.UnattendedOnlyAfterFailure` | pkg/chaos/driver.go:122-126 | an active fault lacks a pending watchdog if and only if the driver has failed with the fault active |
| `DeadManSwitch.ActiveFaultCanEndExactlyWhenSomeoneIsLeft` | pkg/chaos/driver.go:104-196 | in any reachable state an active fault can still end without a caller if and only if it is injected, a callback waits for the lock, a monitor has decided to revert, or one still watches that fault |
| `DeadManSwitch.FailedRevertIsLeftToTheMonitor` | pkg/chaos/driver.go:147-189 | when the expiring fault cannot be reverted no timer is left, and the monitor of its context can still revert it |
| `DeadManSwitch.FailedApplyIsLeftBehind` | pkg/chaos/driver.go:118-126 | a driver that fails to apply the first fault but leaves it active leaves it for good |
| `DeadManSwitch.FailedMonitorLeavesTheFaultBehind` | pkg/chaos/driver.go:147-189 | so does a monitor whose revert fails |
| `DeadManSwitch.EarlyCallbacksAreStale` | pkg/chaos/driver.go:113-116 | before the expiry, a waiting callback belongs to an earlier fault |
| `DeadManSwitch.StaleCallbackRevertsNewerFault` | pkg/chaos/driver.go:137-144 | and it reverts the newer fault |
| `DeadManSwitch.DecidedMonitorRevertsNewerFault` | pkg/chaos/driver.go:147-161 | so does a monitor that saw an earlier context end |
| `DeadManSwitch.RevertIsIdempotent` | pkg/chaos/driver.go:166-180 | reverting again changes nothing |
| `DeadManSwitch.Validate` | pkg/chaos/model.go:77-106 | accepts exactly the faults with an id, an interface, a positive duration and every figure in its range |
| `DeadManSwitch.ManagedChaosDriver.Apply` | pkg/chaos/driver.go:104-164 | the whole state after applying, on an invalid fault, a failing driver and a working one |
| `DeadManSwitch.ManagedChaosDriver.Revert` | pkg/chaos/driver.go:167-196 | the whole state after reverting, at rest, with a failing driver and a working one |
| `Bisection.FindBreakingPoint` | pkg/search/bisection.go:62-119 | lo is the highest input seen to pass, hi the lowest seen to fail, hi - lo is the range halved once per trial, at most MaxIterations + 2 trials, stopping as soon as the tolerance or the limit is reached; the boundary cases; a failure comes from an invalid configuration, a failing trial inside the range or a cancellation before the iterations are used up |
| `Bisection.EndsWithinTolerance` | pkg/search/bisection.go:95 | the bracket is within tolerance whenever 2^MaxIterations * Tolerance covers the range |
| `Bisection.BracketsThreshold` | pkg/search/bisection.go:19-22 | under an evaluator that is monotone in the range, everything in it up to lo passes and everything from the breaking point on fails |
| `Autopilot.Run` | pkg/autopilot/autopilot.go:53-98 | the trials, from the upper end of the range to the lower and on, at the nearest whole number of users, the running maximum and the rounded breaking point of the search, or the reason it failed |
| `Autopilot.SafeBelowBreaking` | pkg/autopilot/autopilot.go:59-97 | when the low probe passed, the safe maximum is the rounded lo and was healthy, the breaking count was not, the first is smaller, and they are within the tolerance whenever the iterations suffice for the range |
| `Autopilot.SafeExactlyWhenLowEndIsHealthy` | pkg/autopilot/autopilot.go:59-95 | the safe maximum is healthy if and only if the low end of the range is; if not, both answers are that end |
| `Autopilot.SearchOfABrokenService` | pkg/autopilot/autopilot.go:53-97 | a service that is never healthy has one virtual user reported as safe and as breaking |
| `Scheduler.FiresExactlyOncePerCoveredWindow` | pkg/scheduler/scheduler.go:32-42 | on a server in any time zone, a schedule that stays enabled fires exactly once in every weekly minute at which it is due and that a run with gaps of at most a minute covers |
| `Scheduler.FiresAtMostOncePerWindow` | pkg/scheduler/scheduler.go:39-41 | with any ticks and any toggles two firings never fall in the same minute |
| `Scheduler.WindowIsAMinute` | pkg/scheduler/scheduler.go:36-38 | weekday on the server, hour and minute in UTC together pick one minute of the week |
| `Scheduler.DueAtNamedMinuteExactlyWhenSameDay` | pkg/scheduler/scheduler.go:36-38 | that minute is the one the schedule names if and only if it falls on the same day on the server as in UTC |
| `Scheduler.Scheduler.CheckAndFire` | pkg/scheduler/scheduler.go:152-168 | every schedule takes the tick on its own, and exactly those that match are triggered |
| `Scheduler.Scheduler.Add` | pkg/scheduler/scheduler.go:69-82 | a new schedule under the next number, or nothing for an invalid time of day |
| `Scheduler.IdsDiffer` | pkg/scheduler/scheduler.go:75-76 | so no id is ever given twice, not even after a removal |
| `Scheduler.Scheduler.Remove` | pkg/scheduler/scheduler.go:85-93 | one schedule gone, the others untouched |
| `Scheduler.Scheduler.SetEnabled` | pkg/scheduler/scheduler.go:96-105 | one schedule toggled, the others untouched |
| `PresetStore.Store.Create` | pkg/presets/store.go:56-81 | a valid preset is appended under a fresh non-empty slug: the requested one if usable, else the name, else a default, with the least number that makes it free; an invalid one changes nothing |
| `PresetStore.Store.Dedupe` | pkg/presets/store.go:71-74 | counting up terminates and ends on the first free candidate |
| `PresetStore.Pigeonhole` | pkg/presets/store.go:72-74 | distinct candidates outnumber any finite set of taken ids |
| `PresetStore.Store.Update` | pkg/presets/store.go:85-102 | replaces an existing custom preset in place, never a built-in |
| `PresetStore.Store.Delete` | pkg/presets/store.go:105-123 | removes the preset and its one place in the order, never a built-in |
| `PresetStore.Store.List` | pkg/presets/store.go:30-38 | built-ins first, then custom presets in order of creation |
| `PresetStore.Store.Find` | pkg/presets/store.go:41-51 | finds exactly the built-in and custom ids |
| `PresetStore.SlugsAreFixedPoints` | pkg/presets/store.go:160-179 | the slugs are exactly the texts slugifying leaves alone |
| `PresetStore.SlugJoinsWords` | pkg/presets/store.go:160-179 | a slug is the text's runs of letters and digits, in lower case, joined by underscores |
| `PresetStore.BuiltInIds` | pkg/presets/cultural.go:38-71 | the four built-in ids |
| `PresetStore.SlugifyIsIdempotent` | pkg/presets/store.go:162-179 | slugifying twice is slugifying once |
| `PresetStore.ValidatePreset` | pkg/presets/store.go:135-158 | accepts exactly the valid presets |
| `EventBus.ChannelsAreSafe` | pkg/server/eventbus.go:23-102 | in every interleaving no send or close hits a closed channel, each is closed at most once, and all are closed once the bus is |
| `EventBus.StreamsAreSubsequences` | pkg/server/eventbus.go:36-43 | what a subscriber gets is, in order, a selection of the events of its run offered to it, all of them if and only if no event was offered while its buffer was full |
| `EventBus.DroppedExactlyWhenFull` | pkg/server/eventbus.go:36-43 | over every run, the number of events a subscriber lost is the number offered while its buffer was full |
| `EventBus.BufferIsAQueue` | pkg/server/eventbus.go:36-51 | a send goes to the back of a buffer with room, a receive takes the front, and the buffer holds as many as asked for, 32 by default |
| `EventBus.PublishOffersExactlyOnce` | pkg/server/eventbus.go:23-43 | in every interleaving, a call of Publish that has returned has offered its event exactly once to every subscriber it found and to no one else, and the streams hold nothing else |
| `EventBus.ClosedBusOffersNothing` | pkg/server/eventbus.go:27-29 | closing is final |
| `EventBus.LiveBus.Publish` | pkg/server/eventbus.go:23-43 | for a caller on its own, every subscriber of the run is offered the event exactly once, and no one else is |
| `EventBus.LiveBus.SubscribeTo` | pkg/server/eventbus.go:46-84 | the whole state after subscribing, on an open and on a closed bus |
| `EventBus.LiveBus.UnsubscribeFrom` | pkg/server/eventbus.go:65-81 | the whole state after the cleanup closure, the first time and later |
| `EventBus.LiveBus.Close` | pkg/server/eventbus.go:87-102 | every subscribed channel is closed and the subscriptions are dropped |

## Left out

- Floating-point rounding, and 64-bit wrap-around of counters and latency sums: numbers are exact.
- SlidingWindow.SlidingWindow.Record: requires clock readings that never run backwards in lock order and lie after 1970; the program reads the clock before taking the lock.
- SlidingWindow.SlidingWindow.Stats: reads the slices' histograms as bucket counts; each slice being a histogram object of its own, replaced on reset, is not modelled.
- Scheduler.FiresExactlyOncePerCoveredWindow: the server's zone is a whole number of minutes from UTC and does not change during the run, so daylight saving is not modelled.
- DeadManSwitch.EveryInterleavingIsSafe: says nothing after `Close`, which stops the timer without changing the status, and nothing about a watchdog in the failed state, which has none.
- DeadManSwitch.ManagedChaosDriver.Apply: leaves out the recorded error texts and the time of application.
- DeadManSwitch.ManagedChaosDriver.Revert: leaves out the recorded error text.
- DeadManSwitch.NothingInjectedPastExpiry: takes timers to be punctual, time does not pass an armed deadline before the timer fires; a late runtime timer adds its lateness. "Queued once past expiry" rests on this as well.
- TraceMiner.MineBehavioralTransitions: takes spans with their route already resolved, and leaves out average latencies.
- Scenarios.ValidateScenario: a nil scenario or step cannot be expressed; the program fills in ids in place, so a rejected scenario may have some filled in already.
- Engine.VirtualUser.Execute: one HTTP attempt (interpolation, request, assertions, extraction) is an input, and so are the status and the variables that conditions read after it; think time, timings and report texts are left out.
- Engine.NeverMissesExactlyWhenResolvable: a condition can hold when some status and variables make it true; which of them a service and the extractions can produce is not asked. How a text is read as a number is an input, infinities and NaN are left out.
- Engine.NeverPanicsExactlyWithoutRetries: likewise.
- Postman.ImportKeepsMeaningExactlyWhenSafe: a failure is the variable that was missing; the error texts name it in the notation it was written in, which the rewriting changes.
- Postman.SafeImportInterpolatesAlike: likewise.
- Fuzz.BuildFuzzScenario: decoding and mutating JSON is an input; headers, timeouts and assertions are left out.
- Bisection.FindBreakingPoint: a nil evaluator cannot be expressed.
- Text operations fold the case of ASCII letters only.
- The breaker's ticker loop and its on/off switch, the scheduler's goroutine, and signal handling.
- Network, storage, cloud, Kubernetes and language-model clients, the operating-system chaos drivers, the run coordinator, virtual-user ramping, report texts and the web interface.
