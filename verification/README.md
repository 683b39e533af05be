# Verified models of the analyzers, monitors and limiters

This project models the parts of the repository that keep real state or walk real graphs, and proves what
they promise over every input, run or interleaving. `dafny verify dfyconfig.toml` checks all of it.

Code that works step by step is modelled step by step: loops with their invariants, classes with the fields
the code keeps, arrays where the code fills buffers in place. Code made of expressions is modelled as functions.
Hash maps are maps iterated in an arbitrary order, clock readings are arguments that never go back, and hashes,
`/proc` lookups, kills and fixture generators are parameters.

| part | files |
|---|---|
| Safety analyzer over an effect graph | `EffectModel`, `EffectState`, `OrderingSafety`, `IdempotenceSafety`, `SafetyAnalyzer` |
| Detection engine, process tree, file ranking | `EventLog`, `EventMeaning`, `Monitor`, `MonitorRuns`, `Processes`, `ProcessTree`, `FileRanking` |
| Accessibility comparison | `Accessibility`, `FocusGraph`, `NodeComparison`, `FaultOrder`, `ConfidenceModel`, `AccessibilityDiff`, `RunMeaning`, `AccessibilityLaws`, `MigrationChain` |
| Single-producer single-consumer ring | `RawRing` (the C functions), `RingInterleaving` (both threads at once) |
| Hash-chained audit log | `AuditChain`, `AuditCommitment` |
| Rate limiters | `ActivationLimiter`, `EventLimiter`, with `Spacing` shared by both |
| Watchdog | `Watchdog` |
| PID printers in the kernel programs | `Decimal` |
| Fixture planning | `Xorshift`, `ScenarioText`, `FixturePlan`, `ProviderNesting` |
| Shared | `Graphs`, `Sorting`, `SetSums`, `Options`, `Clock` |

Ghost fields such as `history`, `admitted` and `log` record the whole run; each class's `Valid()` ties them to
the fields the code keeps, so a lemma about any `Valid()` object is a statement about every reachable state.

What the methods are proved against is in turn proved to mean something that does not use it: reports and verdicts
are spelled out on the lists of two runs (`RunMeaning`), properties on the fields of the effect model (`HoldsMeans`),
counters and outputs on the events (`EventMeaning`, `MonitorRuns`), draws on bits (`StepBits`), and texts by
reading them back.

## Where the code and its promises differ

The model follows the code. Each of these is stated as a lemma, with the exact condition where there is one.

- The ordering check searches only from effects, so a cycle among other ids is reported Proven
  (`CycleOutsideEffectsIsMissed`); for all constraint lists that start among given ids, it is exact if
  and only if these ids are effects (`ExactIffStartsAreEffects`).
- Verdicts are stored by a key that ignores which variables are forbidden, so a second forbidden-write property
  replaces the first and `all_safe` can hide a refutation (`RepeatedKeyHidesRefutation`). It hides none precisely
  when the last list of forbidden variables covers all earlier ones (`AllSafeMeansAllHoldIff`).
- The idempotence closure is called a breadth-first search in its comment but pops from the end, as a stack.
- Processes caught in a parent cycle are missing from the process tree (`MissingIffTrapped`), and the
  recursion has no result precisely when process 0 is tracked and its own ancestor (`ForestExistsIff`), for
  instance when it is tracked without a recorded parent (`TrackedZeroHasNoTree`). The children of a tracked
  process 0 whose own chain leaves the table are listed twice, as roots and under it (`NoPidTwiceIff`).
- Two intact audit logs are broken by the next append: one whose last line has no newline, for instance after an
  append that was cut off between its text and its newline (`CutOffAppendBreaksTheNext`), and one that ends in a
  blank line after its entries. All others stay intact (`AppendKeepsIntactIff`).
- A bar inside host, event, license id or detail gives another entry the same payload; without one, the payload
  is the entry's own (`CommitsIffBarFree`). A log with a bar in some entry therefore has a twin that the hashes
  cannot tell from it (`BarGivesTwin`), and only such a log has (`TextsDetermineLogIff`).
- The per-name limiter is described as at most L events per second; the exact bound for an arbitrary interval
  of that length is 2L - 1 (`LessThanTwiceTheLimit`, `TwiceTheLimitIsReached`).
- The watchdog is described as raising an alarm after ten seconds without heartbeat. Silence of two check intervals
  less one nanosecond is sure to be noticed (`LongSilenceIsNoticed`); silence of two nanoseconds less than two
  intervals is not (`SilenceOfTwoIntervalsPasses`).
- The activation limiter reads the clock a second time for the wait it reports. The subtraction is safe after
  every history if and only if that reading comes at most one second after the first (`NeverUnderflowsIff`).
- The confidence model's boundary decision is meant to override the decision of least loss whenever it is the more
  cautious one; it does not in two cases (`MoreCautiousBoundaryWinsIff`). So the built-in model approves below its own
  approval threshold, for instance after fifty-three successes and one failure of weight two
  (`ApprovesBelowThresholdIff`), and never decides plain rejection (`BuiltinDecision`). A run with violations is
  approved once it has enough successes (`CompareRuns`): the fallback triggers of the model are validated when it
  is loaded and never evaluated.
- In a valid model with a high review threshold more successes can turn a review into a rejection
  (`MoreSuccessesCanReject`), because the override blocks acceptance but not holding; `FollowsMeanIff` says when this
  cannot happen. With the built-in model it cannot (`BuiltinFollowsEvidence`).
- The Rust and the C printer differ on negative targets, which name process groups (`PrintersAgreeIffNotNegative`).
- A run with a disabled action violates itself (`DisabledActionNeverEquivalent`), and with an improvement delta
  of zero or less it improves on itself (`SelfComparison`).
- Two migrations that each keep the focus traversal can lose it together (`TraversalNeedNotCompose`). They cannot,
  whatever the second one is, precisely when the first traversal keeps its order in the declared order of the
  intermediate run and nothing is put ahead of it (`SafeToContinueIff`). Everything else that is compared carries
  over (`PreservationComposes`).

## Model

| member | source | states |
|---|---|---|
| OrderingSafety.Dfs | frankentui/doctor_frankentui/src/abstract_interpretation.rs:391-421 | one call of the inner search: it either finishes every node it enters, with gray nodes equal to the current path before and after, or returns a suffix of the path that is a simple cycle; it terminates because each call colours a white node |
| OrderingSafety.Position | frankentui/doctor_frankentui/src/abstract_interpretation.rs:403-405 | the `position(..).unwrap()` cannot fail: a gray node is on the path, and the first occurrence is found |
| OrderingSafety.BackEdgeClosesCycle | frankentui/doctor_frankentui/src/abstract_interpretation.rs:400-407 | an edge to a gray node makes the path from that node on a simple cycle, closing edge included |
| OrderingSafety.SearchEffects | frankentui/doctor_frankentui/src/abstract_interpretation.rs:423-431 | over all effects: no cycle means a finish order that contains every effect; a cycle is reachable from some effect |
| OrderingSafety.CheckOrderingSafety | frankentui/doctor_frankentui/src/abstract_interpretation.rs:358-452 | Proven if and only if no constraint cycle is reachable from an effect; then the reverse finish order is a schedule that respects every constraint; otherwise the one witness is a simple reachable cycle and no schedule exists |
| OrderingSafety.FinishedHasNoCycle | frankentui/doctor_frankentui/src/abstract_interpretation.rs:391-421 | nothing that was finished lies on a cycle |
| OrderingSafety.ReverseFinishIsSchedule | frankentui/doctor_frankentui/src/abstract_interpretation.rs:391-421 | every successor finished first, so reading the finish order backwards gives a schedule |
| OrderingSafety.ScheduleForbidsCycles | frankentui/doctor_frankentui/src/abstract_interpretation.rs:358-452 | any schedule excludes any cycle an effect leads into |
| OrderingSafety.EndpointsAreEffectsMakesItExact | frankentui/doctor_frankentui/src/abstract_interpretation.rs:423-431 | if every constraint starts at an effect, the check decides acyclicity of the whole graph |
| OrderingSafety.CycleOutsideEffectsIsMissed | frankentui/doctor_frankentui/src/abstract_interpretation.rs:423-431 | a cycle among ids that are no effects is reported Proven (the search starts only from effects) |
| OrderingSafety.ExactIffStartsAreEffects | frankentui/doctor_frankentui/src/abstract_interpretation.rs:423-431 | for constraints starting among given ids, the check decides acyclicity of the whole graph if and only if all these ids are effects |
| IdempotenceSafety.CloseOver | frankentui/doctor_frankentui/src/abstract_interpretation.rs:656-699 | the worklist of one effect: it exhausts the budget if and only if its exact number of pops exceeds it, finds each offending transitive predecessor once, and finds all of them if not exhausted |
| IdempotenceSafety.CheckIdempotencePreservation | frankentui/doctor_frankentui/src/abstract_interpretation.rs:621-714 | Unknown if and only if the budget falls short; otherwise Proven if and only if no idempotent effect has a different non-idempotent transitive predecessor, with one counterexample per such pair and no other |
| IdempotenceSafety.ViolatesMeans | frankentui/doctor_frankentui/src/abstract_interpretation.rs:656-699 | the offending effects are those from which the ordering constraints, read forwards, lead to the idempotent one |
| IdempotenceSafety.VisitedWithinReach | frankentui/doctor_frankentui/src/abstract_interpretation.rs:656-699 | every pop is paid for by one push: pops plus stack never exceed one plus the edges leaving the reachable set, and an empty stack means the closure is complete |
| IdempotenceSafety.OnePerConstraintSuffices | frankentui/doctor_frankentui/src/abstract_interpretation.rs:656-699 | a budget of one more than the number of distinct constraints is never exceeded |
| SafetyAnalyzer.CheckNoForbiddenWrites | frankentui/doctor_frankentui/src/abstract_interpretation.rs:455-514 | Refuted exactly when some effect may write a forbidden variable; exactly one counterexample per such effect, and one obligation per effect unless nothing is forbidden |
| SafetyAnalyzer.CheckDeterminism | frankentui/doctor_frankentui/src/abstract_interpretation.rs:517-566 | Refuted exactly when a replayable effect is non-deterministic; exactly one counterexample per such effect, and one obligation per replayable effect |
| SafetyAnalyzer.CheckCleanupCompleteness | frankentui/doctor_frankentui/src/abstract_interpretation.rs:569-618 | Refuted exactly when a subscription has no cleanup; exactly one counterexample per such subscription, and one obligation per known subscription |
| SafetyAnalyzer.CheckSingleWriter | frankentui/doctor_frankentui/src/abstract_interpretation.rs:717-782 | Refuted exactly when two different effects write one variable; one counterexample per contested variable, listing all of its writers once |
| SafetyAnalyzer.CheckProperty | frankentui/doctor_frankentui/src/abstract_interpretation.rs:299-314 | dispatch: status, counterexamples and obligations of each check follow from the meaning of its property, which is stated without reference to the algorithm |
| SafetyAnalyzer.HoldsMeans | frankentui/doctor_frankentui/src/abstract_interpretation.rs:299-314 | what each of the six properties says about the fields of the model |
| SafetyAnalyzer.AnalyzeSafety | frankentui/doctor_frankentui/src/abstract_interpretation.rs:290-338 | the verdict map holds for every key the property, status and obligation count of the last property with that key, the two lists are the reports joined in order, and `all_safe` says that all stored verdicts are proven |
| SafetyAnalyzer.AllSafeMeansAllHoldIff | frankentui/doctor_frankentui/src/abstract_interpretation.rs:290-338 | for any list of properties: `all_safe` implies on every model that all of them hold if and only if the last list of forbidden variables, with the global one, covers every list before it |
| SafetyAnalyzer.DistinctKeysMakeItExact | frankentui/doctor_frankentui/src/abstract_interpretation.rs:290-338 | with distinct keys, the usual case, `all_safe` means that every property holds |
| SafetyAnalyzer.RepeatedKeyHidesRefutation | frankentui/doctor_frankentui/src/abstract_interpretation.rs:787-796 | two forbidden-write properties share a key, so a refuted one followed by a proven one still gives `all_safe` |
| SafetyAnalyzer.AnalyzeAllSafety | frankentui/doctor_frankentui/src/abstract_interpretation.rs:341-353 | for the standard list `all_safe` is exactly the conjunction of the six properties and a sufficient budget |
| EffectState.RunRespectsJoin | frankentui/doctor_frankentui/src/abstract_interpretation.rs:230-264 | runs respect joins and the order, and a schedule cut in two gives the join of its parts |
| EffectState.ScheduleIndependent | frankentui/doctor_frankentui/src/abstract_interpretation.rs:240-264 | two schedules of the same effects end in equal states, a schedule of more effects in one that subsumes |
| EventLog.WindowAfterOpen | process-monitor/src/monitor.rs:400-406 | one more open: the window loses exactly what is older than a second and gains the open, so it always holds the opens of the last second in order |
| EventLog.WindowGainsAtMostOne | process-monitor/src/monitor.rs:400-409 | the number of opens in the window rises by at most one per open |
| EventLog.BurstBeginsWithAlert | process-monitor/src/monitor.rs:400-413 | whenever a window is at or above the threshold, an alert was raised at the open that brought it there: testing for equality misses no burst |
| EventLog.SumOverIsCount | process-monitor/src/monitor.rs:363-444 | a counter added up over all processes is the counter over all events |
| EventMeaning.WindowIsLastSecond | process-monitor/src/monitor.rs:400-406 | the size of the window after an open is the number of that process's opens in the last second |
| EventMeaning.CountersCountEvents | process-monitor/src/monitor.rs:363-444 | each counter is the number of events of the kinds it stands for, all listed, over all processes and for each |
| Monitor.Monitor.TrackOpen | process-monitor/src/monitor.rs:386-434 | an open updates extension, file and window tables and raises the alert when the window size equals a positive threshold, and with auto-kill the kill |
| Monitor.Monitor.ApplyEvent | process-monitor/src/monitor.rs:363-444 | one event moves every table to the next one the event calls for, and outputs the alert, the action and the event in this order |
| Monitor.Monitor.HandleEvent | process-monitor/src/monitor.rs:363-444 | all tables, counters and windows agree with the history before and after; the output is the event, ahead of it, if its process reaches the threshold, the alert with the window's size, and between the two the kill if auto-kill is on |
| Monitor.Monitor.Drain | process-monitor/src/monitor.rs:333-343 | draining the channel handles every message in order, counts lost ones and records each parent told first |
| Monitor.Monitor.TakeSample | process-monitor/src/monitor.rs:344-359 | a sample moves the tick counters into the history; what falls off at 120 is accounted for |
| Monitor.Monitor.Poll | process-monitor/src/monitor.rs:333-361 | a whole poll: messages, and if a second has passed one more sample, which accounts for all events so far, and a tick back at zero |
| Monitor.CountersAgree | process-monitor/src/monitor.rs:363-444 | in every reachable state the per-process counters, the extension table, and samples plus running tick add up to the same numbers |
| Monitor.RunAlerts | process-monitor/src/monitor.rs:363-444 | over any run the alerts output are exactly those the history calls for |
| Monitor.RunEvents | process-monitor/src/monitor.rs:333-343 | over any run every event is output exactly once and in order |
| MonitorRuns.RunKills | process-monitor/src/monitor.rs:423-432 | over any run there are as many kills as alerts if auto-kill is on, and none if it is off |
| MonitorRuns.RunExplained | process-monitor/src/monitor.rs:408-443 | every output belongs to the message before which as many events arrived as were put out: an event is that message's; an alert names its process, user and name and the size of its window, which is the threshold, and stands before it; a kill stands between the two and carries the answer of that message |
| MonitorRuns.FirstAnswerStays | process-monitor/src/monitor.rs:368-374 | the parent recorded for a process is the first one told in the run, unless one was recorded before |
| MonitorRuns.StatsCountEvents | process-monitor/src/monitor.rs:363-444 | in every reachable state the statistics of a process are numbers of its events |
| MonitorRuns.TablesCountEvents | process-monitor/src/monitor.rs:386-398 | file and extension tables are numbers of events |
| MonitorRuns.TreeLabels | process-monitor/src/monitor.rs:533-548 | a node of the tree shows the recorded parent, the name in the latest event, the number of alerts and the number of opens of its process |
| MonitorRuns.KeptSamples | process-monitor/src/monitor.rs:344-359 | the samples kept are the last 120 |
| Monitor.Monitor.BuildProcessTree | process-monitor/src/monitor.rs:490-555 | in every reachable state in which process 0 is not its own ancestor the tree is the exact tree of the tables |
| Monitor.TreeParents | process-monitor/src/monitor.rs:368-374 | the tree shows a process under the parent its statistics record |
| Monitor.Monitor.TopFiles | process-monitor/src/monitor.rs:453-471 | the ranking holds true counts in descending order, no file left out was used more often than a listed one, and a short list is complete |
| FileRanking.TopFiles | process-monitor/src/monitor.rs:453-471 | sort by descending count and truncate: exactly the first n of the table, none twice |
| ProcessTree.FileUnderParents | process-monitor/src/monitor.rs:491-499 | every tracked process is listed once and filed once, under its parent |
| ProcessTree.Build | process-monitor/src/monitor.rs:528-549 | the recursion yields the correct subtree of its process and terminates because it never meets a process twice on its way down |
| ProcessTree.BuildProcessTree | process-monitor/src/monitor.rs:490-555 | for any parent table, cyclic or not, in which process 0 is not its own ancestor: a forest whose nodes have exactly their children, sorted by name |
| ProcessTree.SiblingsByName | process-monitor/src/monitor.rs:501-525 | names ascend among the roots and among the children of a node |
| ProcessTree.ChainShorterThanTable | process-monitor/src/monitor.rs:528-549 | a parent chain that leaves the table is shorter than the number of tracked processes |
| ProcessTree.NoPidTwiceIff | process-monitor/src/monitor.rs:490-555 | no process appears twice in the tree, except if process 0 is tracked, has children, and is below a process whose parent is not tracked: then its children do |
| ProcessTree.ForestIsExact | process-monitor/src/monitor.rs:490-555 | for every table that has a tree: it shows a tracked process once for each root on its parent chain, at the depth of that root above it, and nothing else; no row is repeated and no depth reaches the number of processes; if process 0 is not tracked these are the processes whose chain leaves the table, each once |
| ProcessTree.MissingIffTrapped | process-monitor/src/monitor.rs:490-555 | a tracked process is missing from the tree if and only if its parent chain neither leaves the table nor passes through process 0 |
| ProcessTree.CompleteIffAcyclic | process-monitor/src/monitor.rs:490-555 | the tree shows exactly the tracked processes if and only if none is its own ancestor |
| ProcessTree.ForestExistsIff | process-monitor/src/monitor.rs:511-549 | the recursion from the root list has a result if and only if process 0 is not its own ancestor |
| ProcessTree.TrackedZeroHasNoTree | process-monitor/src/monitor.rs:511-519 | a tracked process 0 without a recorded parent would be its own child, so no finite tree exists |
| ProcessTree.FlattenTree | process-monitor/src/monitor.rs:558-570 | the flattening is preorder, each child one level below its parent |
| ProcessTree.OneRowPerNode | process-monitor/src/monitor.rs:558-570 | the flattening has as many rows as the forest has nodes |
| ProcessTree.RebuildUndoesFlatten | process-monitor/src/monitor.rs:558-570 | reading the depth list back rebuilds the forest |
| ProcessTree.FlattenDeterminesForest | process-monitor/src/monitor.rs:558-570 | two forests with the same flattening are equal |
| FocusGraph.Reachable | frankentui/doctor_frankentui/src/accessibility_diff.rs:918-938 | the breadth-first search with early exit decides reachability, and terminates on cyclic graphs |
| FocusGraph.ReachableFromAnySource | frankentui/doctor_frankentui/src/accessibility_diff.rs:940-948 | true exactly when some source focus target reaches the node |
| FocusGraph.FocusOrder | frankentui/doctor_frankentui/src/accessibility_diff.rs:895-905 | the focus targets, each once, by declared order and then by id |
| FocusGraph.FocusOrderUnique | frankentui/doctor_frankentui/src/accessibility_diff.rs:895-905 | there is only one such order, whatever order the map is iterated in |
| FocusGraph.FocusOrderMeans | frankentui/doctor_frankentui/src/accessibility_diff.rs:895-905 | before a target that declares a number come only targets that declare no larger one; declaring none is declaring 0xFFFF_FFFF; equal numbers stand by id |
| FocusGraph.CompareFocusGraph | frankentui/doctor_frankentui/src/accessibility_diff.rs:741-801 | the faults are exactly the lost targets, the steps that cannot be walked and the stranded new targets, each reported once; none if and only if the traversal is kept; the successes are counted exactly, and so are the policies covered |
| FocusGraph.OrderKeptReachesForward | frankentui/doctor_frankentui/src/accessibility_diff.rs:771-780 | checking neighbours is enough: every earlier target then reaches every later one |
| FocusGraph.FocusKeptGuarantees | frankentui/doctor_frankentui/src/accessibility_diff.rs:741-801 | no focus fault if and only if all pairs of the source order are connected, all targets survive and all new ones are reachable |
| NodeComparison.CompareActions | frankentui/doctor_frankentui/src/accessibility_diff.rs:651-716 | each known action of the node is either kept or reported exactly once |
| NodeComparison.CompareNode | frankentui/doctor_frankentui/src/accessibility_diff.rs:534-739 | the faults and the improvements of one node, exactly and in exact number, the exact number of successes, and the policies they fall under |
| NodeComparison.NoFaultIffPreserved | frankentui/doctor_frankentui/src/accessibility_diff.rs:534-739 | no fault of a node exists if and only if its translation keeps role, focus, name, actions and sufficient contrast |
| NodeComparison.NoImprovementIff | frankentui/doctor_frankentui/src/accessibility_diff.rs:579-716 | no improvement of a node exists if and only if its translation adds nothing the source lacks |
| NodeComparison.NothingCoveredIffNoSuccess | frankentui/doctor_frankentui/src/accessibility_diff.rs:534-739 | a node covers no policy if and only if none of its checks succeeds |
| Accessibility.LastNodeStays | frankentui/doctor_frankentui/src/accessibility_diff.rs:865-871 | of several nodes with an id the last one is compared |
| Accessibility.LastActionStays | frankentui/doctor_frankentui/src/accessibility_diff.rs:873-883 | of several actions with an id, in nodes with an id, the last one in list order is compared |
| Accessibility.LastAnnouncementStays | frankentui/doctor_frankentui/src/accessibility_diff.rs:885-893 | of several announcements with an id the last one is compared |
| AccessibilityDiff.CompareNodes | frankentui/doctor_frankentui/src/accessibility_diff.rs:408-437 | over all source nodes: all faults and improvements and no other, exact totals, the policies covered, and a tally in step with them |
| AccessibilityDiff.CompareAnnouncements | frankentui/doctor_frankentui/src/accessibility_diff.rs:812-863 | each source announcement is matched or reported once, and each added one is an improvement |
| AccessibilityDiff.NoteEach | frankentui/doctor_frankentui/src/accessibility_diff.rs:439-446 | one improvement for each id that the source lacks, focus targets and announcements alike |
| AccessibilityDiff.RecordAll | frankentui/doctor_frankentui/src/accessibility_diff.rs:421-426 | recording faults keeps weight and violated policies in step with the list |
| AccessibilityDiff.HighestRisk | frankentui/doctor_frankentui/src/accessibility_diff.rs:487-491 | the risk level is the highest among the faults, Low if there are none |
| AccessibilityDiff.RiskScoreIsProbability | frankentui/doctor_frankentui/src/accessibility_diff.rs:1286-1292 | the score times all successes and weights is the weight, short of saturation; it lies in [0, 1], is 0 if and only if nothing failed, and 1 if and only if nothing succeeded or the weight is saturated |
| AccessibilityDiff.CompareRuns | frankentui/doctor_frankentui/src/accessibility_diff.rs:387-516 | the whole report: exact faults, improvements, successes and their numbers, both lists sorted, verdict, nodes, edges and actions compared, saturated weight, covered and violated policies, risk level, a score of 0 if and only if the verdict is not Violation, and the decision with the first violated policy as its claim: approval if and only if there are at least 16 successes and 18 more for each unit of weight |
| RunMeaning.NoViolationIff | frankentui/doctor_frankentui/src/accessibility_diff.rs:387-516 | for runs with unique ids: the verdict is not Violation if and only if every source node has a counterpart with its role, focus, name, actions of the same id and kind and enabled, and sufficient contrast; the focus traversal in the declared order can be walked; and every announcement is found again with its text and politeness |
| RunMeaning.FaultsOnLists | frankentui/doctor_frankentui/src/accessibility_diff.rs:950-1165 | the faults are exactly these, kind, policy and risk spelled out on the nodes, actions, focus targets and announcements of the two lists; among them for each lost action whether it is gone, disabled or of another kind |
| RunMeaning.ImprovementsOnLists | frankentui/doctor_frankentui/src/accessibility_diff.rs:579-716 | the improvements are exactly these, spelled out in the same way |
| RunMeaning.CoversOnLists | frankentui/doctor_frankentui/src/accessibility_diff.rs:545-740 | a policy is covered exactly when one of the checks spelled out for it succeeds |
| RunMeaning.EveryCheckCounts | frankentui/doctor_frankentui/src/accessibility_diff.rs:534-739 | successes and faults of a node add up to the number of its checks |
| RunMeaning.TraversalNumbers | frankentui/doctor_frankentui/src/accessibility_diff.rs:756-799 | how many successes and faults the traversal yields: numbers of steps and of targets that are walkable, lost, new and stranded |
| AccessibilityDiff.CoveredIffSuccess | frankentui/doctor_frankentui/src/accessibility_diff.rs:387-516 | a comparison covers some policy if and only if something succeeded |
| FaultOrder.BySeverityIsTotal | frankentui/doctor_frankentui/src/accessibility_diff.rs:1230-1238 | the four keys chained by `then_with` make a total order, so sorting is defined |
| FaultOrder.FaultListUnique | frankentui/doctor_frankentui/src/accessibility_diff.rs:1230-1238 | faults sorted by severity are in the same order however they were collected |
| FaultOrder.ImprovementListUnique | frankentui/doctor_frankentui/src/accessibility_diff.rs:472-477 | and so are improvements |
| FaultOrder.SameWeight | frankentui/doctor_frankentui/src/accessibility_diff.rs:421-426 | sorting changes nothing about the weight |
| FaultOrder.SeverityMeans | frankentui/doctor_frankentui/src/accessibility_diff.rs:1230-1238 | graver before less grave, then the lesser policy, then the lesser node with none first, then the lesser name |
| FaultOrder.FaultNamesInOrder | frankentui/doctor_frankentui/src/accessibility_diff.rs:1235-1236 | the order of the kinds by name |
| FaultOrder.ImprovementNamesInOrder | frankentui/doctor_frankentui/src/accessibility_diff.rs:473-476 | the order of the improvement kinds by name |
| FaultOrder.LevelsDouble | frankentui/doctor_frankentui/src/accessibility_diff.rs:1294-1301 | each level weighs twice the one below, in the order of the levels |
| Sorting.LeqMeans | frankentui/doctor_frankentui/src/accessibility_diff.rs:472-477 | names are compared by the first place where they differ |
| ConfidenceModel.MeanFollowsEvidence | frankentui/doctor_frankentui/src/semantic_contract.rs:1662-1665 | for every valid model the posterior mean lies strictly between 0 and 1, rises with each success and falls with each failure |
| ConfidenceModel.LeastLossIsLeast | frankentui/doctor_frankentui/src/semantic_contract.rs:1722-1730 | the second decision has the least expected loss of the three actions |
| ConfidenceModel.MoreCautiousBoundaryWinsIff | frankentui/doctor_frankentui/src/semantic_contract.rs:1732-1739 | for every valid model and evidence the decision is at least as cautious as the boundary decision, except below the approval threshold where accepting has the least loss and below the review threshold where holding has |
| ConfidenceModel.FollowsMeanIff | frankentui/doctor_frankentui/src/semantic_contract.rs:1687-1739 | for every valid model in which accepting gains most and rejecting loses most from a higher mean: a higher mean never makes the decision more cautious if and only if no mean in the band of rejection where holding has the least loss lies below one where accepting has |
| ConfidenceModel.MoreSuccessesCanReject | frankentui/doctor_frankentui/src/semantic_contract.rs:1732-1739 | a valid model in which seven successes lead to a review and forty-seven to a rejection |
| ConfidenceModel.BuiltinDecision | frankentui/doctor_frankentui/src/semantic_contract.rs:1708-1739 | the decision of the built-in model for any numbers of successes and weighted failures, as inequalities of whole numbers |
| ConfidenceModel.BuiltinLosses | frankentui/doctor_frankentui/src/semantic_contract.rs:1708-1720 | the mean and the three expected losses that the built-in model reports |
| ConfidenceModel.BuiltinFollowsEvidence | frankentui/doctor_frankentui/src/semantic_contract.rs:1708-1739 | more successes or fewer failures never make that decision more cautious |
| ConfidenceModel.ApprovesBelowThresholdIff | frankentui/doctor_frankentui/src/semantic_contract.rs:1732-1739 | exactly when it approves although the mean is below its approval threshold |
| AccessibilityDiff.NoFaultIffPreserves | frankentui/doctor_frankentui/src/accessibility_diff.rs:478-486 | no fault of a pair of runs exists if and only if the translation preserves every node, the traversal and every announcement |
| AccessibilityDiff.NoImprovementIffNothingAdded | frankentui/doctor_frankentui/src/accessibility_diff.rs:478-486 | no improvement exists if and only if the translation adds nothing |
| AccessibilityLaws.SelfComparison | frankentui/doctor_frankentui/src/accessibility_diff.rs:387-516 | a run with unique ids compared with itself is Equivalent, Improved or Violation according to conditions that can be read off the run |
| AccessibilityLaws.DisabledActionNeverEquivalent | frankentui/doctor_frankentui/src/accessibility_diff.rs:686-692 | a disabled action of the source makes a run violate itself |
| MigrationChain.PreservationComposes | frankentui/doctor_frankentui/src/accessibility_diff.rs:387-516 | after two migrations without violation, nodes, actions and announcements are preserved overall, and only the focus traversal remains to be checked |
| MigrationChain.SafeToContinueIff | frankentui/doctor_frankentui/src/accessibility_diff.rs:741-801 | given a first migration without violation: every second one without violation keeps the pair free of violations if and only if the neighbours of the first traversal stand in the same order in the second and nothing was put ahead of it |
| MigrationChain.TraversalNeedNotCompose | frankentui/doctor_frankentui/src/accessibility_diff.rs:741-801 | for any two ids there are three runs in which two migrations without violation lose the traversal together |
| AccessibilityLaws.NoViolationKeepsTraversal | frankentui/doctor_frankentui/src/accessibility_diff.rs:741-801 | unless the verdict is Violation the whole source traversal can be walked in the translation |
| RawRing.RawRing.OnPerfEvent | c-ebpf/ebpf.c:80-95 | the callback appends the event unless it is short or the ring holds one less than its size |
| RawRing.RawRing.Poll | c-ebpf/ebpf.c:247-258 | the drain loop removes a prefix of the queue, in order, and stops only at the limit or when it is empty |
| RawRing.FullTestExact | c-ebpf/ebpf.c:88-91 | the index tests decide full and empty exactly |
| RawRing.Capacity | c-ebpf/ebpf.c:88-91 | the ring holds at most 8191 events and the test finds it full exactly then |
| RingInterleaving.StepKeepsInv | c-ebpf/ebpf.c:80-95 | every step of either thread, word by word of each copy, keeps the invariant |
| RingInterleaving.RunRefinesFifo | c-ebpf/ebpf.c:80-95 | under every interleaving: delivered followed by queued is accepted, no word torn; accepted is a subsequence of offered, with every drop accounted for; never more than size minus one queued |
| RingInterleaving.StepIsFifoStep | c-ebpf/ebpf.c:247-258 | each step is one FIFO operation or none, and an event is dropped only when the queue is full at that step |
| RingInterleaving.NoSlotSharedByBoth | c-ebpf/ebpf.c:80-95 | no slot is written while it can still be read |
| RingInterleaving.NeitherThreadIsStuck | c-ebpf/ebpf.c:247-258 | each thread always has a next step |
| RingInterleaving.RunOfAnyLength | c-ebpf/ebpf.c:80-95 | the ring can start, and runs of every length exist |
| AuditChain.VerifyAuditLog | process-monitor/src/audit.rs:133-180 | the skip-and-count loop accepts if and only if the non-blank lines form a chain from "0", and then returns their number; otherwise it reports as corrupted exactly the non-blank lines that do not link to the last accepted one |
| AuditChain.MarksUnique | process-monitor/src/audit.rs:145-169 | which lines are accepted is fixed by the log |
| AuditChain.ChainMeans | process-monitor/src/audit.rs:43-54 | a chain spelled out: predecessors from "0" on, and the hash of the seven fields in their order with bars between them |
| AuditChain.PrefixIntact | process-monitor/src/audit.rs:133-180 | every prefix of an intact log is intact |
| AuditChain.AuditLog.Append | process-monitor/src/audit.rs:76-129 | one append: the new record links to the hash found in the last line, and its text goes onto that line if it has no newline yet; whether its own newline is written is an argument |
| AuditChain.AuditLog.AppendAll | process-monitor/src/audit.rs:76-129 | any run of finished appends from an empty log leaves it intact, one entry per request |
| AuditChain.PredecessorFoundIff | process-monitor/src/audit.rs:86-96 | the hash found in the last line is the end of the chain if and only if the log does not end in a blank line after its entries |
| AuditChain.AppendKeepsIntactIff | process-monitor/src/audit.rs:76-129 | appending to an intact log keeps it intact if and only if its last line has its newline (or holds only white space that JSON skips) and the log does not end in a blank line after its entries |
| AuditChain.CutOffAppendBreaksTheNext | process-monitor/src/audit.rs:118-126 | an append that writes its text but not its newline leaves the log intact, and whatever is appended next breaks it |
| AuditCommitment.PayloadInjective | process-monitor/src/audit.rs:43-54 | without a bar in the fields before the detail, the payload determines entry and predecessor |
| AuditCommitment.BarInEventHasAlias | process-monitor/src/audit.rs:43-54 | with a bar in the event it does not: the separator moves |
| AuditCommitment.CommitsIffBarFree | process-monitor/src/audit.rs:43-54 | the payload commits to entry and predecessor if and only if host, event, license id and detail have no bar |
| AuditCommitment.LastHashDeterminesLog | process-monitor/src/audit.rs:133-180 | two intact chains with the same last hash are equal entry for entry, or exhibit two texts with the same hash |
| AuditCommitment.LastHashCommits | process-monitor/src/audit.rs:133-180 | a log without bars is fixed by its last hash alone: any other intact chain with that hash, whatever its fields hold, is equal to it or exhibits two texts with the same hash |
| AuditCommitment.BarGivesTwin | process-monitor/src/audit.rs:43-54 | a bar in any entry gives a different intact chain that hashes the same texts and ends in the same hash |
| AuditCommitment.TextsDetermineLogIff | process-monitor/src/audit.rs:43-54 | no other intact chain hashes the same texts if and only if no entry has a bar |
| ActivationLimiter.Limiter.Check | process-monitor/src/license.rs:461-474 | admitted exactly when fewer than five attempts were admitted in the five minutes before; the reported wait is the one computed |
| ActivationLimiter.AtMostFiveInFiveMinutes | process-monitor/src/license.rs:461-474 | over any run no half-open interval of five minutes contains more than five admitted attempts |
| ActivationLimiter.RejectedIff | process-monitor/src/license.rs:461-474 | in every reachable state an attempt is rejected if and only if the fifth last admitted one is less than 300 seconds old |
| ActivationLimiter.ReportedWaitIsExact | process-monitor/src/license.rs:468-471 | after the reported whole seconds the next attempt is admitted, and one second earlier it is not |
| ActivationLimiter.WaitUnderflowsIff | process-monitor/src/license.rs:469-470 | the subtraction underflows exactly when the second clock reading finds the oldest attempt 301 seconds old |
| ActivationLimiter.NeverUnderflowsIff | process-monitor/src/license.rs:464-470 | with the second reading g after the first, the subtraction is safe for every admissible history if and only if g is at most one second |
| ActivationLimiter.LateMessageUnderflows | process-monitor/src/license.rs:461-474 | for every longer g, a limiter driven through five attempts and a sixth whose wait underflows |
| EventLimiter.App.Limit | process-monitor/src/tui.rs:224-238 | the decision for one event, with the history of what passed kept in step |
| EventLimiter.App.HandleEvent | process-monitor/src/tui.rs:213-260 | alerts are never suppressed nor counted by the limiter; the queues hold the last 50 lines oldest first and the last 200 network lines newest first |
| EventLimiter.App.ApplySnapshot | process-monitor/src/tui.rs:213-260 | passed plus suppressed plus alerts is the number of events |
| EventLimiter.SuppressedIff | process-monitor/src/tui.rs:224-238 | in every reachable state an event is suppressed if and only if its name's window is not over and has let the limit through |
| EventLimiter.QueuesHold | process-monitor/src/tui.rs:240-260 | the screen holds the last 50 lines shown and the last 200 network lines |
| EventLimiter.AtMostTheLimitPerWindow | process-monitor/src/tui.rs:224-238 | over any run no window of a name lets more than L events through |
| EventLimiter.LessThanTwiceTheLimit | process-monitor/src/tui.rs:224-238 | over any run at most 2L - 1 events of a name pass in any half-open interval of one window length |
| EventLimiter.TwiceTheLimitIsReached | process-monitor/src/tui.rs:224-238 | that bound is reached for every limit, so L itself is no bound |
| Watchdog.Watchdog.Load | process-monitor/src/watchdog.rs:55-59 | the load of the counter after the sleep |
| Watchdog.Watchdog.Compare | process-monitor/src/watchdog.rs:61-105 | the flag after the comparison, and alternation of alarm and restore notices |
| Watchdog.Watchdog.Decide | process-monitor/src/watchdog.rs:61-105 | after a check the alarm is set if and only if the counter has not moved between the last two loads |
| Watchdog.AlarmIffSilent | process-monitor/src/watchdog.rs:54-105 | unless the counter wraps in between, the alarm says exactly whether a heartbeat came between the loads |
| Watchdog.FlagReadsCounter | process-monitor/src/watchdog.rs:54-105 | loads are ten seconds apart, and the flag says whether the number of heartbeats between two loads is a multiple of 2^64 |
| Watchdog.NoticesAlternate | process-monitor/src/watchdog.rs:61-105 | alarms and restores alternate, and the flag is set exactly after an alarm |
| Watchdog.SilenceAcrossLoadsRaisesAlarm | process-monitor/src/watchdog.rs:54-105 | silence spanning two successive loads is always noticed |
| Watchdog.LongSilenceIsNoticed | process-monitor/src/watchdog.rs:54-105 | silence over a closed stretch of twice the longest check interval less one nanosecond is noticed within it, whenever it begins |
| Watchdog.Watchdog.CheckOnce | process-monitor/src/watchdog.rs:54-105 | one round of the loop: the load, the comparison and the notices together |
| Watchdog.SilenceOfTwoIntervalsPasses | process-monitor/src/watchdog.rs:54-105 | one nanosecond less need not be noticed: for every check interval, a run of both threads with such a silence and no alarm |
| Decimal.PrintReversed | process-monitor-ebpf/src/fs.rs:187-212 | the reverse-buffer printer writes the decimal text of the number and a colon, and nothing else |
| Decimal.FindDivisor | c-ebpf/process_monitor.bpf.c:334-335 | the divisor is the greatest power of ten not above the number, and no product leaves 32 bits |
| Decimal.PrintByDivisor | c-ebpf/process_monitor.bpf.c:328-344 | the divisor printer writes the same decimal text and a colon, and nothing else |
| Decimal.DigitsReadBack | process-monitor-ebpf/src/fs.rs:187-206 | the digits read back as the number, with no leading zero |
| Decimal.TextReadsBack | process-monitor-ebpf/src/fs.rs:187-212 | what is written, ASCII digits up to a colon, reads back as the number |
| Decimal.PrintedNumbers | c-ebpf/process_monitor.bpf.c:328-344 | the number printed is the target modulo 2^32 by one printer and its magnitude by the other |
| Decimal.U32HasTenDigits | process-monitor-ebpf/src/fs.rs:193-199 | ten positions are always enough |
| Decimal.PrintersAgreeIffNotNegative | c-ebpf/process_monitor.bpf.c:328-344 | the two printers agree on a target if and only if it is not negative |
| Xorshift.Rng.NextU64 | frankentui/doctor_frankentui/src/adversarial_fixtures.rs:153-160 | one draw advances the state by the step, each bit becomes the parity of the eight bits that the three xor-shifts bring together, and non-zero stays non-zero |
| Xorshift.StepBits | frankentui/doctor_frankentui/src/adversarial_fixtures.rs:153-160 | the eight bits of the old state that make up each bit of the new one |
| Xorshift.FirstDrawOfOne | frankentui/doctor_frankentui/src/adversarial_fixtures.rs:153-160 | the first draw from seed 1 is 0x40822041 |
| Xorshift.NoFixedPoint | frankentui/doctor_frankentui/src/adversarial_fixtures.rs:153-160 | only zero is drawn into itself |
| Xorshift.ConsecutiveDrawsDiffer | frankentui/doctor_frankentui/src/adversarial_fixtures.rs:146-160 | from any seed no two draws in a row are the same |
| Xorshift.StepInjective | frankentui/doctor_frankentui/src/adversarial_fixtures.rs:153-160 | distinct states are never drawn into the same one |
| Xorshift.NeverZero | frankentui/doctor_frankentui/src/adversarial_fixtures.rs:146-160 | for any seed and any number of draws the state is never zero |
| Xorshift.RepeatsOnlyThroughStart | frankentui/doctor_frankentui/src/adversarial_fixtures.rs:153-160 | a state that repeats has come back through the initial one: there is no tail before the cycle |
| FixturePlan.PlanScenarios | frankentui/doctor_frankentui/src/adversarial_fixtures.rs:170-199 | the k-th planned blind spot gets the k-th draw as its seed, its risk and target, and id, name and description made from them |
| FixturePlan.PlannedSpotsAre | frankentui/doctor_frankentui/src/adversarial_fixtures.rs:174-177 | the planned spots are those of high impact, or all without the flag, in their order |
| FixturePlan.PlannedScenario | frankentui/doctor_frankentui/src/adversarial_fixtures.rs:179-195 | category and dimension of a scenario are its spot's, and its risk is the impact's |
| FixturePlan.NeighboursDiffer | frankentui/doctor_frankentui/src/adversarial_fixtures.rs:179-195 | two neighbours of a plan never share a seed |
| FixturePlan.HighImpactOnlyIsPrefiltering | frankentui/doctor_frankentui/src/adversarial_fixtures.rs:170-199 | planning with the high-impact flag is planning the filtered report |
| FixturePlan.SharedSeedMeansFullCircle | frankentui/doctor_frankentui/src/adversarial_fixtures.rs:179-195 | two scenarios share a seed only if the generator has returned to its start in between |
| FixturePlan.SharedIdIff | frankentui/doctor_frankentui/src/adversarial_fixtures.rs:179-195 | two scenarios of a plan share an id, after which their files are named, if and only if their slugs agree and their draws agree in the lower 32 bits |
| ScenarioText.SlugIsTrimmed | frankentui/doctor_frankentui/src/adversarial_fixtures.rs:2336-2347 | the slug is the lower-cased dimension with exactly the dashes at both ends cut off |
| ScenarioText.HexIsLowHalf | frankentui/doctor_frankentui/src/adversarial_fixtures.rs:181-185 | the eight digits are the same if and only if the lower 32 bits are |
| ScenarioText.HexReadsBack | frankentui/doctor_frankentui/src/adversarial_fixtures.rs:181-185 | each digit reads back as its four bits, the lowest four in the last digit |
| ScenarioText.LowerMeans | frankentui/doctor_frankentui/src/adversarial_fixtures.rs:2336-2347 | capital letters become small, nothing else changes |
| ScenarioText.TextsAre | frankentui/doctor_frankentui/src/adversarial_fixtures.rs:181-195 | where category and dimension stand in name and description |
| ScenarioText.IdsCollideIff | frankentui/doctor_frankentui/src/adversarial_fixtures.rs:181-185 | the id determines slug and lower half of the seed, although slugs may hold dashes and digits |
| FixturePlan.GenerateFixtures | frankentui/doctor_frankentui/src/adversarial_fixtures.rs:202-241 | the fixtures and the skipped scenarios, and per risk and per category the exact number of fixtures, both adding up to the total |
| FixturePlan.TablesCountFixtures | frankentui/doctor_frankentui/src/adversarial_fixtures.rs:211-220 | an entry of the risk or category table is the number of fixtures with that risk or category |
| FixturePlan.GenerationSplitsScenarios | frankentui/doctor_frankentui/src/adversarial_fixtures.rs:202-241 | fixtures and skipped scenarios are an order-preserving split of the input, each on the side its generator puts it on |
| ProviderNesting.BuildMarkup | frankentui/doctor_frankentui/src/adversarial_fixtures.rs:573-599 | for every depth the tags are well nested, indents included, and the consumer stands inside every provider; tag k opens and closes at indent k + 2 |

## Left out

- Input and output: eBPF loading, tracepoints, perf buffers, `/proc`, kill(2), files, HTTP, terminal drawing, the web server, the Go and TypeScript front ends.
- SHA-256, serde and the machine-derived key: the audit model has an arbitrary hash function whose outputs hold no bar and are never "0", and lines that are blank, garbled or an entry.
- AuditCommitment.CommitsIffBarFree: assumes, like the lemmas on whole logs, that timestamps have no bar, which their fixed format guarantees.
- AuditChain.AuditLog.Append: does not model a failed read of the log file, nor a write cut off inside its text; the code ignores both.
- Monitor.Monitor.HandleEvent: does not model u64 overflow of the counters, a change of the alert threshold during a run, or the message texts.
- Entropy, exponential smoothing, chart vectors and the contrast formatting: floating point for display.
- `stats_sorted` and `extension_counts` of the monitor: one sort and one getter.
- ProcessTree.BuildProcessTree: requires that process 0 is not its own ancestor; `ForestExistsIff` says that there is no tree otherwise.
- EventLimiter.App.ApplySnapshot: does not model the charts and per-process rows built after the event loop, nor a change of the limit at run time.
- Watchdog.Watchdog.Load: takes one time for the counter load and the two clock readings around it; the log file and the webhook are left out.
- ActivationLimiter.Limiter.Check: does not model a poisoned lock.
- AccessibilityDiff.CompareRuns: does not model message texts and evidence strings, and uses real arithmetic for the score and for the contrast ratios, which the code holds as floating point.
- ConfidenceModel.BuiltinDecision: uses real arithmetic, so at equality the floating-point code may decide differently; variance, credible interval and rationale text, which enter no decision, are left out.
- Decimal.PrintByDivisor: excludes the least 32-bit integer, whose negation is undefined in C.
- The signal names written after the printed PID and `write_u16`: the first has a length mismatch and the second drops zero digits, so neither has a round trip to prove.
- `build_seccomp_filter` of the sandbox: its jump offsets do not implement a membership test.
- FixturePlan.PlanScenarios: takes Unicode's class of letters and digits as a parameter.
- FixturePlan.GenerateFixtures: takes the generator of one fixture as a parameter, because its sources are templates.
- ProviderNesting.BuildMarkup: takes the depth as a parameter instead of drawing it, and represents a line by its indent and tag.
- The remaining modules of the fixture and migration tooling, and the rest of the license and activation code: straight-line plumbing around these kernels.
