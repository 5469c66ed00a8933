# CascadeX cascade-failure simulator: a Dafny model of the server core

CascadeX lets users build a dependency graph of resource nodes joined by weighted edges
and run a cascade-failure simulation over it. The simulation is distributed. A run lives
in a shared key-value store as one JSON record, and a queue delivers its tick jobs. Each
tick does four things under a run lock:

- marks every node at or below its failure threshold as failed;
- propagates each failure breadth-first along outgoing edges, subtracting the edge
  weight from each live target;
- recomputes the run's analytics;
- commits the new record with an optimistic version check, then schedules the next tick.

Beside the engine, the project models four more parts of the server:

- the risk engine, which scores nodes, flags critical nodes and bottlenecks, measures
  dependency depth, predicts risk and writes a post-run report;
- the table of simulation status transitions;
- the five graph-editing handlers, which guard creates, updates and deletes of nodes
  and edges with ownership, uniqueness and running-simulation checks;
- the start-up sweep that re-enqueues the tick job of every run still marked running.

Modules:

- `Wrappers`: `Option`, `Result`, `Max` and duplicate-freedom of sequences.
- `GraphDocs`: node and edge documents, edge filters and weight sums.
- `SimulationStatus`: the status values and the transition table.
- `SimulationState`: the stored run record and its well-formedness.
- `CascadeEvaluator`: threshold evaluation, propagation and analytics.
  - Specification functions on records, with the tick proved to settle every node.
  - `class Simulation` is the parsed record that the three helpers update in place.
- `SimulationEngine`: the store (records, locks, queue jobs, history) and the
  start, tick, stop and status operations.
  - The versioned commit loop, with the writes of other instances as an explicit
    parameter.
  - `class SimulationStore` performs the operations step by step.
- `RiskEngine`: the risk engine.
- `GraphController`: the handlers as operations on the node, edge and project tables.
  - `class GraphStore` performs them with status codes.
- `Recovery`: the start-up sweep.

Modelling conventions:

- Numbers are exact reals. `Math.round(x)` is `floor(x + 1/2)`.
- The key order of a JSON object is an explicit sequence beside its map.
- The queue is a map from job id to job. Adding under an id that is already pending
  changes nothing.

## Model

| member | source | states |
|---|---|---|
| SimulationStatus.Parse | server/src/utils/simulationStatus.js:1-7 | a string that parses is the value of the status it parses to |
| SimulationStatus.ValueRoundTrip | server/src/utils/simulationStatus.js:1-7 | every status value reads back as that status, so no two statuses share a value |
| SimulationStatus.TableKeysAreStatuses | server/src/utils/simulationStatus.js:9-15 | the transition table has an entry for exactly the five status values |
| SimulationStatus.UnknownStatusHasNoTransition | server/src/utils/simulationStatus.js:17 | a source that is no status value has no valid transition (a key missing from the table falls back to no targets; inherited `Object.prototype` names are under Left out); every valid target is a status value |
| SimulationStatus.IsValidTransition | server/src/utils/simulationStatus.js:17 | a valid transition joins two different status values |
| SimulationStatus.IdleOnlyStartsRunning | server/src/utils/simulationStatus.js:10 | idle may move to running and to nothing else |
| SimulationStatus.TerminalOnlyResetsToIdle | server/src/utils/simulationStatus.js:13-14 | completed and failed may move only back to idle |
| SimulationStatus.NoSelfTransition | server/src/utils/simulationStatus.js:9-17 | no value is a valid transition to itself |
| SimulationStatus.RunningEnteredFromIdleOrPaused | server/src/utils/simulationStatus.js:9-17 | running is entered exactly from idle or paused |
| SimulationStatus.IdleWithinTwoSteps | server/src/utils/simulationStatus.js:9-15 | every status reaches idle in at most two valid transitions |
| GraphDocs.OutEdges | server/src/modules/ai/ai.engine.js:10 | the outgoing edges are exactly the edges whose source is the node |
| GraphDocs.InEdges | server/src/modules/ai/ai.engine.js:11 | the incoming edges are exactly the edges whose target is the node |
| GraphDocs.NodesOfProject | server/src/modules/simulation/simulation.engine.js:23 | `Node.find({ projectId })` returns exactly the project's nodes |
| GraphDocs.EdgesOfProject | server/src/modules/simulation/simulation.engine.js:24 | `Edge.find({ projectId })` returns exactly the project's edges |
| CascadeEvaluator.EvaluationMarksBreached | server/src/modules/simulation/simulation.engine.js:207-215 | evaluation keeps every node and changes only `failed`, which becomes true exactly on nodes already failed or at or below their threshold; a sound graph ends up settled |
| CascadeEvaluator.NewlyTrippedMembers | server/src/modules/simulation/simulation.engine.js:208-213 | the ids appended to `newlyFailed` are exactly the not-yet-failed nodes at or below threshold, each once |
| CascadeEvaluator.MarkBreached | server/src/modules/simulation/simulation.engine.js:208-214 | the key-order loop yields the evaluated states and the newly tripped ids |
| CascadeEvaluator.Simulation.EvaluateFailures | server/src/modules/simulation/simulation.engine.js:207-215 | the object afterwards is the evaluation step applied to the object before |
| CascadeEvaluator.EvaluateStep | server/src/modules/simulation/simulation.engine.js:207-215 | evaluation changes only node states and `newlyFailed`, to which it only appends |
| CascadeEvaluator.RelaxFacts | server/src/modules/simulation/simulation.engine.js:231-245 | relaxing one edge touches only a live target, which loses exactly the weight, fails exactly when that breaches its threshold, and is queued at depth + 1 exactly when newly failed and unvisited; failed nodes are untouched |
| CascadeEvaluator.RelaxAllFacts | server/src/modules/simulation/simulation.engine.js:230-245 | relaxing all edges of a node keeps node ids and depth, never touches a failed node, and queues nothing unless a node failed |
| CascadeEvaluator.DrainFacts | server/src/modules/simulation/simulation.engine.js:226-246 | the propagation loop terminates with an empty queue, keeps every node, never lowers the depth, never touches a failed node, and keeps a settled graph settled |
| CascadeEvaluator.RelaxKeepsFrontier | server/src/modules/simulation/simulation.engine.js:239-242 | one relaxation keeps the queue bookkeeping: no node queued twice, `visited` equals the queued set, queued nodes are failed |
| CascadeEvaluator.RelaxAllKeepsFrontier | server/src/modules/simulation/simulation.engine.js:231-245 | relaxing all edges of a popped node keeps the queue bookkeeping |
| CascadeEvaluator.DrainKeepsFrontier | server/src/modules/simulation/simulation.engine.js:226-246 | the whole loop keeps the queue bookkeeping |
| CascadeEvaluator.PropagationQueuesEachNodeOnce | server/src/modules/simulation/simulation.engine.js:220-246 | each node is queued at most once per tick, so at most one pop per node; every queued node is failed and the depth reached is below the number queued |
| CascadeEvaluator.Roots | server/src/modules/simulation/simulation.engine.js:220 | the initial queue holds every newly failed id at depth 0, in order |
| CascadeEvaluator.Simulation.PropagateFailures | server/src/modules/simulation/simulation.engine.js:217-249 | the object afterwards is the propagation step applied to the object before |
| CascadeEvaluator.PropagateStep | server/src/modules/simulation/simulation.engine.js:217-249 | propagation empties `newlyFailed` and keeps key order, adjacency and counters |
| CascadeEvaluator.Simulation.RelaxNeighbors | server/src/modules/simulation/simulation.engine.js:230-245 | the in-place `forEach` over a popped node's neighbours computes the relaxation of all its edges |
| CascadeEvaluator.EvaluationSeedsPropagation | server/src/modules/simulation/simulation.engine.js:207-221 | after evaluation of a well-formed record, `newlyFailed` lists distinct failed nodes, namely the newly tripped ones |
| CascadeEvaluator.TickSettles | server/src/modules/simulation/simulation.engine.js:105-107 | after a tick every node is failed exactly when at or below threshold, `newlyFailed` is empty and the record stays well formed with the same nodes and order |
| CascadeEvaluator.StepsKeepKeyOrder | server/src/modules/simulation/simulation.engine.js:207-249 | evaluation and propagation keep the node set and key order |
| CascadeEvaluator.FailureIsSticky | server/src/modules/simulation/simulation.engine.js:210-211 | a failed node keeps its whole state through a tick: never reset, never drained again |
| CascadeEvaluator.CascadeDepthNeverDecreases | server/src/modules/simulation/simulation.engine.js:218 | the cascade depth never decreases, and is unchanged when nothing newly failed |
| CascadeEvaluator.CascadeDepthBounded | server/src/modules/simulation/simulation.engine.js:248 | a tick that raises the cascade depth raises it to less than the number of nodes |
| CascadeEvaluator.FailedIds | server/src/modules/simulation/simulation.engine.js:258 | the failed ids are exactly the failed nodes in key order |
| CascadeEvaluator.Percentage | server/src/modules/simulation/simulation.engine.js:256 | 0 for an empty graph; within [0, 100]; 0 exactly when none failed and 100 exactly when all failed |
| CascadeEvaluator.HealthScore | server/src/modules/simulation/simulation.engine.js:257 | health is 100 minus the percentage, never below 0 |
| CascadeEvaluator.MostImpactedIsFirstMaximum | server/src/modules/simulation/simulation.engine.js:260-270 | the most impacted node is the first node in key order with maximal impact; there is none exactly when there are no nodes |
| CascadeEvaluator.FailedIdsCountsAll | server/src/modules/simulation/simulation.engine.js:254 | the failed count equals the node count exactly when every node failed |
| CascadeEvaluator.AggregateSummarizes | server/src/modules/simulation/simulation.engine.js:251-271 | the analytics: percentage in [0, 100], health its complement, failed ids exactly the failed nodes, depth carried over |
| CascadeEvaluator.CollectFailed | server/src/modules/simulation/simulation.engine.js:254-258 | the filter loop yields the failed ids in key order |
| CascadeEvaluator.FindMostImpacted | server/src/modules/simulation/simulation.engine.js:260-269 | the scan yields the most impacted node |
| CascadeEvaluator.Simulation.CalculateAnalytics | server/src/modules/simulation/simulation.engine.js:251-271 | the object afterwards holds the aggregate analytics of its nodes |
| CascadeEvaluator.AnalyticsStep | server/src/modules/simulation/simulation.engine.js:251-271 | the analytics step changes only the analytics, keeps the cascade depth and gives a non-negative health score |
| SimulationEngine.JobIdInjective | server/src/modules/simulation/simulation.engine.js:72 | two projects never share a tick job id |
| SimulationEngine.EnqueueDeduplicates | server/src/modules/simulation/simulation.engine.js:176-181 | adding a job keeps every pending job, makes its id pending, and adding the same id again changes nothing |
| SimulationEngine.FirstOccurrencesFacts | server/src/modules/simulation/simulation.engine.js:29-38 | the key order of `nodesState` lists each node id once, in first-occurrence order |
| SimulationEngine.InitialStatesFacts | server/src/modules/simulation/simulation.engine.js:29-38 | the initial states hold exactly the node ids, none failed, each with the values of its last document |
| SimulationEngine.NeighborsFromMembers | server/src/modules/simulation/simulation.engine.js:40-48 | a node's neighbours are exactly the target and weight of the edges leaving it |
| SimulationEngine.InitialRecordIsFresh | server/src/modules/simulation/simulation.engine.js:26-66 | a new run is well formed, has every node once in document order, and none failed |
| SimulationEngine.InitialAdjacencyFollowsEdges | server/src/modules/simulation/simulation.engine.js:37-48 | one adjacency entry per node, holding exactly the edges leaving it; an edge whose source is not a node is dropped |
| SimulationEngine.AddNodes | server/src/modules/simulation/simulation.engine.js:29-38 | the node loop builds the initial states, their key order and empty adjacency |
| SimulationEngine.AddEdges | server/src/modules/simulation/simulation.engine.js:40-48 | the edge loop fills each node's adjacency with its outgoing edges |
| SimulationEngine.BuildInitialState | server/src/modules/simulation/simulation.engine.js:26-66 | the two loops build the initial record |
| SimulationEngine.StartTakesLockOrFails | server/src/modules/simulation/simulation.engine.js:11-75 | start fails with "already running", changing nothing, exactly when the lock is held; otherwise it takes the lock for 10 s, writes a fresh running record at tick and version 0 from the project's own nodes, and the first tick is pending |
| SimulationEngine.StopClearsRun | server/src/modules/simulation/simulation.engine.js:184-204 | stop removes the project's record, lock and pending job and nothing else; status then reads not running at tick 0 and a new start succeeds |
| SimulationEngine.StartSpec | server/src/modules/simulation/simulation.engine.js:11-75 | start fails exactly when the project's lock is held, and then changes nothing; it never touches the history |
| SimulationEngine.StopSpec | server/src/modules/simulation/simulation.engine.js:184-195 | afterwards the project has no record, no lock and no pending tick job; the history is kept |
| SimulationEngine.StatusOf | server/src/modules/simulation/simulation.engine.js:197-204 | a run reads as running only when its record is stored and running; with no record it reads not running at tick 0 |
| SimulationEngine.CommitOnlyOverReadVersion | server/src/modules/simulation/simulation.engine.js:112-147 | the commit writes only over a running record at the version read, with tick count and version one past that record's; when it gives up, the record is what other instances left |
| SimulationEngine.CommitKeepsOtherProjects | server/src/modules/simulation/simulation.engine.js:112-147 | the commit never touches another project's record |
| SimulationEngine.CommitKeepsRecordsOk | server/src/modules/simulation/simulation.engine.js:112-147 | given well-formed racing writes, every record stays well formed |
| SimulationEngine.UnopposedCommitBumpsCounters | server/src/modules/simulation/simulation.engine.js:129-146 | without interference the commit happens exactly when the record is running at the version read, and bumps both counters by one |
| SimulationEngine.RetryOverwritesConcurrentTick | server/src/modules/simulation/simulation.engine.js:129-137 | the corrected loop gives up when another instance commits the same tick; the loop as written overwrites it with version V + 2 |
| SimulationEngine.Commit | server/src/modules/simulation/simulation.engine.js:112-147 | the corrected commit loop: whatever the racing writes, a record it writes carries version exactly one past the version the tick read and is the project's record afterwards |
| SimulationEngine.CommitAsWritten | server/src/modules/simulation/simulation.engine.js:112-147 | the commit loop as written: a record it writes carries a version at least one past the expected one, at least two past it when the first attempt's EXEC failed, and is the project's record afterwards |
| SimulationEngine.SimulationStore.CommitTick | server/src/modules/simulation/simulation.engine.js:110-147 | the `while (!updated)` loop with the corrected version check ends in the state `Commit` gives: it compares the re-read version with the version the tick read, not with the version a failed attempt stamped at line 137 (see Findings) |
| SimulationEngine.SimulationStore.CommitTickAsWritten | server/src/modules/simulation/simulation.engine.js:110-147 | the loop as written, comparing with `simulation.version` after line 137 stamped it, ends in the state `CommitAsWritten` gives |
| SimulationEngine.TickNeedsLock | server/src/modules/simulation/simulation.engine.js:88-102 | without the lock a tick changes nothing; with it the lock is renewed to 15 s, and nothing else changes unless a running record is there |
| SimulationEngine.TickSpec | server/src/modules/simulation/simulation.engine.js:81-182 | the tick on the corrected commit: it ends as lock-lost exactly when the lock is absent |
| SimulationEngine.TickSpecAsWritten | server/src/modules/simulation/simulation.engine.js:81-182 | the tick on the commit loop as written: it ends as lock-lost exactly when the lock is absent |
| SimulationEngine.UnopposedTicksAgree | server/src/modules/simulation/simulation.engine.js:112-147 | without a racing write the tick as written and the corrected tick give the same store and outcome |
| SimulationEngine.RacingTickAsWrittenOverwrites | server/src/modules/simulation/simulation.engine.js:129-181 | when another instance commits the same tick as V + 1, the corrected tick is abandoned and queues nothing; the tick as written commits V + 2 over it and queues the next tick |
| SimulationEngine.TickCommitsNextVersion | server/src/modules/simulation/simulation.engine.js:81-182 | for the tick on the corrected commit: a committed tick wrote the settled, advanced record at version one past the one it read; a commit leaves the next tick pending, and any other outcome leaves the queue unchanged; history grows by one snapshot exactly after a commit whose insert succeeded |
| SimulationEngine.TickKeepsStoreOk | server/src/modules/simulation/simulation.engine.js:81-182 | for the tick on the corrected commit, given well-formed racing writes, a tick keeps every record well formed under its own project and every job under its own id |
| SimulationEngine.SimulationStore.StartSimulation | server/src/modules/simulation/simulation.engine.js:11-75 | the store and result are what `StartSpec` gives, and the store invariant is kept |
| SimulationEngine.SimulationStore.ProcessSimulationTick | server/src/modules/simulation/simulation.engine.js:81-182 | the store and outcome are what `TickSpec` gives, whose commit is the corrected loop (see Findings and Left out); given well-formed racing writes the store invariant is kept |
| SimulationEngine.SimulationStore.StopSimulation | server/src/modules/simulation/simulation.engine.js:184-195 | the store afterwards is what `StopSpec` gives, and the store invariant is kept |
| RiskEngine.Round | server/src/modules/ai/ai.engine.js:22 | `Math.round` lands within one half of its argument, ties up |
| RiskEngine.Round1 | server/src/modules/ai/ai.engine.js:22 | rounding to a tenth lands within 0.05 on a whole number of tenths |
| RiskEngine.NodeRisk | server/src/modules/ai/ai.engine.js:9-23 | the risk is at most 100, a whole number of tenths, within 0.05 of the raw score below the cap, and exactly 100 above it |
| RiskEngine.NodeRiskNonNegative | server/src/modules/ai/ai.engine.js:13-20 | with non-negative weights and threshold the risk is not negative |
| RiskEngine.PickSelects | server/src/modules/ai/ai.engine.js:30 | `filter` keeps exactly the accepted nodes, in their order |
| RiskEngine.CriticalNodesExactly | server/src/modules/ai/ai.engine.js:29-37 | a node is listed as critical exactly when its out-degree exceeds 2 or its outgoing weight exceeds 50 |
| RiskEngine.CriticalNodes | server/src/modules/ai/ai.engine.js:29-37 | at most one entry per node |
| RiskEngine.BottlenecksExactly | server/src/modules/ai/ai.engine.js:69-75 | a node is listed as a bottleneck exactly when its in-degree is at least 2 and its threshold below 30% of capacity |
| RiskEngine.Bottlenecks | server/src/modules/ai/ai.engine.js:69-75 | at most one entry per node |
| RiskEngine.TargetsFromMembers | server/src/modules/ai/ai.engine.js:45 | a node's depth-search targets are exactly the targets of its outgoing edges |
| RiskEngine.ReachBounds | server/src/modules/ai/ai.engine.js:50-58 | the search from a node reaches at least the depth it starts at and at most one past the node count |
| RiskEngine.ReachAllBounds | server/src/modules/ai/ai.engine.js:50-58 | the search over a list of targets stays within one past the node count |
| RiskEngine.ReachFollowsEdges | server/src/modules/ai/ai.engine.js:54-57 | a search goes at least as deep as the search from each of its targets one level down |
| RiskEngine.ReachAllCovers | server/src/modules/ai/ai.engine.js:54-57 | the search over targets goes at least as deep as the search from each target |
| RiskEngine.ReachFromEachIsMaximum | server/src/modules/ai/ai.engine.js:60-62 | the result is the deepest of the searches from the nodes, and 0 with no nodes |
| RiskEngine.MaxDepthBounds | server/src/modules/ai/ai.engine.js:42-64 | the search terminates on any graph: 0 with no nodes, else between 1 and the node count + 1, and the deepest of the per-node searches |
| RiskEngine.MaxDepth | server/src/modules/ai/ai.engine.js:42-64 | no nodes give depth 0 |
| RiskEngine.DependencyDeepens | server/src/modules/ai/ai.engine.js:42-64 | an edge leaving a node makes the depth at least 2 |
| RiskEngine.Dfs | server/src/modules/ai/ai.engine.js:50-58 | the recursive search returns the maximum of the depth so far and the depth reached from the node |
| RiskEngine.EmptyAdjacency | server/src/modules/ai/ai.engine.js:43-44 | one empty target list per node |
| RiskEngine.AppendTargets | server/src/modules/ai/ai.engine.js:45 | the edge loop fills each node's targets with its outgoing edges' targets |
| RiskEngine.BuildDepthAdjacency | server/src/modules/ai/ai.engine.js:43-45 | the two loops build the depth adjacency |
| RiskEngine.FindMaxDepth | server/src/modules/ai/ai.engine.js:42-64 | the loop over nodes returns the maximum dependency depth |
| RiskEngine.NodeRisks | server/src/modules/ai/ai.engine.js:81-85 | one entry per node, in node order, with its id, name and risk |
| RiskEngine.ClassifyMonotone | server/src/modules/ai/ai.engine.js:95-98 | a higher average or deeper graph never lowers the classification |
| RiskEngine.PredictionClassification | server/src/modules/ai/ai.engine.js:95-98 | HIGH exactly when average > 7 or depth > 4; MEDIUM exactly when not HIGH and average > 4 or depth > 2; LOW otherwise |
| RiskEngine.Classify | server/src/modules/ai/ai.engine.js:95-98 | LOW exactly when the average is at most 4 and the depth at most 2; HIGH exactly when the average exceeds 7 or the depth 4 |
| RiskEngine.PredictRisk | server/src/modules/ai/ai.engine.js:80-108 | one risk entry per node, at most one critical and one bottleneck entry per node, and the classification follows the prediction's own average and depth |
| RiskEngine.ScoreSumBounded | server/src/modules/ai/ai.engine.js:91-93 | the score sum is at most 100 per node |
| RiskEngine.SystemRiskScoreBounded | server/src/modules/ai/ai.engine.js:80-108 | the system risk score is at most 1000 |
| RiskEngine.PredictEmptyGraph | server/src/modules/ai/ai.engine.js:80-108 | an empty graph predicts no risks, depth 0, score 0 and LOW |
| RiskEngine.RedundancyAdvices | server/src/modules/ai/ai.engine.js:128-130 | one redundancy advice per bottleneck, in bottleneck order |
| RiskEngine.FailedNodesInfo | server/src/modules/ai/ai.engine.js:114 | the failed nodes are exactly the nodes whose id is among the failed ids |
| RiskEngine.FirstFailedHeadsInfo | server/src/modules/ai/ai.engine.js:114 | the first failed node in node order heads the failed list |
| RiskEngine.RootCauseIsFirstFailed | server/src/modules/ai/ai.engine.js:117 | the root cause is the first failed node's name, or "Unknown" when none failed or the name is empty |
| RiskEngine.NatToString | server/src/modules/ai/ai.engine.js:133 | a number renders as non-empty decimal digits without a leading zero |
| RiskEngine.NatToStringRoundTrip | server/src/modules/ai/ai.engine.js:133 | the rendered digits read back as the number |
| RiskEngine.AdviceLayout | server/src/modules/ai/ai.engine.js:123-130 | circuit-breaker advice exactly when depth > 3, threshold advice exactly when most nodes failed, then one redundancy advice per bottleneck in order |
| RiskEngine.PushRedundancyAdvice | server/src/modules/ai/ai.engine.js:128-130 | the push loop appends the redundancy advices |
| RiskEngine.AnalyzeSimulation | server/src/modules/ai/ai.engine.js:113-140 | the report's summary, root cause, depth, weakness (non-isolated exactly when depth > 2), risk level (never LOW, HIGH exactly when depth > 2) and recommendations |
| GraphController.TrimStartFacts | server/src/modules/graph/graph.controller.js:11 | trimming the start leaves a suffix that does not start with whitespace |
| GraphController.TrimEndFacts | server/src/modules/graph/graph.controller.js:11 | trimming the end leaves a prefix that does not end with whitespace |
| GraphController.ToLowerFacts | server/src/modules/graph/graph.controller.js:11 | lower-casing keeps the length and maps each character |
| GraphController.TrimIsTrimmed | server/src/modules/graph/graph.controller.js:11 | a trimmed name has no whitespace at either end |
| GraphController.NormalizeIdempotent | server/src/modules/graph/graph.controller.js:11 | normalizing a normalized name changes nothing |
| GraphController.FilterMembers | server/src/modules/graph/graph.controller.js:88-93 | a filtered table holds exactly the kept rows |
| GraphController.FilterKeepsPairwise | server/src/modules/graph/graph.controller.js:88-93 | deleting rows keeps rows pairwise distinct |
| GraphController.FindNode | server/src/modules/graph/graph.controller.js:76 | `findById` finds a node with that id, or none exactly when no node has it |
| GraphController.FindEdge | server/src/modules/graph/graph.controller.js:161 | `findById` finds an edge with that id, or none exactly when no edge has it |
| GraphController.ReplaceNode | server/src/modules/graph/graph.controller.js:225-229 | the update replaces exactly the rows with the node's id |
| GraphController.CreateNodeSpec | server/src/modules/graph/graph.controller.js:8-43 | a refusal changes nothing; a create leaves edges and projects as they were and adds one node row |
| GraphController.CreateNodeOutcome | server/src/modules/graph/graph.controller.js:11-35 | with the name present, the project found and the caller allowed: a name whose normalised form is taken in the project gives 400 and no change; 201 exactly when it is free, and then the old rows stay and the created document is appended |
| GraphController.DeleteNodeSpec | server/src/modules/graph/graph.controller.js:72-99 | a refusal changes nothing; projects are never changed |
| GraphController.CreateEdgeSpec | server/src/modules/graph/graph.controller.js:103-153 | a refusal changes nothing; nodes and projects are never changed |
| GraphController.DeleteEdgeSpec | server/src/modules/graph/graph.controller.js:157-178 | a refusal changes nothing; nodes and projects are never changed |
| GraphController.UpdateNodeSpec | server/src/modules/graph/graph.controller.js:182-235 | a refusal changes nothing; edges, projects and the number of nodes are never changed |
| GraphController.CreateNodeKeepsTablesOk | server/src/modules/graph/graph.controller.js:8-43 | creating a node keeps ids and normalized names distinct per project and every edge attached |
| GraphController.DeleteNodeCascades | server/src/modules/graph/graph.controller.js:72-99 | a deleted node is gone with every edge touching it, and nothing else is removed; the invariants hold |
| GraphController.CreateEdgeOutcome | server/src/modules/graph/graph.controller.js:103-153 | a self-loop is refused with 400; a created edge joins two nodes of its project and is new; on any error nothing changes |
| GraphController.CreateEdgeKeepsTablesOk | server/src/modules/graph/graph.controller.js:103-153 | creating an edge keeps the invariants |
| GraphController.AppendEdgeKeepsTablesOk | server/src/modules/graph/graph.controller.js:142-148 | appending an edge between two nodes of its project, distinct from the stored ones, keeps the invariants |
| GraphController.DeleteEdgeKeepsTablesOk | server/src/modules/graph/graph.controller.js:157-178 | deleting an edge removes exactly the edges with that id; on any error nothing changes |
| GraphController.ReplaceKeepsEnds | server/src/modules/graph/graph.controller.js:225-229 | updating a node in place keeps every edge attached to nodes of its project |
| GraphController.UpdateNodeKeepsTablesOk | server/src/modules/graph/graph.controller.js:182-235 | invalid input gives 400; a successful update needs an existing project, owner or admin, and no running simulation; on any error nothing changes; the invariants hold |
| GraphController.UpdateKeepsDistinct | server/src/modules/graph/graph.controller.js:219-231 | a rename to a name free in the project keeps names distinct |
| GraphController.UpdateNodeSucceeds | server/src/modules/graph/graph.controller.js:182-235 | valid fields, node and project found, caller allowed, no running simulation, and no other node of the project under the new normalised name give 200 with exactly the node's row replaced |
| GraphController.UpdateUnderOwnNameSucceeds | server/src/modules/graph/graph.controller.js:219-222 | the duplicate check skips the node itself: re-saving a node under a name that normalises to its own succeeds whenever the caller may edit and no simulation runs |
| GraphController.WritesNeedOwnerOrAdmin | server/src/modules/graph/graph.controller.js:8-235 | every successful createNode, deleteNode, createEdge, deleteEdge and updateNode found the caller to be the project's owner or an admin (checks at lines 19, 83, 118, 168 and 204) |
| GraphController.StrangersAreForbidden | server/src/modules/graph/graph.controller.js:8-235 | in each of the five handlers, once the project is found and the earlier checks passed, a caller who is neither owner nor admin gets 403 and nothing changes |
| GraphController.FindNodeById | server/src/modules/graph/graph.controller.js:76 | the scan finds the node lookup's answer |
| GraphController.FindEdgeById | server/src/modules/graph/graph.controller.js:161 | the scan finds the edge lookup's answer |
| GraphController.FindNameInProject | server/src/modules/graph/graph.controller.js:24 | the scan answers whether the normalized name is taken in the project |
| GraphController.FindEdgeTriple | server/src/modules/graph/graph.controller.js:137 | the scan answers whether the project already has that source-target edge |
| GraphController.DeleteWhere | server/src/modules/graph/graph.controller.js:88-93 | the delete loop keeps exactly the unmatched rows, in order |
| GraphController.UpdateWhere | server/src/modules/graph/graph.controller.js:225-229 | the update loop replaces the rows with the node's id |
| GraphController.GraphStore.CreateNode | server/src/modules/graph/graph.controller.js:8-43 | tables and status are what the create-node specification gives, and the invariants are kept |
| GraphController.GraphStore.DeleteNode | server/src/modules/graph/graph.controller.js:72-99 | tables and status are what the delete-node specification gives, and the invariants are kept |
| GraphController.GraphStore.CreateEdge | server/src/modules/graph/graph.controller.js:103-153 | tables and status are what the create-edge specification gives, and the invariants are kept |
| GraphController.GraphStore.DeleteEdge | server/src/modules/graph/graph.controller.js:157-178 | tables and status are what the delete-edge specification gives, and the invariants are kept |
| GraphController.GraphStore.UpdateNode | server/src/modules/graph/graph.controller.js:182-235 | tables and status are what the update-node specification gives, and the invariants are kept |
| Recovery.SweepAddsOnlyRunning | server/src/server.js:61-68 | the sweep never drops or alters a pending job; every job it adds is the zero-delay tick job of a listed, readable, running record, under that record's job id |
| Recovery.SweepResumes | server/src/server.js:59-73 | every listed running record that reads without error has its tick job pending afterwards, whatever failed on other keys |
| Recovery.SweepOverPendingIsIdentity | server/src/server.js:67 | a sweep whose every job is already pending changes nothing |
| Recovery.SweepIdempotent | server/src/server.js:67 | sweeping twice leaves the same pending jobs as sweeping once |
| Recovery.Sweep | server/src/server.js:59-73 | the sweep adds at most one job per listed key |
| Recovery.RecoverySpec | server/src/server.js:52-74 | recovery leaves records, locks and history as they were |
| Recovery.RecoveryTouchesOnlyJobs | server/src/server.js:56-74 | recovery changes only the queue and never takes a lock; in production it changes nothing |
| Recovery.RecoveryKeepsStoreOk | server/src/server.js:61-68 | recovery keeps every job under its own project's tick job id |
| Recovery.ResumedTickWithoutLockIsInert | server/src/server.js:52-74 | a resumed tick for a run whose lock has expired stops at the lock check and changes nothing |
| Recovery.SweepKeys | server/src/server.js:59-73 | the `for` loop with its per-key try/catch computes the sweep |
| Recovery.RecoverSimulations | server/src/server.js:52-74 | the store afterwards is what the recovery specification gives, and the invariant is kept |

## Left out

- Sockets, the history insert's timing and clocks:
  - The `simulation_update` socket emit and console logging are I/O.
  - `setImmediate` defers the history insert. The model appends the snapshot
    right away; a failed insert is the parameter `historyOk`.
- Concurrency: other engine instances appear only as the `races` writes inside the
  commit loop's WATCH window. Worker concurrency and interleaved ticks are not modelled.
  `races` is finite, so the model covers every run of the `while (!updated)` loop that
  ends; a run in which other instances make every EXEC fail retries forever in the
  source and has no counterpart in the model.
- Time: lock expiry is not modelled. A lock is present with its TTL in seconds, or
  absent.
- The queue:
  - A job stays in the map until stop removes it.
  - BullMQ's handling of the job that is currently active is not modelled.
- Recovery's key listing: the keys the store lists are the parameter `keys`. Keys
  whose read, parse or enqueue throws are the parameter `failing`.
- Floating point: all arithmetic is exact real arithmetic. IEEE rounding of JS numbers
  is not modelled, and neither are NaN and Infinity from missing request fields.
- Fresh ids: the ids of created documents are parameters of the handlers.
- Mongoose schema validation is not part of this model. This covers required fields,
  trimming and value ranges, and the unique index with its duplicate-key error. It holds
  on create and also on updateNode, whose `findByIdAndUpdate` runs the validators: the
  schema trims a stored name there too. The model stores the name as given. An update to
  a blank name such as "  " passes the `!name` check; the model stores it with its
  blanks, where the schema would trim it to empty and reject it as a missing name.
- Handler failures: each handler's `catch` forwards errors to the error middleware.
  The model covers two cases, both answered 500. A missing `name` makes `name.trim()`
  throw in createNode and updateNode. In deleteNode and deleteEdge, a document whose
  project is gone makes the read of `project.createdBy` throw (lines 83 and 168). Other
  thrown errors (a malformed id, a failing store) are not modelled.
- SimulationStatus.IsValidTransition: the model answers false for a `from` that names
  an inherited `Object.prototype` member ("constructor", "toString", "valueOf",
  "hasOwnProperty", "__proto__" and the like). In the source `VALID_TRANSITIONS` is a
  plain object, so the lookup at line 17 finds the inherited member, `|| []` keeps it,
  and calling `.includes` on it throws a TypeError. No caller in the core calls
  `isValidTransition`.
- `getGraphByProject`: a read-only pass-through that changes no table.
- Strings:
  - Unicode case mapping is modelled for ASCII letters only.
  - Whitespace for `trim()` is the ASCII set plus U+00A0 and U+FEFF.
- `JSON.parse` round-tripping of records is not modelled. A record read back is the
  record written.
- In-place mutation: the helper loops work on local copies, which the methods then
  assign to the object's fields. The JavaScript mutates nested node objects in place.
  There is no aliasing between them.
- SimulationEngine.SimulationStore.ProcessSimulationTick: runs the corrected commit
  loop (`CommitTick`, specified by `Commit`), not the loop as written. When another
  instance commits the same tick inside the WATCH window, it returns `Abandoned` and
  queues nothing, where the source writes version V + 2 and queues the next tick. The
  loop as written is `CommitTickAsWritten`; its tick is `TickSpecAsWritten`, related to
  the corrected tick by `UnopposedTicksAgree` and `RacingTickAsWrittenOverwrites`.
- SimulationEngine.TickSpec: the same choice; `TickCommitsNextVersion` and
  `TickKeepsStoreOk` are proved of the corrected tick only.
- RiskEngine.AnalyzeSimulation: `cascadeDepth` is an integer, and the rendering of a
  non-integer or missing depth inside the summary string is not modelled.
- RiskEngine.NodeRisk: the rounding is exact, so a raw score that IEEE arithmetic puts
  just below a tie may round differently in the source.
- RiskEngine.AdviceLayout: states the recommendations as values of the `Advice`
  datatype. Their text is given by `AdviceText`, and no lemma is about its characters.

## Findings

| source | as written | input that shows it | evidently intended | confidence | as-written member | corrected member |
|---|---|---|---|---|---|---|
| server/src/modules/simulation/simulation.engine.js:130-137 | on a retry the loop compares the re-read version with `simulation.version`, which line 137 already set to the version the failed attempt tried to write | the tick reads version V; another instance commits the same tick as V + 1 inside the WATCH window, so EXEC returns null; the retry sees V + 1, which equals `simulation.version`, and overwrites the other tick with version V + 2 computed from stale state | give up when the stored version is no longer the one the tick was computed from, so that each version is written once (proved of the corrected loop by `SimulationEngine.CommitOnlyOverReadVersion`) | not executed | SimulationEngine.RetryOverwritesConcurrentTick | SimulationEngine.Commit |
