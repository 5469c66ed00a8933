/**
 * The tick engine over the shared store: starting a run (run lock, initial record, first
 * job), one tick (lock heartbeat, evaluation, versioned commit, snapshot, next job),
 * stopping a run and reading its status.
 *
 * The key-value store is a value `Store` with four parts: the simulation records by
 * project, the run locks with their time-to-live in seconds, the pending queue jobs by job
 * id, and the history collection. The functions here say what each operation does to it;
 * the class `SimulationStore` performs the operations step by step and is proved to agree.
 *
 * Writes by other engine instances are an explicit parameter of a tick: `races[k]` is what
 * another instance does to the record between the k-th attempt's WATCH and its EXEC.
 */
module SimulationEngine {
  import opened Wrappers
  import opened GraphDocs
  import opened SimulationState
  import opened CascadeEvaluator

  // ---------------------------------------------------------------------------------
  // Queue jobs
  // ---------------------------------------------------------------------------------

  type JobId = string

  /** A pending tick job: the project it ticks and its delay in milliseconds. */
  datatype Job = Job(projectId: ProjectId, delayMs: nat)

  const TICK_JOB_PREFIX := "tick_"

  /** The job id of a project's tick job, `tick_<projectId>`. */
  function JobIdOf(p: ProjectId): JobId
  {
    TICK_JOB_PREFIX + p
  }

  /** Different projects never share a tick job id. */
  lemma JobIdInjective(p: ProjectId, q: ProjectId)
    ensures JobIdOf(p) == JobIdOf(q) ==> p == q
  {
    if JobIdOf(p) == JobIdOf(q) {
      assert p == JobIdOf(p)[|TICK_JOB_PREFIX|..];
      assert q == JobIdOf(q)[|TICK_JOB_PREFIX|..];
    }
  }

  /** `queue.add` with an explicit job id: a job whose id is already pending is not added again. */
  function Enqueue(jobs: map<JobId, Job>, id: JobId, job: Job): map<JobId, Job>
  {
    if id in jobs then jobs else jobs[id := job]
  }

  /**
   * Adding a job leaves every pending job as it was and makes its id pending; adding
   * the same id again changes nothing, whatever the second job says.
   */
  lemma EnqueueDeduplicates(jobs: map<JobId, Job>, id: JobId, job: Job, again: Job)
    ensures Enqueue(jobs, id, job).Keys == jobs.Keys + {id}
    ensures forall k :: k in jobs ==> Enqueue(jobs, id, job)[k] == jobs[k]
    ensures id !in jobs ==> Enqueue(jobs, id, job)[id] == job
    ensures Enqueue(Enqueue(jobs, id, job), id, again) == Enqueue(jobs, id, job)
  {
  }

  // ---------------------------------------------------------------------------------
  // The store
  // ---------------------------------------------------------------------------------

  /** One document of the history collection: the state a tick committed. */
  datatype HistoryEntry = HistoryEntry(
    projectId: ProjectId,
    tick: nat,
    nodesState: map<NodeId, NodeState>,
    analytics: Analytics)

  /** The shared store: records `simulation:<id>`, locks `lock:simulation:<id>`, jobs, history. */
  datatype Store = Store(
    records: map<ProjectId, Record>,
    locks: map<ProjectId, nat>,
    jobs: map<JobId, Job>,
    history: seq<HistoryEntry>)

  /** Seconds the run lock lives after start (`EX 10`). */
  const START_LOCK_TTL: nat := 10
  /** Seconds the run lock lives after each heartbeat (`expire 15`). */
  const RENEW_LOCK_TTL: nat := 15
  /** Milliseconds between a committed tick and the next one. */
  const NEXT_TICK_DELAY_MS: nat := 1000
  /** The message start fails with while the run lock is held. */
  const ALREADY_RUNNING := "Simulation already running on another instance"

  /** Every record is well formed and stored under its own project. */
  predicate RecordsOk(records: map<ProjectId, Record>)
  {
    forall p :: p in records ==> records[p].projectId == p && WellFormed(records[p])
  }

  /** Every job is stored under its own id. */
  predicate JobsOk(jobs: map<JobId, Job>)
  {
    forall id :: id in jobs ==> id == JobIdOf(jobs[id].projectId)
  }

  /** The invariant of the store. */
  predicate StoreOk(s: Store)
  {
    RecordsOk(s.records) && JobsOk(s.jobs)
  }

  // ---------------------------------------------------------------------------------
  // The initial record
  // ---------------------------------------------------------------------------------

  /** The state a node document enters a run with: its values, not failed. */
  function FreshState(n: NodeDoc): NodeState
  {
    NodeState(n.name, n.resourceValue, n.maxCapacity, n.failureThreshold, false)
  }

  /** The key order of an object filled by assigning `ids` in turn: first occurrences. */
  function FirstOccurrences(ids: seq<NodeId>): seq<NodeId>
  {
    if ids == [] then []
    else
      var prefix := FirstOccurrences(ids[..|ids| - 1]);
      var id := ids[|ids| - 1];
      if id in prefix then prefix else prefix + [id]
  }

  /** The key order lists every id once; without repeated ids it is the list itself. */
  lemma {:induction false} FirstOccurrencesFacts(ids: seq<NodeId>)
    ensures NoDups(FirstOccurrences(ids))
    ensures forall id :: id in FirstOccurrences(ids) <==> id in ids
    ensures NoDups(ids) ==> FirstOccurrences(ids) == ids
  {
    if ids != [] {
      var prefix := ids[..|ids| - 1];
      FirstOccurrencesFacts(prefix);
      assert forall x :: x in ids <==> x in prefix || x == ids[|ids| - 1];
      if NoDups(ids) {
        assert NoDups(prefix);
        assert ids[|ids| - 1] !in prefix;
        assert prefix + [ids[|ids| - 1]] == ids;
      }
    }
  }

  /** `nodesState`, filled from the node documents in turn; a later document with the same id wins. */
  function InitialStates(nodes: seq<NodeDoc>): map<NodeId, NodeState>
  {
    if nodes == [] then map[]
    else InitialStates(nodes[..|nodes| - 1])[nodes[|nodes| - 1].id := FreshState(nodes[|nodes| - 1])]
  }

  /** The initial states hold exactly the listed ids, each with the last document of that id, not failed. */
  lemma {:induction false} InitialStatesFacts(nodes: seq<NodeDoc>)
    ensures forall id :: id in InitialStates(nodes) <==> id in IdsOf(nodes)
    ensures forall id :: id in InitialStates(nodes) ==> !InitialStates(nodes)[id].failed
    ensures forall i :: 0 <= i < |nodes| && (forall j :: i < j < |nodes| ==> nodes[j].id != nodes[i].id) ==>
      InitialStates(nodes)[nodes[i].id] == FreshState(nodes[i])
  {
    if nodes != [] {
      var prefix := nodes[..|nodes| - 1];
      var last := nodes[|nodes| - 1];
      var m := InitialStates(nodes);
      var pm := InitialStates(prefix);
      assert m == pm[last.id := FreshState(last)];
      InitialStatesFacts(prefix);
      assert IdsOf(nodes) == IdsOf(prefix) + [last.id];
      forall id ensures id in m <==> id in IdsOf(nodes) {
        assert id in m <==> id in pm || id == last.id;
      }
      forall id | id in m ensures !m[id].failed {
        if id != last.id {
          assert m[id] == pm[id];
        }
      }
      forall i | 0 <= i < |nodes| && (forall j :: i < j < |nodes| ==> nodes[j].id != nodes[i].id)
        ensures m[nodes[i].id] == FreshState(nodes[i])
      {
        if i < |nodes| - 1 {
          assert last.id != nodes[i].id;
          assert nodes[i] == prefix[i];
          assert forall j :: i < j < |prefix| ==> prefix[j].id != prefix[i].id by {
            forall j | i < j < |prefix| ensures prefix[j].id != prefix[i].id {
              assert prefix[j] == nodes[j];
            }
          }
        }
      }
    }
  }

  /** The adjacency entries of `id`: target and weight of each edge leaving it, in collection order. */
  function NeighborsFrom(edges: seq<EdgeDoc>, id: NodeId): seq<Neighbor>
  {
    if edges == [] then []
    else
      var last := edges[|edges| - 1];
      NeighborsFrom(edges[..|edges| - 1], id)
        + (if last.sourceNodeId == id then [Neighbor(last.targetNodeId, last.weight)] else [])
  }

  /** The adjacency entries of `id` are exactly the targets and weights of the edges leaving it. */
  lemma {:induction false} NeighborsFromMembers(edges: seq<EdgeDoc>, id: NodeId)
    ensures forall nb :: nb in NeighborsFrom(edges, id) <==>
      exists e :: e in edges && e.sourceNodeId == id && nb == Neighbor(e.targetNodeId, e.weight)
  {
    if edges != [] {
      var prefix := edges[..|edges| - 1];
      NeighborsFromMembers(prefix, id);
      assert forall e :: e in edges <==> e in prefix || e == edges[|edges| - 1];
    }
  }

  /** `adjacencyList`: every node starts with no entry, then each edge is appended under a known source. */
  function InitialAdjacency(nodes: seq<NodeDoc>, edges: seq<EdgeDoc>): map<NodeId, seq<Neighbor>>
  {
    map id | id in InitialStates(nodes) :: NeighborsFrom(edges, id)
  }

  /** The record `startSimulation` writes for the project's node and edge documents. */
  function InitialRecord(p: ProjectId, nodes: seq<NodeDoc>, edges: seq<EdgeDoc>): Record
  {
    Record(p, FirstOccurrences(IdsOf(nodes)), InitialStates(nodes), InitialAdjacency(nodes, edges),
           [], 0, true, 0, INITIAL_ANALYTICS)
  }

  /**
   * A new run is well formed: every node document is in it, once, in the order the
   * documents came, and none has failed.
   */
  lemma InitialRecordIsFresh(p: ProjectId, nodes: seq<NodeDoc>, edges: seq<EdgeDoc>)
    ensures var r := InitialRecord(p, nodes, edges);
      && WellFormed(r)
      && (forall id :: id in r.nodesState <==> id in IdsOf(nodes))
      && (forall id :: id in r.nodesState ==> !r.nodesState[id].failed)
      && (NoDups(IdsOf(nodes)) ==> r.order == IdsOf(nodes))
  {
    FirstOccurrencesFacts(IdsOf(nodes));
    InitialStatesFacts(nodes);
  }

  /**
   * The adjacency of a new run has one entry per node, holding the target and weight of
   * exactly the edges leaving that node; an edge whose source is not a node is dropped.
   */
  lemma InitialAdjacencyFollowsEdges(p: ProjectId, nodes: seq<NodeDoc>, edges: seq<EdgeDoc>)
    ensures var r := InitialRecord(p, nodes, edges);
      && r.adjacencyList.Keys == r.nodesState.Keys
      && (forall id, nb :: id in r.adjacencyList ==>
            (nb in r.adjacencyList[id] <==>
               exists e :: e in edges && e.sourceNodeId == id && nb == Neighbor(e.targetNodeId, e.weight)))
  {
    var r := InitialRecord(p, nodes, edges);
    forall id | id in r.adjacencyList
      ensures forall nb :: nb in r.adjacencyList[id] <==>
        exists e :: e in edges && e.sourceNodeId == id && nb == Neighbor(e.targetNodeId, e.weight)
    {
      NeighborsFromMembers(edges, id);
    }
  }

  lemma NodesSnoc(nodes: seq<NodeDoc>, i: nat)
    requires i < |nodes|
    ensures var ids := FirstOccurrences(IdsOf(nodes[..i]));
      FirstOccurrences(IdsOf(nodes[..i + 1])) == if nodes[i].id in ids then ids else ids + [nodes[i].id]
    ensures InitialStates(nodes[..i + 1]) == InitialStates(nodes[..i])[nodes[i].id := FreshState(nodes[i])]
  {
    assert nodes[..i + 1][..i] == nodes[..i];
    assert IdsOf(nodes[..i + 1])[..i] == IdsOf(nodes[..i]);
  }

  /** The `forEach` over the node documents: a fresh state and an empty adjacency entry per node. */
  method AddNodes(nodes: seq<NodeDoc>)
    returns (order: seq<NodeId>, nodesState: map<NodeId, NodeState>, adjacencyList: map<NodeId, seq<Neighbor>>)
    ensures order == FirstOccurrences(IdsOf(nodes))
    ensures nodesState == InitialStates(nodes)
    ensures adjacencyList.Keys == nodesState.Keys
    ensures forall id :: id in adjacencyList ==> adjacencyList[id] == []
  {
    order, nodesState, adjacencyList := [], map[], map[];
    var i := 0;
    assert nodes[..0] == [];
    while i < |nodes|
      invariant 0 <= i <= |nodes|
      invariant order == FirstOccurrences(IdsOf(nodes[..i]))
      invariant nodesState == InitialStates(nodes[..i])
      invariant forall id :: id in order <==> id in nodesState
      invariant adjacencyList.Keys == nodesState.Keys
      invariant forall id :: id in adjacencyList ==> adjacencyList[id] == []
    {
      var node := nodes[i];
      NodesSnoc(nodes, i);
      if node.id !in nodesState {
        order := order + [node.id];
      }
      nodesState := nodesState[node.id := FreshState(node)];
      adjacencyList := adjacencyList[node.id := []];
      i := i + 1;
    }
    assert nodes[..i] == nodes;
  }

  lemma EdgesSnoc(edges: seq<EdgeDoc>, j: nat, id: NodeId)
    requires j < |edges|
    ensures NeighborsFrom(edges[..j + 1], id)
         == NeighborsFrom(edges[..j], id)
            + (if edges[j].sourceNodeId == id then [Neighbor(edges[j].targetNodeId, edges[j].weight)] else [])
  {
    assert edges[..j + 1][..j] == edges[..j];
  }

  /** The `forEach` over the edge documents: append each edge under its source, if that is a node. */
  method AddEdges(edges: seq<EdgeDoc>, empty: map<NodeId, seq<Neighbor>>) returns (adjacencyList: map<NodeId, seq<Neighbor>>)
    requires forall id :: id in empty ==> empty[id] == []
    ensures adjacencyList.Keys == empty.Keys
    ensures forall id :: id in adjacencyList ==> adjacencyList[id] == NeighborsFrom(edges, id)
  {
    adjacencyList := empty;
    var j := 0;
    assert edges[..0] == [];
    while j < |edges|
      invariant 0 <= j <= |edges|
      invariant adjacencyList.Keys == empty.Keys
      invariant forall id :: id in adjacencyList ==> adjacencyList[id] == NeighborsFrom(edges[..j], id)
    {
      var edge := edges[j];
      var source := edge.sourceNodeId;
      forall id | id in adjacencyList
        ensures NeighborsFrom(edges[..j + 1], id)
             == NeighborsFrom(edges[..j], id)
                + (if source == id then [Neighbor(edge.targetNodeId, edge.weight)] else [])
      {
        EdgesSnoc(edges, j, id);
      }
      if source in adjacencyList {
        adjacencyList := adjacencyList[source := adjacencyList[source] + [Neighbor(edge.targetNodeId, edge.weight)]];
      }
      j := j + 1;
    }
    assert edges[..j] == edges;
  }

  /** The node and edge loops of `startSimulation`, and the record it writes. */
  method BuildInitialState(p: ProjectId, nodes: seq<NodeDoc>, edges: seq<EdgeDoc>) returns (rec: Record)
    ensures rec == InitialRecord(p, nodes, edges)
  {
    var order, nodesState, empty := AddNodes(nodes);
    var adjacencyList := AddEdges(edges, empty);
    assert adjacencyList == InitialAdjacency(nodes, edges);
    rec := Record(p, order, nodesState, adjacencyList, [], 0, true, 0, INITIAL_ANALYTICS);
  }

  // ---------------------------------------------------------------------------------
  // Start, stop, status
  // ---------------------------------------------------------------------------------

  /** `startSimulation`: take the run lock if free, write the initial record, enqueue the first tick. */
  function StartSpec(s: Store, p: ProjectId, nodes: seq<NodeDoc>, edges: seq<EdgeDoc>): (r: (Store, Result<Record>))
    ensures r.1.Err? <==> p in s.locks
    ensures r.1.Err? ==> r.0 == s
    ensures r.0.history == s.history
  {
    if p in s.locks then (s, Err(ALREADY_RUNNING))
    else
      var rec := InitialRecord(p, NodesOfProject(nodes, p), EdgesOfProject(edges, p));
      (s.(records := s.records[p := rec],
          locks := s.locks[p := START_LOCK_TTL],
          jobs := Enqueue(s.jobs, JobIdOf(p), Job(p, 0))),
       Ok(rec))
  }

  /** `stopSimulation`: delete the record, the lock and the pending tick job. */
  function StopSpec(s: Store, p: ProjectId): (r: Store)
    ensures p !in r.records && p !in r.locks && JobIdOf(p) !in r.jobs
    ensures r.history == s.history
  {
    s.(records := s.records - {p}, locks := s.locks - {p}, jobs := s.jobs - {JobIdOf(p)})
  }

  /** `getSimulationStatus`: whether the run is running and its tick count; an absent run is idle at 0. */
  function StatusOf(s: Store, p: ProjectId): (r: (bool, nat))
    ensures r.0 ==> p in s.records && s.records[p].isRunning
    ensures p !in s.records ==> r == (false, 0)
  {
    if p !in s.records then (false, 0) else (s.records[p].isRunning, s.records[p].tickCount)
  }

  /**
   * Start fails with "Simulation already running on another instance", changing nothing,
   * exactly when the run lock is held. Otherwise it takes the lock for 10 seconds, writes
   * a fresh run at tick 0 and version 0 built from the project's own documents (an empty
   * graph included), reports it running at tick 0, and a first tick is pending.
   */
  lemma StartTakesLockOrFails(s: Store, p: ProjectId, nodes: seq<NodeDoc>, edges: seq<EdgeDoc>)
    requires StoreOk(s)
    ensures var (s', r) := StartSpec(s, p, nodes, edges);
      && (r.Err? <==> p in s.locks)
      && (r.Err? ==> r.message == ALREADY_RUNNING && s' == s)
      && (r.Ok? ==>
            && StoreOk(s')
            && s'.locks == s.locks[p := START_LOCK_TTL]
            && s'.records == s.records[p := r.value]
            && r.value.tickCount == 0 && r.value.version == 0 && r.value.isRunning
            && (forall id :: id in r.value.nodesState <==> id in IdsOf(NodesOfProject(nodes, p)))
            && (forall id :: id in r.value.nodesState ==> !r.value.nodesState[id].failed)
            && StatusOf(s', p) == (true, 0)
            && JobIdOf(p) in s'.jobs
            && s'.history == s.history)
  {
    var (s', r) := StartSpec(s, p, nodes, edges);
    if r.Ok? {
      InitialRecordIsFresh(p, NodesOfProject(nodes, p), EdgesOfProject(edges, p));
      forall id | id in s'.jobs ensures id == JobIdOf(s'.jobs[id].projectId) {
        if id !in s.jobs {
          assert id == JobIdOf(p);
        }
      }
    }
  }

  /**
   * Stop removes the record, the lock and the pending tick job of the project and nothing
   * else; afterwards the run reports idle at tick 0, and a new start may take the lock.
   */
  lemma StopClearsRun(s: Store, p: ProjectId, nodes: seq<NodeDoc>, edges: seq<EdgeDoc>)
    requires StoreOk(s)
    ensures var s' := StopSpec(s, p);
      && StoreOk(s')
      && p !in s'.records && p !in s'.locks && JobIdOf(p) !in s'.jobs
      && (forall q :: q != p ==> (q in s'.records <==> q in s.records) && (q in s'.locks <==> q in s.locks))
      && (forall q :: q != p && q in s.records ==> s'.records[q] == s.records[q])
      && s'.history == s.history
      && StatusOf(s', p) == (false, 0)
      && StartSpec(s', p, nodes, edges).1.Ok?
  {
  }

  // ---------------------------------------------------------------------------------
  // The versioned commit
  // ---------------------------------------------------------------------------------

  /**
   * What another instance does to the record after one attempt's GET and version check
   * and before its EXEC, so that the EXEC fails.
   */
  datatype Interference = Quiet | Wrote(rec: Record) | Deleted

  /** The store after another instance's write. */
  function Interfere(records: map<ProjectId, Record>, p: ProjectId, i: Interference): map<ProjectId, Record>
  {
    match i
    case Quiet => records
    case Wrote(w) => records[p := w]
    case Deleted => records - {p}
  }

  /** The store after the first `k` interferences only. */
  function ApplyRaces(records: map<ProjectId, Record>, p: ProjectId, races: seq<Interference>): map<ProjectId, Record>
  {
    if races == [] then records
    else Interfere(ApplyRaces(records, p, races[..|races| - 1]), p, races[|races| - 1])
  }

  /** Every write another instance makes is a well-formed record of this project. */
  predicate RacesOk(p: ProjectId, races: seq<Interference>)
  {
    forall k :: 0 <= k < |races| && races[k].Wrote? ==> races[k].rec.projectId == p && WellFormed(races[k].rec)
  }

  /** Where the commit loop ends: the records, and the record this tick wrote, if any. */
  datatype Landing = Landing(records: map<ProjectId, Record>, written: Option<Record>)

  /**
   * The `while (!updated)` commit loop, comparing each re-read version with the version
   * the tick was computed from. An attempt gives up when the record is gone, stopped or
   * at another version; otherwise it writes the computed record with tick count and
   * version one past the current ones, unless another instance wrote first, in which case
   * EXEC fails and the loop retries. After the listed races every attempt is unopposed.
   */
  function Commit(records: map<ProjectId, Record>, p: ProjectId, computed: Record, readVersion: nat,
                  races: seq<Interference>): (l: Landing)
    ensures l.written.Some? ==> l.written.value.version == readVersion + 1 && p in l.records && l.records[p] == l.written.value
    decreases |races|
  {
    if p !in records || !records[p].isRunning || records[p].version != readVersion then Landing(records, None)
    else
      var next := computed.(tickCount := records[p].tickCount + 1, version := records[p].version + 1);
      if races == [] || races[0].Quiet? then Landing(records[p := next], Some(next))
      else Commit(Interfere(records, p, races[0]), p, computed, readVersion, races[1..])
  }

  /**
   * The commit loop as the engine has it: the comparison uses `simulation.version`, which
   * the previous attempt already set to the version it tried to write.
   */
  function CommitAsWritten(records: map<ProjectId, Record>, p: ProjectId, computed: Record, expected: nat,
                           races: seq<Interference>): (l: Landing)
    ensures l.written.Some? ==> l.written.value.version >= expected + 1 && p in l.records && l.records[p] == l.written.value
    ensures l.written.Some? && races != [] && !races[0].Quiet? ==> l.written.value.version >= expected + 2
    decreases |races|
  {
    if p !in records || !records[p].isRunning || records[p].version != expected then Landing(records, None)
    else
      var next := computed.(tickCount := records[p].tickCount + 1, version := records[p].version + 1);
      if races == [] || races[0].Quiet? then Landing(records[p := next], Some(next))
      else CommitAsWritten(Interfere(records, p, races[0]), p, next, next.version, races[1..])
  }

  /** The records after `k` races and, when committing there, the record written. */
  ghost predicate CommitsAfter(records: map<ProjectId, Record>, p: ProjectId, computed: Record, readVersion: nat,
                               races: seq<Interference>, k: nat, l: Landing)
    requires k <= |races|
  {
    var before := ApplyRaces(records, p, races[..k]);
    && p in before && before[p].isRunning && before[p].version == readVersion
    && l.written == Some(computed.(tickCount := before[p].tickCount + 1, version := readVersion + 1))
    && l.records == before[p := l.written.value]
  }

  lemma ApplyRacesSnoc(records: map<ProjectId, Record>, p: ProjectId, races: seq<Interference>, k: nat)
    requires k < |races|
    ensures ApplyRaces(records, p, races[..k + 1]) == Interfere(ApplyRaces(records, p, races[..k]), p, races[k])
  {
    assert races[..k + 1][..k] == races[..k];
  }

  lemma ApplyRacesCons(records: map<ProjectId, Record>, p: ProjectId, races: seq<Interference>, k: nat)
    requires 0 < |races| && k < |races|
    ensures ApplyRaces(Interfere(records, p, races[0]), p, races[1..][..k]) == ApplyRaces(records, p, races[..k + 1])
    decreases k
  {
    if k == 0 {
      assert races[1..][..0] == [];
      assert races[..1] == [races[0]];
      assert ApplyRaces(records, p, races[..1]) == Interfere(ApplyRaces(records, p, races[..1][..0]), p, races[0]);
      assert races[..1][..0] == [];
    } else {
      ApplyRacesCons(records, p, races, k - 1);
      assert races[1..][..k][..k - 1] == races[1..][..k - 1];
      ApplyRacesSnoc(records, p, races, k);
      assert races[1..][..k][k - 1] == races[k];
    }
  }

  /**
   * The commit writes only over a running record at the version the tick was computed
   * from, and then writes the computed state with tick count and version each exactly one
   * past that record's; when it gives up, the record at the project is just what the
   * other instances left there. Records of other projects are never touched.
   */
  lemma {:induction false} CommitOnlyOverReadVersion(records: map<ProjectId, Record>, p: ProjectId,
                                                     computed: Record, readVersion: nat, races: seq<Interference>)
    ensures var l := Commit(records, p, computed, readVersion, races);
      && (l.written.Some? ==> exists k :: 0 <= k <= |races| && CommitsAfter(records, p, computed, readVersion, races, k, l))
      && (l.written.None? ==> exists k :: 0 <= k <= |races| && l.records == ApplyRaces(records, p, races[..k]))
    decreases |races|
  {
    var l := Commit(records, p, computed, readVersion, races);
    assert races[..0] == [];
    if p !in records || !records[p].isRunning || records[p].version != readVersion {
      assert l.records == ApplyRaces(records, p, races[..0]);
    } else if races == [] || races[0].Quiet? {
      assert CommitsAfter(records, p, computed, readVersion, races, 0, l);
    } else {
      var next := Interfere(records, p, races[0]);
      CommitOnlyOverReadVersion(next, p, computed, readVersion, races[1..]);
      assert l == Commit(next, p, computed, readVersion, races[1..]);
      if l.written.Some? {
        var k :| 0 <= k <= |races[1..]| && CommitsAfter(next, p, computed, readVersion, races[1..], k, l);
        ApplyRacesCons(records, p, races, k);
        assert CommitsAfter(records, p, computed, readVersion, races, k + 1, l);
      } else {
        var k :| 0 <= k <= |races[1..]| && l.records == ApplyRaces(next, p, races[1..][..k]);
        ApplyRacesCons(records, p, races, k);
        assert l.records == ApplyRaces(records, p, races[..k + 1]);
      }
    }
  }

  /** The commit, and the writes racing with it, touch only the record of their own project. */
  lemma {:induction false} CommitKeepsOtherProjects(records: map<ProjectId, Record>, p: ProjectId,
                                                    computed: Record, readVersion: nat, races: seq<Interference>)
    ensures var l := Commit(records, p, computed, readVersion, races);
      && (forall q :: q != p ==> (q in l.records <==> q in records))
      && (forall q :: q != p && q in records ==> l.records[q] == records[q])
    decreases |races|
  {
    if p in records && records[p].isRunning && records[p].version == readVersion && races != [] && !races[0].Quiet? {
      CommitKeepsOtherProjects(Interfere(records, p, races[0]), p, computed, readVersion, races[1..]);
    }
  }

  /**
   * Given that other instances write well-formed records of this project, the commit of
   * a well-formed record of the project leaves every record well formed.
   */
  lemma {:induction false} CommitKeepsRecordsOk(records: map<ProjectId, Record>, p: ProjectId,
                                                computed: Record, readVersion: nat, races: seq<Interference>)
    requires RecordsOk(records) && RacesOk(p, races)
    requires WellFormed(computed) && computed.projectId == p
    ensures RecordsOk(Commit(records, p, computed, readVersion, races).records)
    decreases |races|
  {
    if p in records && records[p].isRunning && records[p].version == readVersion && races != [] && !races[0].Quiet? {
      assert races[0] == races[0];
      assert RacesOk(p, races[1..]) by {
        forall k | 0 <= k < |races[1..]| && races[1..][k].Wrote?
          ensures races[1..][k].rec.projectId == p && WellFormed(races[1..][k].rec)
        {
          assert races[1..][k] == races[k + 1];
        }
      }
      CommitKeepsRecordsOk(Interfere(records, p, races[0]), p, computed, readVersion, races[1..]);
    }
  }

  /**
   * Without interference the commit writes the computed state with both counters one past
   * the stored record's, exactly when that record is still running at the version read.
   */
  lemma UnopposedCommitBumpsCounters(records: map<ProjectId, Record>, p: ProjectId, computed: Record, readVersion: nat)
    ensures var l := Commit(records, p, computed, readVersion, []);
      && (l.written.Some? <==> p in records && records[p].isRunning && records[p].version == readVersion)
      && (l.written.Some? ==>
            && l.written.value.tickCount == records[p].tickCount + 1
            && l.written.value.version == records[p].version + 1
            && l.records == records[p := l.written.value])
      && (l.written.None? ==> l.records == records)
  {
  }

  /**
   * Where the engine's loop and the corrected one part: another instance commits the same
   * tick (version V + 1) inside the first attempt's window. The corrected loop sees the
   * version move and gives up; the loop as written compares with the V + 1 it set itself,
   * passes, and overwrites the other instance's tick with version V + 2.
   */
  lemma RetryOverwritesConcurrentTick(records: map<ProjectId, Record>, p: ProjectId, computed: Record, other: Record)
    requires p in records && records[p].isRunning
    requires other.isRunning && other.version == records[p].version + 1
    ensures Commit(records, p, computed, records[p].version, [Wrote(other)]).written.None?
    ensures var l := CommitAsWritten(records, p, computed, records[p].version, [Wrote(other)]);
      && l.written.Some?
      && l.written.value.version == records[p].version + 2
      && p in l.records && l.records[p] != other
  {
    var v := records[p].version;
    var next := computed.(tickCount := records[p].tickCount + 1, version := v + 1);
    assert [Wrote(other)][1..] == [];
    assert CommitAsWritten(records, p, computed, v, [Wrote(other)])
        == CommitAsWritten(records[p := other], p, next, v + 1, []);
  }

  // ---------------------------------------------------------------------------------
  // One tick
  // ---------------------------------------------------------------------------------

  /** How a tick ended. */
  datatype TickOutcome = LockLost | NoRecord | NotRunning | Abandoned | Committed(rec: Record)

  /** The snapshot the history collection receives for a committed record. */
  function Snapshot(w: Record): HistoryEntry
  {
    HistoryEntry(w.projectId, w.tickCount, w.nodesState, w.analytics)
  }

  /**
   * `processSimulationTick`: give up without the lock; renew it; give up without a running
   * record; advance the record; commit; after a commit, store the snapshot (unless that
   * insert fails, which is only logged) and enqueue the next tick one second later.
   */
  function TickSpec(s: Store, p: ProjectId, races: seq<Interference>, historyOk: bool): (r: (Store, TickOutcome))
    ensures r.1 == LockLost <==> p !in s.locks
  {
    if p !in s.locks then (s, LockLost)
    else
      var s1 := s.(locks := s.locks[p := RENEW_LOCK_TTL]);
      if p !in s1.records then (s1, NoRecord)
      else if !s1.records[p].isRunning then (s1, NotRunning)
      else
        var rec := s1.records[p];
        FinishTick(s1, p, Commit(s1.records, p, Advance(rec), rec.version, races), historyOk)
  }

  /**
   * What follows the commit loop: without a write the tick is abandoned; after one, the
   * snapshot is stored (unless that insert fails) and the next tick is enqueued.
   */
  function FinishTick(s1: Store, p: ProjectId, l: Landing, historyOk: bool): (Store, TickOutcome)
  {
    match l.written
    case None => (s1.(records := l.records), Abandoned)
    case Some(w) =>
      (s1.(records := l.records,
           history := if historyOk then s1.history + [Snapshot(w)] else s1.history,
           jobs := Enqueue(s1.jobs, JobIdOf(p), Job(p, NEXT_TICK_DELAY_MS))),
       Committed(w))
  }

  /**
   * `processSimulationTick` with the engine's own commit loop, which compares each re-read
   * version with the version the previous attempt stamped; see `CommitAsWritten`.
   */
  function TickSpecAsWritten(s: Store, p: ProjectId, races: seq<Interference>, historyOk: bool): (r: (Store, TickOutcome))
    ensures r.1 == LockLost <==> p !in s.locks
  {
    if p !in s.locks then (s, LockLost)
    else
      var s1 := s.(locks := s.locks[p := RENEW_LOCK_TTL]);
      if p !in s1.records then (s1, NoRecord)
      else if !s1.records[p].isRunning then (s1, NotRunning)
      else
        var rec := s1.records[p];
        FinishTick(s1, p, CommitAsWritten(s1.records, p, Advance(rec), rec.version, races), historyOk)
  }

  /** Without another instance's write the engine's tick and the corrected one coincide. */
  lemma UnopposedTicksAgree(s: Store, p: ProjectId, historyOk: bool)
    ensures TickSpecAsWritten(s, p, [], historyOk) == TickSpec(s, p, [], historyOk)
  {
  }

  /**
   * The discrepancy seen from a whole tick: when another instance commits the same tick
   * (version V + 1) inside the first attempt's window, the corrected tick is abandoned and
   * queues nothing, while the engine's tick overwrites that record with version V + 2,
   * stores a snapshot of it, and queues the next tick.
   */
  lemma RacingTickAsWrittenOverwrites(s: Store, p: ProjectId, other: Record, historyOk: bool)
    requires p in s.locks && p in s.records && s.records[p].isRunning
    requires other.isRunning && other.version == s.records[p].version + 1
    ensures TickSpec(s, p, [Wrote(other)], historyOk).1 == Abandoned
    ensures TickSpec(s, p, [Wrote(other)], historyOk).0.jobs == s.jobs
    ensures var (s', o) := TickSpecAsWritten(s, p, [Wrote(other)], historyOk);
      && o.Committed? && o.rec.version == s.records[p].version + 2
      && p in s'.records && s'.records[p] == o.rec && o.rec != other
      && JobIdOf(p) in s'.jobs
  {
    var s1 := s.(locks := s.locks[p := RENEW_LOCK_TTL]);
    RetryOverwritesConcurrentTick(s1.records, p, Advance(s.records[p]), other);
  }


  /**
   * A tick without the lock changes nothing. With it, the lock is renewed to 15 seconds
   * whatever follows; nothing else changes unless the record is there and running.
   */
  lemma TickNeedsLock(s: Store, p: ProjectId, races: seq<Interference>, historyOk: bool)
    ensures var (s', o) := TickSpec(s, p, races, historyOk);
      && (p !in s.locks ==> s' == s && o == LockLost)
      && (p in s.locks ==> s'.locks == s.locks[p := RENEW_LOCK_TTL])
      && (p in s.locks && (p !in s.records || !s.records[p].isRunning) ==>
            s' == s.(locks := s.locks[p := RENEW_LOCK_TTL]) && o != LockLost && !o.Committed?)
  {
  }

  /**
   * A committed tick wrote the advanced record over a running one at the version it read,
   * with tick count and version one past that record's; the nodes of the written record
   * are settled. A commit leaves the next tick pending, any other outcome leaves the
   * queue unchanged, and the history grows by one snapshot exactly after a commit whose
   * insert succeeded.
   */
  lemma TickCommitsNextVersion(s: Store, p: ProjectId, races: seq<Interference>, historyOk: bool)
    requires StoreOk(s)
    ensures var (s', o) := TickSpec(s, p, races, historyOk);
      && (o.Committed? ==>
            && p in s.records
            && o.rec.version == s.records[p].version + 1
            && (races == [] ==> o.rec.tickCount == s.records[p].tickCount + 1)
            && p in s'.records && s'.records[p] == o.rec
            && WellFormed(o.rec) && Settled(o.rec.nodesState)
            && o.rec.order == s.records[p].order)
      && (o.Committed? ==> JobIdOf(p) in s'.jobs)
      && (!o.Committed? ==> s'.jobs == s.jobs)
      && (s'.history == if o.Committed? && historyOk then s.history + [Snapshot(o.rec)] else s.history)
  {
    if p in s.locks && p in s.records && s.records[p].isRunning {
      var s1 := s.(locks := s.locks[p := RENEW_LOCK_TTL]);
      var rec := s.records[p];
      var l := Commit(s.records, p, Advance(rec), rec.version, races);
      assert TickSpec(s, p, races, historyOk) == FinishTick(s1, p, l, historyOk);
      if l.written.Some? {
        TickSettles(rec);
        CommitOnlyOverReadVersion(s.records, p, Advance(rec), rec.version, races);
        var k :| 0 <= k <= |races| && CommitsAfter(s.records, p, Advance(rec), rec.version, races, k, l);
        if races == [] {
          assert races[..k] == [];
        }
      }
    }
  }

  /** A tick keeps the store invariant, given that other instances write well-formed records. */
  lemma TickKeepsStoreOk(s: Store, p: ProjectId, races: seq<Interference>, historyOk: bool)
    requires StoreOk(s) && RacesOk(p, races)
    ensures StoreOk(TickSpec(s, p, races, historyOk).0)
  {
    if p in s.locks && p in s.records && s.records[p].isRunning {
      var s1 := s.(locks := s.locks[p := RENEW_LOCK_TTL]);
      var rec := s.records[p];
      TickSettles(rec);
      var l := Commit(s1.records, p, Advance(rec), rec.version, races);
      CommitKeepsRecordsOk(s.records, p, Advance(rec), rec.version, races);
      assert TickSpec(s, p, races, historyOk) == FinishTick(s1, p, l, historyOk);
      FinishTickKeepsStoreOk(s1, p, l, historyOk);
    }
  }

  /** Storing the snapshot and enqueueing the next tick keep the store invariant. */
  lemma FinishTickKeepsStoreOk(s1: Store, p: ProjectId, l: Landing, historyOk: bool)
    requires JobsOk(s1.jobs) && RecordsOk(l.records)
    ensures StoreOk(FinishTick(s1, p, l, historyOk).0)
  {
    if l.written.Some? {
      var jobs := FinishTick(s1, p, l, historyOk).0.jobs;
      forall id | id in jobs ensures id == JobIdOf(jobs[id].projectId) {
        if id !in s1.jobs {
          assert id == JobIdOf(p);
        }
      }
    }
  }

  // ---------------------------------------------------------------------------------
  // The store as the engine mutates it
  // ---------------------------------------------------------------------------------

  /** The shared store of one deployment, updated in place by the engine's operations. */
  class SimulationStore {
    var records: map<ProjectId, Record>
    var locks: map<ProjectId, nat>
    var jobs: map<JobId, Job>
    var history: seq<HistoryEntry>

    /** The store as a value. */
    function State(): Store
      reads this
    {
      Store(records, locks, jobs, history)
    }

    ghost predicate Valid()
      reads this
    {
      StoreOk(State())
    }

    /** An empty store. */
    constructor ()
      ensures State() == Store(map[], map[], map[], [])
      ensures Valid()
    {
      records, locks, jobs, history := map[], map[], map[], [];
    }

    /** `startSimulation`. */
    method StartSimulation(p: ProjectId, nodes: seq<NodeDoc>, edges: seq<EdgeDoc>) returns (r: Result<Record>)
      modifies this
      ensures (State(), r) == StartSpec(old(State()), p, nodes, edges)
      ensures old(Valid()) ==> Valid()
    {
      if Valid() {
        StartTakesLockOrFails(State(), p, nodes, edges);
      }
      if p in locks {
        return Err(ALREADY_RUNNING);
      }
      locks := locks[p := START_LOCK_TTL];
      var initial := BuildInitialState(p, NodesOfProject(nodes, p), EdgesOfProject(edges, p));
      records := records[p := initial];
      jobs := Enqueue(jobs, JobIdOf(p), Job(p, 0));
      return Ok(initial);
    }

    /**
     * The commit loop: WATCH and re-read the record, give up if it is gone, stopped or at
     * another version than `readVersion`, stamp the next counters, and EXEC; an EXEC that
     * follows another instance's write fails, and the loop retries.
     */
    method CommitTick(p: ProjectId, sim: Simulation, readVersion: nat, races: seq<Interference>)
      returns (written: Option<Record>)
      modifies this`records, sim
      ensures var l := Commit(old(records), p, old(sim.ToRecord()), readVersion, races);
        records == l.records && written == l.written
    {
      ghost var computed := sim.ToRecord();
      var updated := false;
      var k := 0;
      written := None;
      while !updated
        invariant 0 <= k <= |races|
        invariant sim.ToRecord().(tickCount := computed.tickCount, version := computed.version) == computed
        invariant !updated ==> written.None?
        invariant !updated ==>
          Commit(records, p, computed, readVersion, races[k..]) == Commit(old(records), p, computed, readVersion, races)
        invariant updated ==> var l := Commit(old(records), p, computed, readVersion, races);
          records == l.records && written == l.written
        decreases |races| - k, if updated then 0 else 1
      {
        if p !in records {
          return;
        }
        var current := records[p];
        if !current.isRunning {
          return;
        }
        if current.version != readVersion {
          return;
        }
        sim.tickCount := current.tickCount + 1;
        sim.version := current.version + 1;
        if k < |races| && !races[k].Quiet? {
          assert races[k..][1..] == races[k + 1..];
          records := Interfere(records, p, races[k]);
          k := k + 1;
        } else {
          records := records[p := sim.ToRecord()];
          written := Some(sim.ToRecord());
          updated := true;
        }
      }
    }

    /**
     * The commit loop as the engine writes it: the version check compares the re-read
     * record with `sim.version`, which an attempt that lost its EXEC has already stamped
     * with the version it tried to write.
     */
    method CommitTickAsWritten(p: ProjectId, sim: Simulation, races: seq<Interference>)
      returns (written: Option<Record>)
      modifies this`records, sim
      ensures var l := CommitAsWritten(old(records), p, old(sim.ToRecord()), old(sim.version), races);
        records == l.records && written == l.written
    {
      var updated := false;
      var k := 0;
      written := None;
      while !updated
        invariant 0 <= k <= |races|
        invariant !updated ==> written.None?
        invariant !updated ==>
          CommitAsWritten(records, p, sim.ToRecord(), sim.version, races[k..])
            == CommitAsWritten(old(records), p, old(sim.ToRecord()), old(sim.version), races)
        invariant updated ==> var l := CommitAsWritten(old(records), p, old(sim.ToRecord()), old(sim.version), races);
          records == l.records && written == l.written
        decreases |races| - k, if updated then 0 else 1
      {
        if p !in records {
          return;
        }
        var current := records[p];
        if !current.isRunning {
          return;
        }
        if current.version != sim.version {
          return;
        }
        sim.tickCount := current.tickCount + 1;
        sim.version := current.version + 1;
        if k < |races| && !races[k].Quiet? {
          assert races[k..][1..] == races[k + 1..];
          records := Interfere(records, p, races[k]);
          k := k + 1;
        } else {
          records := records[p := sim.ToRecord()];
          written := Some(sim.ToRecord());
          updated := true;
        }
      }
    }

    /** `processSimulationTick`. */
    method ProcessSimulationTick(p: ProjectId, races: seq<Interference>, historyOk: bool) returns (outcome: TickOutcome)
      requires Valid()
      modifies this
      ensures (State(), outcome) == TickSpec(old(State()), p, races, historyOk)
      ensures RacesOk(p, races) ==> Valid()
    {
      if RacesOk(p, races) {
        TickKeepsStoreOk(State(), p, races, historyOk);
      }
      if p !in locks {
        return LockLost;
      }
      locks := locks[p := RENEW_LOCK_TTL];
      if p !in records {
        return NoRecord;
      }
      var data := records[p];
      if !data.isRunning {
        return NotRunning;
      }
      var simulation := new Simulation.FromRecord(data);
      StepsKeepKeyOrder(data);
      simulation.EvaluateFailures();
      simulation.PropagateFailures();
      simulation.CalculateAnalytics();
      assert simulation.ToRecord() == Advance(data);
      var written := CommitTick(p, simulation, data.version, races);
      match written {
        case None =>
          return Abandoned;
        case Some(w) =>
          if historyOk {
            history := history + [Snapshot(w)];
          }
          jobs := Enqueue(jobs, JobIdOf(p), Job(p, NEXT_TICK_DELAY_MS));
          return Committed(w);
      }
    }

    /** `stopSimulation`. */
    method StopSimulation(p: ProjectId)
      modifies this
      ensures State() == StopSpec(old(State()), p)
      ensures old(Valid()) ==> Valid()
    {
      if Valid() {
        StopClearsRun(State(), p, [], []);
      }
      records := records - {p};
      locks := locks - {p};
      jobs := jobs - {JobIdOf(p)};
    }
  }
}
