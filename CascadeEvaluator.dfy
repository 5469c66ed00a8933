/**
 * The cascade evaluator: the three steps one tick applies to an in-memory copy of the
 * simulation record (threshold evaluation, breadth-first failure propagation, analytics).
 * The functions here say what each step computes; the class `Simulation` at the end
 * performs the steps in place, loop by loop, and is proved to agree with them.
 */
module CascadeEvaluator {
  import opened Wrappers
  import opened SimulationState

  // ---------------------------------------------------------------------------------
  // Threshold evaluation
  // ---------------------------------------------------------------------------------

  /** A node that is still up but has reached its threshold. */
  predicate Trips(n: NodeState)
  {
    Breached(n) && !n.failed
  }

  /** The node states after threshold evaluation. */
  function Evaluated(states: map<NodeId, NodeState>): map<NodeId, NodeState>
  {
    map id | id in states :: if Trips(states[id]) then states[id].(failed := true) else states[id]
  }

  /**
   * Threshold evaluation keeps every node, changes nothing but the `failed` flag, sets it
   * exactly on the nodes that had failed or are at or below their threshold, and so leaves
   * a sound graph settled.
   */
  lemma EvaluationMarksBreached(states: map<NodeId, NodeState>)
    ensures var r := Evaluated(states);
      && r.Keys == states.Keys
      && (forall id :: id in states ==> r[id].failed == (states[id].failed || Breached(states[id])))
      && (forall id :: id in states ==> r[id].(failed := states[id].failed) == states[id])
      && (Sound(states) ==> Settled(r))
  {
  }

  /** The ids threshold evaluation appends to `newlyFailed`, in key order. */
  function NewlyTripped(order: seq<NodeId>, states: map<NodeId, NodeState>): seq<NodeId>
  {
    if order == [] then []
    else
      var id := order[|order| - 1];
      NewlyTripped(order[..|order| - 1], states) + (if id in states && Trips(states[id]) then [id] else [])
  }

  /** Evaluation appends exactly the nodes that newly reach their threshold, each once. */
  lemma {:induction false} NewlyTrippedMembers(order: seq<NodeId>, states: map<NodeId, NodeState>)
    ensures forall id :: id in NewlyTripped(order, states) <==> id in order && id in states && Trips(states[id])
    ensures NoDups(order) ==> NoDups(NewlyTripped(order, states))
  {
    if order != [] {
      var prefix := order[..|order| - 1];
      NewlyTrippedMembers(prefix, states);
      assert forall x :: x in order <==> x in prefix || x == order[|order| - 1];
      if NoDups(order) {
        assert NoDups(prefix);
        assert order[|order| - 1] !in prefix;
      }
    }
  }

  lemma NewlyTrippedSnoc(order: seq<NodeId>, i: nat, states: map<NodeId, NodeState>)
    requires i < |order|
    ensures NewlyTripped(order[..i + 1], states)
         == NewlyTripped(order[..i], states) + (if order[i] in states && Trips(states[order[i]]) then [order[i]] else [])
  {
    assert order[..i + 1][..i] == order[..i];
  }

  /** A map that agrees with `Evaluated(before)` on every key, in key order, is `Evaluated(before)`. */
  lemma EvaluatedPointwise(order: seq<NodeId>, before: map<NodeId, NodeState>, after: map<NodeId, NodeState>)
    requires KeyOrder(order, before) && after.Keys == before.Keys
    requires forall k :: 0 <= k < |order| ==> after[order[k]] == Evaluated(before)[order[k]]
    ensures after == Evaluated(before)
  {
    forall id | id in after ensures after[id] == Evaluated(before)[id] {
      var k :| 0 <= k < |order| && order[k] == id;
    }
  }

  /** The record after `evaluateFailures`. */
  function EvaluateStep(rec: Record): (r: Record)
    ensures r.order == rec.order && r.adjacencyList == rec.adjacencyList && r.analytics == rec.analytics
    ensures r.tickCount == rec.tickCount && r.version == rec.version && r.isRunning == rec.isRunning
    ensures |rec.newlyFailed| <= |r.newlyFailed| && r.newlyFailed[..|rec.newlyFailed|] == rec.newlyFailed
  {
    rec.(nodesState := Evaluated(rec.nodesState),
         newlyFailed := rec.newlyFailed + NewlyTripped(rec.order, rec.nodesState))
  }

  // ---------------------------------------------------------------------------------
  // Breadth-first propagation
  // ---------------------------------------------------------------------------------

  /** A frontier entry: a failed node and the depth at which it failed in this tick. */
  datatype Entry = Entry(id: NodeId, depth: nat)

  /**
   * The state of the propagation loop: node states, the visited set, the frontier queue,
   * the deepest depth popped so far, and `log`, every id ever placed on the queue.
   */
  datatype Bfs = Bfs(
    states: map<NodeId, NodeState>,
    visited: set<NodeId>,
    queue: seq<Entry>,
    maxDepth: nat,
    log: seq<NodeId>)

  /** The nodes that have not failed. */
  function Unfailed(states: map<NodeId, NodeState>): set<NodeId>
  {
    set id | id in states && !states[id].failed
  }

  /** `simulation.adjacencyList[uId] || []`. */
  function NeighborsOf(adj: map<NodeId, seq<Neighbor>>, id: NodeId): seq<Neighbor>
  {
    if id in adj then adj[id] else []
  }

  /** One neighbour of a popped node at `depth`: the body of the `forEach` over its edges. */
  function Relax(b: Bfs, nb: Neighbor, depth: nat): Bfs
  {
    var t := nb.targetId;
    if t in b.states && !b.states[t].failed then
      var dropped := b.states[t].(resourceValue := b.states[t].resourceValue - nb.weight);
      if Breached(dropped) then
        var s := b.states[t := dropped.(failed := true)];
        if t !in b.visited then
          b.(states := s, visited := b.visited + {t}, queue := b.queue + [Entry(t, depth + 1)], log := b.log + [t])
        else
          b.(states := s)
      else
        b.(states := b.states[t := dropped])
    else
      b
  }

  /**
   * Relaxing one edge touches only its target, and only when the target is still up: the
   * target loses exactly the edge's weight and fails exactly when that breaches its threshold;
   * it is queued, once, exactly when it newly fails unvisited. Failed nodes are never touched
   * again, the set of live nodes only shrinks, and a settled graph stays settled.
   */
  lemma RelaxFacts(b: Bfs, nb: Neighbor, depth: nat)
    ensures var r := Relax(b, nb, depth);
      && r.states.Keys == b.states.Keys && r.maxDepth == b.maxDepth
      && (forall id :: id in b.states && id != nb.targetId ==> r.states[id] == b.states[id])
      && (nb.targetId !in b.states || b.states[nb.targetId].failed ==> r == b)
      && (nb.targetId in b.states && !b.states[nb.targetId].failed ==>
            var (old_, new_) := (b.states[nb.targetId], r.states[nb.targetId]);
            && new_.resourceValue == old_.resourceValue - nb.weight
            && new_.failed == Breached(new_)
            && new_.(resourceValue := old_.resourceValue, failed := false) == old_)
      && (r.queue == b.queue || r.queue == b.queue + [Entry(nb.targetId, depth + 1)])
      && (r.queue != b.queue <==>
            nb.targetId in b.states && r.states[nb.targetId].failed && !b.states[nb.targetId].failed
            && nb.targetId !in b.visited)
      && Unfailed(r.states) <= Unfailed(b.states)
      && (Unfailed(r.states) == Unfailed(b.states) ==> r.queue == b.queue && r.log == b.log && r.visited == b.visited)
      && (forall id :: id in b.states && b.states[id].failed ==> r.states[id] == b.states[id])
      && (Settled(b.states) ==> Settled(r.states))
  {
    var t := nb.targetId;
    if t in b.states && !b.states[t].failed {
      var dropped := b.states[t].(resourceValue := b.states[t].resourceValue - nb.weight);
      var r := Relax(b, nb, depth);
      if Breached(dropped) {
        assert t in Unfailed(b.states) && t !in Unfailed(r.states);
      } else {
        assert Unfailed(r.states) == Unfailed(b.states);
      }
    }
  }

  /** All neighbours of a popped node, in adjacency order. */
  function RelaxAll(b: Bfs, nbs: seq<Neighbor>, depth: nat): Bfs
    decreases |nbs|
  {
    if nbs == [] then b else RelaxAll(Relax(b, nbs[0], depth), nbs[1..], depth)
  }

  /**
   * Relaxing all edges of a popped node keeps the node ids and the depth, only shrinks the
   * set of live nodes (and queues nothing when it does not shrink), never touches a failed
   * node, and keeps a settled graph settled.
   */
  lemma {:induction false} RelaxAllFacts(b: Bfs, nbs: seq<Neighbor>, depth: nat)
    ensures var r := RelaxAll(b, nbs, depth);
      && r.states.Keys == b.states.Keys && r.maxDepth == b.maxDepth
      && Unfailed(r.states) <= Unfailed(b.states)
      && (Unfailed(r.states) == Unfailed(b.states) ==> r.queue == b.queue && r.log == b.log && r.visited == b.visited)
      && (forall id :: id in b.states && b.states[id].failed ==> r.states[id] == b.states[id])
      && (Settled(b.states) ==> Settled(r.states))
    decreases |nbs|
  {
    if nbs != [] {
      RelaxFacts(b, nbs[0], depth);
      RelaxAllFacts(Relax(b, nbs[0], depth), nbs[1..], depth);
    }
  }

  /** The `while (queue.length > 0)` loop: pop the head, record its depth, relax its edges. */
  function Drain(b: Bfs, adj: map<NodeId, seq<Neighbor>>): Bfs
    decreases Unfailed(b.states), |b.queue|
  {
    if b.queue == [] then b
    else
      var e := b.queue[0];
      var popped := b.(queue := b.queue[1..], maxDepth := Max(b.maxDepth, e.depth));
      RelaxAllFacts(popped, NeighborsOf(adj, e.id), e.depth);
      Drain(RelaxAll(popped, NeighborsOf(adj, e.id), e.depth), adj)
  }

  /**
   * The propagation loop ends with an empty queue, keeps every node, never lowers the
   * depth reached, never touches a failed node, and keeps a settled graph settled.
   */
  lemma {:induction false} DrainFacts(b: Bfs, adj: map<NodeId, seq<Neighbor>>)
    ensures var r := Drain(b, adj);
      && r.queue == [] && r.states.Keys == b.states.Keys && r.maxDepth >= b.maxDepth
      && (forall id :: id in b.states && b.states[id].failed ==> r.states[id] == b.states[id])
      && (Settled(b.states) ==> Settled(r.states))
    decreases Unfailed(b.states), |b.queue|
  {
    if b.queue != [] {
      var e := b.queue[0];
      var popped := b.(queue := b.queue[1..], maxDepth := Max(b.maxDepth, e.depth));
      RelaxAllFacts(popped, NeighborsOf(adj, e.id), e.depth);
      DrainFacts(RelaxAll(popped, NeighborsOf(adj, e.id), e.depth), adj);
    }
  }

  /** `newlyFailed.map(id => ({ id, depth: 0 }))`. */
  function Roots(ids: seq<NodeId>): (r: seq<Entry>)
    ensures |r| == |ids|
    ensures forall i :: 0 <= i < |ids| ==> r[i] == Entry(ids[i], 0)
  {
    if ids == [] then [] else Roots(ids[..|ids| - 1]) + [Entry(ids[|ids| - 1], 0)]
  }

  /** The loop state before the first pop. */
  function Launch(rec: Record): Bfs
  {
    Bfs(rec.nodesState, (set id | id in rec.newlyFailed), Roots(rec.newlyFailed), 0, rec.newlyFailed)
  }

  /** The record after `propagateFailures`. */
  function PropagateStep(rec: Record): (r: Record)
    ensures r.order == rec.order && r.adjacencyList == rec.adjacencyList && r.newlyFailed == []
    ensures r.tickCount == rec.tickCount && r.version == rec.version && r.isRunning == rec.isRunning
  {
    if rec.newlyFailed == [] then rec
    else
      var b := Drain(Launch(rec), rec.adjacencyList);
      rec.(nodesState := b.states,
           newlyFailed := [],
           analytics := rec.analytics.(cascadeDepth := Max(rec.analytics.cascadeDepth, b.maxDepth)))
  }

  // ---------------------------------------------------------------------------------
  // Analytics
  // ---------------------------------------------------------------------------------

  /** The failed node ids, in key order. */
  function FailedIds(order: seq<NodeId>, states: map<NodeId, NodeState>): (r: seq<NodeId>)
    ensures |r| <= |order|
    ensures forall id :: id in r <==> id in order && id in states && states[id].failed
  {
    if order == [] then []
    else
      var id := order[|order| - 1];
      FailedIds(order[..|order| - 1], states) + (if id in states && states[id].failed then [id] else [])
  }

  lemma FailedIdsSnoc(order: seq<NodeId>, i: nat, states: map<NodeId, NodeState>)
    requires i < |order|
    ensures FailedIds(order[..i + 1], states)
         == FailedIds(order[..i], states) + (if order[i] in states && states[order[i]].failed then [order[i]] else [])
  {
    assert order[..i + 1][..i] == order[..i];
  }

  /** `failed / total * 100`, or 0 for an empty graph. */
  function Percentage(failed: nat, total: nat): (r: real)
    ensures total == 0 ==> r == 0.0
    ensures failed <= total ==> 0.0 <= r <= 100.0
    ensures total > 0 ==> (r == 0.0 <==> failed == 0)
    ensures total > 0 && failed <= total ==> (r == 100.0 <==> failed == total)
  {
    if total == 0 then 0.0
    else
      var q := failed as real / total as real;
      assert failed <= total ==> q <= 1.0;
      assert failed == total ==> q == 1.0;
      q * 100.0
  }

  /** `Math.max(0, 100 - percentage)`. */
  function HealthScore(percentage: real): (r: real)
    ensures 0.0 <= percentage <= 100.0 ==> r == 100.0 - percentage
    ensures r >= 0.0
  {
    if 100.0 - percentage > 0.0 then 100.0 - percentage else 0.0
  }

  /** `(maxCapacity || 100) - resourceValue`: a capacity of 0 counts as 100. */
  function ImpactOf(n: NodeState): real
  {
    (if n.maxCapacity == 0.0 then 100.0 else n.maxCapacity) - n.resourceValue
  }

  /** The scan for the most impacted node: a later node replaces the best only if strictly greater. */
  function MostImpacted(order: seq<NodeId>, states: map<NodeId, NodeState>): Option<Impact>
  {
    if order == [] then None
    else
      var best := MostImpacted(order[..|order| - 1], states);
      var id := order[|order| - 1];
      if id !in states then best
      else
        var impact := ImpactOf(states[id]);
        if best.None? || impact > best.value.impactValue then Some(Impact(id, states[id].name, impact))
        else best
  }

  lemma MostImpactedSnoc(order: seq<NodeId>, i: nat, states: map<NodeId, NodeState>)
    requires i < |order| && order[i] in states
    ensures var best := MostImpacted(order[..i], states);
      var impact := ImpactOf(states[order[i]]);
      MostImpacted(order[..i + 1], states)
        == if best.None? || impact > best.value.impactValue then Some(Impact(order[i], states[order[i]].name, impact))
           else best
  {
    assert order[..i + 1][..i] == order[..i];
  }

  /** The analytics `calculateAnalytics` writes; the cascade depth is carried over. */
  function Aggregate(order: seq<NodeId>, states: map<NodeId, NodeState>, cascadeDepth: nat): Analytics
  {
    var failedIds := FailedIds(order, states);
    var percentage := Percentage(|failedIds|, |order|);
    Analytics(percentage, cascadeDepth, MostImpacted(order, states), HealthScore(percentage), failedIds)
  }

  /** The record after `calculateAnalytics`. */
  function AnalyticsStep(rec: Record): (r: Record)
    ensures r.order == rec.order && r.nodesState == rec.nodesState && r.newlyFailed == rec.newlyFailed
    ensures r.analytics.cascadeDepth == rec.analytics.cascadeDepth
    ensures 0.0 <= r.analytics.systemHealthScore
  {
    rec.(analytics := Aggregate(rec.order, rec.nodesState, rec.analytics.cascadeDepth))
  }

  /** One tick of the evaluator: evaluate, propagate, aggregate. */
  function Advance(rec: Record): Record
  {
    AnalyticsStep(PropagateStep(EvaluateStep(rec)))
  }

  // ---------------------------------------------------------------------------------
  // Properties of propagation
  // ---------------------------------------------------------------------------------

  /**
   * The frontier bookkeeping of the propagation loop: no id is queued twice, `visited` is
   * exactly the set of queued ids, every queued id is a failed node, and no depth reaches
   * the number of ids queued so far.
   */
  ghost predicate Frontier(b: Bfs)
  {
    && NoDups(b.log)
    && (forall id :: id in b.log ==> id in b.visited)
    && (forall id :: id in b.visited ==> id in b.log)
    && (forall id :: id in b.log ==> id in b.states && b.states[id].failed)
    && (forall e :: e in b.queue ==> e.depth < |b.log|)
    && b.maxDepth < |b.log|
  }

  lemma RelaxKeepsFrontier(b: Bfs, nb: Neighbor, depth: nat)
    requires Frontier(b) && depth < |b.log|
    ensures Frontier(Relax(b, nb, depth)) && |b.log| <= |Relax(b, nb, depth).log|
  {
    RelaxFacts(b, nb, depth);
    var r := Relax(b, nb, depth);
    if r.log != b.log {
      assert r.log == b.log + [nb.targetId];
      assert nb.targetId !in b.log;
    }
  }

  lemma {:induction false} RelaxAllKeepsFrontier(b: Bfs, nbs: seq<Neighbor>, depth: nat)
    requires Frontier(b) && depth < |b.log|
    ensures Frontier(RelaxAll(b, nbs, depth)) && |b.log| <= |RelaxAll(b, nbs, depth).log|
    decreases |nbs|
  {
    if nbs != [] {
      RelaxKeepsFrontier(b, nbs[0], depth);
      RelaxAllKeepsFrontier(Relax(b, nbs[0], depth), nbs[1..], depth);
    }
  }

  /** Propagation keeps the frontier bookkeeping: every node is queued at most once. */
  lemma {:induction false} DrainKeepsFrontier(b: Bfs, adj: map<NodeId, seq<Neighbor>>)
    requires Frontier(b)
    ensures Frontier(Drain(b, adj))
    decreases Unfailed(b.states), |b.queue|
  {
    if b.queue != [] {
      var e := b.queue[0];
      var popped := b.(queue := b.queue[1..], maxDepth := Max(b.maxDepth, e.depth));
      assert e in b.queue;
      assert forall x :: x in popped.queue ==> x in b.queue;
      RelaxAllKeepsFrontier(popped, NeighborsOf(adj, e.id), e.depth);
      RelaxAllFacts(popped, NeighborsOf(adj, e.id), e.depth);
      DrainKeepsFrontier(RelaxAll(popped, NeighborsOf(adj, e.id), e.depth), adj);
    }
  }

  /** The newly failed ids handed to propagation: distinct, failed nodes. */
  ghost predicate Seeds(rec: Record)
  {
    && NoDups(rec.newlyFailed)
    && (forall id :: id in rec.newlyFailed ==> id in rec.nodesState && rec.nodesState[id].failed)
  }

  /**
   * Propagation from a non-empty set of seeds queues each node at most once, so the loop
   * pops at most one entry per node, and the depth it reaches stays below the node count.
   */
  lemma PropagationQueuesEachNodeOnce(rec: Record)
    requires rec.newlyFailed != [] && Seeds(rec)
    ensures var b := Drain(Launch(rec), rec.adjacencyList);
      && NoDups(b.log)
      && |b.log| <= |rec.nodesState|
      && b.maxDepth < |b.log|
      && (forall id :: id in b.log ==> id in b.states && b.states[id].failed)
  {
    var start := Launch(rec);
    forall e | e in start.queue ensures e.depth < |start.log| {
      var i :| 0 <= i < |start.queue| && start.queue[i] == e;
    }
    assert Frontier(start);
    DrainKeepsFrontier(start, rec.adjacencyList);
    DrainFacts(start, rec.adjacencyList);
    var b := Drain(start, rec.adjacencyList);
    NoDupsBoundedBy(b.log, rec.nodesState.Keys);
  }

  /** Threshold evaluation of a well-formed record hands propagation valid seeds. */
  lemma EvaluationSeedsPropagation(rec: Record)
    requires WellFormed(rec)
    ensures Seeds(EvaluateStep(rec))
    ensures EvaluateStep(rec).newlyFailed == NewlyTripped(rec.order, rec.nodesState)
  {
    assert rec.newlyFailed + NewlyTripped(rec.order, rec.nodesState) == NewlyTripped(rec.order, rec.nodesState);
    EvaluationMarksBreached(rec.nodesState);
    NewlyTrippedMembers(rec.order, rec.nodesState);
  }

  // ---------------------------------------------------------------------------------
  // Properties of one tick
  // ---------------------------------------------------------------------------------

  /**
   * After a tick every node is failed exactly when its resource is at or below its
   * threshold, `newlyFailed` is empty again, and the record stays well formed.
   */
  lemma TickSettles(rec: Record)
    requires WellFormed(rec)
    ensures WellFormed(Advance(rec)) && Settled(Advance(rec).nodesState)
    ensures Advance(rec).order == rec.order && Advance(rec).nodesState.Keys == rec.nodesState.Keys
  {
    var e := EvaluateStep(rec);
    EvaluationSeedsPropagation(rec);
    EvaluationMarksBreached(rec.nodesState);
    assert Settled(e.nodesState);
    if e.newlyFailed != [] {
      DrainFacts(Launch(e), e.adjacencyList);
    }
  }

  /** Evaluation and propagation keep the key order and the set of nodes. */
  lemma StepsKeepKeyOrder(rec: Record)
    requires KeyOrder(rec.order, rec.nodesState)
    ensures KeyOrder(EvaluateStep(rec).order, EvaluateStep(rec).nodesState)
    ensures var p := PropagateStep(EvaluateStep(rec));
      p.order == rec.order && p.nodesState.Keys == rec.nodesState.Keys && KeyOrder(p.order, p.nodesState)
  {
    var e := EvaluateStep(rec);
    EvaluationMarksBreached(rec.nodesState);
    if e.newlyFailed != [] {
      DrainFacts(Launch(e), e.adjacencyList);
    }
  }

  /** A failed node keeps its whole state through a tick: never reset, never drained again. */
  lemma FailureIsSticky(rec: Record, id: NodeId)
    requires id in rec.nodesState && rec.nodesState[id].failed
    ensures id in Advance(rec).nodesState && Advance(rec).nodesState[id] == rec.nodesState[id]
  {
    var e := EvaluateStep(rec);
    EvaluationMarksBreached(rec.nodesState);
    assert e.nodesState[id] == rec.nodesState[id];
    if e.newlyFailed != [] {
      DrainFacts(Launch(e), e.adjacencyList);
    }
  }

  /** The cascade depth never decreases, and stays put when nothing newly failed. */
  lemma CascadeDepthNeverDecreases(rec: Record)
    ensures Advance(rec).analytics.cascadeDepth >= rec.analytics.cascadeDepth
    ensures rec.newlyFailed == [] && NewlyTripped(rec.order, rec.nodesState) == [] ==>
      Advance(rec).analytics.cascadeDepth == rec.analytics.cascadeDepth
  {
  }

  /** A tick raises the cascade depth, if at all, to less than the number of nodes. */
  lemma CascadeDepthBounded(rec: Record)
    requires WellFormed(rec)
    ensures Advance(rec).analytics.cascadeDepth == rec.analytics.cascadeDepth
      || Advance(rec).analytics.cascadeDepth < |rec.nodesState|
  {
    var e := EvaluateStep(rec);
    EvaluationSeedsPropagation(rec);
    EvaluationMarksBreached(rec.nodesState);
    assert |e.nodesState| == |rec.nodesState| by {
      assert e.nodesState.Keys == rec.nodesState.Keys;
    }
    var p := PropagateStep(e);
    assert Advance(rec).analytics.cascadeDepth == p.analytics.cascadeDepth;
    if e.newlyFailed != [] {
      PropagationQueuesEachNodeOnce(e);
    }
  }

  // ---------------------------------------------------------------------------------
  // Properties of the analytics
  // ---------------------------------------------------------------------------------

  /**
   * The most impacted node is the first node, in key order, whose impact is maximal;
   * there is none exactly when there are no nodes.
   */
  lemma {:induction false} MostImpactedIsFirstMaximum(order: seq<NodeId>, states: map<NodeId, NodeState>)
    requires forall id :: id in order ==> id in states
    ensures MostImpacted(order, states).None? <==> order == []
    ensures MostImpacted(order, states).Some? ==>
      var m := MostImpacted(order, states).value;
      && (exists k :: 0 <= k < |order| && order[k] == m.nodeId
            && m.name == states[order[k]].name && m.impactValue == ImpactOf(states[order[k]])
            && (forall j :: 0 <= j < k ==> ImpactOf(states[order[j]]) < m.impactValue))
      && (forall j :: 0 <= j < |order| ==> ImpactOf(states[order[j]]) <= m.impactValue)
  {
    if order != [] {
      var prefix := order[..|order| - 1];
      var id := order[|order| - 1];
      assert forall x :: x in prefix ==> x in order;
      MostImpactedIsFirstMaximum(prefix, states);
      var best := MostImpacted(prefix, states);
      var m := MostImpacted(order, states).value;
      if best.None? || ImpactOf(states[id]) > best.value.impactValue {
        assert order[|order| - 1] == m.nodeId;
        forall j | 0 <= j < |order| - 1 ensures ImpactOf(states[order[j]]) < m.impactValue {
          assert order[j] == prefix[j];
        }
      } else {
        var k :| 0 <= k < |prefix| && prefix[k] == best.value.nodeId
          && best.value.name == states[prefix[k]].name && best.value.impactValue == ImpactOf(states[prefix[k]])
          && (forall j :: 0 <= j < k ==> ImpactOf(states[prefix[j]]) < best.value.impactValue);
        assert order[k] == prefix[k];
        forall j | 0 <= j < |order| ensures ImpactOf(states[order[j]]) <= m.impactValue {
          if j < |order| - 1 {
            assert order[j] == prefix[j];
          }
        }
      }
    }
  }

  /** Every node of `order` is kept by `FailedIds` exactly when all of them have failed. */
  lemma {:induction false} FailedIdsCountsAll(order: seq<NodeId>, states: map<NodeId, NodeState>)
    requires forall id :: id in order ==> id in states
    ensures |FailedIds(order, states)| == |order| <==> forall id :: id in order ==> states[id].failed
  {
    if order != [] {
      var prefix := order[..|order| - 1];
      var last := order[|order| - 1];
      assert order == prefix + [last];
      assert forall x :: x in prefix ==> x in order;
      FailedIdsCountsAll(prefix, states);
      if states[last].failed {
        assert |FailedIds(order, states)| == |FailedIds(prefix, states)| + 1;
        assert (forall id :: id in order ==> states[id].failed) <==> (forall id :: id in prefix ==> states[id].failed);
      } else {
        assert |FailedIds(order, states)| == |FailedIds(prefix, states)| <= |prefix| < |order|;
        assert last in order && !states[last].failed;
      }
    }
  }

  /**
   * The analytics of a tick: the percentage of failed nodes lies in [0, 100], is 0 exactly
   * when none failed and 100 exactly when all failed; health is its complement; the failed
   * ids are exactly the failed nodes.
   */
  lemma AggregateSummarizes(order: seq<NodeId>, states: map<NodeId, NodeState>, cascadeDepth: nat)
    requires KeyOrder(order, states)
    ensures var a := Aggregate(order, states, cascadeDepth);
      && 0.0 <= a.failedPercentage <= 100.0
      && a.systemHealthScore == 100.0 - a.failedPercentage
      && a.cascadeDepth == cascadeDepth
      && (forall id :: id in a.failedNodeIds <==> id in states && states[id].failed)
      && (a.failedPercentage == 0.0 <==> forall id :: id in states ==> !states[id].failed)
      && (order != [] ==> (a.failedPercentage == 100.0 <==> forall id :: id in states ==> states[id].failed))
  {
    FailedIdsCountsAll(order, states);
    var ids := FailedIds(order, states);
    if ids != [] {
      assert ids[0] in ids;
    }
  }

  // ---------------------------------------------------------------------------------
  // The in-memory simulation object and the three helpers that mutate it
  // ---------------------------------------------------------------------------------

  /** The parsed simulation record one tick works on; the helpers update its fields in place. */
  class Simulation {
    var projectId: ProjectId
    var order: seq<NodeId>
    var nodesState: map<NodeId, NodeState>
    var adjacencyList: map<NodeId, seq<Neighbor>>
    var newlyFailed: seq<NodeId>
    var tickCount: nat
    var isRunning: bool
    var version: nat
    var analytics: Analytics

    /** The key order lists every node exactly once. */
    ghost predicate Valid()
      reads this
    {
      KeyOrder(order, nodesState)
    }

    /** The object as a record value (`JSON.stringify`). */
    function ToRecord(): Record
      reads this
    {
      Record(projectId, order, nodesState, adjacencyList, newlyFailed, tickCount, isRunning, version, analytics)
    }

    /** `JSON.parse` of a stored record. */
    constructor FromRecord(rec: Record)
      ensures ToRecord() == rec
      ensures KeyOrder(rec.order, rec.nodesState) ==> Valid()
    {
      projectId, order, nodesState, adjacencyList := rec.projectId, rec.order, rec.nodesState, rec.adjacencyList;
      newlyFailed, tickCount, isRunning, version := rec.newlyFailed, rec.tickCount, rec.isRunning, rec.version;
      analytics := rec.analytics;
    }

    /** `evaluateFailures`: mark every node at or below its threshold failed, in key order. */
    method EvaluateFailures()
      requires Valid()
      modifies this
      ensures ToRecord() == EvaluateStep(old(ToRecord()))
    {
      var states, tripped := MarkBreached(order, nodesState);
      nodesState, newlyFailed := states, newlyFailed + tripped;
    }

    /**
     * `propagateFailures`: breadth-first from the newly failed nodes, subtract each edge's
     * weight from a target that is still up, fail and queue it once it reaches its threshold,
     * and raise the cascade depth to the deepest level popped.
     */
    method PropagateFailures()
      modifies this
      ensures ToRecord() == PropagateStep(old(ToRecord()))
    {
      if |newlyFailed| == 0 {
        return;
      }
      ghost var rec0 := ToRecord();
      var queue := Roots(newlyFailed);
      var visited := set id | id in newlyFailed;
      var maxDepth: nat := 0;
      ghost var log := newlyFailed;
      newlyFailed := [];

      while |queue| > 0
        invariant ToRecord() == rec0.(nodesState := nodesState, newlyFailed := [])
        invariant Drain(Bfs(nodesState, visited, queue, maxDepth, log), adjacencyList)
               == Drain(Launch(rec0), rec0.adjacencyList)
        decreases Unfailed(nodesState), |queue|
      {
        var entry := queue[0];
        queue := queue[1..];
        maxDepth := Max(maxDepth, entry.depth);
        var neighbors := if entry.id in adjacencyList then adjacencyList[entry.id] else [];
        ghost var popped := Bfs(nodesState, visited, queue, maxDepth, log);
        visited, queue, log := RelaxNeighbors(neighbors, entry.depth, visited, queue, log, maxDepth);
        assert Bfs(nodesState, visited, queue, maxDepth, log) == RelaxAll(popped, neighbors, entry.depth);
        RelaxAllFacts(popped, neighbors, entry.depth);
      }
      analytics := analytics.(cascadeDepth := Max(analytics.cascadeDepth, maxDepth));
    }

    /**
     * The `forEach` over the edges of a node popped at `depth`: subtract each edge's weight
     * from a target that is still up; fail it at its threshold and queue it if unvisited.
     */
    method RelaxNeighbors(neighbors: seq<Neighbor>, depth: nat, visited0: set<NodeId>, queue0: seq<Entry>,
                          ghost log0: seq<NodeId>, ghost maxDepth: nat)
      returns (visited: set<NodeId>, queue: seq<Entry>, ghost log: seq<NodeId>)
      modifies this
      ensures ToRecord() == old(ToRecord()).(nodesState := nodesState)
      ensures Bfs(nodesState, visited, queue, maxDepth, log)
           == RelaxAll(Bfs(old(nodesState), visited0, queue0, maxDepth, log0), neighbors, depth)
    {
      visited, queue, log := visited0, queue0, log0;
      var j := 0;
      while j < |neighbors|
        invariant 0 <= j <= |neighbors|
        invariant ToRecord() == old(ToRecord()).(nodesState := nodesState)
        invariant RelaxAll(Bfs(nodesState, visited, queue, maxDepth, log), neighbors[j..], depth)
               == RelaxAll(Bfs(old(nodesState), visited0, queue0, maxDepth, log0), neighbors, depth)
      {
        var neighbor := neighbors[j];
        ghost var cur := Bfs(nodesState, visited, queue, maxDepth, log);
        var vId := neighbor.targetId;
        if vId in nodesState && !nodesState[vId].failed {
          var node := nodesState[vId];
          node := node.(resourceValue := node.resourceValue - neighbor.weight);
          if node.resourceValue <= node.failureThreshold {
            node := node.(failed := true);
            if vId !in visited {
              visited := visited + {vId};
              queue := queue + [Entry(vId, depth + 1)];
              log := log + [vId];
            }
          }
          nodesState := nodesState[vId := node];
          assert Relax(cur, neighbor, depth) == Bfs(nodesState, visited, queue, maxDepth, log);
        } else {
          assert Relax(cur, neighbor, depth) == cur;
        }
        assert neighbors[j..][1..] == neighbors[j + 1..];
        j := j + 1;
      }
      assert neighbors[j..] == [];
    }

    /** `calculateAnalytics`: failed share, health, failed ids and the most impacted node. */
    method CalculateAnalytics()
      requires Valid()
      modifies this
      ensures ToRecord() == AnalyticsStep(old(ToRecord()))
    {
      var failedIds := CollectFailed(order, nodesState);
      var percentage := Percentage(|failedIds|, |order|);
      var mostImpacted := FindMostImpacted(order, nodesState);
      analytics := analytics.(failedPercentage := percentage, systemHealthScore := HealthScore(percentage),
                              failedNodeIds := failedIds, mostImpactedNode := mostImpacted);
    }
  }

  /** The `filter` over the node entries that keeps the failed ones, in key order. */
  method CollectFailed(ids: seq<NodeId>, states: map<NodeId, NodeState>) returns (failedIds: seq<NodeId>)
    requires forall id :: id in ids ==> id in states
    ensures failedIds == FailedIds(ids, states)
  {
    failedIds := [];
    var i := 0;
    while i < |ids|
      invariant 0 <= i <= |ids|
      invariant failedIds == FailedIds(ids[..i], states)
    {
      FailedIdsSnoc(ids, i, states);
      if states[ids[i]].failed {
        failedIds := failedIds + [ids[i]];
      }
      i := i + 1;
    }
    assert ids[..i] == ids;
  }

  /** The scan for the node furthest below its capacity; ties keep the earlier node. */
  method FindMostImpacted(ids: seq<NodeId>, states: map<NodeId, NodeState>) returns (mostImpacted: Option<Impact>)
    requires forall id :: id in ids ==> id in states
    ensures mostImpacted == MostImpacted(ids, states)
  {
    mostImpacted := None;
    var i := 0;
    while i < |ids|
      invariant 0 <= i <= |ids|
      invariant mostImpacted == MostImpacted(ids[..i], states)
    {
      MostImpactedSnoc(ids, i, states);
      var node := states[ids[i]];
      var impact := (if node.maxCapacity == 0.0 then 100.0 else node.maxCapacity) - node.resourceValue;
      if mostImpacted.None? || impact > mostImpacted.value.impactValue {
        mostImpacted := Some(Impact(ids[i], node.name, impact));
      }
      i := i + 1;
    }
    assert ids[..i] == ids;
  }

  /** The loop of `evaluateFailures` over the node entries, in key order. */
  method MarkBreached(ids: seq<NodeId>, before: map<NodeId, NodeState>)
    returns (states: map<NodeId, NodeState>, tripped: seq<NodeId>)
    requires KeyOrder(ids, before)
    ensures states == Evaluated(before)
    ensures tripped == NewlyTripped(ids, before)
  {
    states, tripped := before, [];
    var i := 0;
    assert ids[..0] == [];
    assert forall k :: 0 <= k < |ids| ==> ids[k] in ids;
    while i < |ids|
      invariant 0 <= i <= |ids|
      invariant states.Keys == before.Keys
      invariant forall k :: 0 <= k < i ==> states[ids[k]] == Evaluated(before)[ids[k]]
      invariant forall k :: i <= k < |ids| ==> states[ids[k]] == before[ids[k]]
      invariant tripped == NewlyTripped(ids[..i], before)
    {
      var nodeId := ids[i];
      NewlyTrippedSnoc(ids, i, before);
      var node := states[nodeId];
      if node.resourceValue <= node.failureThreshold && !node.failed {
        states := states[nodeId := node.(failed := true)];
        tripped := tripped + [nodeId];
      }
      i := i + 1;
    }
    assert ids[..i] == ids;
    EvaluatedPointwise(ids, before, states);
  }
}
