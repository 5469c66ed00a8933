/**
 * The deterministic risk heuristics run over a project's node and edge documents: a per-node
 * risk score, critical-node and bottleneck filters, a depth-capped dependency search, the
 * pre-run prediction and the post-run forensic report.
 */
module RiskEngine {
  import opened Wrappers
  import opened GraphDocs

  // ---------------------------------------------------------------------------------
  // Rounding
  // ---------------------------------------------------------------------------------

  /** `Math.round`: the nearest integer, a half rounded up. */
  function Round(x: real): (r: int)
    ensures x - 0.5 < r as real <= x + 0.5
  {
    (x + 0.5).Floor
  }

  /** `Math.round(x * 10) / 10`: the nearest multiple of a tenth. */
  function Round1(x: real): (r: real)
    ensures x - 0.05 < r <= x + 0.05
    ensures (r * 10.0).Floor as real == r * 10.0
  {
    Round(x * 10.0) as real / 10.0
  }

  // ---------------------------------------------------------------------------------
  // Node risk
  // ---------------------------------------------------------------------------------

  /** The score a node's risk is capped at. */
  const MAX_RISK := 100.0

  /** How close the threshold sits to the capacity, on a scale of 10; 0 without a positive capacity. */
  function Proximity(n: NodeDoc): real
  {
    if n.maxCapacity > 0.0 then n.failureThreshold / n.maxCapacity * 10.0 else 0.0
  }

  /** The unrounded score: two per outgoing edge, one and a half per incoming one, a tenth of the outgoing weight, and the proximity. */
  function RawRisk(n: NodeDoc, edges: seq<EdgeDoc>): real
  {
    var out := OutEdges(edges, n.id);
    2.0 * |out| as real + 1.5 * |InEdges(edges, n.id)| as real + WeightSum(out) / 10.0 + Proximity(n)
  }

  /** `calculateNodeRisk`: the raw score rounded to a tenth, capped at 100. */
  function NodeRisk(n: NodeDoc, edges: seq<EdgeDoc>): (r: real)
    ensures r <= MAX_RISK
    ensures (r * 10.0).Floor as real == r * 10.0
    ensures RawRisk(n, edges) < MAX_RISK - 0.05 ==> RawRisk(n, edges) - 0.05 < r <= RawRisk(n, edges) + 0.05
    ensures RawRisk(n, edges) >= MAX_RISK - 0.05 ==> r == MAX_RISK
  {
    var rounded := Round1(RawRisk(n, edges));
    if rounded < MAX_RISK then rounded else MAX_RISK
  }

  /** With non-negative weights and threshold, no node scores below zero. */
  lemma NodeRiskNonNegative(n: NodeDoc, edges: seq<EdgeDoc>)
    requires forall e :: e in edges ==> e.weight >= 0.0
    requires n.failureThreshold >= 0.0
    ensures NodeRisk(n, edges) >= 0.0
  {
    WeightSumNonNegative(OutEdges(edges, n.id));
    assert Proximity(n) >= 0.0;
    assert RawRisk(n, edges) >= 0.0;
  }

  // ---------------------------------------------------------------------------------
  // Node filters
  // ---------------------------------------------------------------------------------

  /** An entry of the critical-node or bottleneck list. */
  datatype Flagged = Flagged(id: Id, name: string, reason: string)

  const CRITICAL_REASON := "High dependency output"
  const BOTTLENECK_REASON := "Critical convergence point"

  /** `nodes.filter(keep).map(...)`: the kept nodes, flagged with `reason`, in node order. */
  function Pick(nodes: seq<NodeDoc>, keep: NodeDoc -> bool, reason: string): (r: seq<Flagged>)
    ensures |r| <= |nodes|
  {
    if nodes == [] then []
    else
      var last := nodes[|nodes| - 1];
      Pick(nodes[..|nodes| - 1], keep, reason) + (if keep(last) then [Flagged(last.id, last.name, reason)] else [])
  }

  /** The positions of the kept nodes, in increasing order. */
  ghost function KeptPositions(nodes: seq<NodeDoc>, keep: NodeDoc -> bool): seq<nat>
  {
    if nodes == [] then []
    else KeptPositions(nodes[..|nodes| - 1], keep) + (if keep(nodes[|nodes| - 1]) then [|nodes| - 1] else [])
  }

  /**
   * The filter keeps exactly the nodes `keep` accepts, in their order: the k-th entry flags
   * the k-th kept position, positions increase, and every accepted position is among them.
   */
  lemma {:induction false} PickSelects(nodes: seq<NodeDoc>, keep: NodeDoc -> bool, reason: string)
    ensures var r := Pick(nodes, keep, reason);
            var ix := KeptPositions(nodes, keep);
      && |ix| == |r|
      && (forall k :: 0 <= k < |ix| ==>
            ix[k] < |nodes| && keep(nodes[ix[k]]) && r[k] == Flagged(nodes[ix[k]].id, nodes[ix[k]].name, reason))
      && (forall k, l :: 0 <= k < l < |ix| ==> ix[k] < ix[l])
      && (forall i :: 0 <= i < |nodes| && keep(nodes[i]) ==> i in ix)
  {
    if nodes != [] {
      var prefix := nodes[..|nodes| - 1];
      PickSelects(prefix, keep, reason);
      forall i | 0 <= i < |prefix| ensures prefix[i] == nodes[i] { }
    }
  }

  /** Out-degree above two, or outgoing weight above 50. */
  predicate IsCritical(n: NodeDoc, edges: seq<EdgeDoc>)
  {
    var out := OutEdges(edges, n.id);
    |out| > 2 || WeightSum(out) > 50.0
  }

  /** In-degree of at least two, and a threshold below 30% of the capacity. */
  predicate IsBottleneck(n: NodeDoc, edges: seq<EdgeDoc>)
  {
    |InEdges(edges, n.id)| >= 2 && n.failureThreshold < n.maxCapacity * 0.3
  }

  /** `detectCriticalNodes`. */
  function CriticalNodes(nodes: seq<NodeDoc>, edges: seq<EdgeDoc>): (r: seq<Flagged>)
    ensures |r| <= |nodes|
  {
    Pick(nodes, n => IsCritical(n, edges), CRITICAL_REASON)
  }

  /** `detectBottlenecks`. */
  function Bottlenecks(nodes: seq<NodeDoc>, edges: seq<EdgeDoc>): (r: seq<Flagged>)
    ensures |r| <= |nodes|
  {
    Pick(nodes, n => IsBottleneck(n, edges), BOTTLENECK_REASON)
  }

  /** A node is listed as critical exactly when it is critical, and every entry comes from a critical node. */
  lemma CriticalNodesExactly(nodes: seq<NodeDoc>, edges: seq<EdgeDoc>)
    ensures var r := CriticalNodes(nodes, edges);
      && (forall n :: n in nodes && IsCritical(n, edges) ==> Flagged(n.id, n.name, CRITICAL_REASON) in r)
      && (forall f :: f in r ==>
            exists n :: n in nodes && IsCritical(n, edges) && f == Flagged(n.id, n.name, CRITICAL_REASON))
  {
    var keep := n => IsCritical(n, edges);
    PickSelects(nodes, keep, CRITICAL_REASON);
    var r := Pick(nodes, keep, CRITICAL_REASON);
    var ix := KeptPositions(nodes, keep);
    forall n | n in nodes && IsCritical(n, edges) ensures Flagged(n.id, n.name, CRITICAL_REASON) in r {
      var i :| 0 <= i < |nodes| && nodes[i] == n;
      var k :| 0 <= k < |ix| && ix[k] == i;
      assert r[k] == Flagged(n.id, n.name, CRITICAL_REASON);
    }
    forall f | f in r ensures exists n :: n in nodes && IsCritical(n, edges) && f == Flagged(n.id, n.name, CRITICAL_REASON) {
      var k :| 0 <= k < |r| && r[k] == f;
      assert nodes[ix[k]] in nodes;
    }
  }

  /** A node is listed as a bottleneck exactly when it is one, and every entry comes from a bottleneck. */
  lemma BottlenecksExactly(nodes: seq<NodeDoc>, edges: seq<EdgeDoc>)
    ensures var r := Bottlenecks(nodes, edges);
      && (forall n :: n in nodes && IsBottleneck(n, edges) ==> Flagged(n.id, n.name, BOTTLENECK_REASON) in r)
      && (forall f :: f in r ==>
            exists n :: n in nodes && IsBottleneck(n, edges) && f == Flagged(n.id, n.name, BOTTLENECK_REASON))
  {
    var keep := n => IsBottleneck(n, edges);
    PickSelects(nodes, keep, BOTTLENECK_REASON);
    var r := Pick(nodes, keep, BOTTLENECK_REASON);
    var ix := KeptPositions(nodes, keep);
    forall n | n in nodes && IsBottleneck(n, edges) ensures Flagged(n.id, n.name, BOTTLENECK_REASON) in r {
      var i :| 0 <= i < |nodes| && nodes[i] == n;
      var k :| 0 <= k < |ix| && ix[k] == i;
      assert r[k] == Flagged(n.id, n.name, BOTTLENECK_REASON);
    }
    forall f | f in r ensures exists n :: n in nodes && IsBottleneck(n, edges) && f == Flagged(n.id, n.name, BOTTLENECK_REASON) {
      var k :| 0 <= k < |r| && r[k] == f;
      assert nodes[ix[k]] in nodes;
    }
  }

  // ---------------------------------------------------------------------------------
  // Dependency depth
  // ---------------------------------------------------------------------------------

  /** The targets of the edges leaving `id`, in edge order. */
  function TargetsFrom(edges: seq<EdgeDoc>, id: Id): seq<Id>
  {
    if edges == [] then []
    else
      var last := edges[|edges| - 1];
      TargetsFrom(edges[..|edges| - 1], id) + (if last.sourceNodeId == id then [last.targetNodeId] else [])
  }

  /** A target listed under `id` is the target of an edge leaving `id`. */
  lemma {:induction false} TargetsFromMembers(edges: seq<EdgeDoc>, id: Id)
    ensures forall t :: t in TargetsFrom(edges, id) <==> exists e :: e in edges && e.sourceNodeId == id && e.targetNodeId == t
  {
    if edges != [] {
      var prefix := edges[..|edges| - 1];
      TargetsFromMembers(prefix, id);
      assert forall e :: e in edges <==> e in prefix || e == edges[|edges| - 1];
    }
  }

  /** `adj`: an entry per node, holding the targets of its outgoing edges; edges from unknown sources are dropped. */
  function DepthAdjacency(nodes: seq<NodeDoc>, edges: seq<EdgeDoc>): map<Id, seq<Id>>
  {
    map id | id in IdsOf(nodes) :: TargetsFrom(edges, id)
  }

  /** `adj[id] || []`. */
  function TargetsOf(adj: map<Id, seq<Id>>, id: Id): seq<Id>
  {
    if id in adj then adj[id] else []
  }

  /** How many more levels the search may still descend before its cap stops it. */
  function Headroom(depth: nat, cap: nat): nat
  {
    if depth <= cap + 1 then cap + 1 - depth else 0
  }

  /** The deepest level `dfs(id, depth)` records: its own depth, and below the cap those of its targets one level down. */
  function Reach(adj: map<Id, seq<Id>>, id: Id, depth: nat, cap: nat): nat
    decreases Headroom(depth, cap), 0
  {
    if depth > cap then depth
    else Max(depth, ReachAll(adj, TargetsOf(adj, id), depth + 1, cap))
  }

  /** The deepest level recorded by the searches started at each of `targets`; 0 for none. */
  function ReachAll(adj: map<Id, seq<Id>>, targets: seq<Id>, depth: nat, cap: nat): nat
    decreases Headroom(depth, cap), |targets|
  {
    if targets == [] then 0
    else Max(ReachAll(adj, targets[..|targets| - 1], depth, cap), Reach(adj, targets[|targets| - 1], depth, cap))
  }

  /** The deepest level recorded by the searches started at depth 1 from each of `ids`. */
  function ReachFromEach(adj: map<Id, seq<Id>>, ids: seq<Id>, cap: nat): nat
  {
    if ids == [] then 0 else Max(ReachFromEach(adj, ids[..|ids| - 1], cap), Reach(adj, ids[|ids| - 1], 1, cap))
  }

  /** `findMaxDepth`: a search from every node, each level capped at the number of nodes. */
  function MaxDepth(nodes: seq<NodeDoc>, edges: seq<EdgeDoc>): (r: nat)
    ensures nodes == [] ==> r == 0
  {
    ReachFromEach(DepthAdjacency(nodes, edges), IdsOf(nodes), |nodes|)
  }

  /** A search started within the cap records at least its own depth and never more than one past the cap. */
  lemma {:induction false} ReachBounds(adj: map<Id, seq<Id>>, id: Id, depth: nat, cap: nat)
    requires depth <= cap + 1
    ensures depth <= Reach(adj, id, depth, cap) <= cap + 1
    decreases Headroom(depth, cap), 0
  {
    if depth <= cap {
      ReachAllBounds(adj, TargetsOf(adj, id), depth + 1, cap);
    }
  }

  lemma {:induction false} ReachAllBounds(adj: map<Id, seq<Id>>, targets: seq<Id>, depth: nat, cap: nat)
    requires depth <= cap + 1
    ensures ReachAll(adj, targets, depth, cap) <= cap + 1
    ensures targets != [] ==> ReachAll(adj, targets, depth, cap) >= depth
    decreases Headroom(depth, cap), |targets|
  {
    if targets != [] {
      ReachAllBounds(adj, targets[..|targets| - 1], depth, cap);
      ReachBounds(adj, targets[|targets| - 1], depth, cap);
    }
  }

  /** Below the cap, a search goes at least as deep as the search of any of its targets one level down. */
  lemma ReachFollowsEdges(adj: map<Id, seq<Id>>, id: Id, t: Id, depth: nat, cap: nat)
    requires t in TargetsOf(adj, id) && depth <= cap
    ensures Reach(adj, id, depth, cap) >= Reach(adj, t, depth + 1, cap)
  {
    ReachAllCovers(adj, TargetsOf(adj, id), t, depth + 1, cap);
  }

  lemma {:induction false} ReachAllCovers(adj: map<Id, seq<Id>>, targets: seq<Id>, t: Id, depth: nat, cap: nat)
    requires t in targets
    ensures ReachAll(adj, targets, depth, cap) >= Reach(adj, t, depth, cap)
  {
    var prefix := targets[..|targets| - 1];
    if t != targets[|targets| - 1] {
      assert t in prefix by {
        var i :| 0 <= i < |targets| && targets[i] == t;
        assert prefix[i] == t;
      }
      ReachAllCovers(adj, prefix, t, depth, cap);
    }
  }

  /** The result of a fold of maxima is one of the folded searches, and bounds every one of them. */
  lemma {:induction false} ReachFromEachIsMaximum(adj: map<Id, seq<Id>>, ids: seq<Id>, cap: nat)
    ensures forall i :: 0 <= i < |ids| ==> ReachFromEach(adj, ids, cap) >= Reach(adj, ids[i], 1, cap)
    ensures ids != [] ==> exists i :: 0 <= i < |ids| && ReachFromEach(adj, ids, cap) == Reach(adj, ids[i], 1, cap)
    ensures ids == [] ==> ReachFromEach(adj, ids, cap) == 0
  {
    if ids != [] {
      var prefix := ids[..|ids| - 1];
      ReachFromEachIsMaximum(adj, prefix, cap);
      forall i | 0 <= i < |prefix| ensures prefix[i] == ids[i] { }
      if ReachFromEach(adj, ids, cap) != Reach(adj, ids[|ids| - 1], 1, cap) {
        var i :| 0 <= i < |prefix| && ReachFromEach(adj, prefix, cap) == Reach(adj, prefix[i], 1, cap);
        assert ReachFromEach(adj, ids, cap) == Reach(adj, ids[i], 1, cap);
      }
    }
  }

  /**
   * The search terminates on any graph, cyclic or not: with no nodes the depth is 0,
   * otherwise it lies between 1 and one more than the number of nodes, and it is the
   * deepest of the searches started at the nodes.
   */
  lemma MaxDepthBounds(nodes: seq<NodeDoc>, edges: seq<EdgeDoc>)
    ensures nodes == [] ==> MaxDepth(nodes, edges) == 0
    ensures nodes != [] ==> 1 <= MaxDepth(nodes, edges) <= |nodes| + 1
    ensures var adj := DepthAdjacency(nodes, edges);
      && (forall i :: 0 <= i < |nodes| ==> MaxDepth(nodes, edges) >= Reach(adj, nodes[i].id, 1, |nodes|))
      && (nodes != [] ==> exists i :: 0 <= i < |nodes| && MaxDepth(nodes, edges) == Reach(adj, nodes[i].id, 1, |nodes|))
  {
    var adj := DepthAdjacency(nodes, edges);
    var ids := IdsOf(nodes);
    ReachFromEachIsMaximum(adj, ids, |nodes|);
    if nodes != [] {
      var i :| 0 <= i < |ids| && ReachFromEach(adj, ids, |nodes|) == Reach(adj, ids[i], 1, |nodes|);
      ReachBounds(adj, ids[i], 1, |nodes|);
    }
  }

  /** A node with an outgoing edge makes the dependency depth at least 2. */
  lemma DependencyDeepens(nodes: seq<NodeDoc>, edges: seq<EdgeDoc>, e: EdgeDoc)
    requires e in edges && e.sourceNodeId in IdsOf(nodes)
    ensures MaxDepth(nodes, edges) >= 2
  {
    var adj := DepthAdjacency(nodes, edges);
    var ids := IdsOf(nodes);
    var i :| 0 <= i < |ids| && ids[i] == e.sourceNodeId;
    TargetsFromMembers(edges, e.sourceNodeId);
    assert e.targetNodeId in TargetsOf(adj, e.sourceNodeId);
    ReachFollowsEdges(adj, e.sourceNodeId, e.targetNodeId, 1, |nodes|);
    ReachBounds(adj, e.targetNodeId, 2, |nodes|);
    MaxDepthBounds(nodes, edges);
  }

  /** `dfs(id, depth)`: record the depth, stop past the cap, otherwise search every target one level down. */
  method Dfs(adj: map<Id, seq<Id>>, id: Id, depth: nat, cap: nat, maxDepth: nat) returns (deepest: nat)
    ensures deepest == Max(maxDepth, Reach(adj, id, depth, cap))
    decreases Headroom(depth, cap)
  {
    deepest := Max(maxDepth, depth);
    if depth > cap {
      return;
    }
    var targets := TargetsOf(adj, id);
    var i := 0;
    assert targets[..0] == [];
    while i < |targets|
      invariant 0 <= i <= |targets|
      invariant deepest == Max(Max(maxDepth, depth), ReachAll(adj, targets[..i], depth + 1, cap))
    {
      assert targets[..i + 1][..i] == targets[..i];
      deepest := Dfs(adj, targets[i], depth + 1, cap, deepest);
      i := i + 1;
    }
    assert targets[..i] == targets;
  }

  /** `nodes.forEach(n => adj[n._id] = [])`: an empty entry per node. */
  method EmptyAdjacency(nodes: seq<NodeDoc>) returns (adj: map<Id, seq<Id>>)
    ensures forall id :: id in adj <==> id in IdsOf(nodes)
    ensures forall id :: id in adj ==> adj[id] == []
  {
    adj := map[];
    var i := 0;
    while i < |nodes|
      invariant 0 <= i <= |nodes|
      invariant forall id :: id in adj <==> id in IdsOf(nodes[..i])
      invariant forall id :: id in adj ==> adj[id] == []
    {
      assert IdsOf(nodes[..i + 1]) == IdsOf(nodes[..i]) + [nodes[i].id] by {
        assert nodes[..i + 1][..i] == nodes[..i];
      }
      adj := adj[nodes[i].id := []];
      i := i + 1;
    }
    assert nodes[..i] == nodes;
  }

  /** `edges.forEach(e => adj[e.sourceNodeId]?.push(e.targetNodeId))`: each target under a known source. */
  method AppendTargets(edges: seq<EdgeDoc>, empty: map<Id, seq<Id>>) returns (adj: map<Id, seq<Id>>)
    requires forall id :: id in empty ==> empty[id] == []
    ensures adj.Keys == empty.Keys
    ensures forall id :: id in adj ==> adj[id] == TargetsFrom(edges, id)
  {
    adj := empty;
    var j := 0;
    assert edges[..0] == [];
    while j < |edges|
      invariant 0 <= j <= |edges|
      invariant adj.Keys == empty.Keys
      invariant forall id :: id in adj ==> adj[id] == TargetsFrom(edges[..j], id)
    {
      var edge := edges[j];
      forall id | id in adj
        ensures TargetsFrom(edges[..j + 1], id)
             == TargetsFrom(edges[..j], id) + (if edge.sourceNodeId == id then [edge.targetNodeId] else [])
      {
        assert edges[..j + 1][..j] == edges[..j];
      }
      if edge.sourceNodeId in adj {
        adj := adj[edge.sourceNodeId := adj[edge.sourceNodeId] + [edge.targetNodeId]];
      }
      j := j + 1;
    }
    assert edges[..j] == edges;
  }

  /** The two `forEach` loops that build `adj`. */
  method BuildDepthAdjacency(nodes: seq<NodeDoc>, edges: seq<EdgeDoc>) returns (adj: map<Id, seq<Id>>)
    ensures adj == DepthAdjacency(nodes, edges)
  {
    var empty := EmptyAdjacency(nodes);
    adj := AppendTargets(edges, empty);
    assert adj.Keys == DepthAdjacency(nodes, edges).Keys;
  }

  /** `findMaxDepth`: build `adj`, then search from every node at depth 1 with the node count as cap. */
  method FindMaxDepth(nodes: seq<NodeDoc>, edges: seq<EdgeDoc>) returns (maxDepth: nat)
    ensures maxDepth == MaxDepth(nodes, edges)
  {
    var adj := BuildDepthAdjacency(nodes, edges);
    var ids := IdsOf(nodes);
    var cap := |nodes|;
    maxDepth := 0;
    var i := 0;
    assert ids[..0] == [];
    while i < |ids|
      invariant 0 <= i <= |ids|
      invariant maxDepth == ReachFromEach(adj, ids[..i], cap)
    {
      ghost var before := ReachFromEach(adj, ids[..i], cap);
      assert ReachFromEach(adj, ids[..i + 1], cap) == Max(before, Reach(adj, ids[i], 1, cap)) by {
        assert ids[..i + 1][..i] == ids[..i];
      }
      maxDepth := Dfs(adj, ids[i], 1, cap, maxDepth);
      i := i + 1;
    }
    assert ids[..i] == ids;
  }

  // ---------------------------------------------------------------------------------
  // Prediction
  // ---------------------------------------------------------------------------------

  /** A risk classification or risk level. */
  datatype Level = LOW | MEDIUM | HIGH

  /** The score of one node in the prediction. */
  datatype NodeRiskEntry = NodeRiskEntry(id: Id, name: string, score: real)

  /** The result of `predictRisk`. */
  datatype Prediction = Prediction(
    nodeRisks: seq<NodeRiskEntry>,
    criticalNodes: seq<Flagged>,
    bottlenecks: seq<Flagged>,
    maxDependencyDepth: nat,
    systemRiskScore: int,
    classification: Level)

  /** `nodes.map(...)`: the score of every node, in node order. */
  function NodeRisks(nodes: seq<NodeDoc>, edges: seq<EdgeDoc>): (r: seq<NodeRiskEntry>)
    ensures |r| == |nodes|
    ensures forall i :: 0 <= i < |nodes| ==> r[i] == NodeRiskEntry(nodes[i].id, nodes[i].name, NodeRisk(nodes[i], edges))
  {
    if nodes == [] then []
    else
      var last := nodes[|nodes| - 1];
      NodeRisks(nodes[..|nodes| - 1], edges) + [NodeRiskEntry(last.id, last.name, NodeRisk(last, edges))]
  }

  /** The sum of the scores, added left to right. */
  function ScoreSum(risks: seq<NodeRiskEntry>): real
  {
    if risks == [] then 0.0 else ScoreSum(risks[..|risks| - 1]) + risks[|risks| - 1].score
  }

  /** The average score; 0 when there are no nodes. */
  function AverageScore(risks: seq<NodeRiskEntry>): real
  {
    if |risks| > 0 then ScoreSum(risks) / |risks| as real else 0.0
  }

  /** HIGH above an average of 7 or a depth of 4; MEDIUM above 4 or 2; LOW otherwise. */
  function Classify(avgScore: real, maxDepth: nat): (r: Level)
    ensures r == LOW <==> avgScore <= 4.0 && maxDepth <= 2
    ensures r == HIGH <==> avgScore > 7.0 || maxDepth > 4
  {
    if avgScore > 7.0 || maxDepth > 4 then HIGH
    else if avgScore > 4.0 || maxDepth > 2 then MEDIUM
    else LOW
  }

  /** `predictRisk`. */
  function PredictRisk(nodes: seq<NodeDoc>, edges: seq<EdgeDoc>): (r: Prediction)
    ensures |r.nodeRisks| == |nodes| && |r.criticalNodes| <= |nodes| && |r.bottlenecks| <= |nodes|
    ensures r.classification == Classify(AverageScore(r.nodeRisks), r.maxDependencyDepth)
  {
    var risks := NodeRisks(nodes, edges);
    var avg := AverageScore(risks);
    var depth := MaxDepth(nodes, edges);
    Prediction(risks, CriticalNodes(nodes, edges), Bottlenecks(nodes, edges), depth, Round(avg * 10.0), Classify(avg, depth))
  }

  /** The rank of a level, LOW lowest. */
  function Rank(l: Level): nat
  {
    match l
    case LOW => 0
    case MEDIUM => 1
    case HIGH => 2
  }

  /** A higher average or a deeper graph never lowers the classification. */
  lemma ClassifyMonotone(avg: real, depth: nat, avg': real, depth': nat)
    requires avg <= avg' && depth <= depth'
    ensures Rank(Classify(avg, depth)) <= Rank(Classify(avg', depth'))
  {
  }

  /** The classification of a prediction, in terms of its own average and depth. */
  lemma PredictionClassification(nodes: seq<NodeDoc>, edges: seq<EdgeDoc>)
    ensures var p := PredictRisk(nodes, edges);
            var avg := AverageScore(p.nodeRisks);
      && (p.classification == HIGH <==> avg > 7.0 || p.maxDependencyDepth > 4)
      && (p.classification == MEDIUM <==> !(avg > 7.0 || p.maxDependencyDepth > 4) && (avg > 4.0 || p.maxDependencyDepth > 2))
      && (p.classification == LOW <==> avg <= 4.0 && p.maxDependencyDepth <= 2)
  {
  }

  /** Scores of at most 100 sum to at most 100 per node. */
  lemma {:induction false} ScoreSumBounded(risks: seq<NodeRiskEntry>)
    requires forall i :: 0 <= i < |risks| ==> risks[i].score <= MAX_RISK
    ensures ScoreSum(risks) <= MAX_RISK * |risks| as real
  {
    if risks != [] {
      var prefix := risks[..|risks| - 1];
      assert forall i :: 0 <= i < |prefix| ==> prefix[i] == risks[i];
      ScoreSumBounded(prefix);
    }
  }

  /** The system score is at most 1000, ten times the largest node score. */
  lemma SystemRiskScoreBounded(nodes: seq<NodeDoc>, edges: seq<EdgeDoc>)
    ensures PredictRisk(nodes, edges).systemRiskScore <= 1000
  {
    var risks := NodeRisks(nodes, edges);
    ScoreSumBounded(risks);
    var avg := AverageScore(risks);
    assert avg <= MAX_RISK by {
      if |risks| > 0 {
        DivideBound(ScoreSum(risks), |risks| as real, MAX_RISK);
      }
    }
    assert Round(avg * 10.0) as real <= 1000.5;
  }

  lemma DivideBound(sum: real, n: real, bound: real)
    requires n > 0.0 && sum <= bound * n
    ensures sum / n <= bound
  {
  }

  /** With no nodes the prediction is empty, of depth 0, scored 0 and LOW. */
  lemma PredictEmptyGraph(edges: seq<EdgeDoc>)
    ensures PredictRisk([], edges) == Prediction([], [], [], 0, 0, LOW)
  {
    MaxDepthBounds([], edges);
  }

  // ---------------------------------------------------------------------------------
  // Post-run analysis
  // ---------------------------------------------------------------------------------

  /** A recommendation of the post-run report, rendered by `AdviceText`. */
  datatype Advice = CircuitBreakers | RaiseThresholds | Redundancy(nodeName: string)

  /** The text of a recommendation. */
  function AdviceText(a: Advice): string
  {
    match a
    case CircuitBreakers => "Introduce circuit breakers in primary dependency chains."
    case RaiseThresholds => "Increase failure thresholds on critical hub nodes."
    case Redundancy(name) => "Add redundancy for " + name + " to distribute convergence load."
  }

  /** The result of `analyzeSimulation`. */
  datatype Report = Report(
    summary: string,
    rootCause: string,
    cascadeDepth: int,
    structuralWeakness: string,
    riskLevel: Level,
    recommendations: seq<Advice>)

  const UNKNOWN_ROOT_CAUSE := "Unknown"
  const NOT_ISOLATED := "High cross-dependency prevents isolation of faults."
  const ISOLATED := "System correctly isolated the failure to local clusters."

  /** The redundancy recommendation for each bottleneck, in bottleneck order. */
  function RedundancyAdvices(bottlenecks: seq<Flagged>): (r: seq<Advice>)
    ensures |r| == |bottlenecks|
    ensures forall k :: 0 <= k < |r| ==> r[k] == Redundancy(bottlenecks[k].name)
  {
    if bottlenecks == [] then []
    else RedundancyAdvices(bottlenecks[..|bottlenecks| - 1]) + [Redundancy(bottlenecks[|bottlenecks| - 1].name)]
  }

  /** `failedNodesInfo`: the nodes whose id is among the failed ids, in node order. */
  function FailedNodesInfo(nodes: seq<NodeDoc>, failedNodeIds: seq<Id>): (r: seq<NodeDoc>)
    ensures |r| <= |nodes|
    ensures forall n :: n in r <==> n in nodes && n.id in failedNodeIds
  {
    if nodes == [] then []
    else (if nodes[0].id in failedNodeIds then [nodes[0]] else []) + FailedNodesInfo(nodes[1..], failedNodeIds)
  }

  /** `failedNodesInfo[0]?.name || "Unknown"`: an empty name counts as missing too. */
  function RootCause(nodes: seq<NodeDoc>, failedNodeIds: seq<Id>): string
  {
    var info := FailedNodesInfo(nodes, failedNodeIds);
    if info != [] && info[0].name != "" then info[0].name else UNKNOWN_ROOT_CAUSE
  }

  /** The first node, in node order, whose id is among the failed ids heads the failed-node list. */
  lemma {:induction false} FirstFailedHeadsInfo(nodes: seq<NodeDoc>, failedNodeIds: seq<Id>, i: nat)
    requires i < |nodes| && nodes[i].id in failedNodeIds
    requires forall j :: 0 <= j < i ==> nodes[j].id !in failedNodeIds
    ensures FailedNodesInfo(nodes, failedNodeIds) != []
    ensures FailedNodesInfo(nodes, failedNodeIds)[0] == nodes[i]
  {
    if i > 0 {
      FirstFailedHeadsInfo(nodes[1..], failedNodeIds, i - 1);
    }
  }

  /**
   * The root cause is the name of the first failed node in node order, or "Unknown"
   * when no node failed or that node's name is empty.
   */
  lemma RootCauseIsFirstFailed(nodes: seq<NodeDoc>, failedNodeIds: seq<Id>)
    ensures (forall n :: n in nodes ==> n.id !in failedNodeIds) ==> RootCause(nodes, failedNodeIds) == UNKNOWN_ROOT_CAUSE
    ensures forall i :: 0 <= i < |nodes| && nodes[i].id in failedNodeIds && (forall j :: 0 <= j < i ==> nodes[j].id !in failedNodeIds) ==>
      RootCause(nodes, failedNodeIds) == if nodes[i].name != "" then nodes[i].name else UNKNOWN_ROOT_CAUSE
  {
    forall i | 0 <= i < |nodes| && nodes[i].id in failedNodeIds && (forall j :: 0 <= j < i ==> nodes[j].id !in failedNodeIds)
      ensures RootCause(nodes, failedNodeIds) == if nodes[i].name != "" then nodes[i].name else UNKNOWN_ROOT_CAUSE
    {
      FirstFailedHeadsInfo(nodes, failedNodeIds, i);
    }
    if forall n :: n in nodes ==> n.id !in failedNodeIds {
      if FailedNodesInfo(nodes, failedNodeIds) != [] {
        assert FailedNodesInfo(nodes, failedNodeIds)[0] in FailedNodesInfo(nodes, failedNodeIds);
      }
    }
  }

  /** The decimal digits of `n`, without leading zeros. */
  function NatToString(n: nat): (r: string)
    ensures |r| >= 1
    ensures forall c :: c in r ==> '0' <= c <= '9'
    ensures r[0] == '0' ==> n == 0
  {
    if n < 10 then ["0123456789"[n]] else NatToString(n / 10) + ["0123456789"[n % 10]]
  }

  /** The number a string of decimal digits denotes. */
  function DigitsValue(s: string): int
  {
    if s == [] then 0 else 10 * DigitsValue(s[..|s| - 1]) + (s[|s| - 1] as int - '0' as int)
  }

  /** Reading the digits back gives the number. */
  lemma {:induction false} NatToStringRoundTrip(n: nat)
    ensures DigitsValue(NatToString(n)) == n
  {
    if n >= 10 {
      NatToStringRoundTrip(n / 10);
      var s := NatToString(n);
      assert s[..|s| - 1] == NatToString(n / 10);
    }
  }

  /** How a template literal renders an integer. */
  function IntToString(i: int): string
  {
    if i < 0 then "-" + NatToString(-i) else NatToString(i)
  }

  /** The one-line summary of a run. */
  function Summary(cascadeDepth: int, failedCount: nat): string
  {
    "Cascade reached depth " + IntToString(cascadeDepth) + " affecting " + IntToString(failedCount) + " nodes."
  }

  /** The recommendations pushed before the per-bottleneck ones. */
  function FixedAdvice(cascadeDepth: int, mostFailed: bool): seq<Advice>
  {
    (if cascadeDepth > 3 then [CircuitBreakers] else []) + (if mostFailed then [RaiseThresholds] else [])
  }

  /**
   * The recommendation list: the circuit-breaker advice exactly when the cascade went deeper
   * than 3, the threshold advice exactly when most nodes failed, then one redundancy advice
   * per bottleneck in bottleneck order.
   */
  lemma AdviceLayout(cascadeDepth: int, mostFailed: bool, bottlenecks: seq<Flagged>)
    ensures var fixedPart := FixedAdvice(cascadeDepth, mostFailed);
            var recs := fixedPart + RedundancyAdvices(bottlenecks);
      && (CircuitBreakers in recs <==> cascadeDepth > 3)
      && (RaiseThresholds in recs <==> mostFailed)
      && |fixedPart| <= 2 && |recs| == |fixedPart| + |bottlenecks|
      && (forall k :: 0 <= k < |fixedPart| ==> !recs[k].Redundancy?)
      && (forall k :: 0 <= k < |bottlenecks| ==> recs[|fixedPart| + k] == Redundancy(bottlenecks[k].name))
  {
    AdviceMembership(cascadeDepth, mostFailed, bottlenecks);
    AdviceOrder(cascadeDepth, mostFailed, bottlenecks);
  }

  /** Each fixed recommendation is in the list exactly under its condition. */
  lemma AdviceMembership(cascadeDepth: int, mostFailed: bool, bottlenecks: seq<Flagged>)
    ensures var recs := FixedAdvice(cascadeDepth, mostFailed) + RedundancyAdvices(bottlenecks);
      && (CircuitBreakers in recs <==> cascadeDepth > 3)
      && (RaiseThresholds in recs <==> mostFailed)
  {
    var fixedPart := FixedAdvice(cascadeDepth, mostFailed);
    var recs := fixedPart + RedundancyAdvices(bottlenecks);
    FixedAdviceFacts(cascadeDepth, mostFailed);
    NoFixedInRedundancy(bottlenecks);
    assert CircuitBreakers in recs <==> CircuitBreakers in fixedPart;
    assert RaiseThresholds in recs <==> RaiseThresholds in fixedPart;
  }

  /** The fixed recommendations come first, then the redundancy ones in bottleneck order. */
  lemma AdviceOrder(cascadeDepth: int, mostFailed: bool, bottlenecks: seq<Flagged>)
    ensures var fixedPart := FixedAdvice(cascadeDepth, mostFailed);
            var recs := fixedPart + RedundancyAdvices(bottlenecks);
      && |fixedPart| <= 2 && |recs| == |fixedPart| + |bottlenecks|
      && (forall k :: 0 <= k < |fixedPart| ==> !recs[k].Redundancy?)
      && (forall k :: 0 <= k < |bottlenecks| ==> recs[|fixedPart| + k] == Redundancy(bottlenecks[k].name))
  {
    var fixedPart := FixedAdvice(cascadeDepth, mostFailed);
    var tail := RedundancyAdvices(bottlenecks);
    var recs := fixedPart + tail;
    FixedAdviceFacts(cascadeDepth, mostFailed);
    forall k | 0 <= k < |fixedPart| ensures !recs[k].Redundancy? {
      assert recs[k] == fixedPart[k];
    }
    forall k | 0 <= k < |bottlenecks| ensures recs[|fixedPart| + k] == Redundancy(bottlenecks[k].name) {
      assert recs[|fixedPart| + k] == tail[k];
    }
  }

  /** No per-bottleneck recommendation is one of the two fixed ones. */
  lemma NoFixedInRedundancy(bottlenecks: seq<Flagged>)
    ensures CircuitBreakers !in RedundancyAdvices(bottlenecks)
    ensures RaiseThresholds !in RedundancyAdvices(bottlenecks)
  {
    RedundancyAdvicesOnly(bottlenecks);
  }

  /** The fixed recommendations: at most two, neither a redundancy advice, each present exactly under its condition. */
  lemma FixedAdviceFacts(cascadeDepth: int, mostFailed: bool)
    ensures var f := FixedAdvice(cascadeDepth, mostFailed);
      && |f| <= 2
      && (CircuitBreakers in f <==> cascadeDepth > 3)
      && (RaiseThresholds in f <==> mostFailed)
      && (forall k :: 0 <= k < |f| ==> !f[k].Redundancy?)
  {
  }

  /** The per-bottleneck recommendations are all redundancy advice. */
  lemma RedundancyAdvicesOnly(bottlenecks: seq<Flagged>)
    ensures forall x :: x in RedundancyAdvices(bottlenecks) ==> x.Redundancy?
  {
    var tail := RedundancyAdvices(bottlenecks);
    forall x | x in tail ensures x.Redundancy? {
      var k :| 0 <= k < |tail| && tail[k] == x;
    }
  }

  /** `analyzeSimulation`: the post-run report, recommendations pushed one by one. */
  method AnalyzeSimulation(nodes: seq<NodeDoc>, edges: seq<EdgeDoc>, failedNodeIds: seq<Id>, cascadeDepth: int)
    returns (report: Report)
    ensures report.summary == Summary(cascadeDepth, |failedNodeIds|)
    ensures report.rootCause == RootCause(nodes, failedNodeIds)
    ensures report.cascadeDepth == cascadeDepth
    ensures report.riskLevel != LOW && (report.riskLevel == HIGH <==> cascadeDepth > 2)
    ensures report.structuralWeakness == (if cascadeDepth > 2 then NOT_ISOLATED else ISOLATED)
    ensures report.recommendations
         == FixedAdvice(cascadeDepth, 2 * |FailedNodesInfo(nodes, failedNodeIds)| > |nodes|)
            + RedundancyAdvices(Bottlenecks(nodes, edges))
  {
    var failedNodesInfo := FailedNodesInfo(nodes, failedNodeIds);
    var rootCause := if failedNodesInfo != [] && failedNodesInfo[0].name != "" then failedNodesInfo[0].name else UNKNOWN_ROOT_CAUSE;
    var structuralWeakness := if cascadeDepth > 2 then NOT_ISOLATED else ISOLATED;

    var recommendations: seq<Advice> := [];
    if cascadeDepth > 3 {
      recommendations := recommendations + [CircuitBreakers];
    }
    if 2 * |failedNodesInfo| > |nodes| {
      recommendations := recommendations + [RaiseThresholds];
    }
    assert recommendations == FixedAdvice(cascadeDepth, 2 * |failedNodesInfo| > |nodes|);
    recommendations := PushRedundancyAdvice(recommendations, Bottlenecks(nodes, edges));

    report := Report(Summary(cascadeDepth, |failedNodeIds|), rootCause, cascadeDepth, structuralWeakness,
                     if cascadeDepth > 2 then HIGH else MEDIUM, recommendations);
  }

  /** `bottlenecks.forEach(b => recommendations.push(...))`. */
  method PushRedundancyAdvice(recommendations: seq<Advice>, bottlenecks: seq<Flagged>) returns (pushed: seq<Advice>)
    ensures pushed == recommendations + RedundancyAdvices(bottlenecks)
  {
    pushed := recommendations;
    var i := 0;
    assert bottlenecks[..0] == [];
    while i < |bottlenecks|
      invariant 0 <= i <= |bottlenecks|
      invariant pushed == recommendations + RedundancyAdvices(bottlenecks[..i])
    {
      assert RedundancyAdvices(bottlenecks[..i + 1]) == RedundancyAdvices(bottlenecks[..i]) + [Redundancy(bottlenecks[i].name)] by {
        assert bottlenecks[..i + 1][..i] == bottlenecks[..i];
      }
      pushed := pushed + [Redundancy(bottlenecks[i].name)];
      i := i + 1;
    }
    assert bottlenecks[..i] == bottlenecks;
  }
}
