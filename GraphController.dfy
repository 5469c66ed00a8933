/**
 * The graph definition handlers: node and edge documents of a project kept in in-memory
 * tables, each handler a sequence of lookups and early returns ending in an insert, a
 * delete or an update, and answering with an HTTP status code.
 *
 * Each handler is given as a specification function over the tables and as a method of
 * the class `GraphStore` proved to agree with it; the lemmas show that the handlers keep
 * the graph invariants the simulation engine relies on.
 */
module GraphController {
  import opened Wrappers
  import opened GraphDocs
  import opened SimulationState

  // ---------------------------------------------------------------------------------
  // Name normalisation
  // ---------------------------------------------------------------------------------

  /** The white-space characters `trim` removes (the ASCII ones, the no-break space and the byte-order mark). */
  predicate IsSpace(c: char)
  {
    c == ' ' || c == '\t' || c == '\n' || c == '\r' || c == '\U{000B}' || c == '\U{000C}' || c == '\U{00A0}' || c == '\U{FEFF}'
  }

  /** `trimStart`. */
  function TrimStart(s: string): string
  {
    if s != [] && IsSpace(s[0]) then TrimStart(s[1..]) else s
  }

  /** `trimEnd`. */
  function TrimEnd(s: string): string
  {
    if s != [] && IsSpace(s[|s| - 1]) then TrimEnd(s[..|s| - 1]) else s
  }

  /** `trim`: white space removed at both ends. */
  function Trim(s: string): string
  {
    TrimEnd(TrimStart(s))
  }

  /** The lower-case form of a letter (letters A to Z; other characters are kept). */
  function LowerChar(c: char): char
  {
    if 'A' <= c <= 'Z' then (c as int + 32) as char else c
  }

  /** `toLowerCase`. */
  function ToLower(s: string): string
  {
    if s == [] then [] else ToLower(s[..|s| - 1]) + [LowerChar(s[|s| - 1])]
  }

  /** `name.trim().toLowerCase()`: the form under which names must be unique in a project. */
  function Normalize(name: string): string
  {
    ToLower(Trim(name))
  }

  /** A string without white space at either end. */
  predicate Trimmed(s: string)
  {
    s == [] || (!IsSpace(s[0]) && !IsSpace(s[|s| - 1]))
  }

  /** `trimStart` drops a prefix and leaves no white space in front. */
  lemma {:induction false} TrimStartFacts(s: string)
    ensures var r := TrimStart(s); |r| <= |s| && r == s[|s| - |r|..] && (r == [] || !IsSpace(r[0]))
  {
    if s != [] && IsSpace(s[0]) {
      TrimStartFacts(s[1..]);
    }
  }

  /** `trimEnd` drops a suffix and leaves no white space at the end. */
  lemma {:induction false} TrimEndFacts(s: string)
    ensures var r := TrimEnd(s); |r| <= |s| && r == s[..|r|] && (r == [] || !IsSpace(r[|r| - 1]))
  {
    if s != [] && IsSpace(s[|s| - 1]) {
      TrimEndFacts(s[..|s| - 1]);
    }
  }

  /** `toLowerCase` maps every character on its own. */
  lemma {:induction false} ToLowerFacts(s: string)
    ensures |ToLower(s)| == |s|
    ensures forall i :: 0 <= i < |s| ==> ToLower(s)[i] == LowerChar(s[i])
  {
    if s != [] {
      ToLowerFacts(s[..|s| - 1]);
    }
  }

  /** The result of `trim` has no white space at either end. */
  lemma TrimIsTrimmed(s: string)
    ensures Trimmed(Trim(s))
  {
    var t := TrimStart(s);
    TrimStartFacts(s);
    TrimEndFacts(t);
    var r := TrimEnd(t);
    if r != [] {
      assert r[0] == t[0];
    }
  }

  /** A string without white space at either end is its own `trim`. */
  lemma TrimmedIsFixed(s: string)
    requires Trimmed(s)
    ensures Trim(s) == s
  {
  }

  /** Normalising twice is normalising once, so a stored normalised name normalises to itself. */
  lemma NormalizeIdempotent(name: string)
    ensures Normalize(Normalize(name)) == Normalize(name)
  {
    var t := Trim(name);
    TrimIsTrimmed(name);
    var l := ToLower(t);
    ToLowerFacts(t);
    ToLowerFacts(l);
    assert Trimmed(l);
    TrimmedIsFixed(l);
    assert ToLower(l) == l;
  }

  // ---------------------------------------------------------------------------------
  // Sequence helpers
  // ---------------------------------------------------------------------------------

  /** `s.filter(keep)`. */
  function Filter<T>(s: seq<T>, keep: T -> bool): (r: seq<T>)
    ensures |r| <= |s|
  {
    if s == [] then [] else Filter(s[..|s| - 1], keep) + (if keep(s[|s| - 1]) then [s[|s| - 1]] else [])
  }

  /** The filter keeps exactly the accepted elements. */
  lemma {:induction false} FilterMembers<T>(s: seq<T>, keep: T -> bool)
    ensures forall x :: x in Filter(s, keep) ==> x in s && keep(x)
    ensures forall x :: x in s && keep(x) ==> x in Filter(s, keep)
  {
    if s != [] {
      FilterMembers(s[..|s| - 1], keep);
      assert forall x :: x in s <==> x in s[..|s| - 1] || x == s[|s| - 1];
    }
  }

  /** Every two elements, in their order, are related by `rel`. */
  predicate Pairwise<T>(s: seq<T>, rel: (T, T) -> bool)
  {
    forall i, j :: 0 <= i < j < |s| ==> rel(s[i], s[j])
  }

  /** Appending keeps a pairwise property when the new element is related to each old one. */
  lemma PairwiseSnoc<T>(s: seq<T>, x: T, rel: (T, T) -> bool)
    requires Pairwise(s, rel)
    requires forall y :: y in s ==> rel(y, x)
    ensures Pairwise(s + [x], rel)
  {
    forall i, j | 0 <= i < j < |s + [x]| ensures rel((s + [x])[i], (s + [x])[j]) {
      if j == |s| {
        assert s[i] in s;
      }
    }
  }

  /** Filtering keeps a pairwise property: it keeps the order of what it keeps. */
  lemma {:induction false} FilterKeepsPairwise<T>(s: seq<T>, keep: T -> bool, rel: (T, T) -> bool)
    requires Pairwise(s, rel)
    ensures Pairwise(Filter(s, keep), rel)
  {
    if s != [] {
      var prefix := s[..|s| - 1];
      var last := s[|s| - 1];
      assert Pairwise(prefix, rel) by {
        forall i, j | 0 <= i < j < |prefix| ensures rel(prefix[i], prefix[j]) {
          assert prefix[i] == s[i] && prefix[j] == s[j];
        }
      }
      FilterKeepsPairwise(prefix, keep, rel);
      if keep(last) {
        forall y | y in Filter(prefix, keep) ensures rel(y, last) {
          FilterMembers(prefix, keep);
          assert y in prefix;
          var i :| 0 <= i < |prefix| && prefix[i] == y;
          assert s[i] == y;
        }
        PairwiseSnoc(Filter(prefix, keep), last, rel);
      }
    }
  }

  // ---------------------------------------------------------------------------------
  // Tables
  // ---------------------------------------------------------------------------------

  /** A project document: the owner is the only non-admin allowed to change its graph. */
  datatype Project = Project(createdBy: Id)

  /** The authenticated user of a request. */
  datatype Caller = Caller(id: Id, isAdmin: bool)

  /** The node, edge and project collections. */
  datatype Tables = Tables(projects: map<Id, Project>, nodes: seq<NodeDoc>, edges: seq<EdgeDoc>)

  const OK := 200
  const CREATED := 201
  const BAD_REQUEST := 400
  const FORBIDDEN := 403
  const NOT_FOUND := 404
  /** An exception (a property read on a missing document or argument) reaches the error handler. */
  const SERVER_ERROR := 500

  /** `project.createdBy.toString() === req.user.id || req.user.role === "admin"`. */
  predicate MayModify(p: Project, c: Caller)
  {
    p.createdBy == c.id || c.isAdmin
  }

  /** `Node.findById`: the first node with that id. */
  function FindNode(nodes: seq<NodeDoc>, id: Id): (r: Option<NodeDoc>)
    ensures r.Some? ==> r.value in nodes && r.value.id == id
    ensures r.None? <==> forall n :: n in nodes ==> n.id != id
  {
    if nodes == [] then None
    else if nodes[0].id == id then Some(nodes[0])
    else FindNode(nodes[1..], id)
  }

  /** `Edge.findById`: the first edge with that id. */
  function FindEdge(edges: seq<EdgeDoc>, id: Id): (r: Option<EdgeDoc>)
    ensures r.Some? ==> r.value in edges && r.value.id == id
    ensures r.None? <==> forall e :: e in edges ==> e.id != id
  {
    if edges == [] then None
    else if edges[0].id == id then Some(edges[0])
    else FindEdge(edges[1..], id)
  }

  /** `Node.findOne({ projectId, nameNormalized, _id: { $ne: except } })`. */
  predicate NameTaken(nodes: seq<NodeDoc>, projectId: Id, nameNormalized: string, except: Option<Id>)
  {
    exists n :: n in nodes && n.projectId == projectId && n.nameNormalized == nameNormalized
                && (except.None? || n.id != except.value)
  }

  /** `Edge.findOne({ projectId, sourceNodeId, targetNodeId })`. */
  predicate EdgeTaken(edges: seq<EdgeDoc>, projectId: Id, sourceNodeId: Id, targetNodeId: Id)
  {
    exists e :: e in edges && e.projectId == projectId && e.sourceNodeId == sourceNodeId && e.targetNodeId == targetNodeId
  }

  /** Neither end of the edge is `nodeId`. */
  predicate Untouched(e: EdgeDoc, nodeId: Id)
  {
    e.sourceNodeId != nodeId && e.targetNodeId != nodeId
  }

  /** The nodes `findByIdAndDelete(nodeId)` keeps. */
  function OtherNode(nodeId: Id): NodeDoc -> bool
  {
    (n: NodeDoc) => n.id != nodeId
  }

  /** The edges `deleteMany({ $or: [{ sourceNodeId }, { targetNodeId }] })` keeps. */
  function Untouching(nodeId: Id): EdgeDoc -> bool
  {
    (e: EdgeDoc) => Untouched(e, nodeId)
  }

  /** The edges `findByIdAndDelete(edgeId)` keeps. */
  function OtherEdge(edgeId: Id): EdgeDoc -> bool
  {
    (e: EdgeDoc) => e.id != edgeId
  }

  /** `findByIdAndUpdate`: every node with that id replaced by `updated`. */
  function ReplaceNode(nodes: seq<NodeDoc>, id: Id, updated: NodeDoc): (r: seq<NodeDoc>)
    ensures |r| == |nodes|
    ensures forall i :: 0 <= i < |nodes| ==> r[i] == if nodes[i].id == id then updated else nodes[i]
  {
    if nodes == [] then []
    else
      var last := nodes[|nodes| - 1];
      ReplaceNode(nodes[..|nodes| - 1], id, updated) + [if last.id == id then updated else last]
  }

  // ---------------------------------------------------------------------------------
  // The graph invariants
  // ---------------------------------------------------------------------------------

  /** Two nodes have different ids, and different normalised names when in the same project. */
  predicate DistinctNodes(a: NodeDoc, b: NodeDoc)
  {
    a.id != b.id && (a.projectId == b.projectId ==> a.nameNormalized != b.nameNormalized)
  }

  /** Two edges have different ids and do not join the same ordered pair in the same project. */
  predicate DistinctEdges(a: EdgeDoc, b: EdgeDoc)
  {
    a.id != b.id && !(a.projectId == b.projectId && a.sourceNodeId == b.sourceNodeId && a.targetNodeId == b.targetNodeId)
  }

  /** A node of project `projectId` has id `id`. */
  predicate HasNode(nodes: seq<NodeDoc>, id: Id, projectId: Id)
  {
    exists n :: n in nodes && n.id == id && n.projectId == projectId
  }

  /** An edge joins two different nodes of its own project. */
  predicate EdgeOk(nodes: seq<NodeDoc>, e: EdgeDoc)
  {
    e.sourceNodeId != e.targetNodeId && HasNode(nodes, e.sourceNodeId, e.projectId) && HasNode(nodes, e.targetNodeId, e.projectId)
  }

  /**
   * The graph invariants: ids unique, node names unique per project after normalisation,
   * stored normalised names consistent, no self-loop, no duplicate edge, and both ends of
   * every edge nodes of the edge's project.
   */
  predicate TablesOk(t: Tables)
  {
    && Pairwise(t.nodes, DistinctNodes)
    && (forall n :: n in t.nodes ==> n.nameNormalized == Normalize(n.name))
    && Pairwise(t.edges, DistinctEdges)
    && (forall e :: e in t.edges ==> EdgeOk(t.nodes, e))
  }

  // ---------------------------------------------------------------------------------
  // Handlers as specifications
  // ---------------------------------------------------------------------------------

  /**
   * `createNode`: 500 without a name, 404 for an unknown project, 403 for a stranger,
   * 400 for a name already used in the project, otherwise the node is added: 201.
   */
  function CreateNodeSpec(t: Tables, c: Caller, projectId: Id, name: Option<string>, kind: string,
                          resourceValue: real, maxCapacity: real, failureThreshold: real, newId: Id): (r: (Tables, int))
    ensures r.1 == CREATED || r.0 == t
    ensures r.1 == CREATED ==> r.0.projects == t.projects && r.0.edges == t.edges && |r.0.nodes| == |t.nodes| + 1
  {
    if name.None? then (t, SERVER_ERROR)
    else if projectId !in t.projects then (t, NOT_FOUND)
    else if !MayModify(t.projects[projectId], c) then (t, FORBIDDEN)
    else
      var nameNormalized := Normalize(name.value);
      if NameTaken(t.nodes, projectId, nameNormalized, None) then (t, BAD_REQUEST)
      else
        var node := NodeDoc(newId, projectId, name.value, nameNormalized, kind, resourceValue, maxCapacity, failureThreshold);
        (t.(nodes := t.nodes + [node]), CREATED)
  }

  /**
   * `deleteNode`: 404 for an unknown node, 500 when its project is gone, 403 for a
   * stranger, otherwise the node and every edge that starts or ends at it are deleted: 200.
   */
  function DeleteNodeSpec(t: Tables, c: Caller, nodeId: Id): (r: (Tables, int))
    ensures r.1 == OK || r.0 == t
    ensures r.0.projects == t.projects
  {
    match FindNode(t.nodes, nodeId)
    case None => (t, NOT_FOUND)
    case Some(node) =>
      if node.projectId !in t.projects then (t, SERVER_ERROR)
      else if !MayModify(t.projects[node.projectId], c) then (t, FORBIDDEN)
      else
        (t.(nodes := Filter(t.nodes, OtherNode(nodeId)),
            edges := Filter(t.edges, Untouching(nodeId))), OK)
  }

  /**
   * `createEdge`: 400 for a self-loop before any lookup, 404 for an unknown project, 403
   * for a stranger, 404 for an unknown end, 400 for an end in another project or an edge
   * that already exists, otherwise the edge is added: 201.
   */
  function CreateEdgeSpec(t: Tables, c: Caller, projectId: Id, sourceNodeId: Id, targetNodeId: Id,
                          weight: real, newId: Id): (r: (Tables, int))
    ensures r.1 == CREATED || r.0 == t
    ensures r.0.projects == t.projects && r.0.nodes == t.nodes
  {
    if sourceNodeId == targetNodeId then (t, BAD_REQUEST)
    else if projectId !in t.projects then (t, NOT_FOUND)
    else if !MayModify(t.projects[projectId], c) then (t, FORBIDDEN)
    else
      var source := FindNode(t.nodes, sourceNodeId);
      var target := FindNode(t.nodes, targetNodeId);
      if source.None? || target.None? then (t, NOT_FOUND)
      else if source.value.projectId != projectId || target.value.projectId != projectId then (t, BAD_REQUEST)
      else if EdgeTaken(t.edges, projectId, sourceNodeId, targetNodeId) then (t, BAD_REQUEST)
      else (t.(edges := t.edges + [EdgeDoc(newId, projectId, sourceNodeId, targetNodeId, weight)]), CREATED)
  }

  /** `deleteEdge`: 404 for an unknown edge, 500 when its project is gone, 403 for a stranger, otherwise deleted: 200. */
  function DeleteEdgeSpec(t: Tables, c: Caller, edgeId: Id): (r: (Tables, int))
    ensures r.1 == OK || r.0 == t
    ensures r.0.projects == t.projects && r.0.nodes == t.nodes
  {
    match FindEdge(t.edges, edgeId)
    case None => (t, NOT_FOUND)
    case Some(edge) =>
      if edge.projectId !in t.projects then (t, SERVER_ERROR)
      else if !MayModify(t.projects[edge.projectId], c) then (t, FORBIDDEN)
      else (t.(edges := Filter(t.edges, OtherEdge(edgeId))), OK)
  }

  /** The field checks `updateNode` makes before it reads any table. */
  predicate UpdateInputOk(name: string, resourceValue: real, maxCapacity: real, failureThreshold: real)
  {
    name != [] && resourceValue >= 0.0 && failureThreshold >= 0.0 && maxCapacity >= failureThreshold
  }

  /**
   * `updateNode`: 500 without a name; 400 for an empty name, a negative resource or
   * threshold, or a capacity below the threshold; 404 for an unknown node or project; 403
   * for a stranger; 400 while a running simulation record exists for the project or when
   * another node of the project has the name; otherwise the node is updated: 200.
   */
  function UpdateNodeSpec(t: Tables, c: Caller, nodeId: Id, name: Option<string>, resourceValue: real,
                          maxCapacity: real, failureThreshold: real, running: map<ProjectId, Record>): (r: (Tables, int))
    ensures r.1 == OK || r.0 == t
    ensures r.0.projects == t.projects && r.0.edges == t.edges && |r.0.nodes| == |t.nodes|
  {
    if name.None? then (t, SERVER_ERROR)
    else if !UpdateInputOk(name.value, resourceValue, maxCapacity, failureThreshold) then (t, BAD_REQUEST)
    else match FindNode(t.nodes, nodeId)
      case None => (t, NOT_FOUND)
      case Some(node) =>
        var projectId := node.projectId;
        var nameNormalized := Normalize(name.value);
        if projectId !in t.projects then (t, NOT_FOUND)
        else if !MayModify(t.projects[projectId], c) then (t, FORBIDDEN)
        else if projectId in running && running[projectId].isRunning then (t, BAD_REQUEST)
        else if NameTaken(t.nodes, projectId, nameNormalized, Some(nodeId)) then (t, BAD_REQUEST)
        else
          var updated := node.(name := name.value, nameNormalized := nameNormalized, resourceValue := resourceValue,
                               maxCapacity := maxCapacity, failureThreshold := failureThreshold);
          (t.(nodes := ReplaceNode(t.nodes, nodeId, updated)), OK)
  }

  // ---------------------------------------------------------------------------------
  // What the handlers guarantee
  // ---------------------------------------------------------------------------------

  /** A node id no document uses. */
  predicate FreshNodeId(t: Tables, id: Id)
  {
    forall n :: n in t.nodes ==> n.id != id
  }

  /** An edge id no document uses. */
  predicate FreshEdgeId(t: Tables, id: Id)
  {
    forall e :: e in t.edges ==> e.id != id
  }

  /** Creating a node keeps the invariants; a created node's name is new to its project. */
  lemma CreateNodeKeepsTablesOk(t: Tables, c: Caller, projectId: Id, name: Option<string>, kind: string,
                                resourceValue: real, maxCapacity: real, failureThreshold: real, newId: Id)
    requires TablesOk(t) && FreshNodeId(t, newId)
    ensures TablesOk(CreateNodeSpec(t, c, projectId, name, kind, resourceValue, maxCapacity, failureThreshold, newId).0)
  {
    var (t', status) := CreateNodeSpec(t, c, projectId, name, kind, resourceValue, maxCapacity, failureThreshold, newId);
    if status == CREATED {
      var node := t'.nodes[|t'.nodes| - 1];
      assert t'.nodes == t.nodes + [node];
      PairwiseSnoc(t.nodes, node, DistinctNodes);
      forall e | e in t'.edges ensures EdgeOk(t'.nodes, e) {
        assert EdgeOk(t.nodes, e);
        var s :| s in t.nodes && s.id == e.sourceNodeId && s.projectId == e.projectId;
        var g :| g in t.nodes && g.id == e.targetNodeId && g.projectId == e.projectId;
        assert s in t'.nodes && g in t'.nodes;
      }
    }
  }

  /**
   * What createNode does once the name is present, the project found and the caller
   * allowed: a name whose trimmed, lower-cased form another node of the project already
   * has is refused with 400 and nothing changes; otherwise the node is created, appended
   * after the existing rows with the name as given and its normalised form: 201.
   */
  lemma CreateNodeOutcome(t: Tables, c: Caller, projectId: Id, name: Option<string>, kind: string,
                          resourceValue: real, maxCapacity: real, failureThreshold: real, newId: Id)
    requires name.Some? && projectId in t.projects && MayModify(t.projects[projectId], c)
    ensures var (t', status) := CreateNodeSpec(t, c, projectId, name, kind, resourceValue, maxCapacity, failureThreshold, newId);
      && (NameTaken(t.nodes, projectId, Normalize(name.value), None) ==> t' == t && status == BAD_REQUEST)
      && (status == CREATED <==> !NameTaken(t.nodes, projectId, Normalize(name.value), None))
      && (status == CREATED ==>
            && t'.nodes == t.nodes + [NodeDoc(newId, projectId, name.value, Normalize(name.value), kind,
                                              resourceValue, maxCapacity, failureThreshold)]
            && t'.edges == t.edges && t'.projects == t.projects)
  {
  }

  /**
   * Deleting a node keeps the invariants, removes every edge that touches it, and keeps
   * every other edge in its order.
   */
  lemma DeleteNodeCascades(t: Tables, c: Caller, nodeId: Id)
    requires TablesOk(t)
    ensures var (t', status) := DeleteNodeSpec(t, c, nodeId);
      && TablesOk(t')
      && (status == OK ==>
            && (forall n :: n in t'.nodes <==> n in t.nodes && n.id != nodeId)
            && (forall e :: e in t'.edges <==> e in t.edges && Untouched(e, nodeId))
            && t'.edges == Filter(t.edges, Untouching(nodeId)))
  {
    var (t', status) := DeleteNodeSpec(t, c, nodeId);
    if status == OK {
      var keepNode := OtherNode(nodeId);
      var keepEdge := Untouching(nodeId);
      FilterMembers(t.nodes, keepNode);
      FilterMembers(t.edges, keepEdge);
      FilterKeepsPairwise(t.nodes, keepNode, DistinctNodes);
      FilterKeepsPairwise(t.edges, keepEdge, DistinctEdges);
      forall e | e in t'.edges ensures EdgeOk(t'.nodes, e) {
        assert EdgeOk(t.nodes, e);
        var s :| s in t.nodes && s.id == e.sourceNodeId && s.projectId == e.projectId;
        var g :| g in t.nodes && g.id == e.targetNodeId && g.projectId == e.projectId;
        assert s in t'.nodes && g in t'.nodes;
      }
    }
  }

  /**
   * A self-loop is refused whatever the tables hold; a created edge is appended and is the
   * only change, with both ends nodes of the project; every refusal changes nothing.
   */
  lemma CreateEdgeOutcome(t: Tables, c: Caller, projectId: Id, sourceNodeId: Id, targetNodeId: Id,
                          weight: real, newId: Id)
    ensures var (t', status) := CreateEdgeSpec(t, c, projectId, sourceNodeId, targetNodeId, weight, newId);
      && (sourceNodeId == targetNodeId ==> status == BAD_REQUEST)
      && (status == CREATED ==>
            && t'.edges == t.edges + [EdgeDoc(newId, projectId, sourceNodeId, targetNodeId, weight)]
            && t'.nodes == t.nodes && t'.projects == t.projects
            && HasNode(t.nodes, sourceNodeId, projectId) && HasNode(t.nodes, targetNodeId, projectId)
            && !EdgeTaken(t.edges, projectId, sourceNodeId, targetNodeId))
      && (status != CREATED ==> t' == t)
  {
    var (t', status) := CreateEdgeSpec(t, c, projectId, sourceNodeId, targetNodeId, weight, newId);
    if status == CREATED {
      var source := FindNode(t.nodes, sourceNodeId).value;
      var target := FindNode(t.nodes, targetNodeId).value;
      assert HasNode(t.nodes, sourceNodeId, projectId) by { assert source in t.nodes; }
      assert HasNode(t.nodes, targetNodeId, projectId) by { assert target in t.nodes; }
    }
  }

  /** Creating an edge keeps the invariants. */
  lemma CreateEdgeKeepsTablesOk(t: Tables, c: Caller, projectId: Id, sourceNodeId: Id, targetNodeId: Id,
                                weight: real, newId: Id)
    requires TablesOk(t) && FreshEdgeId(t, newId)
    ensures TablesOk(CreateEdgeSpec(t, c, projectId, sourceNodeId, targetNodeId, weight, newId).0)
  {
    CreateEdgeOutcome(t, c, projectId, sourceNodeId, targetNodeId, weight, newId);
    if CreateEdgeSpec(t, c, projectId, sourceNodeId, targetNodeId, weight, newId).1 == CREATED {
      var edge := EdgeDoc(newId, projectId, sourceNodeId, targetNodeId, weight);
      forall y | y in t.edges ensures DistinctEdges(y, edge) {
        assert y.id != newId;
      }
      AppendEdgeKeepsTablesOk(t, edge);
    }
  }

  /** Appending an edge between two nodes of its project, distinct from every stored edge, keeps the invariants. */
  lemma AppendEdgeKeepsTablesOk(t: Tables, edge: EdgeDoc)
    requires TablesOk(t)
    requires EdgeOk(t.nodes, edge)
    requires forall y :: y in t.edges ==> DistinctEdges(y, edge)
    ensures TablesOk(t.(edges := t.edges + [edge]))
  {
    var t' := t.(edges := t.edges + [edge]);
    PairwiseSnoc(t.edges, edge, DistinctEdges);
    forall e | e in t'.edges ensures EdgeOk(t'.nodes, e) {
      if e != edge {
        assert e in t.edges;
      }
    }
  }

  /** Deleting an edge keeps the invariants and removes exactly the edges with that id. */
  lemma DeleteEdgeKeepsTablesOk(t: Tables, c: Caller, edgeId: Id)
    requires TablesOk(t)
    ensures var (t', status) := DeleteEdgeSpec(t, c, edgeId);
      && TablesOk(t')
      && (status == OK ==> t'.nodes == t.nodes && (forall e :: e in t'.edges <==> e in t.edges && e.id != edgeId))
      && (status != OK ==> t' == t)
  {
    var (t', status) := DeleteEdgeSpec(t, c, edgeId);
    if status == OK {
      var keep := OtherEdge(edgeId);
      FilterMembers(t.edges, keep);
      FilterKeepsPairwise(t.edges, keep, DistinctEdges);
    }
  }

  /** Replacing a node by one with the same id and project keeps every edge's ends in place. */
  lemma ReplaceKeepsEnds(nodes: seq<NodeDoc>, id: Id, updated: NodeDoc, e: EdgeDoc)
    requires FindNode(nodes, id).Some?
    requires updated.id == id && updated.projectId == FindNode(nodes, id).value.projectId
    requires Pairwise(nodes, DistinctNodes)
    requires EdgeOk(nodes, e)
    ensures EdgeOk(ReplaceNode(nodes, id, updated), e)
  {
    var r := ReplaceNode(nodes, id, updated);
    var old_ := FindNode(nodes, id).value;
    forall x, p | HasNode(nodes, x, p) ensures HasNode(r, x, p) {
      var n :| n in nodes && n.id == x && n.projectId == p;
      var i :| 0 <= i < |nodes| && nodes[i] == n;
      if n.id == id {
        var j :| 0 <= j < |nodes| && nodes[j] == old_;
        assert i == j;
      }
      assert r[i] in r;
    }
  }

  /**
   * Updating a node keeps the invariants; every refusal leaves the tables as they were,
   * an invalid field is refused before any lookup, and a running simulation of the
   * project blocks every edit of its nodes.
   */
  lemma UpdateNodeKeepsTablesOk(t: Tables, c: Caller, nodeId: Id, name: Option<string>, resourceValue: real,
                                maxCapacity: real, failureThreshold: real, running: map<ProjectId, Record>)
    requires TablesOk(t)
    ensures var (t', status) := UpdateNodeSpec(t, c, nodeId, name, resourceValue, maxCapacity, failureThreshold, running);
      && TablesOk(t')
      && (status != OK ==> t' == t)
      && (name.Some? && !UpdateInputOk(name.value, resourceValue, maxCapacity, failureThreshold) ==> status == BAD_REQUEST)
      && (status == OK ==> var p := FindNode(t.nodes, nodeId).value.projectId;
                           p in t.projects && MayModify(t.projects[p], c) && !(p in running && running[p].isRunning))
  {
    var (t', status) := UpdateNodeSpec(t, c, nodeId, name, resourceValue, maxCapacity, failureThreshold, running);
    if status == OK {
      var node := FindNode(t.nodes, nodeId).value;
      var nn := Normalize(name.value);
      var updated := node.(name := name.value, nameNormalized := nn, resourceValue := resourceValue,
                           maxCapacity := maxCapacity, failureThreshold := failureThreshold);
      var r := ReplaceNode(t.nodes, nodeId, updated);
      assert t'.nodes == r;
      UpdateKeepsDistinct(t.nodes, node, updated);
      forall e | e in t'.edges ensures EdgeOk(r, e) {
        ReplaceKeepsEnds(t.nodes, nodeId, updated, e);
      }
    }
  }

  /** The update keeps ids and names distinct when the new name is free in the project. */
  lemma UpdateKeepsDistinct(nodes: seq<NodeDoc>, node: NodeDoc, updated: NodeDoc)
    requires Pairwise(nodes, DistinctNodes)
    requires node in nodes && updated.id == node.id && updated.projectId == node.projectId
    requires !NameTaken(nodes, node.projectId, updated.nameNormalized, Some(node.id))
    requires forall n :: n in nodes ==> n.nameNormalized == Normalize(n.name)
    requires updated.nameNormalized == Normalize(updated.name)
    ensures Pairwise(ReplaceNode(nodes, node.id, updated), DistinctNodes)
    ensures forall n :: n in ReplaceNode(nodes, node.id, updated) ==> n.nameNormalized == Normalize(n.name)
  {
    var r := ReplaceNode(nodes, node.id, updated);
    forall i, j | 0 <= i < j < |r| ensures DistinctNodes(r[i], r[j]) {
      assert DistinctNodes(nodes[i], nodes[j]);
      if nodes[i].id == node.id {
        assert nodes[j] in nodes;
      } else if nodes[j].id == node.id {
        assert nodes[i] in nodes;
      }
    }
    forall n | n in r ensures n.nameNormalized == Normalize(n.name) {
      var i :| 0 <= i < |r| && r[i] == n;
      assert nodes[i] in nodes;
    }
  }

  /** Every handler that writes has found the caller to be the project's owner or an admin. */
  lemma WritesNeedOwnerOrAdmin(t: Tables, c: Caller, nodeId: Id, edgeId: Id)
    ensures var (t', status) := DeleteNodeSpec(t, c, nodeId);
      status == OK ==> var p := FindNode(t.nodes, nodeId).value.projectId; p in t.projects && MayModify(t.projects[p], c)
    ensures var (t', status) := DeleteEdgeSpec(t, c, edgeId);
      status == OK ==> var p := FindEdge(t.edges, edgeId).value.projectId; p in t.projects && MayModify(t.projects[p], c)
    ensures forall projectId, name, kind, rv, mc, ft, newId ::
      CreateNodeSpec(t, c, projectId, name, kind, rv, mc, ft, newId).1 == CREATED ==>
        projectId in t.projects && MayModify(t.projects[projectId], c)
    ensures forall projectId, sourceNodeId, targetNodeId, weight, newId ::
      CreateEdgeSpec(t, c, projectId, sourceNodeId, targetNodeId, weight, newId).1 == CREATED ==>
        projectId in t.projects && MayModify(t.projects[projectId], c)
    ensures forall name, rv, mc, ft, running ::
      UpdateNodeSpec(t, c, nodeId, name, rv, mc, ft, running).1 == OK ==>
        var p := FindNode(t.nodes, nodeId).value.projectId; p in t.projects && MayModify(t.projects[p], c)
  {
  }

  /**
   * The other direction: once a handler has found the project, and every check it makes
   * before the ownership check has passed, a caller who is neither the owner nor an admin
   * is refused with 403 and the tables stay as they were.
   */
  lemma StrangersAreForbidden(t: Tables, c: Caller)
    ensures forall projectId, name: Option<string>, kind, rv, mc, ft, newId ::
      name.Some? && projectId in t.projects && !MayModify(t.projects[projectId], c) ==>
        CreateNodeSpec(t, c, projectId, name, kind, rv, mc, ft, newId) == (t, FORBIDDEN)
    ensures forall nodeId ::
      FindNode(t.nodes, nodeId).Some? && FindNode(t.nodes, nodeId).value.projectId in t.projects
      && !MayModify(t.projects[FindNode(t.nodes, nodeId).value.projectId], c) ==>
        DeleteNodeSpec(t, c, nodeId) == (t, FORBIDDEN)
    ensures forall projectId, sourceNodeId, targetNodeId, weight, newId ::
      sourceNodeId != targetNodeId && projectId in t.projects && !MayModify(t.projects[projectId], c) ==>
        CreateEdgeSpec(t, c, projectId, sourceNodeId, targetNodeId, weight, newId) == (t, FORBIDDEN)
    ensures forall edgeId ::
      FindEdge(t.edges, edgeId).Some? && FindEdge(t.edges, edgeId).value.projectId in t.projects
      && !MayModify(t.projects[FindEdge(t.edges, edgeId).value.projectId], c) ==>
        DeleteEdgeSpec(t, c, edgeId) == (t, FORBIDDEN)
    ensures forall nodeId, name: Option<string>, rv, mc, ft, running ::
      name.Some? && UpdateInputOk(name.value, rv, mc, ft)
      && FindNode(t.nodes, nodeId).Some? && FindNode(t.nodes, nodeId).value.projectId in t.projects
      && !MayModify(t.projects[FindNode(t.nodes, nodeId).value.projectId], c) ==>
        UpdateNodeSpec(t, c, nodeId, name, rv, mc, ft, running) == (t, FORBIDDEN)
  {
  }

  /**
   * When an update succeeds: valid fields, the node and its project found, the caller
   * allowed, no running simulation of the project, and no OTHER node of the project under
   * the new normalised name. The node's own current name does not block it.
   */
  lemma UpdateNodeSucceeds(t: Tables, c: Caller, nodeId: Id, name: string, resourceValue: real,
                           maxCapacity: real, failureThreshold: real, running: map<ProjectId, Record>)
    requires UpdateInputOk(name, resourceValue, maxCapacity, failureThreshold)
    requires FindNode(t.nodes, nodeId).Some?
    requires var p := FindNode(t.nodes, nodeId).value.projectId;
      p in t.projects && MayModify(t.projects[p], c) && !(p in running && running[p].isRunning)
    requires forall n :: n in t.nodes && n.projectId == FindNode(t.nodes, nodeId).value.projectId && n.id != nodeId ==>
      n.nameNormalized != Normalize(name)
    ensures var (t', status) := UpdateNodeSpec(t, c, nodeId, Some(name), resourceValue, maxCapacity, failureThreshold, running);
      var node := FindNode(t.nodes, nodeId).value;
      && status == OK
      && t'.nodes == ReplaceNode(t.nodes, nodeId,
           node.(name := name, nameNormalized := Normalize(name), resourceValue := resourceValue,
                 maxCapacity := maxCapacity, failureThreshold := failureThreshold))
  {
  }

  /**
   * Saving a node again under a name that normalises to its own stored name succeeds
   * whenever the caller may edit and no simulation of the project runs: in a consistent
   * graph no other node of the project holds that name.
   */
  lemma UpdateUnderOwnNameSucceeds(t: Tables, c: Caller, nodeId: Id, name: string, resourceValue: real,
                                   maxCapacity: real, failureThreshold: real, running: map<ProjectId, Record>)
    requires TablesOk(t)
    requires UpdateInputOk(name, resourceValue, maxCapacity, failureThreshold)
    requires FindNode(t.nodes, nodeId).Some?
    requires Normalize(name) == FindNode(t.nodes, nodeId).value.nameNormalized
    requires var p := FindNode(t.nodes, nodeId).value.projectId;
      p in t.projects && MayModify(t.projects[p], c) && !(p in running && running[p].isRunning)
    ensures UpdateNodeSpec(t, c, nodeId, Some(name), resourceValue, maxCapacity, failureThreshold, running).1 == OK
  {
    var node := FindNode(t.nodes, nodeId).value;
    forall n | n in t.nodes && n.projectId == node.projectId && n.id != nodeId
      ensures n.nameNormalized != Normalize(name)
    {
      var i :| 0 <= i < |t.nodes| && t.nodes[i] == n;
      var j :| 0 <= j < |t.nodes| && t.nodes[j] == node;
      if i < j {
        assert DistinctNodes(t.nodes[i], t.nodes[j]);
      } else {
        assert i != j;
        assert DistinctNodes(t.nodes[j], t.nodes[i]);
      }
    }
    UpdateNodeSucceeds(t, c, nodeId, name, resourceValue, maxCapacity, failureThreshold, running);
  }

  // ---------------------------------------------------------------------------------
  // The queries, as the document store runs them
  // ---------------------------------------------------------------------------------

  /** `Node.findById`: a scan for the first node with that id. */
  method FindNodeById(nodes: seq<NodeDoc>, id: Id) returns (found: Option<NodeDoc>)
    ensures found == FindNode(nodes, id)
  {
    var i := 0;
    while i < |nodes|
      invariant 0 <= i <= |nodes|
      invariant FindNode(nodes[i..], id) == FindNode(nodes, id)
    {
      assert nodes[i..][1..] == nodes[i + 1..];
      if nodes[i].id == id {
        return Some(nodes[i]);
      }
      i := i + 1;
    }
    return None;
  }

  /** `Edge.findById`: a scan for the first edge with that id. */
  method FindEdgeById(edges: seq<EdgeDoc>, id: Id) returns (found: Option<EdgeDoc>)
    ensures found == FindEdge(edges, id)
  {
    var i := 0;
    while i < |edges|
      invariant 0 <= i <= |edges|
      invariant FindEdge(edges[i..], id) == FindEdge(edges, id)
    {
      assert edges[i..][1..] == edges[i + 1..];
      if edges[i].id == id {
        return Some(edges[i]);
      }
      i := i + 1;
    }
    return None;
  }

  /** `Node.findOne({ projectId, nameNormalized, _id: { $ne: except } })`: a scan for a clash. */
  method FindNameInProject(nodes: seq<NodeDoc>, projectId: Id, nameNormalized: string, except: Option<Id>)
    returns (taken: bool)
    ensures taken == NameTaken(nodes, projectId, nameNormalized, except)
  {
    var i := 0;
    while i < |nodes|
      invariant 0 <= i <= |nodes|
      invariant !NameTaken(nodes[..i], projectId, nameNormalized, except)
    {
      var n := nodes[i];
      if n.projectId == projectId && n.nameNormalized == nameNormalized && (except.None? || n.id != except.value) {
        assert n in nodes;
        return true;
      }
      assert forall m :: m in nodes[..i + 1] ==> m in nodes[..i] || m == n;
      i := i + 1;
    }
    assert nodes[..i] == nodes;
    return false;
  }

  /** `Edge.findOne({ projectId, sourceNodeId, targetNodeId })`: a scan for the same ordered pair. */
  method FindEdgeTriple(edges: seq<EdgeDoc>, projectId: Id, sourceNodeId: Id, targetNodeId: Id) returns (taken: bool)
    ensures taken == EdgeTaken(edges, projectId, sourceNodeId, targetNodeId)
  {
    var i := 0;
    while i < |edges|
      invariant 0 <= i <= |edges|
      invariant !EdgeTaken(edges[..i], projectId, sourceNodeId, targetNodeId)
    {
      var e := edges[i];
      if e.projectId == projectId && e.sourceNodeId == sourceNodeId && e.targetNodeId == targetNodeId {
        assert e in edges;
        return true;
      }
      assert forall x :: x in edges[..i + 1] ==> x in edges[..i] || x == e;
      i := i + 1;
    }
    assert edges[..i] == edges;
    return false;
  }

  /** A delete by condition: every document the condition rejects is removed, the rest keep their order. */
  method DeleteWhere<T>(docs: seq<T>, keep: T -> bool) returns (kept: seq<T>)
    ensures kept == Filter(docs, keep)
  {
    kept := [];
    var i := 0;
    while i < |docs|
      invariant 0 <= i <= |docs|
      invariant kept == Filter(docs[..i], keep)
    {
      assert docs[..i + 1][..i] == docs[..i];
      if keep(docs[i]) {
        kept := kept + [docs[i]];
      }
      i := i + 1;
    }
    assert docs[..i] == docs;
  }

  /** `findByIdAndUpdate`: the matching node replaced where it stands. */
  method UpdateWhere(nodes: seq<NodeDoc>, id: Id, updated: NodeDoc) returns (result: seq<NodeDoc>)
    ensures result == ReplaceNode(nodes, id, updated)
  {
    result := [];
    var i := 0;
    while i < |nodes|
      invariant 0 <= i <= |nodes|
      invariant result == ReplaceNode(nodes[..i], id, updated)
    {
      assert nodes[..i + 1][..i] == nodes[..i];
      result := result + [if nodes[i].id == id then updated else nodes[i]];
      i := i + 1;
    }
    assert nodes[..i] == nodes;
  }

  // ---------------------------------------------------------------------------------
  // The handlers
  // ---------------------------------------------------------------------------------

  /** The node, edge and project collections, changed in place by the handlers. */
  class GraphStore {
    var projects: map<Id, Project>
    var nodes: seq<NodeDoc>
    var edges: seq<EdgeDoc>

    /** The collections as a value. */
    function Contents(): Tables
      reads this
    {
      Tables(projects, nodes, edges)
    }

    /** The graph invariants hold. */
    ghost predicate Valid()
      reads this
    {
      TablesOk(Contents())
    }

    /** Collections with the given projects and no graph yet. */
    constructor (projects: map<Id, Project>)
      ensures Contents() == Tables(projects, [], [])
      ensures Valid()
    {
      this.projects := projects;
      nodes := [];
      edges := [];
    }

    /** `createNode`. */
    method CreateNode(c: Caller, projectId: Id, name: Option<string>, kind: string,
                      resourceValue: real, maxCapacity: real, failureThreshold: real, newId: Id)
      returns (status: int)
      modifies this
      ensures (Contents(), status)
           == CreateNodeSpec(old(Contents()), c, projectId, name, kind, resourceValue, maxCapacity, failureThreshold, newId)
      ensures old(Valid()) && FreshNodeId(old(Contents()), newId) ==> Valid()
    {
      if Valid() && FreshNodeId(Contents(), newId) {
        CreateNodeKeepsTablesOk(Contents(), c, projectId, name, kind, resourceValue, maxCapacity, failureThreshold, newId);
      }
      if name.None? {
        return SERVER_ERROR;
      }
      var nameNormalized := Normalize(name.value);
      if projectId !in projects {
        return NOT_FOUND;
      }
      if !MayModify(projects[projectId], c) {
        return FORBIDDEN;
      }
      var taken := FindNameInProject(nodes, projectId, nameNormalized, None);
      if taken {
        return BAD_REQUEST;
      }
      nodes := nodes + [NodeDoc(newId, projectId, name.value, nameNormalized, kind, resourceValue, maxCapacity, failureThreshold)];
      status := CREATED;
    }

    /** `deleteNode`, with the cascade over the edges. */
    method DeleteNode(c: Caller, nodeId: Id) returns (status: int)
      modifies this
      ensures (Contents(), status) == DeleteNodeSpec(old(Contents()), c, nodeId)
      ensures old(Valid()) ==> Valid()
    {
      if Valid() {
        DeleteNodeCascades(Contents(), c, nodeId);
      }
      var node := FindNodeById(nodes, nodeId);
      if node.None? {
        return NOT_FOUND;
      }
      var projectId := node.value.projectId;
      if projectId !in projects {
        return SERVER_ERROR;
      }
      if !MayModify(projects[projectId], c) {
        return FORBIDDEN;
      }
      nodes := DeleteWhere(nodes, OtherNode(nodeId));
      edges := DeleteWhere(edges, Untouching(nodeId));
      status := OK;
    }

    /** `createEdge`. */
    method CreateEdge(c: Caller, projectId: Id, sourceNodeId: Id, targetNodeId: Id, weight: real, newId: Id)
      returns (status: int)
      modifies this
      ensures (Contents(), status) == CreateEdgeSpec(old(Contents()), c, projectId, sourceNodeId, targetNodeId, weight, newId)
      ensures old(Valid()) && FreshEdgeId(old(Contents()), newId) ==> Valid()
    {
      if Valid() && FreshEdgeId(Contents(), newId) {
        CreateEdgeKeepsTablesOk(Contents(), c, projectId, sourceNodeId, targetNodeId, weight, newId);
      }
      if sourceNodeId == targetNodeId {
        return BAD_REQUEST;
      }
      if projectId !in projects {
        return NOT_FOUND;
      }
      if !MayModify(projects[projectId], c) {
        return FORBIDDEN;
      }
      var source := FindNodeById(nodes, sourceNodeId);
      var target := FindNodeById(nodes, targetNodeId);
      if source.None? || target.None? {
        return NOT_FOUND;
      }
      if source.value.projectId != projectId || target.value.projectId != projectId {
        return BAD_REQUEST;
      }
      var taken := FindEdgeTriple(edges, projectId, sourceNodeId, targetNodeId);
      if taken {
        return BAD_REQUEST;
      }
      edges := edges + [EdgeDoc(newId, projectId, sourceNodeId, targetNodeId, weight)];
      status := CREATED;
    }

    /** `deleteEdge`. */
    method DeleteEdge(c: Caller, edgeId: Id) returns (status: int)
      modifies this
      ensures (Contents(), status) == DeleteEdgeSpec(old(Contents()), c, edgeId)
      ensures old(Valid()) ==> Valid()
    {
      if Valid() {
        DeleteEdgeKeepsTablesOk(Contents(), c, edgeId);
      }
      var edge := FindEdgeById(edges, edgeId);
      if edge.None? {
        return NOT_FOUND;
      }
      var projectId := edge.value.projectId;
      if projectId !in projects {
        return SERVER_ERROR;
      }
      if !MayModify(projects[projectId], c) {
        return FORBIDDEN;
      }
      edges := DeleteWhere(edges, OtherEdge(edgeId));
      status := OK;
    }

    /** `updateNode`; `running` holds the stored simulation records, read for the project. */
    method UpdateNode(c: Caller, nodeId: Id, name: Option<string>, resourceValue: real, maxCapacity: real,
                      failureThreshold: real, running: map<ProjectId, Record>)
      returns (status: int)
      modifies this
      ensures (Contents(), status)
           == UpdateNodeSpec(old(Contents()), c, nodeId, name, resourceValue, maxCapacity, failureThreshold, running)
      ensures old(Valid()) ==> Valid()
    {
      if Valid() {
        UpdateNodeKeepsTablesOk(Contents(), c, nodeId, name, resourceValue, maxCapacity, failureThreshold, running);
      }
      if name.None? {
        return SERVER_ERROR;
      }
      var nameNormalized := Normalize(name.value);
      if name.value == [] || resourceValue < 0.0 || failureThreshold < 0.0 || maxCapacity < failureThreshold {
        return BAD_REQUEST;
      }
      var node := FindNodeById(nodes, nodeId);
      if node.None? {
        return NOT_FOUND;
      }
      var projectId := node.value.projectId;
      if projectId !in projects {
        return NOT_FOUND;
      }
      if !MayModify(projects[projectId], c) {
        return FORBIDDEN;
      }
      if projectId in running && running[projectId].isRunning {
        return BAD_REQUEST;
      }
      var taken := FindNameInProject(nodes, projectId, nameNormalized, Some(nodeId));
      if taken {
        return BAD_REQUEST;
      }
      var updated := node.value.(name := name.value, nameNormalized := nameNormalized, resourceValue := resourceValue,
                                 maxCapacity := maxCapacity, failureThreshold := failureThreshold);
      nodes := UpdateWhere(nodes, nodeId, updated);
      status := OK;
    }
  }
}
