/**
 * The static graph as the document store holds it: node and edge documents of a project,
 * and the edge queries that both the simulation engine and the risk engine run over them.
 */
module GraphDocs {

  type Id = string

  /** A node document: a service with a resource level, a capacity and a failure threshold. */
  datatype NodeDoc = NodeDoc(
    id: Id,
    projectId: Id,
    name: string,
    nameNormalized: string,
    kind: string,
    resourceValue: real,
    maxCapacity: real,
    failureThreshold: real)

  /** A directed, weighted dependency edge of a project. */
  datatype EdgeDoc = EdgeDoc(id: Id, projectId: Id, sourceNodeId: Id, targetNodeId: Id, weight: real)

  /** The edges leaving `id`, in collection order. */
  function OutEdges(edges: seq<EdgeDoc>, id: Id): (r: seq<EdgeDoc>)
    ensures |r| <= |edges|
    ensures forall e :: e in r <==> e in edges && e.sourceNodeId == id
  {
    if edges == [] then []
    else
      var last := edges[|edges| - 1];
      OutEdges(edges[..|edges| - 1], id) + (if last.sourceNodeId == id then [last] else [])
  }

  /** The edges entering `id`, in collection order. */
  function InEdges(edges: seq<EdgeDoc>, id: Id): (r: seq<EdgeDoc>)
    ensures |r| <= |edges|
    ensures forall e :: e in r <==> e in edges && e.targetNodeId == id
  {
    if edges == [] then []
    else
      var last := edges[|edges| - 1];
      InEdges(edges[..|edges| - 1], id) + (if last.targetNodeId == id then [last] else [])
  }

  /** `edges.reduce((sum, e) => sum + e.weight, 0)`: a left fold, so the last edge is added last. */
  function WeightSum(edges: seq<EdgeDoc>): real
  {
    if edges == [] then 0.0 else WeightSum(edges[..|edges| - 1]) + edges[|edges| - 1].weight
  }

  /** With no negative weight the sum is never negative. */
  lemma {:induction false} WeightSumNonNegative(edges: seq<EdgeDoc>)
    requires forall e :: e in edges ==> e.weight >= 0.0
    ensures WeightSum(edges) >= 0.0
  {
    if edges != [] {
      assert forall e :: e in edges[..|edges| - 1] ==> e in edges;
      WeightSumNonNegative(edges[..|edges| - 1]);
    }
  }

  /** The ids of a list of node documents, in list order. */
  function IdsOf(nodes: seq<NodeDoc>): (r: seq<Id>)
    ensures |r| == |nodes|
    ensures forall i :: 0 <= i < |nodes| ==> r[i] == nodes[i].id
  {
    if nodes == [] then [] else IdsOf(nodes[..|nodes| - 1]) + [nodes[|nodes| - 1].id]
  }

  /** `Node.find({ projectId })`: the project's node documents, in collection order. */
  function NodesOfProject(nodes: seq<NodeDoc>, projectId: Id): (r: seq<NodeDoc>)
    ensures forall n :: n in r <==> n in nodes && n.projectId == projectId
  {
    if nodes == [] then []
    else
      var last := nodes[|nodes| - 1];
      NodesOfProject(nodes[..|nodes| - 1], projectId) + (if last.projectId == projectId then [last] else [])
  }

  /** `Edge.find({ projectId })`: the project's edge documents, in collection order. */
  function EdgesOfProject(edges: seq<EdgeDoc>, projectId: Id): (r: seq<EdgeDoc>)
    ensures forall e :: e in r <==> e in edges && e.projectId == projectId
  {
    if edges == [] then []
    else
      var last := edges[|edges| - 1];
      EdgesOfProject(edges[..|edges| - 1], projectId) + (if last.projectId == projectId then [last] else [])
  }
}
