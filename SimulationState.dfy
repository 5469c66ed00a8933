/**
 * The live state of one simulation run as it is stored in the shared key-value store:
 * per-node resource state, adjacency, counters, version and analytics.
 */
module SimulationState {
  import opened Wrappers

  type NodeId = string
  type ProjectId = string

  /** The mutable state of one node during a run. */
  datatype NodeState = NodeState(
    name: string,
    resourceValue: real,
    maxCapacity: real,
    failureThreshold: real,
    failed: bool)

  /** One outgoing edge in the adjacency list: the target and the force subtracted on failure. */
  datatype Neighbor = Neighbor(targetId: NodeId, weight: real)

  /** The node whose resource is furthest below its capacity. */
  datatype Impact = Impact(nodeId: NodeId, name: string, impactValue: real)

  /** The aggregate recomputed after every tick. */
  datatype Analytics = Analytics(
    failedPercentage: real,
    cascadeDepth: nat,
    mostImpactedNode: Option<Impact>,
    systemHealthScore: real,
    failedNodeIds: seq<NodeId>)

  /**
   * The stored simulation record. `order` is the key order of the `nodesState` object,
   * which is the order every `Object.keys`/`Object.entries` walk visits the nodes in.
   */
  datatype Record = Record(
    projectId: ProjectId,
    order: seq<NodeId>,
    nodesState: map<NodeId, NodeState>,
    adjacencyList: map<NodeId, seq<Neighbor>>,
    newlyFailed: seq<NodeId>,
    tickCount: nat,
    isRunning: bool,
    version: nat,
    analytics: Analytics)

  /** The analytics a run starts with. */
  const INITIAL_ANALYTICS := Analytics(0.0, 0, None, 100.0, [])

  /** The resource has dropped to the failure threshold or below. */
  predicate Breached(n: NodeState)
  {
    n.resourceValue <= n.failureThreshold
  }

  /** `order` lists every key of `states` exactly once. */
  predicate KeyOrder(order: seq<NodeId>, states: map<NodeId, NodeState>)
  {
    && NoDups(order)
    && (forall id :: id in order ==> id in states)
    && (forall id :: id in states ==> id in order)
  }

  /** Every failed node was observed at or below its threshold. */
  predicate Sound(states: map<NodeId, NodeState>)
  {
    forall id :: id in states && states[id].failed ==> Breached(states[id])
  }

  /** A node is failed exactly when its resource is at or below its threshold. */
  predicate Settled(states: map<NodeId, NodeState>)
  {
    forall id :: id in states ==> (states[id].failed <==> Breached(states[id]))
  }

  /** What every record written by the engine satisfies. */
  predicate WellFormed(rec: Record)
  {
    KeyOrder(rec.order, rec.nodesState) && Sound(rec.nodesState) && rec.newlyFailed == []
  }
}
