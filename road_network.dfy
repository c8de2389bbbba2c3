/** The road network the search runs on: the adjacency lists (`Graph`, node
    id to outgoing edges) and the node records (`NodeMap`, node id to
    coordinates). The accessors get_node and get_neighbors are lookups that
    report absence, so the search tests map membership directly. Edge
    weights are non-negative integers here (doubles in the source). */
module RoadNetwork {

  /** A node record. A default-constructed record has id 0. */
  datatype Node = Node(id: int, lat: real, lon: real)

  /** A directed edge to `target` with a non-negative cost. */
  datatype Edge = Edge(target: int, weight: nat)

  datatype Network = Network(graph: map<int, seq<Edge>>, nodes: map<int, Node>)

  /** v is the target of one of u's outgoing edges. */
  ghost predicate IsEdge(net: Network, u: int, v: int)
  {
    u in net.graph && exists j :: 0 <= j < |net.graph[u]| && net.graph[u][j].target == v
  }

  /** Every consecutive pair of p is an edge. */
  ghost predicate IsPath(net: Network, p: seq<int>)
  {
    forall i :: 0 < i < |p| ==> IsEdge(net, p[i - 1], p[i])
  }

  /** Every node that can be written into a g score: the start and the
      targets of all edges. */
  ghost function Universe(net: Network, start: int): set<int>
  {
    {start} + set u, j | u in net.graph && 0 <= j < |net.graph[u]| :: net.graph[u][j].target
  }
}
