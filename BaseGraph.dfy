/** The node-and-edge container shared by the directed and undirected graphs
    (algorithms/graph_lib/base_graph.py). */
module BaseGraph {
  import opened Wrappers

  /** The errors the graph library raises; every one is a `ValueError` in the source. */
  datatype GraphError =
    | DuplicateNodeId   // add_node with an id already present
    | DuplicateEdgeId   // add_edge with an id already present
    | NodeNotFound      // get_neighbors with an unknown id
    | NotConnected      // get_other_node with a node the edge does not touch

  /** What makes up a BaseNode besides its adjacency: its id and its optional coordinates. */
  datatype NodeRec<Id> = NodeRec(id: Id, x: Option<int>, y: Option<int>)

  /** BaseNode.__eq__: two nodes are the same node exactly when their ids are equal. */
  predicate SameNode<Id(==)>(a: NodeRec<Id>, b: NodeRec<Id>) {
    a.id == b.id
  }

  /** Node equality is an equivalence relation. */
  lemma SameNodeIsEquivalence<Id>(a: NodeRec<Id>, b: NodeRec<Id>, c: NodeRec<Id>)
    ensures SameNode(a, a)
    ensures SameNode(a, b) <==> SameNode(b, a)
    ensures SameNode(a, b) && SameNode(b, c) ==> SameNode(a, c)
  {
  }

  /** Coordinates play no part in node equality: DirectedNode(1) == DirectedNode(1)
      whatever their coordinates, and DirectedNode(1) != DirectedNode(2). */
  lemma SameNodeIgnoresCoordinates<Id>(id: Id, other: Id, x1: Option<int>, y1: Option<int>, x2: Option<int>, y2: Option<int>)
    ensures SameNode(NodeRec(id, x1, y1), NodeRec(id, x2, y2))
    ensures SameNode(NodeRec(id, x1, y1), NodeRec(other, x1, y1)) <==> id == other
  {
  }

  /** No element appears twice in the sequence. */
  predicate Distinct<T(==)>(s: seq<T>) {
    forall i, j :: 0 <= i < j < |s| ==> s[i] != s[j]
  }

  /** BaseGraph: a dictionary of nodes and a dictionary of edges, both keyed by id.
      `nodeId` and `edgeId` read a node's and an edge's own id, as `node.id` and
      `edge.id` do in the source; the variant modules fix them when they create a graph. */
  class BaseGraph<Id(==), EId(==), N, E> {
    const nodeId: N -> Id
    const edgeId: E -> EId
    var nodes: map<Id, N>
    var edges: map<EId, E>
    /** The keys of `edges` in insertion order, the order in which a Python dict
        yields its values. */
    var edgeOrder: seq<EId>

    ghost predicate Valid()
      reads this
    {
      && (forall k :: k in nodes ==> nodeId(nodes[k]) == k)
      && (forall k :: k in edges ==> edgeId(edges[k]) == k)
      && Distinct(edgeOrder)
      && edges.Keys == set k | k in edgeOrder
    }

    /** A new graph has no nodes and no edges. */
    constructor (nodeId: N -> Id, edgeId: E -> EId)
      ensures Valid()
      ensures this.nodeId == nodeId && this.edgeId == edgeId
      ensures nodes == map[] && edges == map[] && edgeOrder == []
    {
      this.nodeId := nodeId;
      this.edgeId := edgeId;
      nodes := map[];
      edges := map[];
      edgeOrder := [];
    }

    /** add_node: refuses a duplicate id and leaves the nodes as they were;
        otherwise adds exactly the one entry node.id -> node. */
    method AddNode(node: N) returns (r: Outcome<GraphError>)
      requires Valid()
      modifies this`nodes
      ensures Valid()
      ensures nodeId(node) in old(nodes) ==> r == Fail(DuplicateNodeId) && nodes == old(nodes)
      ensures nodeId(node) !in old(nodes) ==> r == Pass && nodes == old(nodes)[nodeId(node) := node]
      ensures r.Pass? ==> GetNode(nodeId(node)) == Some(node)
    {
      var id := nodeId(node);
      if id in nodes {
        return Fail(DuplicateNodeId);
      }
      nodes := nodes[id := node];
      r := Pass;
    }

    /** remove_node: not implemented in the source; it changes nothing. */
    method RemoveNode(id: Id)
      requires Valid()
      modifies this
      ensures Valid()
      ensures nodes == old(nodes) && edges == old(edges) && edgeOrder == old(edgeOrder)
    {
      if id in nodes {
        // The source leaves this branch unimplemented.
      }
    }

    /** add_edge: refuses a duplicate id and leaves the edges as they were;
        otherwise adds exactly the one entry edge.id -> edge, last in iteration order. */
    method AddEdge(edge: E) returns (r: Outcome<GraphError>)
      requires Valid()
      modifies this`edges, this`edgeOrder
      ensures Valid()
      ensures edgeId(edge) in old(edges) ==> r == Fail(DuplicateEdgeId) && edges == old(edges) && edgeOrder == old(edgeOrder)
      ensures edgeId(edge) !in old(edges) ==> r == Pass && edges == old(edges)[edgeId(edge) := edge]
                                               && edgeOrder == old(edgeOrder) + [edgeId(edge)]
      ensures r.Pass? ==> GetEdge(edgeId(edge)) == Some(edge)
    {
      var id := edgeId(edge);
      if id in edges {
        return Fail(DuplicateEdgeId);
      }
      edges := edges[id := edge];
      edgeOrder := edgeOrder + [id];
      r := Pass;
    }

    /** remove_edge: not implemented in the source; it changes nothing. */
    method RemoveEdge(id: EId)
      requires Valid()
      modifies this
      ensures Valid()
      ensures nodes == old(nodes) && edges == old(edges) && edgeOrder == old(edgeOrder)
    {
      if id in edges {
        // The source leaves this branch unimplemented.
      }
    }

    /** get_node: the node stored under `id`, or None. */
    function GetNode(id: Id): (r: Option<N>)
      reads this
      ensures r.None? <==> id !in nodes
      ensures r.Some? ==> id in nodes && r.value == nodes[id]
    {
      if id in nodes then Some(nodes[id]) else None
    }

    /** get_edge: the edge stored under `id`, or None. */
    function GetEdge(id: EId): (r: Option<E>)
      reads this
      ensures r.None? <==> id !in edges
      ensures r.Some? ==> id in edges && r.value == edges[id]
    {
      if id in edges then Some(edges[id]) else None
    }
  }
}
