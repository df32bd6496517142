/** An undirected graph (algorithms/graph_lib/undirected_graph.py): nodes that
    keep one list of the edges touching them, edges that register themselves with
    both ends when created, and the graph's neighbour and edge lookups. */
module UndirectedGraph {
  import opened Wrappers
  import opened BaseGraph
  import opened GraphView

  /** UndirectedNode: an id, optional coordinates, and the edges touching the
      node, in the order they were created. */
  class UndirectedNode<Id(==), EId> {
    const id: Id
    const x: Option<int>
    const y: Option<int>
    var edges: seq<UndirectedEdge<Id, EId>>

    /** A new node has no edges yet; its coordinates are None unless given. */
    constructor (id: Id, x: Option<int> := None, y: Option<int> := None)
      ensures this.id == id && this.x == x && this.y == y
      ensures edges == []
    {
      this.id := id;
      this.x := x;
      this.y := y;
      edges := [];
    }

    /** The node's identity and coordinates (the same shape as DirectedNode.Rec:
        the two Python modules define their classes separately, and so does this model). */
    function Rec(): (r: NodeRec<Id>)
      ensures r.id == id && r.x == x && r.y == y
    {
      NodeRec(id, x, y)
    }

    /** add_edge: appends `e` unless this very edge is already listed, so the
        list never holds an edge twice. */
    method AddEdge(e: UndirectedEdge<Id, EId>)
      modifies this`edges
      ensures e in old(edges) ==> edges == old(edges)
      ensures e !in old(edges) ==> edges == old(edges) + [e]
      ensures Distinct(old(edges)) ==> Distinct(edges)
    {
      if e !in edges {
        edges := edges + [e];
      }
    }

    /** The node's own get_neighbors: get_other_node of each edge in turn, which
        fails at the first edge that does not touch the node. */
    function GetNeighbors(): (r: Result<seq<UndirectedNode<Id, EId>>, GraphError>)
      reads this
      ensures r.Failure? <==> exists i :: 0 <= i < |edges| && edges[i].GetOtherNode(Rec()).Failure?
      ensures r.Failure? ==> r.error == NotConnected
      ensures r.Success? ==> |r.value| == |edges|
      ensures r.Success? ==> forall i :: 0 <= i < |edges| ==> edges[i].GetOtherNode(Rec()) == Success(r.value[i])
    {
      OthersOf(edges, Rec())
    }
  }

  /** get_other_node of `n` across each edge of `es`, or the first error. */
  function OthersOf<Id(==), EId>(es: seq<UndirectedEdge<Id, EId>>, n: NodeRec<Id>): (r: Result<seq<UndirectedNode<Id, EId>>, GraphError>)
    ensures r.Failure? <==> exists i :: 0 <= i < |es| && es[i].GetOtherNode(n).Failure?
    ensures r.Failure? ==> r.error == NotConnected
    ensures r.Success? ==> |r.value| == |es|
    ensures r.Success? ==> forall i :: 0 <= i < |es| ==> es[i].GetOtherNode(n) == Success(r.value[i])
    decreases |es|
  {
    if es == [] then Success([])
    else
      match es[0].GetOtherNode(n)
      case Failure(err) => Failure(err)
      case Success(other) =>
        var rest := OthersOf(es[1..], n);
        if rest.Failure? then
          assert exists i :: 0 <= i < |es[1..]| && es[1..][i].GetOtherNode(n).Failure?;
          var i :| 0 <= i < |es[1..]| && es[1..][i].GetOtherNode(n).Failure?;
          assert es[i + 1] == es[1..][i];
          rest
        else
          var r := Success([other] + rest.value);
          assert forall i :: 1 <= i < |es| ==> es[i] == es[1..][i - 1];
          r
  }

  /** UndirectedEdge: an id, two ends and a weight (1 unless given). */
  class UndirectedEdge<Id(==), EId> {
    const id: EId
    const node1: UndirectedNode<Id, EId>
    const node2: UndirectedNode<Id, EId>
    const weight: nat

    /** Creating an edge appends it to the edge list of each end. For a
        self-loop the second add_edge finds it listed already, so the node lists
        it once. */
    constructor (id: EId, node1: UndirectedNode<Id, EId>, node2: UndirectedNode<Id, EId>, weight: nat := 1)
      modifies node1`edges, node2`edges
      ensures this.id == id && this.node1 == node1 && this.node2 == node2 && this.weight == weight
      ensures node1.edges == old(node1.edges) + [this]
      ensures node2.edges == old(node2.edges) + [this]
    {
      this.id := id;
      this.node1 := node1;
      this.node2 := node2;
      this.weight := weight;
      new;
      node1.AddEdge(this);
      node2.AddEdge(this);
    }

    /** The edge as the searches see it. */
    function Rec(): (r: EdgeRec<Id, EId>)
      ensures r.id == id && r.end1 == node1.Rec() && r.end2 == node2.Rec() && r.weight == weight
    {
      EdgeRec(id, node1.Rec(), node2.Rec(), weight)
    }

    /** get_other_node: node2 for node1, node1 for node2 (node equality is id
        equality), an error for a node the edge does not touch. */
    function GetOtherNode(current: NodeRec<Id>): (r: Result<UndirectedNode<Id, EId>, GraphError>)
      ensures r.Failure? <==> current.id != node1.id && current.id != node2.id
      ensures r.Failure? ==> r.error == NotConnected
      ensures current.id == node1.id ==> r == Success(node2)
      ensures current.id != node1.id && current.id == node2.id ==> r == Success(node1)
    {
      if SameNode(current, node1.Rec()) then Success(node2)
      else if SameNode(current, node2.Rec()) then Success(node1)
      else Failure(NotConnected)
    }

    /** has_nodes: the two ends are node1 and node2, in either order. */
    predicate HasNodes(a: NodeRec<Id>, b: NodeRec<Id>) {
      (SameNode(node1.Rec(), a) && SameNode(node2.Rec(), b)) || (SameNode(node1.Rec(), b) && SameNode(node2.Rec(), a))
    }
  }

  /** Crossing an edge twice with get_other_node comes back to the same node. */
  lemma OtherNodeRoundTrip<Id, EId>(e: UndirectedEdge<Id, EId>, n: NodeRec<Id>)
    requires e.GetOtherNode(n).Success?
    ensures e.GetOtherNode(e.GetOtherNode(n).value.Rec()).Success?
    ensures SameNode(e.GetOtherNode(e.GetOtherNode(n).value.Rec()).value.Rec(), n)
  {
  }

  /** has_nodes is symmetric and is the graph-level Connects of the edge. */
  lemma HasNodesIsConnects<Id, EId>(e: UndirectedEdge<Id, EId>, a: NodeRec<Id>, b: NodeRec<Id>)
    ensures e.HasNodes(a, b) <==> e.HasNodes(b, a)
    ensures e.HasNodes(a, b) <==> Connects(Undirected, e.Rec(), a.id, b.id)
  {
  }

  type Graph<Id(==), EId(==)> = BaseGraph<Id, EId, UndirectedNode<Id, EId>, UndirectedEdge<Id, EId>>

  function NodeKey<Id(==), EId>(n: UndirectedNode<Id, EId>): Id { n.id }
  function EdgeKey<Id(==), EId>(e: UndirectedEdge<Id, EId>): EId { e.id }

  /** An undirected graph: a BaseGraph whose dictionaries are keyed by node.id and edge.id. */
  ghost predicate IsUndirected<Id, EId>(g: Graph<Id, EId>)
    reads g
  {
    g.Valid() && g.nodeId == NodeKey<Id, EId> && g.edgeId == EdgeKey<Id, EId>
  }

  /** UndirectedGraph(): an empty graph. */
  method NewGraph<Id(==), EId(==)>() returns (g: Graph<Id, EId>)
    ensures fresh(g) && IsUndirected(g)
    ensures g.nodes == map[] && g.edges == map[] && g.edgeOrder == []
  {
    g := new BaseGraph(NodeKey<Id, EId>, EdgeKey<Id, EId>);
  }

  /** Every node is stored under its own id. */
  lemma KeyedById<Id, EId>(g: Graph<Id, EId>, k: Id)
    requires IsUndirected(g) && k in g.nodes
    ensures g.nodes[k].id == k
  {
    assert g.nodeId(g.nodes[k]) == k;
  }

  /** The edges in the order the graph's edge dictionary yields them (as in
      DirectedGraph.EdgeList, for this module's edge class). */
  function EdgeList<Id(==), EId(==)>(g: Graph<Id, EId>): (r: seq<UndirectedEdge<Id, EId>>)
    reads g
    requires g.Valid()
    ensures |r| == |g.edgeOrder|
    ensures forall i :: 0 <= i < |r| ==> g.edgeOrder[i] in g.edges && r[i] == g.edges[g.edgeOrder[i]]
  {
    seq(|g.edgeOrder|, i requires 0 <= i < |g.edgeOrder| reads g requires g.Valid() =>
      assert g.edgeOrder[i] in g.edges; g.edges[g.edgeOrder[i]])
  }

  /** The searches' record of each edge of a list (as in DirectedGraph.RecList). */
  function RecList<Id(==), EId>(es: seq<UndirectedEdge<Id, EId>>): (r: seq<EdgeRec<Id, EId>>)
    ensures |r| == |es|
    ensures forall i :: 0 <= i < |es| ==> r[i] == es[i].Rec()
  {
    seq(|es|, i requires 0 <= i < |es| => es[i].Rec())
  }

  /** The graph as Dijkstra and A* read it. */
  function View<Id(==), EId(==)>(g: Graph<Id, EId>): (v: GraphView.Graph<Id, EId>)
    reads g, g.nodes.Values
    requires IsUndirected(g)
    ensures GraphView.Valid(v) && v.kind == Undirected
    ensures v.nodes.Keys == g.nodes.Keys
    ensures forall k :: k in g.nodes ==> v.nodes[k] == g.nodes[k].Rec()
    ensures forall k :: k in g.nodes ==> |v.adj[k]| == |g.nodes[k].edges|
    ensures forall k, i :: k in g.nodes && 0 <= i < |g.nodes[k].edges| ==> v.adj[k][i] == g.nodes[k].edges[i].Rec()
    ensures |v.edges| == |g.edgeOrder|
    ensures forall i :: 0 <= i < |v.edges| ==> v.edges[i] == EdgeList(g)[i].Rec()
  {
    var v := GraphView.Graph(
      Undirected,
      map k | k in g.nodes :: g.nodes[k].Rec(),
      map k | k in g.nodes :: RecList(g.nodes[k].edges),
      RecList(EdgeList(g)));
    forall k | k in v.nodes ensures v.nodes[k].id == k {
      KeyedById(g, k);
    }
    v
  }

  /** The graph's get_neighbors: for each edge of the node, node1 when node2 is
      the node and node2 otherwise; an error when there is no such node. */
  function GetNeighbors<Id(==), EId(==)>(g: Graph<Id, EId>, id: Id): (r: Result<seq<UndirectedNode<Id, EId>>, GraphError>)
    reads g, g.nodes.Values
    requires IsUndirected(g)
    ensures r.Failure? <==> id !in g.nodes
    ensures r.Failure? ==> r.error == NodeNotFound
    ensures r.Success? ==> |r.value| == |View(g).adj[id]|
    ensures r.Success? ==> forall i :: 0 <= i < |r.value| ==> r.value[i].Rec() == Neighbors(View(g), id).value[i]
  {
    match g.GetNode(id)
    case None => Failure(NodeNotFound)
    case Some(node) =>
      Success(seq(|node.edges|, i requires 0 <= i < |node.edges| reads node =>
        var e := node.edges[i]; if SameNode(e.node2.Rec(), node.Rec()) then e.node1 else e.node2))
  }

  /** The graph's get_neighbors and the node's own agree whenever every edge of
      the node touches it, as edges created by the constructor do. */
  lemma NeighborsAgree<Id, EId>(g: Graph<Id, EId>, id: Id)
    requires IsUndirected(g) && id in g.nodes
    requires forall i :: 0 <= i < |g.nodes[id].edges| ==>
               g.nodes[id].edges[i].node1.id == id || g.nodes[id].edges[i].node2.id == id
    ensures g.nodes[id].GetNeighbors().Success?
    ensures forall i :: 0 <= i < |g.nodes[id].edges| ==>
              GetNeighbors(g, id).value[i].id == g.nodes[id].GetNeighbors().value[i].id
  {
    KeyedById(g, id);
  }

  /** A get_edge_between argument: an id, or a node object. */
  function ArgRec<Id(==), EId>(a: NodeArg<Id, UndirectedNode<Id, EId>>): NodeArg<Id, NodeRec<Id>> {
    match a
    case ById(i) => ById(i)
    case ByNode(n) => ByNode(n.Rec())
  }

  /** The first step of get_edge_between: a node object is taken as it is, an
      id is looked up with get_node. It names the node the searches' Resolve names. */
  function Lookup<Id(==), EId(==)>(g: Graph<Id, EId>, a: NodeArg<Id, UndirectedNode<Id, EId>>): (r: Option<NodeRec<Id>>)
    reads g
    requires IsUndirected(g)
    ensures r.Some? <==> Resolve(View(g), ArgRec(a)).Some?
    ensures r.Some? ==> r.value.id == Resolve(View(g), ArgRec(a)).value
  {
    match a
    case ByNode(n) => Some(n.Rec())
    case ById(i) =>
      if i in g.nodes then KeyedById(g, i); Some(g.nodes[i].Rec()) else None
  }

  /** The edge a scan of the edge list stops at (or the end of the list) is the
      edge the searches' FirstEdge picks. */
  lemma ScanFindsFirstEdge<Id, EId>(g: Graph<Id, EId>, a: NodeRec<Id>, b: NodeRec<Id>, i: nat)
    requires IsUndirected(g) && i <= |g.edgeOrder|
    requires i < |g.edgeOrder| ==> EdgeList(g)[i].HasNodes(a, b)
    requires forall j :: 0 <= j < i ==> !EdgeList(g)[j].HasNodes(a, b)
    ensures FirstEdge(View(g).edges, Undirected, a.id, b.id) ==
            if i < |g.edgeOrder| then Some(EdgeList(g)[i].Rec()) else None
  {
    var es := View(g).edges;
    assert es == RecList(EdgeList(g));
    assert FirstMatch(es, Undirected, a.id, b.id) == i;
  }

  /** get_edge_between: node1 and node2 are resolved first (an unknown id gives
      None); then the first edge, in dictionary order, that has both nodes as its
      ends in either order. It is exactly the edge the searches' EdgeBetween picks. */
  method GetEdgeBetween<Id(==), EId(==)>(g: Graph<Id, EId>, node1: NodeArg<Id, UndirectedNode<Id, EId>>,
                                         node2: NodeArg<Id, UndirectedNode<Id, EId>>)
    returns (r: Option<UndirectedEdge<Id, EId>>)
    requires IsUndirected(g)
    ensures r.Some? ==> r.value in g.edges.Values
    ensures (if r.Some? then Some(r.value.Rec()) else None) == EdgeBetween(View(g), ArgRec(node1), ArgRec(node2))
  {
    var first := Lookup(g, node1);
    var second := Lookup(g, node2);
    if first.None? || second.None? {
      return None;
    }
    var i := 0;
    while i < |g.edgeOrder|
      invariant 0 <= i <= |g.edgeOrder|
      invariant forall j :: 0 <= j < i ==> !EdgeList(g)[j].HasNodes(first.value, second.value)
    {
      var edge := g.edges[g.edgeOrder[i]];
      if edge.HasNodes(first.value, second.value) {
        ScanFindsFirstEdge(g, first.value, second.value, i);
        return Some(edge);
      }
      i := i + 1;
    }
    ScanFindsFirstEdge(g, first.value, second.value, i);
    r := None;
  }
}
