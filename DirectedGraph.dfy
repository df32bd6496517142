/** A directed graph (algorithms/graph_lib/directed_graph.py): nodes that keep
    lists of their outgoing and incoming edges, edges that register themselves
    with their endpoints when created, and the graph's neighbour and edge lookups. */
module DirectedGraph {
  import opened Wrappers
  import opened BaseGraph
  import opened GraphView

  /** DirectedNode: an id, optional coordinates, and the edges leaving and
      entering the node, in the order they were created. */
  class DirectedNode<Id(==), EId> {
    const id: Id
    const x: Option<int>
    const y: Option<int>
    var outgoing: seq<DirectedEdge<Id, EId>>
    var incoming: seq<DirectedEdge<Id, EId>>

    /** A new node has no edges yet; its coordinates are None unless given. */
    constructor (id: Id, x: Option<int> := None, y: Option<int> := None)
      ensures this.id == id && this.x == x && this.y == y
      ensures outgoing == [] && incoming == []
    {
      this.id := id;
      this.x := x;
      this.y := y;
      outgoing := [];
      incoming := [];
    }

    /** The node's identity and coordinates. */
    function Rec(): (r: NodeRec<Id>)
      ensures r.id == id && r.x == x && r.y == y
    {
      NodeRec(id, x, y)
    }

    /** add_outgoing_edge: appends `e` unless this very edge is already listed,
        so the list never holds an edge twice. */
    method AddOutgoingEdge(e: DirectedEdge<Id, EId>)
      modifies this`outgoing
      ensures e in old(outgoing) ==> outgoing == old(outgoing)
      ensures e !in old(outgoing) ==> outgoing == old(outgoing) + [e]
      ensures Distinct(old(outgoing)) ==> Distinct(outgoing)
    {
      if e !in outgoing {
        outgoing := outgoing + [e];
      }
    }

    /** add_incoming_edge: the same for the incoming list. */
    method AddIncomingEdge(e: DirectedEdge<Id, EId>)
      modifies this`incoming
      ensures e in old(incoming) ==> incoming == old(incoming)
      ensures e !in old(incoming) ==> incoming == old(incoming) + [e]
      ensures Distinct(old(incoming)) ==> Distinct(incoming)
    {
      if e !in incoming {
        incoming := incoming + [e];
      }
    }

    /** get_successors: the target of each outgoing edge, in list order. */
    function Successors(): (r: seq<DirectedNode<Id, EId>>)
      reads this
      ensures |r| == |outgoing|
      ensures forall i :: 0 <= i < |r| ==> r[i] == outgoing[i].target
    {
      seq(|outgoing|, i requires 0 <= i < |outgoing| reads this => outgoing[i].target)
    }

    /** get_predecessors: the source of each incoming edge, in list order. */
    function Predecessors(): (r: seq<DirectedNode<Id, EId>>)
      reads this
      ensures |r| == |incoming|
      ensures forall i :: 0 <= i < |r| ==> r[i] == incoming[i].source
    {
      seq(|incoming|, i requires 0 <= i < |incoming| reads this => incoming[i].source)
    }
  }

  /** DirectedEdge: an id, a source, a target and a weight (1 unless given). */
  class DirectedEdge<Id(==), EId> {
    const id: EId
    const source: DirectedNode<Id, EId>
    const target: DirectedNode<Id, EId>
    const weight: nat

    /** Creating an edge appends it to its source's outgoing list and to its
        target's incoming list (for a self-loop, to both lists of the one node). */
    constructor (id: EId, source: DirectedNode<Id, EId>, target: DirectedNode<Id, EId>, weight: nat := 1)
      modifies source`outgoing, target`incoming
      ensures this.id == id && this.source == source && this.target == target && this.weight == weight
      ensures source.outgoing == old(source.outgoing) + [this]
      ensures target.incoming == old(target.incoming) + [this]
    {
      this.id := id;
      this.source := source;
      this.target := target;
      this.weight := weight;
      new;
      source.AddOutgoingEdge(this);
      target.AddIncomingEdge(this);
    }

    /** The edge as the searches see it. */
    function Rec(): (r: EdgeRec<Id, EId>)
      ensures r.id == id && r.end1 == source.Rec() && r.end2 == target.Rec() && r.weight == weight
    {
      EdgeRec(id, source.Rec(), target.Rec(), weight)
    }

    /** is_source: node equality is id equality. */
    predicate IsSource(node: NodeRec<Id>) {
      SameNode(node, source.Rec())
    }

    /** is_target. */
    predicate IsTarget(node: NodeRec<Id>) {
      SameNode(node, target.Rec())
    }

    /** get_other_node: the target for the source, the source for the target, an
        error for a node the edge does not touch. For a self-loop the node itself. */
    function GetOtherNode(current: NodeRec<Id>): (r: Result<DirectedNode<Id, EId>, GraphError>)
      ensures r.Failure? <==> !IsSource(current) && !IsTarget(current)
      ensures r.Failure? ==> r.error == NotConnected
      ensures IsSource(current) ==> r == Success(target)
      ensures !IsSource(current) && IsTarget(current) ==> r == Success(source)
    {
      if current.id == source.id then Success(target)
      else if current.id == target.id then Success(source)
      else Failure(NotConnected)
    }

    /** has_nodes(node1, node2): node1 is the source and node2 the target. */
    predicate HasNodes(node1: NodeRec<Id>, node2: NodeRec<Id>) {
      source.id == node1.id && target.id == node2.id
    }
  }

  /** Crossing an edge twice with get_other_node comes back to the same node. */
  lemma OtherNodeRoundTrip<Id, EId>(e: DirectedEdge<Id, EId>, n: NodeRec<Id>)
    requires e.GetOtherNode(n).Success?
    ensures e.GetOtherNode(e.GetOtherNode(n).value.Rec()).Success?
    ensures SameNode(e.GetOtherNode(e.GetOtherNode(n).value.Rec()).value.Rec(), n)
  {
  }

  /** has_nodes is the graph-level Connects of the edge, and names the two ends
      is_source and is_target recognise. */
  lemma HasNodesIsConnects<Id, EId>(e: DirectedEdge<Id, EId>, a: NodeRec<Id>, b: NodeRec<Id>)
    ensures e.HasNodes(a, b) <==> Connects(Directed, e.Rec(), a.id, b.id)
    ensures e.HasNodes(a, b) ==> e.IsSource(a) && e.IsTarget(b)
  {
  }

  type Graph<Id(==), EId(==)> = BaseGraph<Id, EId, DirectedNode<Id, EId>, DirectedEdge<Id, EId>>

  function NodeKey<Id(==), EId>(n: DirectedNode<Id, EId>): Id { n.id }
  function EdgeKey<Id(==), EId>(e: DirectedEdge<Id, EId>): EId { e.id }

  /** A directed graph: a BaseGraph whose dictionaries are keyed by node.id and edge.id. */
  ghost predicate IsDirected<Id, EId>(g: Graph<Id, EId>)
    reads g
  {
    g.Valid() && g.nodeId == NodeKey<Id, EId> && g.edgeId == EdgeKey<Id, EId>
  }

  /** DirectedGraph(): an empty graph. */
  method NewGraph<Id(==), EId(==)>() returns (g: Graph<Id, EId>)
    ensures fresh(g) && IsDirected(g)
    ensures g.nodes == map[] && g.edges == map[] && g.edgeOrder == []
  {
    g := new BaseGraph(NodeKey<Id, EId>, EdgeKey<Id, EId>);
  }

  /** Every node is stored under its own id. */
  lemma KeyedById<Id, EId>(g: Graph<Id, EId>, k: Id)
    requires IsDirected(g) && k in g.nodes
    ensures g.nodes[k].id == k
  {
    assert g.nodeId(g.nodes[k]) == k;
  }

  /** The edges in the order the graph's edge dictionary yields them. */
  function EdgeList<Id(==), EId(==)>(g: Graph<Id, EId>): (r: seq<DirectedEdge<Id, EId>>)
    reads g
    requires g.Valid()
    ensures |r| == |g.edgeOrder|
    ensures forall i :: 0 <= i < |r| ==> g.edgeOrder[i] in g.edges && r[i] == g.edges[g.edgeOrder[i]]
  {
    seq(|g.edgeOrder|, i requires 0 <= i < |g.edgeOrder| reads g requires g.Valid() =>
      assert g.edgeOrder[i] in g.edges; g.edges[g.edgeOrder[i]])
  }

  /** The graph as Dijkstra and A* read it. */
  function View<Id(==), EId(==)>(g: Graph<Id, EId>): (v: GraphView.Graph<Id, EId>)
    reads g, g.nodes.Values
    requires IsDirected(g)
    ensures GraphView.Valid(v) && v.kind == Directed
    ensures v.nodes.Keys == g.nodes.Keys
    ensures forall k :: k in g.nodes ==> v.nodes[k] == g.nodes[k].Rec()
    ensures forall k :: k in g.nodes ==> |v.adj[k]| == |g.nodes[k].outgoing|
    ensures forall k, i :: k in g.nodes && 0 <= i < |g.nodes[k].outgoing| ==> v.adj[k][i] == g.nodes[k].outgoing[i].Rec()
    ensures |v.edges| == |g.edgeOrder|
    ensures forall i :: 0 <= i < |v.edges| ==> v.edges[i] == EdgeList(g)[i].Rec()
  {
    var es := EdgeList(g);
    var v := GraphView.Graph(
      Directed,
      map k | k in g.nodes :: g.nodes[k].Rec(),
      map k | k in g.nodes :: RecList(g.nodes[k].outgoing),
      RecList(es));
    forall k | k in v.nodes ensures v.nodes[k].id == k {
      KeyedById(g, k);
    }
    v
  }

  /** The searches' record of each edge of a list. */
  function RecList<Id(==), EId>(es: seq<DirectedEdge<Id, EId>>): (r: seq<EdgeRec<Id, EId>>)
    ensures |r| == |es|
    ensures forall i :: 0 <= i < |es| ==> r[i] == es[i].Rec()
  {
    seq(|es|, i requires 0 <= i < |es| => es[i].Rec())
  }

  /** get_neighbors: the successors of the node with the given id, or an error
      when there is no such node. */
  function GetNeighbors<Id(==), EId(==)>(g: Graph<Id, EId>, id: Id): (r: Result<seq<DirectedNode<Id, EId>>, GraphError>)
    reads g, g.nodes.Values
    requires IsDirected(g)
    ensures r.Failure? <==> id !in g.nodes
    ensures r.Failure? ==> r.error == NodeNotFound
    ensures r.Success? ==> |r.value| == |View(g).adj[id]|
    ensures r.Success? ==> forall i :: 0 <= i < |r.value| ==> r.value[i].Rec() == Neighbors(View(g), id).value[i]
  {
    match g.GetNode(id)
    case None => Failure(NodeNotFound)
    case Some(node) => Success(node.Successors())
  }

  /** A get_edge_between argument: an id, or a node object. */
  function ArgRec<Id(==), EId>(a: NodeArg<Id, DirectedNode<Id, EId>>): NodeArg<Id, NodeRec<Id>> {
    match a
    case ById(i) => ById(i)
    case ByNode(n) => ByNode(n.Rec())
  }

  /** The first step of get_edge_between: a node object is taken as it is, an
      id is looked up with get_node. It names the node the searches' Resolve names. */
  function Lookup<Id(==), EId(==)>(g: Graph<Id, EId>, a: NodeArg<Id, DirectedNode<Id, EId>>): (r: Option<NodeRec<Id>>)
    reads g
    requires IsDirected(g)
    ensures r.Some? <==> Resolve(View(g), ArgRec(a)).Some?
    ensures r.Some? ==> r.value.id == Resolve(View(g), ArgRec(a)).value
  {
    match a
    case ByNode(n) => Some(n.Rec())
    case ById(i) =>
      if i in g.nodes then KeyedById(g, i); Some(g.nodes[i].Rec()) else None
  }

  /** The edge a scan of the edge list stops at (or the end of the list) is the
      edge the searches' FirstEdge picks. */
  lemma ScanFindsFirstEdge<Id, EId>(g: Graph<Id, EId>, a: NodeRec<Id>, b: NodeRec<Id>, i: nat)
    requires IsDirected(g) && i <= |g.edgeOrder|
    requires i < |g.edgeOrder| ==> EdgeList(g)[i].HasNodes(a, b)
    requires forall j :: 0 <= j < i ==> !EdgeList(g)[j].HasNodes(a, b)
    ensures FirstEdge(View(g).edges, Directed, a.id, b.id) ==
            if i < |g.edgeOrder| then Some(EdgeList(g)[i].Rec()) else None
  {
    var es := View(g).edges;
    assert es == RecList(EdgeList(g));
    assert FirstMatch(es, Directed, a.id, b.id) == i;
  }

  /** get_edge_between: node1 and node2 are resolved first (an unknown id gives
      None); then the first edge, in dictionary order, whose source is node1 and
      target node2. It is exactly the edge the searches' EdgeBetween picks. */
  method GetEdgeBetween<Id(==), EId(==)>(g: Graph<Id, EId>, node1: NodeArg<Id, DirectedNode<Id, EId>>,
                                         node2: NodeArg<Id, DirectedNode<Id, EId>>)
    returns (r: Option<DirectedEdge<Id, EId>>)
    requires IsDirected(g)
    ensures r.Some? ==> r.value in g.edges.Values
    ensures (if r.Some? then Some(r.value.Rec()) else None) == EdgeBetween(View(g), ArgRec(node1), ArgRec(node2))
  {
    var source := Lookup(g, node1);
    var target := Lookup(g, node2);
    if source.None? || target.None? {
      return None;
    }
    var i := 0;
    while i < |g.edgeOrder|
      invariant 0 <= i <= |g.edgeOrder|
      invariant forall j :: 0 <= j < i ==> !EdgeList(g)[j].HasNodes(source.value, target.value)
    {
      var edge := g.edges[g.edgeOrder[i]];
      if edge.HasNodes(source.value, target.value) {
        ScanFindsFirstEdge(g, source.value, target.value, i);
        return Some(edge);
      }
      i := i + 1;
    }
    ScanFindsFirstEdge(g, source.value, target.value, i);
    r := None;
  }
}
