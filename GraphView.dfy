/** The state of a graph as both searches read it: its variant, its nodes, each
    node's adjacency list and its edges in insertion order. The searches never
    change the graph, so they take this value; DirectedGraph.View and
    UndirectedGraph.View build it from the objects. */
module GraphView {
  import opened Wrappers
  import opened BaseGraph

  /** The two subclasses of BaseGraph, as a closed variant. */
  datatype Kind = Directed | Undirected

  /** An edge: `end1`/`end2` are source/target for a directed edge and
      node1/node2 for an undirected one. */
  datatype EdgeRec<Id, EId> = EdgeRec(id: EId, end1: NodeRec<Id>, end2: NodeRec<Id>, weight: nat)

  /** `nodes` is the graph's node dictionary, `adj` each node's own list of edges
      (outgoing_edges, or edges for an undirected node) and `edges` the values of
      the graph's edge dictionary in insertion order. */
  datatype Graph<Id, EId> = Graph(
    kind: Kind,
    nodes: map<Id, NodeRec<Id>>,
    adj: map<Id, seq<EdgeRec<Id, EId>>>,
    edges: seq<EdgeRec<Id, EId>>)

  ghost predicate Valid<Id, EId>(g: Graph<Id, EId>) {
    && g.adj.Keys == g.nodes.Keys
    && forall k :: k in g.nodes ==> g.nodes[k].id == k
  }

  /** Every edge in a node's list touches that node, as it does when the lists are
      filled by the edge constructors: a directed node lists edges it is the source
      of, an undirected node edges it is an end of. */
  ghost predicate Registered<Id, EId>(g: Graph<Id, EId>) {
    forall u, e :: u in g.adj && e in g.adj[u] ==>
      match g.kind
      case Directed => e.end1.id == u
      case Undirected => e.end1.id == u || e.end2.id == u
  }

  /** The node get_neighbors reports for edge `e` of node `u`: the target of a
      directed edge; for an undirected edge node1 when node2 is `u`, else node2. */
  function Across<Id(==), EId>(kind: Kind, e: EdgeRec<Id, EId>, u: Id): NodeRec<Id> {
    match kind
    case Directed => e.end2
    case Undirected => if e.end2.id == u then e.end1 else e.end2
  }

  /** get_neighbors of either variant. */
  function Neighbors<Id(==), EId>(g: Graph<Id, EId>, u: Id): (r: Result<seq<NodeRec<Id>>, GraphError>)
    requires Valid(g)
    ensures r.Failure? <==> u !in g.nodes
    ensures r.Failure? ==> r.error == NodeNotFound
    ensures r.Success? ==> |r.value| == |g.adj[u]|
    ensures r.Success? ==> forall i :: 0 <= i < |r.value| ==> r.value[i] == Across(g.kind, g.adj[u][i], u)
  {
    if u !in g.nodes then Failure(NodeNotFound)
    else Success(seq(|g.adj[u]|, i requires 0 <= i < |g.adj[u]| => Across(g.kind, g.adj[u][i], u)))
  }

  /** The ids of the neighbours of a node of the graph. */
  function NeighborIds<Id(==), EId>(g: Graph<Id, EId>, u: Id): (r: seq<Id>)
    requires Valid(g) && u in g.nodes
    ensures |r| == |g.adj[u]|
    ensures forall i :: 0 <= i < |r| ==> r[i] == Neighbors(g, u).value[i].id
  {
    var ns := Neighbors(g, u).value;
    seq(|ns|, i requires 0 <= i < |ns| => ns[i].id)
  }

  /** Directed get_neighbors is exactly the targets of the node's outgoing edges. */
  lemma DirectedNeighborsAreTargets<Id, EId>(g: Graph<Id, EId>, u: Id, v: Id)
    requires Valid(g) && g.kind == Directed && u in g.nodes
    ensures v in NeighborIds(g, u) <==> exists e :: e in g.adj[u] && e.end2.id == v
  {
    var ns := NeighborIds(g, u);
    if v in ns {
      var i :| 0 <= i < |ns| && ns[i] == v;
      assert g.adj[u][i] in g.adj[u];
    }
    if e :| e in g.adj[u] && e.end2.id == v {
      var i :| 0 <= i < |g.adj[u]| && g.adj[u][i] == e;
      assert ns[i] == v;
    }
  }

  /** Undirected get_neighbors is exactly the nodes sharing one of the node's
      edges, whichever end of the edge the node is. */
  lemma UndirectedNeighborsShareAnEdge<Id, EId>(g: Graph<Id, EId>, u: Id, v: Id)
    requires Valid(g) && Registered(g) && g.kind == Undirected && u in g.nodes
    ensures v in NeighborIds(g, u) <==>
      exists e :: e in g.adj[u] && ((e.end1.id == u && e.end2.id == v) || (e.end2.id == u && e.end1.id == v))
  {
    var ns := NeighborIds(g, u);
    if v in ns {
      var i :| 0 <= i < |ns| && ns[i] == v;
      var e := g.adj[u][i];
      assert e in g.adj[u];
      assert (e.end1.id == u && e.end2.id == v) || (e.end2.id == u && e.end1.id == v);
    }
    if e :| e in g.adj[u] && ((e.end1.id == u && e.end2.id == v) || (e.end2.id == u && e.end1.id == v)) {
      var i :| 0 <= i < |g.adj[u]| && g.adj[u][i] == e;
      assert ns[i] == v;
    }
  }

  /** has_nodes of either variant (for a directed edge: source == a and target == b;
      for an undirected edge: the two ends are a and b in either order). */
  predicate Connects<Id(==), EId>(kind: Kind, e: EdgeRec<Id, EId>, a: Id, b: Id) {
    match kind
    case Directed => e.end1.id == a && e.end2.id == b
    case Undirected => (e.end1.id == a && e.end2.id == b) || (e.end1.id == b && e.end2.id == a)
  }

  /** Order matters for a directed edge and does not for an undirected one. */
  lemma ConnectsOrder<Id, EId>(e: EdgeRec<Id, EId>, a: Id, b: Id)
    ensures Connects(Undirected, e, a, b) <==> Connects(Undirected, e, b, a)
    ensures Connects(Directed, e, a, b) && Connects(Directed, e, b, a) ==> a == b
  {
  }

  /** The position of the first edge of `es` that connects `a` to `b`, or |es|. */
  function FirstMatch<Id(==), EId>(es: seq<EdgeRec<Id, EId>>, kind: Kind, a: Id, b: Id): (i: nat)
    ensures i <= |es|
    ensures i < |es| ==> Connects(kind, es[i], a, b)
    ensures forall j :: 0 <= j < i ==> !Connects(kind, es[j], a, b)
    decreases |es|
  {
    if es == [] then 0
    else if Connects(kind, es[0], a, b) then 0
    else 1 + FirstMatch(es[1..], kind, a, b)
  }

  /** The loop of get_edge_between: the first edge in iteration order that
      connects `a` to `b`, or None. */
  function FirstEdge<Id(==), EId>(es: seq<EdgeRec<Id, EId>>, kind: Kind, a: Id, b: Id): (r: Option<EdgeRec<Id, EId>>)
    ensures r.None? <==> forall e :: e in es ==> !Connects(kind, e, a, b)
    ensures r.Some? ==> r.value in es && Connects(kind, r.value, a, b)
  {
    var i := FirstMatch(es, kind, a, b);
    if i < |es| then Some(es[i]) else None
  }

  /** In an undirected graph the edge between a and b is the edge between b and a. */
  lemma {:induction false} FirstMatchUndirectedSymmetric<Id, EId>(es: seq<EdgeRec<Id, EId>>, a: Id, b: Id)
    ensures FirstMatch(es, Undirected, a, b) == FirstMatch(es, Undirected, b, a)
    decreases |es|
  {
    if es != [] {
      ConnectsOrder(es[0], a, b);
      FirstMatchUndirectedSymmetric(es[1..], a, b);
    }
  }

  /** The argument of get_edge_between: an id, or a node instance. */
  datatype NodeArg<Id, N> = ById(id: Id) | ByNode(node: N)

  /** An id is looked up in the graph; a node instance is used as it is. */
  function Resolve<Id(==), EId>(g: Graph<Id, EId>, a: NodeArg<Id, NodeRec<Id>>): (r: Option<Id>)
    requires Valid(g)
    ensures a.ById? ==> r == (if a.id in g.nodes then Some(a.id) else None)
    ensures a.ByNode? ==> r == Some(a.node.id)
  {
    match a
    case ById(i) => if i in g.nodes then Some(g.nodes[i].id) else None
    case ByNode(n) => Some(n.id)
  }

  /** get_edge_between of either variant. */
  function EdgeBetween<Id(==), EId>(g: Graph<Id, EId>, a: NodeArg<Id, NodeRec<Id>>, b: NodeArg<Id, NodeRec<Id>>)
    : (r: Option<EdgeRec<Id, EId>>)
    requires Valid(g)
    ensures r.Some? <==> Resolve(g, a).Some? && Resolve(g, b).Some?
                         && exists e :: e in g.edges && Connects(g.kind, e, Resolve(g, a).value, Resolve(g, b).value)
    ensures r.Some? ==> r.value in g.edges && Connects(g.kind, r.value, Resolve(g, a).value, Resolve(g, b).value)
  {
    match (Resolve(g, a), Resolve(g, b))
    case (Some(x), Some(y)) => FirstEdge(g.edges, g.kind, x, y)
    case _ => None
  }

  /** Undirected get_edge_between(a, b) and get_edge_between(b, a) return the same edge. */
  lemma EdgeBetweenUndirectedSymmetric<Id, EId>(g: Graph<Id, EId>, a: NodeArg<Id, NodeRec<Id>>, b: NodeArg<Id, NodeRec<Id>>)
    requires Valid(g) && g.kind == Undirected
    ensures EdgeBetween(g, a, b) == EdgeBetween(g, b, a)
  {
    if Resolve(g, a).Some? && Resolve(g, b).Some? {
      FirstMatchUndirectedSymmetric(g.edges, Resolve(g, a).value, Resolve(g, b).value);
    }
  }

  /** The weight a search charges for the step from `u` to `v`: that of the first
      connecting edge (0 when there is none; the searches stop before using it). */
  function Weight<Id(==), EId>(g: Graph<Id, EId>, u: Id, v: Id): nat {
    match FirstEdge(g.edges, g.kind, u, v)
    case Some(e) => e.weight
    case None => 0
  }

  /** Every neighbour of `u` is a node of the graph and has an edge from `u` that
      get_edge_between finds. */
  ghost predicate WellFormedAt<Id, EId>(g: Graph<Id, EId>, u: Id)
    requires Valid(g) && u in g.nodes
  {
    forall v :: v in NeighborIds(g, u) ==> v in g.nodes && FirstEdge(g.edges, g.kind, u, v).Some?
  }

  ghost predicate WellFormed<Id, EId>(g: Graph<Id, EId>)
    requires Valid(g)
  {
    forall u :: u in g.nodes ==> WellFormedAt(g, u)
  }

  /** `v` is listed among the neighbours of `u`. */
  predicate Step<Id(==), EId>(g: Graph<Id, EId>, u: Id, v: Id)
    requires Valid(g)
  {
    u in g.nodes && v in NeighborIds(g, u)
  }

  ghost predicate IsWalk<Id, EId>(g: Graph<Id, EId>, p: seq<Id>)
    requires Valid(g)
  {
    |p| >= 1 && forall i :: 0 <= i < |p| - 1 ==> Step(g, p[i], p[i + 1])
  }

  /** Some walk along get_neighbors leads from `s` to `v`. */
  ghost predicate Reachable<Id(!new), EId>(g: Graph<Id, EId>, s: Id, v: Id)
    requires Valid(g)
  {
    exists p :: IsWalk(g, p) && p[0] == s && p[|p| - 1] == v
  }

  /** The sum of the step weights along a walk. */
  ghost function WalkCost<Id, EId>(g: Graph<Id, EId>, p: seq<Id>): nat
    decreases |p|
  {
    if |p| <= 1 then 0 else Weight(g, p[0], p[1]) + WalkCost(g, p[1..])
  }

  lemma ReachableSelf<Id(!new), EId>(g: Graph<Id, EId>, s: Id)
    requires Valid(g)
    ensures Reachable(g, s, s)
  {
    assert IsWalk(g, [s]);
  }

  lemma ReachableStep<Id(!new), EId>(g: Graph<Id, EId>, s: Id, u: Id, v: Id)
    requires Valid(g) && Reachable(g, s, u) && Step(g, u, v)
    ensures Reachable(g, s, v)
  {
    var p :| IsWalk(g, p) && p[0] == s && p[|p| - 1] == u;
    var q := p + [v];
    forall i | 0 <= i < |q| - 1
      ensures Step(g, q[i], q[i + 1])
    {
      if i + 1 < |p| {
        assert q[i] == p[i] && q[i + 1] == p[i + 1];
      }
    }
    assert IsWalk(g, q);
  }

  /** A set that holds `s` and is closed under get_neighbors holds every node
      reachable from `s`. */
  lemma ReachableWithinClosedSet<Id(!new), EId>(g: Graph<Id, EId>, s: Id, closed: set<Id>, v: Id)
    requires Valid(g) && s in closed
    requires forall u, w :: u in closed && Step(g, u, w) ==> w in closed
    requires Reachable(g, s, v)
    ensures v in closed
  {
    var p :| IsWalk(g, p) && p[0] == s && p[|p| - 1] == v;
    WalkStaysInClosedSet(g, p, closed, |p| - 1);
  }

  lemma {:induction false} WalkStaysInClosedSet<Id, EId>(g: Graph<Id, EId>, p: seq<Id>, closed: set<Id>, k: nat)
    requires Valid(g) && IsWalk(g, p) && p[0] in closed && k < |p|
    requires forall u, w :: u in closed && Step(g, u, w) ==> w in closed
    ensures p[k] in closed
  {
    if k > 0 {
      WalkStaysInClosedSet(g, p, closed, k - 1);
      assert Step(g, p[k - 1], p[k]);
    }
  }

  /** Nothing but `s` itself is reachable from an id that is not a node. */
  lemma ReachableFromMissing<Id(!new), EId>(g: Graph<Id, EId>, s: Id, v: Id)
    requires Valid(g) && s !in g.nodes && Reachable(g, s, v)
    ensures v == s
  {
    var p :| IsWalk(g, p) && p[0] == s && p[|p| - 1] == v;
    assert |p| > 1 ==> Step(g, p[0], p[1]);
  }

  /** Some walk from `s` to `v` costs exactly `c`. */
  ghost predicate WalkOfCost<Id(!new), EId>(g: Graph<Id, EId>, s: Id, v: Id, c: nat)
    requires Valid(g)
  {
    exists p :: IsWalk(g, p) && p[0] == s && p[|p| - 1] == v && WalkCost(g, p) == c
  }

  lemma {:induction false} WalkCostAppend<Id, EId>(g: Graph<Id, EId>, p: seq<Id>, v: Id)
    requires |p| >= 1
    ensures WalkCost(g, p + [v]) == WalkCost(g, p) + Weight(g, p[|p| - 1], v)
    decreases |p|
  {
    if |p| == 1 {
      assert p + [v] == [p[0], v];
      assert ([p[0], v])[1..] == [v];
    } else {
      WalkCostAppend(g, p[1..], v);
      assert (p + [v])[1..] == p[1..] + [v];
    }
  }

  lemma WalkOfCostSelf<Id(!new), EId>(g: Graph<Id, EId>, s: Id)
    requires Valid(g)
    ensures WalkOfCost(g, s, s, 0)
  {
    assert IsWalk(g, [s]) && WalkCost(g, [s]) == 0;
  }

  /** Extending a walk to `u` by one step to `v` adds the weight of that step. */
  lemma WalkOfCostStep<Id(!new), EId>(g: Graph<Id, EId>, s: Id, u: Id, v: Id, c: nat)
    requires Valid(g) && WalkOfCost(g, s, u, c) && Step(g, u, v)
    ensures WalkOfCost(g, s, v, c + Weight(g, u, v))
  {
    var p :| IsWalk(g, p) && p[0] == s && p[|p| - 1] == u && WalkCost(g, p) == c;
    var q := p + [v];
    WalkAppend(g, p, v);
    WalkCostAppend(g, p, v);
    assert q[0] == s && q[|q| - 1] == v;
    WalkOfCostWitness(g, s, v, c + Weight(g, u, v), q);
  }

  lemma WalkOfCostWitness<Id(!new), EId>(g: Graph<Id, EId>, s: Id, v: Id, c: nat, q: seq<Id>)
    requires Valid(g) && IsWalk(g, q) && q[0] == s && q[|q| - 1] == v && WalkCost(g, q) == c
    ensures WalkOfCost(g, s, v, c)
  {
  }

  /** A walk followed by one more step is a walk. */
  lemma WalkAppend<Id, EId>(g: Graph<Id, EId>, p: seq<Id>, v: Id)
    requires Valid(g) && IsWalk(g, p) && Step(g, p[|p| - 1], v)
    ensures IsWalk(g, p + [v])
  {
    var q := p + [v];
    forall i | 0 <= i < |q| - 1
      ensures Step(g, q[i], q[i + 1])
    {
      if i + 1 < |p| {
        assert q[i] == p[i] && q[i + 1] == p[i + 1];
      }
    }
  }

  lemma WalkOfCostIsReachable<Id(!new), EId>(g: Graph<Id, EId>, s: Id, v: Id, c: nat)
    requires Valid(g) && WalkOfCost(g, s, v, c)
    ensures Reachable(g, s, v)
  {
  }
}
