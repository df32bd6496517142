/** The graphs of the repository's own test cases, with their expected results
    checked against the model's contracts. */
module Examples {
  import opened Wrappers
  import opened BaseGraph
  import opened GraphView
  import opened Frontier
  import opened Dijkstra
  import DirectedGraph

  /** The node ids "A" to "D" and the edge ids "edge_ab" to "edge_cd" of the test. */
  datatype Letter = A | B | C | D
  datatype EdgeName = AB | BC | AC | CD

  function Node(id: Letter): NodeRec<Letter> {
    NodeRec(id, None, None)
  }

  /** A->B (1), B->C (2), A->C (4), C->D (1), added in that order. */
  function DijkstraGraph(): (g: Graph<Letter, EdgeName>)
    ensures Valid(g)
  {
    var ab := EdgeRec(AB, Node(A), Node(B), 1);
    var bc := EdgeRec(BC, Node(B), Node(C), 2);
    var ac := EdgeRec(AC, Node(A), Node(C), 4);
    var cd := EdgeRec(CD, Node(C), Node(D), 1);
    Graph(Directed,
          map[A := Node(A), B := Node(B), C := Node(C), D := Node(D)],
          map[A := [ab, ac], B := [bc], C := [cd], D := []],
          [ab, bc, ac, cd])
  }

  lemma DijkstraNeighbors()
    ensures NeighborIds(DijkstraGraph(), A) == [B, C]
    ensures NeighborIds(DijkstraGraph(), B) == [C]
    ensures NeighborIds(DijkstraGraph(), C) == [D]
    ensures NeighborIds(DijkstraGraph(), D) == []
  {
    var g := DijkstraGraph();
    assert NeighborIds(g, A)[0] == B && NeighborIds(g, A)[1] == C;
    assert NeighborIds(g, B)[0] == C;
    assert NeighborIds(g, C)[0] == D;
  }

  lemma DijkstraWeights()
    ensures FirstEdge(DijkstraGraph().edges, Directed, A, B).Some? && Weight(DijkstraGraph(), A, B) == 1
    ensures FirstEdge(DijkstraGraph().edges, Directed, B, C).Some? && Weight(DijkstraGraph(), B, C) == 2
    ensures FirstEdge(DijkstraGraph().edges, Directed, A, C).Some? && Weight(DijkstraGraph(), A, C) == 4
    ensures FirstEdge(DijkstraGraph().edges, Directed, C, D).Some? && Weight(DijkstraGraph(), C, D) == 1
  {
    var g := DijkstraGraph();
    assert FirstMatch(g.edges, Directed, A, B) == 0;
    assert FirstMatch(g.edges, Directed, B, C) == 1;
    assert FirstMatch(g.edges, Directed, A, C) == 2;
    assert FirstMatch(g.edges, Directed, C, D) == 3;
  }

  /** The steps of the example graph: exactly its four edges. */
  lemma DijkstraSteps(u: Letter, v: Letter)
    ensures Step(DijkstraGraph(), u, v) <==> (u == A && v == B) || (u == A && v == C) || (u == B && v == C) || (u == C && v == D)
  {
    DijkstraNeighbors();
  }

  /** What the test graph looks like to the search, without its representation. */
  ghost predicate ShapedLikeTest(g: Graph<Letter, EdgeName>) {
    && Valid(g)
    && g.nodes.Keys == {A, B, C, D}
    && (forall u, v :: Step(g, u, v) <==> (u == A && v == B) || (u == A && v == C) || (u == B && v == C) || (u == C && v == D))
    && FirstEdge(g.edges, g.kind, A, B).Some? && Weight(g, A, B) == 1
    && FirstEdge(g.edges, g.kind, B, C).Some? && Weight(g, B, C) == 2
    && FirstEdge(g.edges, g.kind, A, C).Some? && Weight(g, A, C) == 4
    && FirstEdge(g.edges, g.kind, C, D).Some? && Weight(g, C, D) == 1
  }

  lemma DijkstraGraphShaped()
    ensures ShapedLikeTest(DijkstraGraph())
  {
    DijkstraAllSteps();
    DijkstraWeights();
    assert DijkstraGraph().nodes.Keys == {A, B, C, D};
  }

  lemma DijkstraAllSteps()
    ensures forall u, v :: Step(DijkstraGraph(), u, v) <==>
              (u == A && v == B) || (u == A && v == C) || (u == B && v == C) || (u == C && v == D)
  {
    forall u, v
      ensures Step(DijkstraGraph(), u, v) <==>
                (u == A && v == B) || (u == A && v == C) || (u == B && v == C) || (u == C && v == D)
    {
      DijkstraSteps(u, v);
    }
  }

  lemma ShapedIsWellFormed(g: Graph<Letter, EdgeName>)
    requires ShapedLikeTest(g)
    ensures WellFormed(g)
  {
    forall u | u in g.nodes
      ensures WellFormedAt(g, u)
    {
      forall v | v in NeighborIds(g, u)
        ensures v in g.nodes && FirstEdge(g.edges, g.kind, u, v).Some?
      {
        assert Step(g, u, v);
      }
    }
  }

  lemma ShapedIsReachable(g: Graph<Letter, EdgeName>)
    requires ShapedLikeTest(g)
    ensures forall v :: v in g.nodes ==> Reachable(g, A, v)
  {
    ReachableSelf(g, A);
    assert Step(g, A, B) && Step(g, B, C) && Step(g, C, D);
    ReachableStep(g, A, A, B);
    ReachableStep(g, A, B, C);
    ReachableStep(g, A, C, D);
  }

  /** What find_shortest_paths promises about its result. */
  ghost predicate ShortestPathTree(g: Graph<Letter, EdgeName>, m: Paths<Letter>)
    requires Valid(g)
  {
    && m.Keys == g.nodes.Keys
    && A in m && m[A] == (Fin(0), None)
    && (forall v :: v in m ==> m[v].0.Fin?)
    && (forall v :: v in m && v != A ==> m[v].1.Some?)
    && (forall v :: v in m && m[v].1.Some? ==> PredecessorLinked(g, m, v))
    && (forall u :: u in m ==> NoShortcutFrom(g, m, u))
  }

  lemma ExampleB(g: Graph<Letter, EdgeName>, m: Paths<Letter>)
    requires ShapedLikeTest(g)
    requires A in m && m[A].0 == Fin(0) && B in m && m[B].1.Some? && PredecessorLinked(g, m, B)
    ensures m[B] == (Fin(1), Some(A))
  {
    var p := m[B].1.value;
    assert Step(g, p, B);
  }

  lemma ExampleC(g: Graph<Letter, EdgeName>, m: Paths<Letter>)
    requires ShapedLikeTest(g)
    requires A in m && m[A].0 == Fin(0) && B in m && m[B] == (Fin(1), Some(A)) && C in m && m[C].1.Some?
    requires NoShortcutFrom(g, m, B) && PredecessorLinked(g, m, C)
    ensures m[C] == (Fin(3), Some(B))
  {
    assert Step(g, B, C);
    assert AtMost(m[C].0, Fin(3));
    var p := m[C].1.value;
    assert Step(g, p, C);
  }

  lemma ExampleD(g: Graph<Letter, EdgeName>, m: Paths<Letter>)
    requires ShapedLikeTest(g)
    requires C in m && m[C] == (Fin(3), Some(B)) && D in m && m[D].1.Some? && PredecessorLinked(g, m, D)
    ensures m[D] == (Fin(4), Some(C))
  {
    var p := m[D].1.value;
    assert Step(g, p, D);
  }

  /** The only dictionary that meets those promises is the one the test expects. */
  lemma ExampleResult(g: Graph<Letter, EdgeName>, m: Paths<Letter>)
    requires ShapedLikeTest(g) && ShortestPathTree(g, m)
    ensures m == map[A := (Fin(0), None), B := (Fin(1), Some(A)), C := (Fin(3), Some(B)), D := (Fin(4), Some(C))]
  {
    assert B in m && C in m && D in m;
    ExampleB(g, m);
    assert NoShortcutFrom(g, m, B);
    ExampleC(g, m);
    ExampleD(g, m);
  }

  /** The searches' view of a directed graph object whose nodes are the test's
      four nodes, each with its outgoing list as the edge constructors leave it. */
  lemma FixtureNodes(g: DirectedGraph.Graph<Letter, EdgeName>, a: DirectedGraph.DirectedNode<Letter, EdgeName>, b: DirectedGraph.DirectedNode<Letter, EdgeName>, c: DirectedGraph.DirectedNode<Letter, EdgeName>, d: DirectedGraph.DirectedNode<Letter, EdgeName>,
                     ab: DirectedGraph.DirectedEdge<Letter, EdgeName>, bc: DirectedGraph.DirectedEdge<Letter, EdgeName>, ac: DirectedGraph.DirectedEdge<Letter, EdgeName>, cd: DirectedGraph.DirectedEdge<Letter, EdgeName>)
    requires DirectedGraph.IsDirected(g)
    requires g.nodes == map[A := a, B := b, C := c, D := d]
    requires a.Rec() == Node(A) && b.Rec() == Node(B) && c.Rec() == Node(C) && d.Rec() == Node(D)
    requires a.outgoing == [ab, ac] && b.outgoing == [bc] && c.outgoing == [cd] && d.outgoing == []
    requires ab.Rec() == DijkstraGraph().edges[0] && bc.Rec() == DijkstraGraph().edges[1]
    requires ac.Rec() == DijkstraGraph().edges[2] && cd.Rec() == DijkstraGraph().edges[3]
    ensures DirectedGraph.View(g).nodes == DijkstraGraph().nodes
    ensures DirectedGraph.View(g).adj == DijkstraGraph().adj
  {
    var v := DirectedGraph.View(g);
    var t := DijkstraGraph();
    assert v.adj[A] == t.adj[A] && v.adj[B] == t.adj[B] && v.adj[C] == t.adj[C] && v.adj[D] == t.adj[D];
  }

  /** The same object's edge dictionary, in insertion order, is the test's edge list. */
  lemma FixtureEdges(g: DirectedGraph.Graph<Letter, EdgeName>, ab: DirectedGraph.DirectedEdge<Letter, EdgeName>, bc: DirectedGraph.DirectedEdge<Letter, EdgeName>, ac: DirectedGraph.DirectedEdge<Letter, EdgeName>, cd: DirectedGraph.DirectedEdge<Letter, EdgeName>)
    requires DirectedGraph.IsDirected(g)
    requires ab.Rec() == DijkstraGraph().edges[0] && bc.Rec() == DijkstraGraph().edges[1]
    requires ac.Rec() == DijkstraGraph().edges[2] && cd.Rec() == DijkstraGraph().edges[3]
    requires g.edgeOrder == [AB, BC, AC, CD] && g.edges == map[AB := ab, BC := bc, AC := ac, CD := cd]
    ensures DirectedGraph.View(g).edges == DijkstraGraph().edges
  {
    var es := DirectedGraph.EdgeList(g);
    assert es[0] == ab && es[1] == bc && es[2] == ac && es[3] == cd;
  }

  /** add_node of a node whose id is not taken yet. */
  method AddNewNode(g: DirectedGraph.Graph<Letter, EdgeName>, n: DirectedGraph.DirectedNode<Letter, EdgeName>)
    requires DirectedGraph.IsDirected(g) && n.id !in g.nodes
    modifies g`nodes
    ensures DirectedGraph.IsDirected(g) && g.nodes == old(g.nodes)[n.id := n]
  {
    var _ := g.AddNode(n);
  }

  /** add_edge of an edge whose id is not taken yet. */
  method AddNewEdge(g: DirectedGraph.Graph<Letter, EdgeName>, e: DirectedGraph.DirectedEdge<Letter, EdgeName>)
    requires DirectedGraph.IsDirected(g) && e.id !in g.edges
    modifies g`edges, g`edgeOrder
    ensures DirectedGraph.IsDirected(g)
    ensures g.edges == old(g.edges)[e.id := e] && g.edgeOrder == old(g.edgeOrder) + [e.id]
  {
    var _ := g.AddEdge(e);
  }

  /** The test's add_node calls, in its order, on a graph without nodes. */
  method AddFixtureNodes(g: DirectedGraph.Graph<Letter, EdgeName>, a: DirectedGraph.DirectedNode<Letter, EdgeName>, b: DirectedGraph.DirectedNode<Letter, EdgeName>, c: DirectedGraph.DirectedNode<Letter, EdgeName>, d: DirectedGraph.DirectedNode<Letter, EdgeName>)
    requires DirectedGraph.IsDirected(g) && g.nodes == map[]
    requires a.id == A && b.id == B && c.id == C && d.id == D
    modifies g`nodes
    ensures DirectedGraph.IsDirected(g) && g.nodes == map[A := a, B := b, C := c, D := d]
  {
    AddNewNode(g, a);
    AddNewNode(g, b);
    AddNewNode(g, c);
    AddNewNode(g, d);
  }

  /** The test's add_edge calls, in its order, on a graph without edges. */
  method AddFixtureEdges(g: DirectedGraph.Graph<Letter, EdgeName>, ab: DirectedGraph.DirectedEdge<Letter, EdgeName>, bc: DirectedGraph.DirectedEdge<Letter, EdgeName>, ac: DirectedGraph.DirectedEdge<Letter, EdgeName>, cd: DirectedGraph.DirectedEdge<Letter, EdgeName>)
    requires DirectedGraph.IsDirected(g) && g.edges == map[] && g.edgeOrder == []
    requires ab.id == AB && bc.id == BC && ac.id == AC && cd.id == CD
    modifies g`edges, g`edgeOrder
    ensures DirectedGraph.IsDirected(g) && g.nodes == old(g.nodes)
    ensures g.edgeOrder == [AB, BC, AC, CD] && g.edges == map[AB := ab, BC := bc, AC := ac, CD := cd]
  {
    AddNewEdge(g, ab);
    AddNewEdge(g, bc);
    AddNewEdge(g, ac);
    AddNewEdge(g, cd);
  }

  /** The test's nodes and edges: four nodes without coordinates, then four
      edges that register themselves with their ends. */
  method MakeFixture() returns (a: DirectedGraph.DirectedNode<Letter, EdgeName>, b: DirectedGraph.DirectedNode<Letter, EdgeName>, c: DirectedGraph.DirectedNode<Letter, EdgeName>, d: DirectedGraph.DirectedNode<Letter, EdgeName>, ab: DirectedGraph.DirectedEdge<Letter, EdgeName>, bc: DirectedGraph.DirectedEdge<Letter, EdgeName>, ac: DirectedGraph.DirectedEdge<Letter, EdgeName>, cd: DirectedGraph.DirectedEdge<Letter, EdgeName>)
    ensures a.Rec() == Node(A) && b.Rec() == Node(B) && c.Rec() == Node(C) && d.Rec() == Node(D)
    ensures a.outgoing == [ab, ac] && b.outgoing == [bc] && c.outgoing == [cd] && d.outgoing == []
    ensures ab.Rec() == DijkstraGraph().edges[0] && bc.Rec() == DijkstraGraph().edges[1]
    ensures ac.Rec() == DijkstraGraph().edges[2] && cd.Rec() == DijkstraGraph().edges[3]
  {
    a := new DirectedGraph.DirectedNode(A);
    b := new DirectedGraph.DirectedNode(B);
    c := new DirectedGraph.DirectedNode(C);
    d := new DirectedGraph.DirectedNode(D);
    ab := new DirectedGraph.DirectedEdge(AB, a, b, 1);
    bc := new DirectedGraph.DirectedEdge(BC, b, c, 2);
    ac := new DirectedGraph.DirectedEdge(AC, a, c, 4);
    cd := new DirectedGraph.DirectedEdge(CD, c, d, 1);
  }

  /** The fixture of the Dijkstra test, built as the test builds it, and added to
      a new graph with add_node and add_edge in the test's order. The searches
      see it as DijkstraGraph(). */
  method BuildDijkstraGraph() returns (g: DirectedGraph.Graph<Letter, EdgeName>)
    ensures DirectedGraph.IsDirected(g) && DirectedGraph.View(g) == DijkstraGraph()
  {
    var a, b, c, d, ab, bc, ac, cd := MakeFixture();
    g := DirectedGraph.NewGraph();
    AddFixtureNodes(g, a, b, c, d);
    AddFixtureEdges(g, ab, bc, ac, cd);
    FixtureNodes(g, a, b, c, d, ab, bc, ac, cd);
    FixtureEdges(g, ab, bc, ac, cd);
  }

  /** test_find_shortest_paths: from A, B is 1 via A, C is 3 via B and D is 4 via C. */
  method DijkstraExample() returns (r: Result<Paths<Letter>, SearchError>)
    ensures r == Success(map[A := (Fin(0), None), B := (Fin(1), Some(A)),
                             C := (Fin(3), Some(B)), D := (Fin(4), Some(C))])
  {
    var fixture := BuildDijkstraGraph();
    var g := DirectedGraph.View(fixture);
    DijkstraGraphShaped();
    ShapedIsWellFormed(g);
    ShapedIsReachable(g);
    r := FindShortestPaths(g, A);
    ExampleResult(g, r.value);
  }
}
