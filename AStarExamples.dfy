/** The graph of the repository's A* test cases, with their expected results
    checked against the model's contracts. */
module AStarExamples {
  import opened Wrappers
  import opened BaseGraph
  import opened GraphView
  import opened AStar

  /** Nodes 1 (0,0), 2 (1,0), 3 (1,2), 4 (2,2); when `withFive`, also the isolated
      node 5 (4,4). Edges 1->2 (1), 2->3 (2), 3->4 (1), added in that order. */
  function ChainGraph(withFive: bool): (g: Graph<int, string>)
    ensures Valid(g)
  {
    var n1 := NodeRec(1, Some(0), Some(0));
    var n2 := NodeRec(2, Some(1), Some(0));
    var n3 := NodeRec(3, Some(1), Some(2));
    var n4 := NodeRec(4, Some(2), Some(2));
    var e12 := EdgeRec("edge_12", n1, n2, 1);
    var e23 := EdgeRec("edge_23", n2, n3, 2);
    var e34 := EdgeRec("edge_34", n3, n4, 1);
    var nodes := map[1 := n1, 2 := n2, 3 := n3, 4 := n4];
    var adj := map[1 := [e12], 2 := [e23], 3 := [e34], 4 := []];
    if withFive then
      Graph(Directed, nodes[5 := NodeRec(5, Some(4), Some(4))], adj[5 := []], [e12, e23, e34])
    else
      Graph(Directed, nodes, adj, [e12, e23, e34])
  }

  lemma ChainNeighbors(withFive: bool)
    ensures NeighborIds(ChainGraph(withFive), 1) == [2]
    ensures NeighborIds(ChainGraph(withFive), 2) == [3]
    ensures NeighborIds(ChainGraph(withFive), 3) == [4]
    ensures NeighborIds(ChainGraph(withFive), 4) == []
    ensures withFive ==> NeighborIds(ChainGraph(withFive), 5) == []
  {
    var g := ChainGraph(withFive);
    assert NeighborIds(g, 1)[0] == 2;
    assert NeighborIds(g, 2)[0] == 3;
    assert NeighborIds(g, 3)[0] == 4;
  }

  /** The steps of the test graph: one per edge, each from k to k + 1. */
  lemma ChainSteps(withFive: bool, u: int, v: int)
    ensures Step(ChainGraph(withFive), u, v) <==> 1 <= u <= 3 && v == u + 1
  {
    ChainNeighbors(withFive);
  }

  /** What the test graph looks like to a walk, without its representation. */
  ghost predicate ShapedLikeChain(g: Graph<int, string>, withFive: bool) {
    && Valid(g)
    && g.nodes.Keys == (if withFive then {1, 2, 3, 4, 5} else {1, 2, 3, 4})
    && (forall u, v :: Step(g, u, v) <==> 1 <= u <= 3 && v == u + 1)
  }

  lemma ChainGraphShaped(withFive: bool)
    ensures ShapedLikeChain(ChainGraph(withFive), withFive)
  {
    forall u, v
      ensures Step(ChainGraph(withFive), u, v) <==> 1 <= u <= 3 && v == u + 1
    {
      ChainSteps(withFive, u, v);
    }
  }

  /** get_edge_between finds the edge of each step of the chain. */
  lemma ChainEdges(withFive: bool)
    ensures FirstEdge(ChainGraph(withFive).edges, ChainGraph(withFive).kind, 1, 2).Some?
    ensures FirstEdge(ChainGraph(withFive).edges, ChainGraph(withFive).kind, 2, 3).Some?
    ensures FirstEdge(ChainGraph(withFive).edges, ChainGraph(withFive).kind, 3, 4).Some?
  {
    var g := ChainGraph(withFive);
    assert FirstMatch(g.edges, Directed, 1, 2) == 0;
    assert FirstMatch(g.edges, Directed, 2, 3) == 1;
    assert FirstMatch(g.edges, Directed, 3, 4) == 2;
  }

  /** A graph shaped like the chain whose three edges get_edge_between finds is
      well formed. */
  lemma ChainWellFormed(g: Graph<int, string>, withFive: bool)
    requires ShapedLikeChain(g, withFive)
    requires FirstEdge(g.edges, g.kind, 1, 2).Some?
    requires FirstEdge(g.edges, g.kind, 2, 3).Some?
    requires FirstEdge(g.edges, g.kind, 3, 4).Some?
    ensures WellFormed(g)
  {
    forall u, v | u in g.nodes && v in NeighborIds(g, u)
      ensures v in g.nodes && FirstEdge(g.edges, g.kind, u, v).Some?
    {
      assert Step(g, u, v);
    }
  }

  /** Every node of the test has both coordinates. */
  lemma ChainLocated(withFive: bool)
    ensures Located(ChainGraph(withFive))
  {
    var g := ChainGraph(withFive);
    forall u | u in g.nodes
      ensures HasCoordinates(g.nodes[u]) && LocatedAt(g, u)
    {
    }
  }

  /** In the chain every walk from 1 goes 1, 2, 3, ... and stops at 4 at the latest. */
  lemma {:induction false} WalkFromOne(g: Graph<int, string>, withFive: bool, p: seq<int>, k: nat)
    requires ShapedLikeChain(g, withFive) && IsWalk(g, p) && p[0] == 1 && k < |p|
    ensures k <= 3 && p[k] == k + 1
  {
    if k > 0 {
      WalkFromOne(g, withFive, p, k - 1);
      assert Step(g, p[k - 1], p[k]);
    }
  }

  /** So the only walk from 1 to 4 is [1, 2, 3, 4]. */
  lemma OnlyWalkToFour(g: Graph<int, string>, withFive: bool, p: seq<int>)
    requires ShapedLikeChain(g, withFive) && IsWalk(g, p) && p[0] == 1 && p[|p| - 1] == 4
    ensures p == [1, 2, 3, 4]
  {
    WalkFromOne(g, withFive, p, |p| - 1);
    forall k | 0 <= k < |p|
      ensures p[k] == k + 1
    {
      WalkFromOne(g, withFive, p, k);
    }
  }

  lemma FourReachable(g: Graph<int, string>, withFive: bool)
    requires ShapedLikeChain(g, withFive)
    ensures Reachable(g, 1, 4)
  {
    var p := [1, 2, 3, 4];
    assert Step(g, 1, 2) && Step(g, 2, 3) && Step(g, 3, 4);
    assert IsWalk(g, p);
  }

  /** Nothing leads out of {1, 2, 3, 4}, so the isolated node cannot be reached. */
  lemma FiveUnreachable(g: Graph<int, string>)
    requires ShapedLikeChain(g, true)
    ensures !Reachable(g, 1, 5)
  {
    var closed := {1, 2, 3, 4};
    forall u, w | u in closed && Step(g, u, w)
      ensures w in closed
    {
    }
    if Reachable(g, 1, 5) {
      ReachableWithinClosedSet(g, 1, closed, 5);
    }
  }

  /** test_astar_search_valid_path: with the Manhattan heuristic the path from 1
      to 4 is [1, 2, 3, 4]. */
  method ValidPathExample() returns (r: Result<Option<seq<int>>, SearchError>)
    ensures r == Success(Some([1, 2, 3, 4]))
  {
    var g := ChainGraph(false);
    ChainGraphShaped(false);
    ChainEdges(false);
    ChainWellFormed(g, false);
    ChainLocated(false);
    FourReachable(g, false);
    var astar := new AStar(g, Manhattan);
    r := astar.FindShortestPath(1, 4);
    assert r.Success? && r.value.Some?;
    var p := r.value.value;
    assert IsWalk(g, p) && p[0] == 1 && p[|p| - 1] == 4;
    OnlyWalkToFour(g, false, p);
  }

  /** test_astar_search_no_path: with the isolated node 5 added, there is no path
      from 1 to 5. */
  method NoPathExample() returns (r: Result<Option<seq<int>>, SearchError>)
    ensures r == Success(None)
  {
    var g := ChainGraph(true);
    ChainGraphShaped(true);
    ChainEdges(true);
    ChainWellFormed(g, true);
    ChainLocated(true);
    FiveUnreachable(g);
    var astar := new AStar(g, Manhattan);
    r := astar.FindShortestPath(1, 5);
    assert r.Success?;
  }
}
