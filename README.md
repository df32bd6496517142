# path-planning graph library, Dijkstra and A*, in Dafny

This project models the deterministic core of the path-planning repository:

- the graph library: `BaseGraph` with its node and edge dictionaries, and the
  directed and undirected node, edge and graph classes;
- Dijkstra's single-source search, `Dijkstra.find_shortest_paths`;
- the A* search, `AStar.heuristic`, `find_shortest_path` and `reconstruct_path`.

It also proves properties of that model.

The node and edge classes are Dafny classes. Their adjacency lists are `seq`
fields that the methods update in place. An edge constructor appends the new
edge to the lists of its ends, as the Python constructors do.
`BaseGraph` is a class whose two dictionaries are `map` fields, plus the
insertion order of the edge dictionary. Its `add_node` and `add_edge` refuse a
duplicate id with an error outcome.

Neither search changes the graph. Both read it through a value,
`GraphView.Graph`, which holds:

- the variant (directed or undirected);
- the node dictionary;
- each node's own adjacency list;
- the edges in dictionary order.

`DirectedGraph.View` and `UndirectedGraph.View` build that value from the
objects. The graphs' `GetNeighbors` and `GetEdgeBetween` are proved to agree
with the value-level `Neighbors` and `EdgeBetween` that the searches use.

Both searches are imperative: `while` loops over a heap held in a sequence,
with explicit invariants.

- `HeapPop` takes out *some* entry of least priority, so no proof depends on
  heapq's tie-breaking.
- Distances and costs are `Dist = Fin(nat) | Inf`, where `Inf` is
  `float('inf')`.
- Every way the Python code can raise is an error outcome. Examples are
  `heappop` on an empty heap, a missing edge (`None.weight`) and a missing
  coordinate. The contracts tie each error kind to its cause: a missing
  source, start or goal, a graph that is not well formed, a node without
  coordinates, an unknown heuristic type.

Proved about Dijkstra:

- On success, the result covers exactly the graph's nodes, and the source has
  `(0, None)`.
- Every distance is the cost of some walk from the source, and no walk is
  cheaper (`ShortestDistances`).
- Every predecessor link is an edge whose weight accounts for the distance.
- The search fails with an empty heap only when some node is unreachable.
- A source that is not a node fails with the empty heap, or, when the graph
  has no nodes at all, with the KeyError of the final dictionary.
- A missing edge means the graph is not well formed.
- On a well-formed graph it succeeds exactly when the source is a node and
  every node is reachable from it.

Proved about A*:

- The predecessors form a chain that is closed in order, so
  `reconstruct_path` terminates.
- A returned path is a walk from the start to the goal along the predecessors.
- `None` means the goal is unreachable, or is the start itself.
- It fails for a missing start exactly when the start is not a node. A missing
  edge means the graph is not well formed. A missing goal means the goal is
  not a node. A missing coordinate means some node lacks one. An unknown
  heuristic type means the type is unknown.
- So when start and goal are nodes of a well-formed graph whose nodes all have
  coordinates, and the heuristic type is known, the search cannot fail.

The repository's own test graphs for both searches are in `Examples` and
`AStarExamples`, with the expected results checked against the model's
contracts. The Dijkstra test graph is built as its test builds it, through the
node and edge constructors, `add_node` and `add_edge`.

## Model

| member | source | states |
|---|---|---|
| BaseGraph.SameNodeIsEquivalence | algorithms/graph_lib/base_graph.py:20-29 | node equality (equal ids) is reflexive, symmetric and transitive |
| BaseGraph.SameNodeIgnoresCoordinates | tests/test_graphs/test_directed_graph.py:12-18 | nodes with the same id are equal whatever their coordinates; nodes with different ids are not |
| BaseGraph.BaseGraph.constructor | algorithms/graph_lib/base_graph.py:65-67 | a new graph has no nodes and no edges |
| BaseGraph.BaseGraph.AddNode | algorithms/graph_lib/base_graph.py:69-72 | a duplicate id fails with the nodes unchanged; otherwise exactly the entry id -> node is added, and get_node then returns it |
| BaseGraph.BaseGraph.RemoveNode | algorithms/graph_lib/base_graph.py:74-77 | nothing changes, whether or not the id is present |
| BaseGraph.BaseGraph.AddEdge | algorithms/graph_lib/base_graph.py:79-83 | a duplicate id fails with the edges unchanged; otherwise exactly the entry id -> edge is added, last in iteration order, and get_edge then returns it |
| BaseGraph.BaseGraph.RemoveEdge | algorithms/graph_lib/base_graph.py:85-88 | nothing changes, whether or not the id is present |
| BaseGraph.BaseGraph.GetNode | algorithms/graph_lib/base_graph.py:90-91 | None exactly when the id is not a key; otherwise the stored node |
| BaseGraph.BaseGraph.GetEdge | algorithms/graph_lib/base_graph.py:93-94 | None exactly when the id is not a key; otherwise the stored edge |
| DirectedGraph.DirectedNode.constructor | algorithms/graph_lib/directed_graph.py:16-19 | a new node keeps its id and coordinates, which are None unless given, and has empty outgoing and incoming lists |
| DirectedGraph.DirectedNode.AddOutgoingEdge | algorithms/graph_lib/directed_graph.py:21-29 | appends the edge only if it is not listed yet, so a list without duplicates stays without them |
| DirectedGraph.DirectedNode.AddIncomingEdge | algorithms/graph_lib/directed_graph.py:31-39 | the same for the incoming list |
| DirectedGraph.DirectedNode.Successors | algorithms/graph_lib/directed_graph.py:41-45 | exactly the targets of the outgoing edges, in list order |
| DirectedGraph.DirectedNode.Predecessors | algorithms/graph_lib/directed_graph.py:47-51 | exactly the sources of the incoming edges, in list order |
| DirectedGraph.DirectedEdge.constructor | algorithms/graph_lib/directed_graph.py:64-70 | the new edge keeps its ends and its weight, 1 unless given, and is appended to its source's outgoing list and to its target's incoming list |
| DirectedGraph.DirectedEdge.GetOtherNode | algorithms/graph_lib/directed_graph.py:82-94 | the target for the source, the source for the target, and an error exactly for a node that is neither |
| DirectedGraph.OtherNodeRoundTrip | algorithms/graph_lib/directed_graph.py:82-94 | crossing an edge twice with get_other_node returns to the node started from |
| DirectedGraph.HasNodesIsConnects | algorithms/graph_lib/directed_graph.py:96-104 | has_nodes(a, b) holds exactly when a is the source and b the target; the ends are those is_source and is_target recognise |
| DirectedGraph.NewGraph | algorithms/graph_lib/directed_graph.py:114-115 | DirectedGraph() is a fresh, empty graph keyed by node and edge id |
| DirectedGraph.KeyedById | algorithms/graph_lib/base_graph.py:69-72 | every node is stored under its own id |
| DirectedGraph.View | algorithms/graph_lib/directed_graph.py:107-150 | the searches' value has the same nodes, each node's outgoing edges as its adjacency, and the edges in dictionary order |
| DirectedGraph.GetNeighbors | algorithms/graph_lib/directed_graph.py:120-130 | an error exactly for an absent id; otherwise the successors, node for node as the searches' Neighbors lists them |
| DirectedGraph.Lookup | algorithms/graph_lib/directed_graph.py:142-143 | a node argument is used as it is; an id is looked up and may give None |
| DirectedGraph.ScanFindsFirstEdge | algorithms/graph_lib/directed_graph.py:146-148 | the edge at which the scan stops is the first matching edge in dictionary order |
| DirectedGraph.GetEdgeBetween | algorithms/graph_lib/directed_graph.py:132-150 | the loop returns the first edge in dictionary order from node1 to node2, or None when none matches or an id is unknown |
| UndirectedGraph.UndirectedNode.constructor | algorithms/graph_lib/undirected_graph.py:15-17 | a new node keeps its id and coordinates, which are None unless given, and has an empty edge list |
| UndirectedGraph.UndirectedNode.AddEdge | algorithms/graph_lib/undirected_graph.py:19-32 | appends the edge only if it is not listed yet, so a list without duplicates stays without them |
| UndirectedGraph.UndirectedNode.GetNeighbors | algorithms/graph_lib/undirected_graph.py:34-38 | get_other_node across each edge in order; an error exactly when some edge does not touch the node |
| UndirectedGraph.OthersOf | algorithms/graph_lib/undirected_graph.py:38 | the list comprehension: each result is get_other_node of the matching edge, or the error of the first edge that fails |
| UndirectedGraph.UndirectedEdge.constructor | algorithms/graph_lib/undirected_graph.py:52-60 | the new edge keeps its ends and its weight, 1 unless given, and is appended to the edge lists of both ends |
| UndirectedGraph.UndirectedEdge.GetOtherNode | algorithms/graph_lib/undirected_graph.py:66-81 | node2 for node1, node1 for node2, and an error exactly for a node that is neither |
| UndirectedGraph.OtherNodeRoundTrip | algorithms/graph_lib/undirected_graph.py:66-81 | crossing an edge twice with get_other_node returns to the node started from |
| UndirectedGraph.HasNodesIsConnects | algorithms/graph_lib/undirected_graph.py:83-91 | has_nodes(a, b) holds exactly when the ends are a and b in either order, so it is symmetric |
| UndirectedGraph.NewGraph | algorithms/graph_lib/undirected_graph.py:101-102 | UndirectedGraph() is a fresh, empty graph keyed by node and edge id |
| UndirectedGraph.KeyedById | algorithms/graph_lib/base_graph.py:69-72 | every node is stored under its own id |
| UndirectedGraph.View | algorithms/graph_lib/undirected_graph.py:94-141 | the searches' value has the same nodes, each node's edge list as its adjacency, and the edges in dictionary order |
| UndirectedGraph.GetNeighbors | algorithms/graph_lib/undirected_graph.py:107-121 | an error exactly for an absent id; otherwise, for each edge in order, node1 when node2 is the node and node2 otherwise |
| UndirectedGraph.NeighborsAgree | algorithms/graph_lib/undirected_graph.py:34-38 | when every edge of the node touches it, the graph's get_neighbors and the node's own agree |
| UndirectedGraph.Lookup | algorithms/graph_lib/undirected_graph.py:133-134 | a node argument is used as it is; an id is looked up and may give None |
| UndirectedGraph.ScanFindsFirstEdge | algorithms/graph_lib/undirected_graph.py:137-139 | the edge at which the scan stops is the first matching edge in dictionary order |
| UndirectedGraph.GetEdgeBetween | algorithms/graph_lib/undirected_graph.py:123-141 | the loop returns the first edge in dictionary order with both nodes as its ends, or None |
| GraphView.Neighbors | algorithms/graph_lib/directed_graph.py:120-130 | an error exactly for an absent node; otherwise one neighbour per adjacency entry, the one across that edge |
| GraphView.NeighborIds | algorithms/graph_lib/undirected_graph.py:119 | the ids of those neighbours, in order |
| GraphView.DirectedNeighborsAreTargets | algorithms/graph_lib/directed_graph.py:45 | in a directed graph v is a neighbour of u exactly when an outgoing edge of u targets v |
| GraphView.UndirectedNeighborsShareAnEdge | algorithms/graph_lib/undirected_graph.py:110-121 | in an undirected graph v is a neighbour of u exactly when one of u's edges joins u and v, either way round |
| GraphView.ConnectsOrder | algorithms/graph_lib/undirected_graph.py:91 | undirected matching ignores order; a directed edge matching both ways is a self-loop |
| GraphView.FirstMatch | algorithms/graph_lib/directed_graph.py:146-148 | the position of the first matching edge: every earlier edge fails to match |
| GraphView.FirstEdge | algorithms/graph_lib/directed_graph.py:146-150 | None exactly when no edge matches; otherwise a matching edge of the list |
| GraphView.FirstMatchUndirectedSymmetric | algorithms/graph_lib/undirected_graph.py:137-139 | the first undirected match for (a, b) is the first for (b, a) |
| GraphView.Resolve | algorithms/graph_lib/undirected_graph.py:133-134 | an id resolves exactly when it is a node; a node argument always resolves |
| GraphView.EdgeBetween | algorithms/graph_lib/undirected_graph.py:123-141 | an edge exactly when both arguments resolve and some edge connects them; a returned edge is in the graph and connects them |
| GraphView.EdgeBetweenUndirectedSymmetric | algorithms/graph_lib/undirected_graph.py:123-141 | undirected get_edge_between(a, b) and get_edge_between(b, a) return the same edge |
| GraphView.ReachableStep | algorithms/dijkstra/dijkstra.py:39-45 | reachability extends along one get_neighbors step |
| GraphView.ReachableWithinClosedSet | algorithms/dijkstra/dijkstra.py:29-31 | a set containing the source and closed under get_neighbors contains every reachable node |
| GraphView.ReachableFromMissing | algorithms/dijkstra/dijkstra.py:23-25 | from an id that is not a node, nothing but the id itself is reachable |
| GraphView.WalkOfCostStep | algorithms/dijkstra/dijkstra.py:41-43 | a walk to u that costs c, followed by a step to v, is a walk to v that costs c plus the step's weight |
| GraphView.WalkOfCostIsReachable | algorithms/dijkstra/dijkstra.py:41-43 | a node with a walk of some cost is reachable |
| Frontier.Plus | algorithms/dijkstra/dijkstra.py:41 | inf + w stays inf; a finite distance grows by exactly the weight |
| Frontier.LessIsStrictOrder | algorithms/dijkstra/dijkstra.py:42 | `<` on distances with infinity is a strict order, and at-most is its complement |
| Frontier.ImproveLowers | algorithms/dijkstra/dijkstra.py:42-43 | lowering one distance strictly keeps every distance at or below its old value |
| Frontier.HeapPop | algorithms/dijkstra/dijkstra.py:31 | fails exactly on an empty heap; otherwise removes one entry of least priority and keeps all the others |
| Frontier.StillQueued | algorithms/dijkstra/dijkstra.py:31 | an entry that was not popped is still on the heap |
| Frontier.WasQueued | algorithms/dijkstra/dijkstra.py:31 | whatever is left after a pop was on the heap before it |
| Dijkstra.ImprovePreserves | algorithms/dijkstra/dijkstra.py:42-45 | one strict improvement keeps every earlier relaxation fact and settles the improved neighbour |
| Dijkstra.ImproveKeepsLinks | algorithms/dijkstra/dijkstra.py:44 | the new predecessor replaces only the improved node's; every other link stays |
| Dijkstra.ImproveRecords | algorithms/dijkstra/dijkstra.py:43-45 | the improved node gets the route through the current node as its distance, the current node as its predecessor, and a heap entry |
| Dijkstra.PushKeepsHeap | algorithms/dijkstra/dijkstra.py:45 | every pushed entry's priority is at least the current node's distance and bounds its node's distance |
| Dijkstra.Relax | algorithms/dijkstra/dijkstra.py:39-45 | distances only drop, and only by strict improvement through the current node, which becomes the predecessor; afterwards no edge out of it gives a shortcut; a missing edge or key is the only failure, and cannot happen on a well-formed graph |
| Dijkstra.RelaxEdge | algorithms/dijkstra/dijkstra.py:40-45 | one neighbour: a missing edge fails, a strictly shorter route is taken, and either way the neighbour is settled afterwards |
| Dijkstra.SettledStays | algorithms/dijkstra/dijkstra.py:42 | later improvements never undo an earlier settled neighbour |
| Dijkstra.SkipPreserves | algorithms/dijkstra/dijkstra.py:32-34 | skipping an entry of a visited node keeps the loop invariant |
| Dijkstra.NoImprovementBelow | algorithms/dijkstra/dijkstra.py:42 | a node whose distance is already no more than the current one is not improved |
| Dijkstra.VisitPreserves | algorithms/dijkstra/dijkstra.py:36-45 | visiting the popped node and relaxing its edges keeps the loop invariant, with that node now visited |
| Dijkstra.VisitKeepsShape | algorithms/dijkstra/dijkstra.py:23-26 | after a visit, the maps still cover the nodes, the source keeps (0, None), and every other node with a finite distance has a predecessor |
| Dijkstra.VisitKeepsHeap | algorithms/dijkstra/dijkstra.py:31-45 | after a visit every heap entry still bounds its node's distance, and every unvisited node with a finite distance is still queued |
| Dijkstra.VisitKeepsSettled | algorithms/dijkstra/dijkstra.py:37-45 | a visited node's distance never changes again, and it stays relaxed |
| Dijkstra.RelaxedStays | algorithms/dijkstra/dijkstra.py:42 | distances that only drop, with the node's own kept, keep it relaxed |
| Dijkstra.VisitKeepsLinks | algorithms/dijkstra/dijkstra.py:40-44 | every predecessor is visited, and a node's distance is its predecessor's plus the edge weight |
| Dijkstra.VisitKeepsWalks | algorithms/dijkstra/dijkstra.py:41-43 | every finite distance stays the cost of some walk from the source |
| Dijkstra.StuckMeansUnreachable | algorithms/dijkstra/dijkstra.py:29-31 | when the heap runs dry with nodes unvisited, some node is unreachable from the source |
| Dijkstra.InitialSearching | algorithms/dijkstra/dijkstra.py:23-27 | the initial maps, heap and unvisited set satisfy the loop invariant |
| Dijkstra.FinishedSearch | algorithms/dijkstra/dijkstra.py:47-51 | once all nodes are visited, the result covers the nodes, the source has (0, None), distances are finite walk costs, every other node has a predecessor linked by an edge, and no edge offers a shortcut |
| Dijkstra.SearchStep | algorithms/dijkstra/dijkstra.py:30-45 | one pop keeps the invariant and makes progress; an empty heap means an unreachable node; any other failure means the graph is not well formed; a source that is not a node only ever ends in the empty-heap error |
| Dijkstra.FindShortestPaths | algorithms/dijkstra/dijkstra.py:11-51 | on success: keys are the nodes, the source has (0, None), distances are walk costs, links are edges, no shortcut exists; an empty-heap failure means an unreachable node; a source that is not a node fails with the empty heap, or with the KeyError when the graph has no nodes; a missing edge means the graph is not well formed, a KeyError that it is not or that the source is missing; on a well-formed graph, success exactly when the source is a node and every node is reachable |
| Dijkstra.NoWalkIsCheaper | algorithms/dijkstra/dijkstra.py:42 | with no shortcut, the end of any walk costs at most its start plus the walk's cost |
| Dijkstra.ShortestDistances | algorithms/dijkstra/dijkstra.py:15-21 | the reported distances are shortest: no walk from the source to a node is cheaper |
| AStar.ISqrt | algorithms/astar/astar.py:67 | r * r <= n < (r + 1) * (r + 1) |
| AStar.ISqrtIsLargest | algorithms/astar/astar.py:67 | every m with m * m <= n is at most the root |
| AStar.ISqrtAtMost | algorithms/astar/astar.py:67 | the root is at most every k with n <= k * k |
| AStar.Heuristic | algorithms/astar/astar.py:51-73 | fails exactly when a coordinate is missing (checked first) or the type is unknown |
| AStar.HeuristicSymmetric | algorithms/astar/astar.py:61-71 | every heuristic gives the same estimate in both directions |
| AStar.HeuristicOfSelf | algorithms/astar/astar.py:61-71 | every known heuristic estimates 0 from a located node to itself |
| AStar.HeuristicOrder | algorithms/astar/astar.py:64-71 | zero <= Chebyshev <= Euclidean <= Manhattan <= 2 * Chebyshev |
| AStar.DistancesOrdered | algorithms/astar/astar.py:65-69 | max(dx, dy) <= floor(sqrt(dx^2 + dy^2)) <= dx + dy <= 2 * max(dx, dy) |
| AStar.SquareBetween | algorithms/astar/astar.py:67 | max(dx, dy)^2 <= dx^2 + dy^2 <= (dx + dy)^2 |
| AStar.HeuristicTriangle | algorithms/astar/astar.py:64-69 | Manhattan and Chebyshev estimates obey the triangle inequality |
| AStar.Rank | algorithms/astar/astar.py:107 | the position of a node in the closing order; below the length exactly for closed nodes |
| AStar.RankAppend | algorithms/astar/astar.py:107 | closing a new node keeps every earlier rank and ranks it last |
| AStar.Reversed | algorithms/astar/astar.py:142 | path[::-1]: same length, element i is element len - 1 - i |
| AStar.ReversedTwice | algorithms/astar/astar.py:142 | reversing twice gives the list back |
| AStar.InitialExploring | algorithms/astar/astar.py:88-99 | the start alone with cost 0, no predecessors, nothing closed, one heap entry satisfies the loop invariant |
| AStar.Popped | algorithms/astar/astar.py:102 | a popped entry names a node with a finite cost that is the start or has a predecessor |
| AStar.VisitPreserves | algorithms/astar/astar.py:107-118 | closing the popped node (again, if already closed) and expanding it keeps the loop invariant |
| AStar.VisitKeepsBookkeeping | algorithms/astar/astar.py:107-116 | costs and predecessors keep fitting the graph; the start keeps cost 0 and no predecessor |
| AStar.ClosedKept | algorithms/astar/astar.py:110-111 | a closed neighbour's cost and predecessor are never touched |
| AStar.VisitKeepsLinks | algorithms/astar/astar.py:107-116 | every predecessor was closed before the node it precedes and has an edge to it |
| AStar.VisitKeepsOpen | algorithms/astar/astar.py:102-118 | every heap entry names a node with a finite cost, and every open node with a finite cost stays queued |
| AStar.FailureMeansUnsafe | algorithms/astar/astar.py:109-117 | an error caused at one node is caused by the whole graph: a missing edge means it is not well formed, a missing coordinate that it is not located, a missing goal that the goal is not a node, an unknown heuristic that the type is unknown; never a missing start |
| AStar.ReExpanded | algorithms/astar/astar.py:102-109 | a node popped again after being closed is still fully expanded |
| AStar.VisitShrinks | algorithms/astar/astar.py:101-107 | each pass closes a new node, or re-pops a closed one and shortens the heap |
| AStar.StaysQueued | algorithms/astar/astar.py:102-118 | an entry other than the popped one survives the pop and the pushes after it |
| AStar.VisitKeepsExpanded | algorithms/astar/astar.py:109-118 | every closed node stays expanded: no open neighbour can be reached more cheaply through it |
| AStar.ExhaustedMeansUnreachable | algorithms/astar/astar.py:101-120 | when the heap empties without popping the goal, the goal is unreachable from the start |
| AStar.PathFollowsLinks | algorithms/astar/astar.py:136-142 | the reconstructed list is a walk from start to goal whose consecutive nodes are predecessor links along found edges |
| AStar.LinksRanked | algorithms/astar/astar.py:107-116 | every predecessor is ranked before the node it precedes, so following predecessors ends |
| AStar.AStar.constructor | algorithms/astar/astar.py:35-49 | a new searcher keeps its graph and heuristic, Manhattan unless given, with no start, no goal and no predecessors |
| AStar.AStar.Expand | algorithms/astar/astar.py:109-118 | closed neighbours are skipped; costs only drop, and only strictly, through the expanded node; afterwards it is expanded; a missing edge means that node is not well formed, a missing goal that the goal is absent, a missing coordinate that the goal or a neighbour lacks one, an unknown heuristic that the type is unknown |
| AStar.AStar.Consider | algorithms/astar/astar.py:110-118 | one neighbour: skipped when closed, otherwise settled, lowering its cost only on a strict improvement; each error kind has the cause Expand states |
| AStar.AStar.Improve | algorithms/astar/astar.py:115-118 | the improved neighbour takes the new cost and the current node as predecessor and is pushed; a missing goal fails first, then a missing coordinate of the neighbour or goal, then an unknown heuristic type |
| AStar.AStar.FindShortestPath | algorithms/astar/astar.py:75-120 | start and goal are looked up; it fails for a missing start exactly when the start is not a node; a missing edge means the graph is not well formed, a missing goal that the goal is not a node, a missing coordinate that a node lacks one, an unknown heuristic that the type is unknown; start == goal gives None; a path is a walk from start to goal along predecessors; None otherwise means unreachable; with both ends nodes of a well-formed located graph and a known heuristic it cannot fail |
| AStar.AStar.Visit | algorithms/astar/astar.py:101-118 | one pass: keeps the invariant and makes progress, or returns the goal's path, or fails with an error whose kind names its cause in the graph, goal or heuristic |
| AStar.AStar.Advance | algorithms/astar/astar.py:107-118 | closing and expanding a non-goal node keeps the invariant and makes progress, or fails with an error whose kind names its cause in the graph, goal or heuristic |
| AStar.AStar.Reached | algorithms/astar/astar.py:104-105 | popping the goal returns None for the start itself and otherwise a walk along the predecessors |
| AStar.AStar.ReconstructPath | algorithms/astar/astar.py:122-142 | an empty map gives None; otherwise the list starts at the start, ends at the goal when it has a predecessor, and follows predecessor links |
| AStar.ReversedLinks | algorithms/astar/astar.py:138-142 | reversing the collected list turns links to the next node into links from the previous one |
| AStar.ImproveKeeps | algorithms/astar/astar.py:114-116 | a strict improvement of an open neighbour keeps the expansion facts and settles it |
| AStar.ImproveTracked | algorithms/astar/astar.py:116 | a predecessor changes only together with the node's cost |
| AStar.ImproveOpenStays | algorithms/astar/astar.py:118 | every pushed node keeps a lowered cost |
| AStar.ImproveRecorded | algorithms/astar/astar.py:114-116 | the improvement through the current node is recorded, and earlier ones stay |
| AStar.QueuedAfterPush | algorithms/astar/astar.py:118 | pushing the improved node queues it and keeps the expansion facts |
| AStar.SettledStays | algorithms/astar/astar.py:114 | later improvements never undo an earlier settled neighbour |
| Examples.DijkstraNeighbors | tests/test_dijkstra/test_dijkstra.py:16-19 | get_neighbors of the test graph: A -> [B, C], B -> [C], C -> [D], D -> [] |
| Examples.DijkstraWeights | tests/test_dijkstra/test_dijkstra.py:16-28 | get_edge_between finds each test edge with its weight |
| Examples.DijkstraSteps | tests/test_dijkstra/test_dijkstra.py:16-19 | the steps of the test graph are exactly its four edges |
| Examples.ShapedIsWellFormed | tests/test_dijkstra/test_dijkstra.py:16-28 | the test graph is well formed |
| Examples.ShapedIsReachable | tests/test_dijkstra/test_dijkstra.py:16-28 | every node of the test graph is reachable from A |
| Examples.ExampleResult | tests/test_dijkstra/test_dijkstra.py:35-38 | the only result meeting find_shortest_paths' promises is A:(0, None), B:(1, A), C:(3, B), D:(4, C) |
| Examples.MakeFixture | tests/test_dijkstra/test_dijkstra.py:12-19 | the test's four nodes have no coordinates, its four edges carry weights 1, 2, 4, 1, and the edge constructors leave A with outgoing [ab, ac], B with [bc], C with [cd], D with none |
| Examples.AddNewNode | algorithms/graph_lib/base_graph.py:69-72 | add_node of an id not yet taken adds exactly that entry |
| Examples.AddNewEdge | algorithms/graph_lib/base_graph.py:79-83 | add_edge of an id not yet taken adds exactly that entry, last in iteration order |
| Examples.AddFixtureNodes | tests/test_dijkstra/test_dijkstra.py:21-24 | the four add_node calls give the node dictionary A, B, C, D |
| Examples.AddFixtureEdges | tests/test_dijkstra/test_dijkstra.py:25-28 | the four add_edge calls give the edge dictionary in the order ab, bc, ac, cd |
| Examples.FixtureNodes | tests/test_dijkstra/test_dijkstra.py:10-28 | the searches' view of the built graph has the test's nodes and adjacency lists |
| Examples.FixtureEdges | tests/test_dijkstra/test_dijkstra.py:10-28 | the searches' view of the built graph lists the test's edges in dictionary order |
| Examples.BuildDijkstraGraph | tests/test_dijkstra/test_dijkstra.py:10-28 | the fixture built with DirectedGraph(), the node and edge constructors, add_node and add_edge is seen by the searches as exactly the test graph |
| Examples.DijkstraExample | tests/test_dijkstra/test_dijkstra.py:10-38 | find_shortest_paths("A") on the graph the fixture builds returns exactly that dictionary |
| AStarExamples.ChainNeighbors | tests/test_astar/test_astar.py:16-26 | get_neighbors of the test graph: 1 -> [2], 2 -> [3], 3 -> [4], 4 -> [], 5 -> [] |
| AStarExamples.ChainSteps | tests/test_astar/test_astar.py:16-26 | the steps of the test graph are exactly k -> k + 1 for k = 1, 2, 3 |
| AStarExamples.ChainEdges | tests/test_astar/test_astar.py:16-26 | get_edge_between finds each of the three edges |
| AStarExamples.ChainWellFormed | tests/test_astar/test_astar.py:16-26 | the test graph is well formed |
| AStarExamples.ChainLocated | tests/test_astar/test_astar.py:11-14 | every node of the test graph has both coordinates |
| AStarExamples.WalkFromOne | tests/test_astar/test_astar.py:16-18 | every walk from 1 visits 1, 2, 3, 4 in turn and stops at 4 at the latest |
| AStarExamples.OnlyWalkToFour | tests/test_astar/test_astar.py:28-31 | the only walk from 1 to 4 is [1, 2, 3, 4] |
| AStarExamples.FourReachable | tests/test_astar/test_astar.py:28-31 | 4 is reachable from 1 |
| AStarExamples.FiveUnreachable | tests/test_astar/test_astar.py:33-38 | the isolated node 5 is not reachable from 1 |
| AStarExamples.ValidPathExample | tests/test_astar/test_astar.py:28-31 | find_shortest_path(1, 4) with Manhattan returns exactly [1, 2, 3, 4] |
| AStarExamples.NoPathExample | tests/test_astar/test_astar.py:33-38 | with node 5 added, find_shortest_path(1, 5) returns None |

## Left out

- algorithms/rrt/rrt.py is not part of this model. It draws random samples,
  does floating-point trigonometry, and stores its tree in a networkx graph.
- Weights and coordinates are integers, and weights are non-negative.
  `float('inf')` is the `Inf` constructor of `Dist`. Floating-point rounding
  is not modelled.
- AStar.Heuristic: the Euclidean estimate is the square root rounded down to
  an integer, not `math.sqrt` on floats.
- AStar.AStar.FindShortestPath: no optimality is claimed for the returned path.
  The source promises "the shortest path", but with a closed list, lazy heap
  entries and heuristics that need not be consistent it does not guarantee one.
  The contract states that the path is a walk from the start to the goal along
  the recorded predecessors, and that None means the goal is unreachable.
- Frontier.HeapPop: heapq breaks ties between equal priorities by comparing
  the ids. The model takes any entry of least priority, so every property
  proved here holds whichever tie-break is used.
- The `print` in `reconstruct_path`, and every `__str__` method, produce text
  only. They are left out.
- The `isinstance` checks vanish: the variant of a graph, node or edge is fixed
  by its Dafny type.
- `__hash__` is left out. Node equality is modelled as id equality
  (`SameNode`), which is what the hash is consistent with.
- The searches take the graph as the value `GraphView.Graph`. They do not take
  the objects. `DirectedGraph.View` and `UndirectedGraph.View` give that
  value, and the graphs' own get_neighbors and get_edge_between are proved to
  agree with the value-level ones.
- AStar.AStar.constructor: the graph is a `const` field holding the graph
  value, not the graph object.
- The weight a search charges for a step is that of the first edge
  get_edge_between finds, as in the source. A search stops with an error before
  it uses a step that has no such edge.
