/** A* (algorithms/astar/astar.py): a search from one node to another guided by a
    distance estimate, and the reconstruction of the path it found. */
module AStar {
  import opened Wrappers
  import opened BaseGraph
  import opened GraphView
  import opened Frontier

  /** HeuristicType, plus `Unknown` for a value that is none of its members
      (the source's last `else` branch). */
  datatype HeuristicType = Manhattan | Euclidean | Chebyshev | Zero | Unknown

  /** How a search ends when it neither returns a path nor None. */
  datatype SearchError =
    | StartNotFound      // get_node(start_id) is None: AttributeError on `.id`
    | NoEdge             // get_edge_between returned None: AttributeError on `.weight`
    | GoalNotFound       // the heuristic reads a coordinate of a goal that is None
    | MissingCoordinate  // a coordinate is None: TypeError in the subtraction
    | UnknownHeuristic   // ValueError("Unknown heuristic type")

  function Abs(n: int): (r: nat)
    ensures r == n || r == -n
  {
    if n < 0 then -n else n
  }

  function Max(a: nat, b: nat): (r: nat)
    ensures r >= a && r >= b && (r == a || r == b)
  {
    if a < b then b else a
  }

  /** The integer square root: the largest `r` with r * r <= n. */
  function ISqrt(n: nat): (r: nat)
    ensures r * r <= n < (r + 1) * (r + 1)
    decreases n
  {
    if n < 4 then (if n == 0 then 0 else 1)
    else
      var h := 2 * ISqrt(n / 4);
      ISqrtStep(n, ISqrt(n / 4));
      if (h + 1) * (h + 1) <= n then h + 1 else h
  }

  /** Doubling the root of n / 4 comes within one of the root of n. */
  lemma ISqrtStep(n: nat, q: nat)
    requires q * q <= n / 4 < (q + 1) * (q + 1)
    ensures (2 * q) * (2 * q) <= n < (2 * q + 2) * (2 * q + 2)
  {
    var m := n / 4;
    assert n == 4 * m + n % 4;
    assert (2 * q) * (2 * q) == 4 * (q * q);
    assert (2 * q + 2) * (2 * q + 2) == 4 * ((q + 1) * (q + 1));
  }

  lemma MulMonotone(a: nat, b: nat)
    requires a <= b
    ensures a * a <= b * b
  {
    assert a * a <= a * b by { MulLeft(a, a, b); }
    assert a * b <= b * b by { MulLeft(b, a, b); }
  }

  lemma MulLeft(c: nat, a: nat, b: nat)
    requires a <= b
    ensures a * c <= b * c
  {
  }

  /** Any `m` with m * m <= n is at most the integer square root of n. */
  lemma ISqrtIsLargest(n: nat, m: nat)
    requires m * m <= n
    ensures m <= ISqrt(n)
  {
    var r := ISqrt(n);
    if m >= r + 1 {
      MulMonotone(r + 1, m);
    }
  }

  /** The integer square root of n is at most any `k` with n <= k * k. */
  lemma ISqrtAtMost(n: nat, k: nat)
    requires n <= k * k
    ensures ISqrt(n) <= k
  {
    var r := ISqrt(n);
    assert (k + 1) * (k + 1) == k * k + 2 * k + 1;
    if r >= k + 1 {
      MulMonotone(k + 1, r);
    }
  }

  predicate HasCoordinates<Id>(n: NodeRec<Id>) {
    n.x.Some? && n.y.Some?
  }

  /** AStar.heuristic: dx and dy are taken first (a missing coordinate fails
      there, whatever the heuristic type); then Manhattan dx + dy, Euclidean the
      square root of dx^2 + dy^2 rounded down, Chebyshev max(dx, dy), Zero 0, and an
      unknown type fails. */
  function Heuristic<Id>(ht: HeuristicType, startNode: NodeRec<Id>, goalNode: NodeRec<Id>): (r: Result<nat, SearchError>)
    ensures r.Failure? <==> !HasCoordinates(startNode) || !HasCoordinates(goalNode) || ht == Unknown
    ensures r.Failure? ==> r.error == if HasCoordinates(startNode) && HasCoordinates(goalNode) then UnknownHeuristic else MissingCoordinate
  {
    if !HasCoordinates(startNode) || !HasCoordinates(goalNode) then Failure(MissingCoordinate)
    else
      var dx := Abs(startNode.x.value - goalNode.x.value);
      var dy := Abs(startNode.y.value - goalNode.y.value);
      match ht
      case Manhattan => Success(dx + dy)
      case Euclidean => Success(ISqrt(dx * dx + dy * dy))
      case Chebyshev => Success(Max(dx, dy))
      case Zero => Success(0)
      case Unknown => Failure(UnknownHeuristic)
  }

  /** Every heuristic is symmetric in its two nodes. */
  lemma HeuristicSymmetric<Id>(ht: HeuristicType, a: NodeRec<Id>, b: NodeRec<Id>)
    ensures Heuristic(ht, a, b) == Heuristic(ht, b, a)
  {
    if HasCoordinates(a) && HasCoordinates(b) {
      assert Abs(a.x.value - b.x.value) == Abs(b.x.value - a.x.value);
      assert Abs(a.y.value - b.y.value) == Abs(b.y.value - a.y.value);
    }
  }

  /** Every known heuristic estimates 0 from a located node to itself. */
  lemma HeuristicOfSelf<Id>(ht: HeuristicType, a: NodeRec<Id>)
    requires HasCoordinates(a) && ht != Unknown
    ensures Heuristic(ht, a, a) == Success(0)
  {
  }

  /** The four estimates are ordered: zero <= Chebyshev <= Euclidean <= Manhattan
      <= 2 * Chebyshev. */
  lemma HeuristicOrder<Id>(a: NodeRec<Id>, b: NodeRec<Id>)
    requires HasCoordinates(a) && HasCoordinates(b)
    ensures Heuristic(Zero, a, b).value <= Heuristic(Chebyshev, a, b).value
    ensures Heuristic(Chebyshev, a, b).value <= Heuristic(Euclidean, a, b).value
    ensures Heuristic(Euclidean, a, b).value <= Heuristic(Manhattan, a, b).value
    ensures Heuristic(Manhattan, a, b).value <= 2 * Heuristic(Chebyshev, a, b).value
  {
    var dx := Abs(a.x.value - b.x.value);
    var dy := Abs(a.y.value - b.y.value);
    DistancesOrdered(dx, dy);
    assert Heuristic(Euclidean, a, b).value == ISqrt(dx * dx + dy * dy);
  }

  /** On the coordinate differences: max <= integer Euclidean <= sum <= 2 * max. */
  lemma DistancesOrdered(dx: nat, dy: nat)
    ensures Max(dx, dy) <= ISqrt(dx * dx + dy * dy) <= dx + dy <= 2 * Max(dx, dy)
  {
    SquareBetween(dx, dy);
    ISqrtIsLargest(dx * dx + dy * dy, Max(dx, dy));
    ISqrtAtMost(dx * dx + dy * dy, dx + dy);
  }

  /** max(dx, dy)^2 <= dx^2 + dy^2 <= (dx + dy)^2. */
  lemma SquareBetween(dx: nat, dy: nat)
    ensures Max(dx, dy) * Max(dx, dy) <= dx * dx + dy * dy <= (dx + dy) * (dx + dy)
  {
    var xx, yy, xy := dx * dx, dy * dy, dx * dy;
    assert (dx + dy) * (dx + dy) == xx + 2 * xy + yy;
    assert xx >= 0 && yy >= 0 && xy >= 0;
  }

  /** Manhattan and Chebyshev distances obey the triangle inequality. */
  lemma HeuristicTriangle<Id>(ht: HeuristicType, a: NodeRec<Id>, b: NodeRec<Id>, c: NodeRec<Id>)
    requires ht == Manhattan || ht == Chebyshev
    requires HasCoordinates(a) && HasCoordinates(b) && HasCoordinates(c)
    ensures Heuristic(ht, a, c).value <= Heuristic(ht, a, b).value + Heuristic(ht, b, c).value
  {
  }

  /** The position of `v` in `order`, or |order| when it is absent. */
  function Rank<Id(==)>(order: seq<Id>, v: Id): (r: nat)
    ensures r <= |order|
    ensures r < |order| <==> v in order
    ensures r < |order| ==> order[r] == v
    decreases |order|
  {
    if order == [] then 0
    else if order[0] == v then 0
    else 1 + Rank(order[1..], v)
  }

  /** Appending a new element keeps every rank and ranks the new element last. */
  lemma {:induction false} RankAppend<Id>(order: seq<Id>, c: Id, v: Id)
    requires c !in order
    ensures Rank(order + [c], v) == if v in order then Rank(order, v) else if v == c then |order| else |order| + 1
    decreases |order|
  {
    if order != [] {
      assert (order + [c])[1..] == order[1..] + [c];
      if order[0] != v {
        RankAppend(order[1..], c, v);
      }
    } else {
      assert order + [c] == [c];
    }
  }

  /** `s` backwards: path[::-1]. */
  function Reversed<T>(s: seq<T>): (r: seq<T>)
    ensures |r| == |s|
    ensures forall i :: 0 <= i < |s| ==> r[i] == s[|s| - 1 - i]
    decreases |s|
  {
    if s == [] then [] else Reversed(s[1..]) + [s[0]]
  }

  /** Reversing twice gives the sequence back. */
  lemma ReversedTwice<T>(s: seq<T>)
    ensures Reversed(Reversed(s)) == s
  {
  }

  /** `u` is recorded as the predecessor of `v`. */
  predicate LinksBack<Id(==)>(preds: map<Id, Id>, v: Id, u: Id) {
    v in preds && preds[v] == u
  }

  /** There is a heap entry for `v`, whatever its priority. */
  predicate Queued<Id(==)>(open: seq<Entry<Id>>, v: Id) {
    exists k :: 0 <= k < |open| && open[k].1 == v
  }

  /** Every neighbour of `u`, as get_neighbors returns it, has both coordinates. */
  ghost predicate LocatedAt<Id, EId>(gr: Graph<Id, EId>, u: Id)
    requires Valid(gr) && u in gr.nodes
  {
    forall i :: 0 <= i < |gr.adj[u]| ==> HasCoordinates(Across(gr.kind, gr.adj[u][i], u))
  }

  /** Every node, and every neighbour get_neighbors returns, has both coordinates. */
  ghost predicate Located<Id, EId>(gr: Graph<Id, EId>)
    requires Valid(gr)
  {
    forall u :: u in gr.nodes ==> HasCoordinates(gr.nodes[u]) && LocatedAt(gr, u)
  }

  /** After expanding `c`: every neighbour outside the closed set is a node, has an
      edge from `c`, and costs no more than the route through `c`. */
  ghost predicate Expanded<Id, EId>(gr: Graph<Id, EId>, g: map<Id, Dist>, closed: set<Id>, c: Id)
    requires Valid(gr) && c in gr.nodes
  {
    && c in g && g[c].Fin?
    && forall nb :: nb in NeighborIds(gr, c) ==>
         || nb in closed
         || (&& nb in gr.nodes && nb in g
             && FirstEdge(gr.edges, gr.kind, c, nb).Some?
             && AtMost(g[nb], Plus(g[c], Weight(gr, c, nb))))
  }

  /** `v`'s cost was lowered through `cur`: it is an open neighbour of `cur`, its new
      cost is the route through `cur`, and `cur` is its new predecessor. */
  ghost predicate ImprovedBy<Id, EId>(gr: Graph<Id, EId>, cur: Id, closed: set<Id>,
                                      g: map<Id, Dist>, g': map<Id, Dist>, preds': map<Id, Id>, v: Id)
    requires Valid(gr) && cur in g && v in g && v in g'
  {
    && v !in closed
    && Step(gr, cur, v)
    && FirstEdge(gr.edges, gr.kind, cur, v).Some?
    && g'[v] == Plus(g[cur], Weight(gr, cur, v))
    && Less(g'[v], g[v])
    && v in preds' && preds'[v] == cur
  }

  /** How expanding `cur` changes the search state: costs only drop, and only by an
      improvement through `cur`; a predecessor changes only with its cost; the heap
      only grows, by entries for improved nodes. */
  ghost predicate RelaxedBy<Id, EId>(gr: Graph<Id, EId>, cur: Id, closed: set<Id>,
                                     g: map<Id, Dist>, preds: map<Id, Id>, open: seq<Entry<Id>>,
                                     g': map<Id, Dist>, preds': map<Id, Id>, open': seq<Entry<Id>>)
    requires Valid(gr) && cur in g
  {
    && g'.Keys == g.Keys
    && (forall v :: v in g ==> AtMost(g'[v], g[v]))
    && (forall v :: v in g && g'[v] != g[v] ==> ImprovedBy(gr, cur, closed, g, g', preds', v))
    && preds.Keys <= preds'.Keys
    && (forall v :: v in preds' && !(v in preds && preds'[v] == preds[v]) ==> v in g && g'[v] != g[v])
    && |open| <= |open'| && open'[..|open|] == open
    && (forall k :: |open| <= k < |open'| ==> open'[k].1 in g && g'[open'[k].1] != g[open'[k].1])
  }

  /** `v`'s predecessor was closed before `v`, and `v` is one of its neighbours. */
  ghost predicate Linked<Id, EId>(gr: Graph<Id, EId>, order: seq<Id>, preds: map<Id, Id>, v: Id)
    requires Valid(gr) && v in preds
  {
    && preds[v] in order
    && Rank(order, preds[v]) < Rank(order, v)
    && Step(gr, preds[v], v)
    && FirstEdge(gr.edges, gr.kind, preds[v], v).Some?
  }

  /** The costs, the closed set and the predecessors fit the graph and each other;
      `order` lists the closed set in the order its members were closed. */
  ghost predicate Bookkeeping<Id, EId>(gr: Graph<Id, EId>, s: Id, goalId: Id, g: map<Id, Dist>, preds: map<Id, Id>,
                                       closed: set<Id>, order: seq<Id>)
  {
    && s in gr.nodes && g.Keys == gr.nodes.Keys && g[s] == Fin(0)
    && (forall v :: v in closed ==> v in order)
    && (forall i :: 0 <= i < |order| ==> order[i] in closed)
    && Distinct(order)
    && closed <= gr.nodes.Keys && goalId !in closed
    && (order != [] ==> s in closed)
    && s !in preds && preds.Keys <= gr.nodes.Keys
    && (forall c :: c in closed && c != s ==> c in preds)
  }

  /** Every heap entry names a node with a finite cost that is the start or has a
      predecessor. */
  ghost predicate OpenSound<Id, EId>(gr: Graph<Id, EId>, s: Id, g: map<Id, Dist>, preds: map<Id, Id>, open: seq<Entry<Id>>)
    requires g.Keys == gr.nodes.Keys
  {
    forall k :: 0 <= k < |open| ==> open[k].1 in gr.nodes && g[open[k].1].Fin? && (open[k].1 == s || open[k].1 in preds)
  }

  /** The invariant of the search loop of find_shortest_path. */
  ghost predicate Exploring<Id, EId>(gr: Graph<Id, EId>, s: Id, goalId: Id, g: map<Id, Dist>, preds: map<Id, Id>,
                                     open: seq<Entry<Id>>, closed: set<Id>, order: seq<Id>)
    requires Valid(gr)
  {
    && Bookkeeping(gr, s, goalId, g, preds, closed, order)
    && (order == [] ==> open == [(0, s)] && preds == map[])
    && OpenSound(gr, s, g, preds, open)
    && AllLinked(gr, order, preds)
    && AllQueued(gr, g, closed, open)
    && AllExpanded(gr, g, closed)
  }

  ghost predicate AllLinked<Id, EId>(gr: Graph<Id, EId>, order: seq<Id>, preds: map<Id, Id>)
    requires Valid(gr)
  {
    forall v :: v in preds ==> Linked(gr, order, preds, v)
  }

  /** Every open node with a finite cost has a heap entry. */
  ghost predicate AllQueued<Id, EId>(gr: Graph<Id, EId>, g: map<Id, Dist>, closed: set<Id>, open: seq<Entry<Id>>)
    requires g.Keys == gr.nodes.Keys
  {
    forall v :: v in gr.nodes && v !in closed && g[v].Fin? ==> Queued(open, v)
  }

  ghost predicate AllExpanded<Id, EId>(gr: Graph<Id, EId>, g: map<Id, Dist>, closed: set<Id>)
    requires Valid(gr) && closed <= gr.nodes.Keys
  {
    forall c :: c in closed ==> Expanded(gr, g, closed, c)
  }

  lemma InitialExploring<Id, EId>(gr: Graph<Id, EId>, s: Id, goalId: Id, g: map<Id, Dist>)
    requires Valid(gr) && s in gr.nodes
    requires g == (map v | v in gr.nodes :: Inf)[s := Fin(0)]
    ensures Exploring(gr, s, goalId, g, map[], [(0, s)], {}, [])
  {
    assert [(0, s)][0].1 == s;
  }

  /** One pass of the search loop that did not reach the goal: the invariant held,
      `entry` was popped from `open` leaving `rest`, and expanding its node (now
      closed) turned the costs, predecessors and heap into g', preds' and open'. */
  ghost predicate VisitStep<Id, EId>(gr: Graph<Id, EId>, s: Id, goalId: Id, g: map<Id, Dist>, preds: map<Id, Id>,
                   open: seq<Entry<Id>>, closed: set<Id>, order: seq<Id>, entry: Entry<Id>, rest: seq<Entry<Id>>,
                   g': map<Id, Dist>, preds': map<Id, Id>, open': seq<Entry<Id>>)
    requires Valid(gr)
  {
    && Exploring(gr, s, goalId, g, preds, open, closed, order)
    && entry in open && multiset(open) == multiset(rest) + multiset{entry} && entry.1 != goalId
    && ExpandedBy(gr, entry.1, closed + {entry.1}, g, preds, rest, g', preds', open')
  }

  /** What a successful expansion of `cur` guarantees: it only relaxed, it left
      `cur` expanded, and every node it improved is on the heap. */
  ghost predicate ExpandedBy<Id, EId>(gr: Graph<Id, EId>, cur: Id, closed: set<Id>,
                                      g: map<Id, Dist>, preds: map<Id, Id>, open: seq<Entry<Id>>,
                                      g': map<Id, Dist>, preds': map<Id, Id>, open': seq<Entry<Id>>)
    requires Valid(gr)
  {
    && cur in gr.nodes && cur in g
    && RelaxedBy(gr, cur, closed, g, preds, open, g', preds', open')
    && Expanded(gr, g', closed, cur)
    && (forall v :: v in g && g'[v] != g[v] ==> Queued(open', v))
  }

  /** A popped entry names a reachable-so-far node with a finite cost. */
  lemma Popped<Id, EId>(gr: Graph<Id, EId>, s: Id, goalId: Id, g: map<Id, Dist>, preds: map<Id, Id>,
                        open: seq<Entry<Id>>, closed: set<Id>, order: seq<Id>, entry: Entry<Id>)
    requires Valid(gr) && Exploring(gr, s, goalId, g, preds, open, closed, order) && entry in open
    ensures entry.1 in gr.nodes && entry.1 in g && g[entry.1].Fin? && (entry.1 == s || entry.1 in preds)
    ensures order == [] ==> entry.1 == s
  {
    var k :| 0 <= k < |open| && open[k] == entry;
  }

  /** Closing the popped node and expanding it keeps the invariant. */
  lemma VisitPreserves<Id, EId>(gr: Graph<Id, EId>, s: Id, goalId: Id, g: map<Id, Dist>, preds: map<Id, Id>,
                                open: seq<Entry<Id>>, closed: set<Id>, order: seq<Id>, entry: Entry<Id>, rest: seq<Entry<Id>>,
                                g': map<Id, Dist>, preds': map<Id, Id>, open': seq<Entry<Id>>)
    requires Valid(gr) && VisitStep(gr, s, goalId, g, preds, open, closed, order, entry, rest, g', preds', open')
    ensures Exploring(gr, s, goalId, g', preds', open', closed + {entry.1},
                      if entry.1 in closed then order else order + [entry.1])
  {
    var cur := entry.1;
    Popped(gr, s, goalId, g, preds, open, closed, order, entry);
    VisitKeepsBookkeeping(gr, s, goalId, g, preds, closed, order, cur, g', preds', rest, open');
    VisitKeepsLinks(gr, s, g, preds, closed, order, cur, g', preds');
    VisitKeepsOpen(gr, s, goalId, g, preds, open, closed, order, entry, rest, g', preds', open');
    VisitKeepsExpanded(gr, g, closed, cur, g', preds, preds', rest, open');
  }

  lemma VisitKeepsBookkeeping<Id, EId>(gr: Graph<Id, EId>, s: Id, goalId: Id, g: map<Id, Dist>, preds: map<Id, Id>,
                                       closed: set<Id>, order: seq<Id>, cur: Id,
                                       g': map<Id, Dist>, preds': map<Id, Id>, rest: seq<Entry<Id>>, open': seq<Entry<Id>>)
    requires Valid(gr) && Bookkeeping(gr, s, goalId, g, preds, closed, order)
    requires cur in gr.nodes && g[cur].Fin? && (cur == s || cur in preds) && cur != goalId
    requires order == [] ==> cur == s
    requires RelaxedBy(gr, cur, closed + {cur}, g, preds, rest, g', preds', open')
    ensures Bookkeeping(gr, s, goalId, g', preds', closed + {cur}, if cur in closed then order else order + [cur])
  {
    var order' := if cur in closed then order else order + [cur];
    assert s in closed + {cur};
    ClosedKept(gr, cur, closed + {cur}, g, preds, rest, g', preds', open', s);
    assert Distinct(order');
  }

  /** Expansion leaves the cost and the predecessor of a closed node alone. */
  lemma ClosedKept<Id, EId>(gr: Graph<Id, EId>, cur: Id, closed: set<Id>,
                            g: map<Id, Dist>, preds: map<Id, Id>, open: seq<Entry<Id>>,
                            g': map<Id, Dist>, preds': map<Id, Id>, open': seq<Entry<Id>>, v: Id)
    requires Valid(gr) && cur in g && RelaxedBy(gr, cur, closed, g, preds, open, g', preds', open')
    requires v in closed && v in g
    ensures g'[v] == g[v]
    ensures v in preds' <==> v in preds
    ensures v in preds ==> preds'[v] == preds[v]
  {
  }

  lemma VisitKeepsLinks<Id, EId>(gr: Graph<Id, EId>, s: Id, g: map<Id, Dist>, preds: map<Id, Id>,
                                 closed: set<Id>, order: seq<Id>, cur: Id, g': map<Id, Dist>, preds': map<Id, Id>)
    requires Valid(gr) && cur in gr.nodes && g.Keys == gr.nodes.Keys && g[cur].Fin?
    requires forall v :: v in closed ==> v in order
    requires forall i :: 0 <= i < |order| ==> order[i] in closed
    requires AllLinked(gr, order, preds)
    requires preds.Keys <= preds'.Keys && g'.Keys == g.Keys
    requires forall v :: v in g && g'[v] != g[v] ==> ImprovedBy(gr, cur, closed + {cur}, g, g', preds', v)
    requires forall v :: v in preds' && !(v in preds && preds'[v] == preds[v]) ==> v in g && g'[v] != g[v]
    ensures AllLinked(gr, if cur in closed then order else order + [cur], preds')
  {
    var order' := if cur in closed then order else order + [cur];
    forall v | v in preds'
      ensures Linked(gr, order', preds', v)
    {
      if cur !in closed {
        RankAppend(order, cur, v);
        RankAppend(order, cur, preds'[v]);
      }
      if !(v in preds && preds'[v] == preds[v]) {
        assert ImprovedBy(gr, cur, closed + {cur}, g, g', preds', v);
        assert v !in order';
      } else {
        assert Linked(gr, order, preds, v);
      }
    }
  }

  lemma VisitKeepsOpen<Id, EId>(gr: Graph<Id, EId>, s: Id, goalId: Id, g: map<Id, Dist>, preds: map<Id, Id>,
                                open: seq<Entry<Id>>, closed: set<Id>, order: seq<Id>,
                                entry: Entry<Id>, rest: seq<Entry<Id>>,
                                g': map<Id, Dist>, preds': map<Id, Id>, open': seq<Entry<Id>>)
    requires Valid(gr) && Exploring(gr, s, goalId, g, preds, open, closed, order)
    requires entry in open && multiset(open) == multiset(rest) + multiset{entry}
    requires entry.1 in gr.nodes && g[entry.1].Fin?
    requires RelaxedBy(gr, entry.1, closed + {entry.1}, g, preds, rest, g', preds', open')
    requires forall v :: v in g && g'[v] != g[v] ==> Queued(open', v)
    ensures OpenSound(gr, s, g', preds', open')
    ensures AllQueued(gr, g', closed + {entry.1}, open')
  {
    var cur := entry.1;
    forall k | 0 <= k < |open'|
      ensures open'[k].1 in gr.nodes && g'[open'[k].1].Fin? && (open'[k].1 == s || open'[k].1 in preds')
    {
      if k < |rest| {
        assert open'[k] == rest[k];
        WasQueued(open, entry, rest, rest[k]);
        var j :| 0 <= j < |open| && open[j] == rest[k];
      } else {
        assert ImprovedBy(gr, cur, closed + {cur}, g, g', preds', open'[k].1);
      }
    }
    forall v | v in gr.nodes && v !in closed + {cur} && g'[v].Fin?
      ensures Queued(open', v)
    {
      if g'[v] == g[v] {
        assert Queued(open, v);
        StaysQueued(open, entry, rest, open', v);
      }
    }
  }

  /** The cause of an error raised while expanding `cur`: a neighbour without an
      edge, a goal that is not a node, a missing coordinate at the goal or at a
      neighbour, or an unknown heuristic type. */
  ghost predicate CausedAt<Id, EId>(gr: Graph<Id, EId>, cur: Id, goal: Option<NodeRec<Id>>, ht: HeuristicType,
                                    e: SearchError)
    requires Valid(gr) && cur in gr.nodes
  {
    match e
    case StartNotFound => false
    case NoEdge => !WellFormedAt(gr, cur)
    case GoalNotFound => goal.None?
    case MissingCoordinate => goal.Some? && !(HasCoordinates(goal.value) && LocatedAt(gr, cur))
    case UnknownHeuristic => ht == Unknown
  }

  /** The cause of an error of find_shortest_path, in terms of its inputs. */
  ghost predicate Caused<Id, EId>(gr: Graph<Id, EId>, startId: Id, goalId: Id, ht: HeuristicType, e: SearchError)
    requires Valid(gr)
  {
    match e
    case StartNotFound => startId !in gr.nodes
    case NoEdge => !WellFormed(gr)
    case GoalNotFound => goalId !in gr.nodes
    case MissingCoordinate => !Located(gr)
    case UnknownHeuristic => ht == Unknown
  }

  /** An error caused at a node of the graph is caused by the graph as a whole. */
  lemma FailureMeansUnsafe<Id, EId>(gr: Graph<Id, EId>, cur: Id, startId: Id, goalId: Id, goal: Option<NodeRec<Id>>,
                                    ht: HeuristicType, err: Option<SearchError>)
    requires Valid(gr) && cur in gr.nodes
    requires goal == (if goalId in gr.nodes then Some(gr.nodes[goalId]) else None)
    requires err.Some? ==> CausedAt(gr, cur, goal, ht, err.value)
    ensures err.Some? ==> Caused(gr, startId, goalId, ht, err.value) && err.value != StartNotFound
  {
  }

  /** A node closed earlier is still expanded when it is closed again. */
  lemma ReExpanded<Id, EId>(gr: Graph<Id, EId>, g: map<Id, Dist>, closed: set<Id>, cur: Id)
    requires Valid(gr) && closed <= gr.nodes.Keys && AllExpanded(gr, g, closed) && cur in closed
    ensures Expanded(gr, g, closed + {cur}, cur)
  {
    assert closed + {cur} == closed;
  }

  /** Each visit either closes a new node or, re-popping a closed one, shortens the heap. */
  lemma VisitShrinks<Id, E>(keys: set<Id>, closed: set<Id>, cur: Id, open: seq<E>, entry: E, rest: seq<E>, open': seq<E>)
    requires cur in keys && multiset(open) == multiset(rest) + multiset{entry}
    requires cur in closed ==> open' == rest
    ensures keys - (closed + {cur}) < keys - closed || (closed + {cur} == closed && |open'| < |open|)
  {
    if cur in closed {
      assert |open| == |multiset(open)| == |multiset(rest)| + 1 == |rest| + 1;
    } else {
      assert cur in keys - closed;
    }
  }

  /** An entry other than the popped one survives the pop and the pushes after it. */
  lemma StaysQueued<Id>(open: seq<Entry<Id>>, entry: Entry<Id>, rest: seq<Entry<Id>>, open': seq<Entry<Id>>, v: Id)
    requires multiset(open) == multiset(rest) + multiset{entry}
    requires Queued(open, v) && v != entry.1
    requires |rest| <= |open'| && open'[..|rest|] == rest
    ensures Queued(open', v)
  {
    var j :| 0 <= j < |open| && open[j].1 == v;
    StillQueued(open, entry, rest, open[j]);
    var k :| 0 <= k < |rest| && rest[k] == open[j];
    assert open'[..|rest|][k] == open'[k];
  }

  lemma VisitKeepsExpanded<Id, EId>(gr: Graph<Id, EId>, g: map<Id, Dist>, closed: set<Id>, cur: Id,
                                    g': map<Id, Dist>, preds: map<Id, Id>, preds': map<Id, Id>,
                                    rest: seq<Entry<Id>>, open': seq<Entry<Id>>)
    requires Valid(gr) && cur in gr.nodes && g.Keys == gr.nodes.Keys && g[cur].Fin? && closed <= gr.nodes.Keys
    requires AllExpanded(gr, g, closed)
    requires RelaxedBy(gr, cur, closed + {cur}, g, preds, rest, g', preds', open')
    requires Expanded(gr, g', closed + {cur}, cur)
    ensures AllExpanded(gr, g', closed + {cur})
  {
    forall c | c in closed
      ensures Expanded(gr, g', closed + {cur}, c)
    {
      assert Expanded(gr, g, closed, c);
      assert g'[c] == g[c];
      forall nb | nb in NeighborIds(gr, c) && nb !in closed + {cur}
        ensures nb in g' && AtMost(g'[nb], Plus(g'[c], Weight(gr, c, nb)))
      {
        assert AtMost(g'[nb], g[nb]);
        LessIsStrictOrder(g'[nb], g[nb], Plus(g[c], Weight(gr, c, nb)));
        LessIsStrictOrder(Plus(g[c], Weight(gr, c, nb)), g'[nb], g[nb]);
      }
    }
  }

  /** With the heap empty, the closed set contains the start and is closed under
      steps, so the goal, which is not in it, cannot be reached. */
  lemma ExhaustedMeansUnreachable<Id(!new), EId>(gr: Graph<Id, EId>, s: Id, goalId: Id, g: map<Id, Dist>, preds: map<Id, Id>,
                                                 closed: set<Id>, order: seq<Id>)
    requires Valid(gr) && Exploring(gr, s, goalId, g, preds, [], closed, order)
    ensures !Reachable(gr, s, goalId)
  {
    forall u, w | u in closed && Step(gr, u, w)
      ensures w in closed
    {
      assert Expanded(gr, g, closed, u);
    }
    if Reachable(gr, s, goalId) {
      ReachableWithinClosedSet(gr, s, closed, goalId);
    }
  }

  /** A path read back through links that each lead from a neighbour, and that end at
      a node outside the links, which is the start, is a walk. */
  lemma PathFollowsLinks<Id, EId>(gr: Graph<Id, EId>, s: Id, goalId: Id, g: map<Id, Dist>, preds: map<Id, Id>,
                                  closed: set<Id>, order: seq<Id>, p: seq<Id>)
    requires Valid(gr) && Bookkeeping(gr, s, goalId, g, preds, closed, order) && AllLinked(gr, order, preds)
    requires s != goalId && |p| >= 1 && p[0] == s && p[|p| - 1] == goalId
    requires forall i :: 1 <= i < |p| - 1 ==> LinksBack(preds, p[i + 1], p[i])
    requires |p| >= 2 ==> p[1] in preds && preds[p[1]] !in preds
    ensures PathAnswer(gr, s, goalId, preds, Some(p))
  {
    assert Linked(gr, order, preds, p[1]);
    assert preds[p[1]] == s;
    forall i | 0 <= i < |p| - 1
      ensures LinksBack(preds, p[i + 1], p[i])
      ensures Step(gr, p[i], p[i + 1]) && FirstEdge(gr.edges, gr.kind, p[i], p[i + 1]).Some?
    {
      if i > 0 {
        assert LinksBack(preds, p[i + 1], p[i]);
      }
      assert Linked(gr, order, preds, p[i + 1]);
    }
  }

  /** Every link points to a node ranked before the linked one. */
  lemma LinksRanked<Id, EId>(gr: Graph<Id, EId>, order: seq<Id>, preds: map<Id, Id>)
    requires Valid(gr) && AllLinked(gr, order, preds)
    ensures forall v :: v in preds ==> Rank(order, preds[v]) < Rank(order, v)
  {
    forall v | v in preds
      ensures Rank(order, preds[v]) < Rank(order, v)
    {
      assert Linked(gr, order, preds, v);
    }
  }

  /** AStar: a graph, a heuristic, and the start, goal and predecessors of the most
      recent search. The source's default heuristic is Manhattan. */
  class AStar<Id(==,!new), EId> {
    const graph: Graph<Id, EId>
    const heuristicType: HeuristicType
    var start: Option<NodeRec<Id>>
    var goal: Option<NodeRec<Id>>
    var predecessors: map<Id, Id>

    /** No search has run yet: no start, no goal, no predecessors. */
    constructor (graph: Graph<Id, EId>, heuristicType: HeuristicType := Manhattan)
      ensures this.graph == graph && this.heuristicType == heuristicType
      ensures start == None && goal == None && predecessors == map[]
    {
      this.graph := graph;
      this.heuristicType := heuristicType;
      start := None;
      goal := None;
      predecessors := map[];
    }

    /** The neighbour loop of find_shortest_path for the node `cur`, just closed:
        skip closed neighbours, look up the edge, and on a strict improvement record
        the new cost and predecessor and push the neighbour with cost plus estimate. */
    method Expand(cur: Id, closed: set<Id>, g: map<Id, Dist>, open: seq<Entry<Id>>)
      returns (err: Option<SearchError>, g': map<Id, Dist>, open': seq<Entry<Id>>)
      requires Valid(graph) && cur in graph.nodes && cur in closed
      requires g.Keys == graph.nodes.Keys && g[cur].Fin?
      modifies this`predecessors
      ensures RelaxedBy(graph, cur, closed, g, old(predecessors), open, g', predecessors, open')
      ensures err.None? ==> ExpandedBy(graph, cur, closed, g, old(predecessors), open, g', predecessors, open')
      ensures Expanded(graph, g, closed, cur) ==>
                err.None? && g' == g && predecessors == old(predecessors) && open' == open
      ensures err.Some? ==> CausedAt(graph, cur, goal, heuristicType, err.value)
    {
      var neighbors := Neighbors(graph, cur).value;
      g', open' := g, open;
      ghost var preds := predecessors;
      var i := 0;
      while i < |neighbors|
        invariant 0 <= i <= |neighbors|
        invariant RelaxedBy(graph, cur, closed, g, preds, open, g', predecessors, open')
        invariant forall v :: v in g && g'[v] != g[v] ==> Queued(open', v)
        invariant forall j :: 0 <= j < i ==> neighbors[j].id in closed || Settled(graph, cur, g', neighbors[j].id)
        invariant Expanded(graph, g, closed, cur) ==> g' == g && predecessors == preds && open' == open
      {
        ghost var g0 := g';
        err, g', open' := Consider(cur, closed, g, preds, open, g', open', i);
        if err.Some? {
          return;
        }
        forall j | 0 <= j < i && neighbors[j].id !in closed
          ensures Settled(graph, cur, g', neighbors[j].id)
        {
          SettledStays(graph, cur, g0, g', neighbors[j].id);
        }
        i := i + 1;
      }
      err := None;
      forall nb | nb in NeighborIds(graph, cur) && nb !in closed
        ensures Settled(graph, cur, g', nb)
      {
        var j :| 0 <= j < |neighbors| && NeighborIds(graph, cur)[j] == nb;
      }
    }

    /** One pass of the neighbour loop, for the `i`-th neighbour of `cur`. */
    method Consider(cur: Id, closed: set<Id>, g: map<Id, Dist>, ghost preds: map<Id, Id>, ghost open: seq<Entry<Id>>,
                    g0: map<Id, Dist>, open0: seq<Entry<Id>>, i: nat)
      returns (err: Option<SearchError>, g1: map<Id, Dist>, open1: seq<Entry<Id>>)
      requires Valid(graph) && cur in graph.nodes && cur in closed
      requires g.Keys == graph.nodes.Keys && g[cur].Fin? && i < |graph.adj[cur]|
      requires RelaxedBy(graph, cur, closed, g, preds, open, g0, predecessors, open0)
      requires forall v :: v in g && g0[v] != g[v] ==> Queued(open0, v)
      modifies this`predecessors
      ensures RelaxedBy(graph, cur, closed, g, preds, open, g1, predecessors, open1)
      ensures err.None? ==> forall v :: v in g && g1[v] != g[v] ==> Queued(open1, v)
      ensures err.None? ==> NeighborIds(graph, cur)[i] in closed || Settled(graph, cur, g1, NeighborIds(graph, cur)[i])
      ensures err.None? ==> AtMostEverywhere(g1, g0) && g1[cur] == g0[cur]
      ensures Expanded(graph, g, closed, cur) && g0 == g && old(predecessors) == preds && open0 == open ==>
                err.None? && g1 == g && predecessors == preds && open1 == open
      ensures err.Some? ==> CausedAt(graph, cur, goal, heuristicType, err.value)
    {
      g1, open1 := g0, open0;
      var neighbor := Neighbors(graph, cur).value[i];
      var v := neighbor.id;
      assert v == NeighborIds(graph, cur)[i] && v in NeighborIds(graph, cur);
      if v in closed {
        return None, g1, open1;
      }
      var edge := EdgeBetween(graph, ById(cur), ById(v));
      if edge.None? {
        return Some(NoEdge), g1, open1;
      }
      assert edge.value.weight == Weight(graph, cur, v);
      var tentative := Plus(g1[cur], edge.value.weight);
      if Less(tentative, g1[v]) {
        ghost var quiet := Expanded(graph, g, closed, cur) && g0 == g;
        assert quiet ==> AtMost(g0[v], tentative);
        LessIsStrictOrder(tentative, g0[v], tentative);
        err, g1, open1 := Improve(cur, closed, g, preds, open, g0, open0, neighbor, tentative);
      } else {
        LessIsStrictOrder(tentative, g1[v], g1[v]);
        err := None;
      }
    }

    /** The route through `cur` beats `neighbor`'s cost: record it as `neighbor`'s
        predecessor and cost, then push it with its heuristic estimate. */
    method Improve(cur: Id, closed: set<Id>, g: map<Id, Dist>, ghost preds: map<Id, Id>, ghost open: seq<Entry<Id>>,
                   g0: map<Id, Dist>, open0: seq<Entry<Id>>, neighbor: NodeRec<Id>, tentative: Dist)
      returns (err: Option<SearchError>, g1: map<Id, Dist>, open1: seq<Entry<Id>>)
      requires Valid(graph) && cur in graph.nodes && cur in closed && g.Keys == graph.nodes.Keys && g[cur].Fin?
      requires RelaxedBy(graph, cur, closed, g, preds, open, g0, predecessors, open0)
      requires forall v :: v in g && g0[v] != g[v] ==> Queued(open0, v)
      requires neighbor.id in graph.nodes && neighbor.id !in closed
      requires Step(graph, cur, neighbor.id) && FirstEdge(graph.edges, graph.kind, cur, neighbor.id).Some?
      requires tentative == Plus(g0[cur], Weight(graph, cur, neighbor.id)) && Less(tentative, g0[neighbor.id])
      modifies this`predecessors
      ensures RelaxedBy(graph, cur, closed, g, preds, open, g1, predecessors, open1)
      ensures err.None? ==> forall v :: v in g && g1[v] != g[v] ==> Queued(open1, v)
      ensures err.None? ==> Settled(graph, cur, g1, neighbor.id)
      ensures err.None? ==> AtMostEverywhere(g1, g0) && g1[cur] == g0[cur]
      ensures err == Some(GoalNotFound) ==> goal.None?
      ensures err == Some(MissingCoordinate) ==> goal.Some? && !(HasCoordinates(neighbor) && HasCoordinates(goal.value))
      ensures err == Some(UnknownHeuristic) ==> heuristicType == Unknown
      ensures err.Some? ==> err.value != StartNotFound && err.value != NoEdge
    {
      var v := neighbor.id;
      ImproveKeeps(graph, cur, closed, g, preds, open, g0, predecessors, open0, v);
      g1 := g0[v := tentative];
      predecessors := predecessors[v := cur];
      open1 := open0;
      LessIsStrictOrder(tentative, g0[v], g0[v]);
      assert AtMostEverywhere(g1, g0) && g1[cur] == g0[cur];
      if goal.None? {
        return Some(GoalNotFound), g1, open1;
      }
      var h := Heuristic(heuristicType, neighbor, goal.value);
      if h.Failure? {
        return Some(h.error), g1, open1;
      }
      var e: Entry<Id> := (tentative.n + h.value, v);
      QueuedAfterPush(graph, cur, closed, g, preds, open, g1, predecessors, open1, e);
      open1 := open1 + [e];
      err := None;
    }

    /** find_shortest_path. The start and the goal are looked up first; a missing
        start fails before anything else changes. A path returned is a walk from the
        start to the goal along the recorded predecessors; None means the goal cannot
        be reached, or the start is the goal. On a well-formed graph whose nodes all
        have coordinates, with a known heuristic and a goal that is a node, the search
        cannot fail. */
    method FindShortestPath(startId: Id, goalId: Id) returns (r: Result<Option<seq<Id>>, SearchError>)
      requires Valid(graph)
      modifies this`start, this`goal, this`predecessors
      ensures start == (if startId in graph.nodes then Some(graph.nodes[startId]) else None)
      ensures goal == (if goalId in graph.nodes then Some(graph.nodes[goalId]) else None)
      ensures startId !in graph.nodes ==> r == Failure(StartNotFound) && predecessors == old(predecessors)
      ensures r == Failure(StartNotFound) ==> startId !in graph.nodes
      ensures r == Failure(NoEdge) ==> !WellFormed(graph)
      ensures r == Failure(GoalNotFound) ==> goalId !in graph.nodes
      ensures r == Failure(MissingCoordinate) ==> !Located(graph)
      ensures r == Failure(UnknownHeuristic) ==> heuristicType == Unknown
      ensures startId in graph.nodes && startId == goalId ==> r == Success(None)
      ensures r.Success? && r.value.Some? ==> PathAnswer(graph, startId, goalId, predecessors, r.value)
      ensures r == Success(None) && startId != goalId ==> !Reachable(graph, startId, goalId)
      ensures (startId in graph.nodes && goalId in graph.nodes && WellFormed(graph) && Located(graph)
               && heuristicType != Unknown) ==> r.Success?
    {
      start := if startId in graph.nodes then Some(graph.nodes[startId]) else None;
      goal := if goalId in graph.nodes then Some(graph.nodes[goalId]) else None;
      if start.None? {
        return Failure(StartNotFound);
      }
      var s := start.value.id;
      var g := (map v | v in graph.nodes :: Inf)[s := Fin(0)];
      predecessors := map[];
      var open := [(0, s)];
      var closed: set<Id> := {};
      ghost var order: seq<Id> := [];
      InitialExploring(graph, s, goalId, g);
      while open != []
        invariant Exploring(graph, s, goalId, g, predecessors, open, closed, order)
        decreases graph.nodes.Keys - closed, |open|
        modifies this`predecessors
      {
        var stop;
        stop, g, open, closed, order := Visit(s, goalId, g, open, closed, order);
        if stop.Some? {
          return stop.value;
        }
      }
      ExhaustedMeansUnreachable(graph, s, goalId, g, predecessors, closed, order);
      r := Success(None);
    }

    /** One pass of the search loop: pop the cheapest entry; stop with the path if it
        is the goal; otherwise close it and expand it. */
    method Visit(s: Id, goalId: Id, g: map<Id, Dist>, open: seq<Entry<Id>>, closed: set<Id>, ghost order: seq<Id>)
      returns (stop: Option<Result<Option<seq<Id>>, SearchError>>,
               g': map<Id, Dist>, open': seq<Entry<Id>>, closed': set<Id>, ghost order': seq<Id>)
      requires Valid(graph) && Exploring(graph, s, goalId, g, predecessors, open, closed, order) && open != []
      requires start == Some(graph.nodes[s])
      requires goal == (if goalId in graph.nodes then Some(graph.nodes[goalId]) else None)
      modifies this`predecessors
      ensures s == goalId ==> stop == Some(Success(None))
      ensures stop.None? ==> Exploring(graph, s, goalId, g', predecessors, open', closed', order')
      ensures stop.None? ==> graph.nodes.Keys - closed' < graph.nodes.Keys - closed
                             || (closed' == closed && |open'| < |open|)
      ensures stop.Some? && stop.value.Success? ==> PathAnswer(graph, s, goalId, predecessors, stop.value.value)
      ensures stop.Some? && stop.value.Failure? ==>
                Caused(graph, s, goalId, heuristicType, stop.value.error) && stop.value.error != StartNotFound
    {
      var popped := HeapPop(open);
      var entry, rest := popped.value.0, popped.value.1;
      var cur := entry.1;
      assert s == goalId ==> cur == s by {
        if s == goalId {
          assert s !in closed;
          assert open == [(0, s)];
        }
      }
      assert cur in graph.nodes && g[cur].Fin? && (cur == s || cur in predecessors) by {
        var k :| 0 <= k < |open| && open[k] == entry;
      }
      if cur == goalId {
        var r := Reached(s, goalId, g, closed, order);
        return Some(r), g, open, closed, order;
      }
      var err;
      err, g', open', closed', order' := Advance(s, goalId, g, open, closed, order, entry, rest);
      stop := if err.Some? then Some(Failure(err.value)) else None;
    }

    /** The popped node is not the goal: close it and expand it. */
    method Advance(s: Id, goalId: Id, g: map<Id, Dist>, open: seq<Entry<Id>>, closed: set<Id>, ghost order: seq<Id>,
                   entry: Entry<Id>, rest: seq<Entry<Id>>)
      returns (err: Option<SearchError>, g': map<Id, Dist>, open': seq<Entry<Id>>, closed': set<Id>, ghost order': seq<Id>)
      requires Valid(graph) && Exploring(graph, s, goalId, g, predecessors, open, closed, order)
      requires entry in open && multiset(open) == multiset(rest) + multiset{entry} && entry.1 != goalId
      requires goal == (if goalId in graph.nodes then Some(graph.nodes[goalId]) else None)
      modifies this`predecessors
      ensures err.None? ==> Exploring(graph, s, goalId, g', predecessors, open', closed', order')
      ensures err.None? ==> graph.nodes.Keys - closed' < graph.nodes.Keys - closed
                            || (closed' == closed && |open'| < |open|)
      ensures err.Some? ==> Caused(graph, s, goalId, heuristicType, err.value) && err.value != StartNotFound
    {
      var cur := entry.1;
      Popped(graph, s, goalId, g, predecessors, open, closed, order, entry);
      closed' := closed + {cur};
      order' := if cur in closed then order else order + [cur];
      ghost var preds := predecessors;
      err, g', open' := Expand(cur, closed', g, rest);
      FailureMeansUnsafe(graph, cur, s, goalId, goal, heuristicType, err);
      if err.Some? {
        return;
      }
      VisitPreserves(graph, s, goalId, g, preds, open, closed, order, entry, rest, g', predecessors, open');
      if cur in closed {
        ReExpanded(graph, g, closed, cur);
      }
      VisitShrinks(graph.nodes.Keys, closed, cur, open, entry, rest, open');
    }

    /** The goal was popped: rebuild the path and show it is a walk to the goal. */
    method Reached(s: Id, goalId: Id, ghost g: map<Id, Dist>, ghost closed: set<Id>, ghost order: seq<Id>)
      returns (r: Result<Option<seq<Id>>, SearchError>)
      requires Valid(graph) && Bookkeeping(graph, s, goalId, g, predecessors, closed, order)
      requires AllLinked(graph, order, predecessors) && (order == [] ==> predecessors == map[])
      requires start == Some(graph.nodes[s]) && goalId in graph.nodes && goal == Some(graph.nodes[goalId])
      requires goalId == s || goalId in predecessors
      ensures r.Success? && PathAnswer(graph, s, goalId, predecessors, r.value)
    {
      LinksRanked(graph, order, predecessors);
      if goalId == s {
        assert s !in closed;
      }
      var path := ReconstructPath(predecessors, order);
      if goalId == s {
        return Success(path);
      }
      PathFollowsLinks(graph, s, goalId, g, predecessors, closed, order, path.value);
      r := Success(path);
    }

    /** reconstruct_path: an empty dictionary gives None; otherwise follow the
        predecessors back from the goal, append the start and reverse. The ghost
        `order` ranks the links so that the walk back ends. */
    method ReconstructPath(preds: map<Id, Id>, ghost order: seq<Id>) returns (r: Option<seq<Id>>)
      requires preds != map[] ==> start.Some? && goal.Some?
      requires forall v :: v in preds ==> Rank(order, preds[v]) < Rank(order, v)
      ensures preds == map[] <==> r.None?
      ensures r.Some? ==> |r.value| >= 1 && r.value[0] == start.value.id
      ensures r.Some? ==> r.value[|r.value| - 1] == if goal.value.id in preds then goal.value.id else start.value.id
      ensures r.Some? ==> forall i :: 1 <= i < |r.value| - 1 ==> LinksBack(preds, r.value[i + 1], r.value[i])
      ensures r.Some? && |r.value| >= 2 ==> r.value[1] in preds && preds[r.value[1]] !in preds
    {
      if preds == map[] {
        return None;
      }
      var path := [];
      var current := goal.value.id;
      while current in preds
        invariant path == [] ==> current == goal.value.id
        invariant path != [] ==> path[0] == goal.value.id && LinksBack(preds, path[|path| - 1], current)
        invariant forall k :: 0 <= k < |path| - 1 ==> LinksBack(preds, path[k], path[k + 1])
        decreases Rank(order, current)
      {
        path := path + [current];
        current := preds[current];
      }
      path := path + [start.value.id];
      r := Some(Reversed(path));
      ReversedLinks(preds, path, current, r.value);
    }
  }

  /** Reading the walk back to front turns links from each element to the next into
      links from each element to the one before it. */
  lemma ReversedLinks<Id>(preds: map<Id, Id>, path: seq<Id>, last: Id, p: seq<Id>)
    requires |path| >= 1 && p == Reversed(path)
    requires forall k :: 0 <= k < |path| - 2 ==> LinksBack(preds, path[k], path[k + 1])
    requires |path| >= 2 ==> LinksBack(preds, path[|path| - 2], last) && last !in preds
    ensures forall i :: 1 <= i < |p| - 1 ==> LinksBack(preds, p[i + 1], p[i])
    ensures |p| >= 2 ==> p[1] in preds && preds[p[1]] !in preds
  {
    var n := |path|;
    forall i | 1 <= i < n - 1
      ensures LinksBack(preds, p[i + 1], p[i])
    {
      var k := n - 2 - i;
      assert LinksBack(preds, path[k], path[k + 1]);
      assert p[i + 1] == path[k];
      assert p[i] == path[k + 1];
    }
    if n >= 2 {
      assert p[1] == path[n - 2];
    }
  }

  /** A strict improvement of `v` keeps RelaxedBy. */
  lemma ImproveKeeps<Id, EId>(gr: Graph<Id, EId>, cur: Id, closed: set<Id>,
                              g: map<Id, Dist>, preds: map<Id, Id>, open: seq<Entry<Id>>,
                              g': map<Id, Dist>, preds': map<Id, Id>, open': seq<Entry<Id>>, v: Id)
    requires Valid(gr) && cur in g && cur in closed && g[cur].Fin?
    requires RelaxedBy(gr, cur, closed, g, preds, open, g', preds', open')
    requires v in gr.nodes && v in g' && v !in closed && Step(gr, cur, v) && FirstEdge(gr.edges, gr.kind, cur, v).Some?
    requires Less(Plus(g'[cur], Weight(gr, cur, v)), g'[v])
    ensures var c := Plus(g'[cur], Weight(gr, cur, v));
      && RelaxedBy(gr, cur, closed, g, preds, open, g'[v := c], preds'[v := cur], open')
      && Settled(gr, cur, g'[v := c], v)
  {
    var c := Plus(g'[cur], Weight(gr, cur, v));
    var g2, p2 := g'[v := c], preds'[v := cur];
    assert g'[cur] == g[cur];
    assert AtMost(g'[v], g[v]);
    LessIsStrictOrder(c, g'[v], g[v]);
    ImproveLowers(g, g', v, c);
    ImproveTracked(g, preds, g', preds', v, c, cur);
    ImproveOpenStays(g, open, g', open', v, c);
    ImproveRecorded(gr, cur, closed, g, g', preds', v);
  }

  /** Re-linking the improved node keeps every changed link on a changed cost. */
  lemma ImproveTracked<Id>(g: map<Id, Dist>, preds: map<Id, Id>, g': map<Id, Dist>, preds': map<Id, Id>,
                           v: Id, c: Dist, link: Id)
    requires g'.Keys == g.Keys && v in g && Less(c, g[v]) && preds.Keys <= preds'.Keys
    requires forall w :: w in preds' && !(w in preds && preds'[w] == preds[w]) ==> w in g && g'[w] != g[w]
    ensures preds.Keys <= preds'[v := link].Keys
    ensures forall w :: w in preds'[v := link] && !(w in preds && preds'[v := link][w] == preds[w]) ==>
              w in g && g'[v := c][w] != g[w]
  {
    LessIsStrictOrder(c, g[v], g[v]);
    forall w | w in preds'[v := link] && !(w in preds && preds'[v := link][w] == preds[w])
      ensures w in g && g'[v := c][w] != g[w]
    {
      if w != v {
        assert preds'[v := link][w] == preds'[w];
      }
    }
  }

  /** Lowering a cost further keeps every pushed node marked as changed. */
  lemma ImproveOpenStays<Id>(g: map<Id, Dist>, open: seq<Entry<Id>>, g': map<Id, Dist>, open': seq<Entry<Id>>,
                             v: Id, c: Dist)
    requires g'.Keys == g.Keys && v in g && Less(c, g[v])
    requires forall k :: |open| <= k < |open'| ==> open'[k].1 in g && g'[open'[k].1] != g[open'[k].1]
    ensures forall k :: |open| <= k < |open'| ==> open'[k].1 in g && g'[v := c][open'[k].1] != g[open'[k].1]
  {
    LessIsStrictOrder(c, g[v], g[v]);
  }

  /** The new improvement of `v` through `cur` is recorded, and earlier ones stay. */
  lemma ImproveRecorded<Id, EId>(gr: Graph<Id, EId>, cur: Id, closed: set<Id>,
                                 g: map<Id, Dist>, g': map<Id, Dist>, preds': map<Id, Id>, v: Id)
    requires Valid(gr) && cur in g && cur in closed && g'.Keys == g.Keys && g'[cur] == g[cur]
    requires v in gr.nodes && v in g && v !in closed && Step(gr, cur, v) && FirstEdge(gr.edges, gr.kind, cur, v).Some?
    requires Less(Plus(g'[cur], Weight(gr, cur, v)), g[v])
    requires forall w :: w in g && g'[w] != g[w] ==> ImprovedBy(gr, cur, closed, g, g', preds', w)
    ensures var g2 := g'[v := Plus(g'[cur], Weight(gr, cur, v))];
      forall w :: w in g && g2[w] != g[w] ==> ImprovedBy(gr, cur, closed, g, g2, preds'[v := cur], w)
  {
    var g2, p2 := g'[v := Plus(g'[cur], Weight(gr, cur, v))], preds'[v := cur];
    forall w | w in g && g2[w] != g[w]
      ensures ImprovedBy(gr, cur, closed, g, g2, p2, w)
    {
      if w != v {
        assert ImprovedBy(gr, cur, closed, g, g', preds', w);
      }
    }
  }


  /** Pushing an entry for an improved node keeps RelaxedBy and queues the node. */
  lemma QueuedAfterPush<Id, EId>(gr: Graph<Id, EId>, cur: Id, closed: set<Id>,
                                 g: map<Id, Dist>, preds: map<Id, Id>, open: seq<Entry<Id>>,
                                 g': map<Id, Dist>, preds': map<Id, Id>, open': seq<Entry<Id>>, e: Entry<Id>)
    requires Valid(gr) && cur in g
    requires RelaxedBy(gr, cur, closed, g, preds, open, g', preds', open')
    requires forall v :: v in g && g'[v] != g[v] && v != e.1 ==> Queued(open', v)
    requires e.1 in g && g'[e.1] != g[e.1]
    ensures RelaxedBy(gr, cur, closed, g, preds, open, g', preds', open' + [e])
    ensures forall v :: v in g && g'[v] != g[v] ==> Queued(open' + [e], v)
  {
    var o2 := open' + [e];
    assert o2[..|open|] == open by {
      assert o2[..|open'|] == open';
    }
    forall v | v in g && g'[v] != g[v]
      ensures Queued(o2, v)
    {
      if v == e.1 {
        assert o2[|open'|].1 == v;
      } else {
        var k :| 0 <= k < |open'| && open'[k].1 == v;
        assert o2[k] == open'[k];
      }
    }
    forall k | |open| <= k < |o2|
      ensures o2[k].1 in g && g'[o2[k].1] != g[o2[k].1]
    {
      if k < |open'| {
        assert o2[k] == open'[k];
      }
    }
  }

  /** Costs that only drop, with `cur`'s kept, keep `v` settled. */
  lemma SettledStays<Id, EId>(gr: Graph<Id, EId>, cur: Id, g0: map<Id, Dist>, g1: map<Id, Dist>, v: Id)
    requires Valid(gr) && cur in g0 && AtMostEverywhere(g1, g0) && g1[cur] == g0[cur]
    requires Settled(gr, cur, g0, v)
    ensures Settled(gr, cur, g1, v)
  {
    LessIsStrictOrder(Plus(g0[cur], Weight(gr, cur, v)), g1[v], g0[v]);
  }

  /** What find_shortest_path returns once the goal is popped: None exactly when the
      start is the goal, and otherwise a walk from the start to the goal in which
      each node is the recorded predecessor of the next. */
  ghost predicate PathAnswer<Id, EId>(gr: Graph<Id, EId>, s: Id, goalId: Id, preds: map<Id, Id>, ans: Option<seq<Id>>)
    requires Valid(gr)
  {
    && (ans.None? <==> s == goalId)
    && (ans.Some? ==>
          var p := ans.value;
          && IsWalk(gr, p) && p[0] == s && p[|p| - 1] == goalId
          && forall i :: 0 <= i < |p| - 1 ==>
               LinksBack(preds, p[i + 1], p[i]) && FirstEdge(gr.edges, gr.kind, p[i], p[i + 1]).Some?)
  }

  /** The candidate through `cur` no longer beats `v`'s cost. */
  ghost predicate Settled<Id, EId>(gr: Graph<Id, EId>, cur: Id, g: map<Id, Dist>, v: Id)
    requires Valid(gr) && cur in g
  {
    && v in gr.nodes && v in g
    && FirstEdge(gr.edges, gr.kind, cur, v).Some?
    && AtMost(g[v], Plus(g[cur], Weight(gr, cur, v)))
  }
}
