/** Dijkstra.find_shortest_paths (algorithms/dijkstra/dijkstra.py): single-source
    search over a lazy-deletion heap. */
module Dijkstra {
  import opened Wrappers
  import opened BaseGraph
  import opened GraphView
  import opened Frontier

  /** How a call ends when it does not return its dictionary. */
  datatype SearchError =
    | EmptyFrontier   // heappop on an empty heap: IndexError
    | NoEdge          // get_edge_between returned None: AttributeError on `.weight`
    | MissingKey      // a node id missing from `distances` or `predecessors`: KeyError

  /** The result: node id -> (distance, predecessor). */
  type Paths<Id> = map<Id, (Dist, Option<Id>)>

  /** No edge out of `u` can lower a distance any further. */
  ghost predicate Relaxed<Id, EId>(g: Graph<Id, EId>, dist: map<Id, Dist>, u: Id)
    requires Valid(g) && u in g.nodes
  {
    && u in dist
    && forall v :: v in NeighborIds(g, u) ==>
         && v in dist
         && FirstEdge(g.edges, g.kind, u, v).Some?
         && AtMost(dist[v], Plus(dist[u], Weight(g, u, v)))
  }

  /** What one relaxation of `v` across an edge from `cur` leaves behind: the new
      distance is the candidate through `cur`, strictly below the old one, `cur`
      is the new predecessor and the new distance is queued. */
  ghost predicate Improved<Id, EId>(g: Graph<Id, EId>, cur: Id, dist: map<Id, Dist>,
                                    dist': map<Id, Dist>, pred': map<Id, Option<Id>>, heap': seq<Entry<Id>>, v: Id)
    requires Valid(g) && cur in dist && v in dist && v in dist'
  {
    && Step(g, cur, v)
    && FirstEdge(g.edges, g.kind, cur, v).Some?
    && dist'[v] == Plus(dist[cur], Weight(g, cur, v))
    && Less(dist'[v], dist[v])
    && v in pred' && pred'[v] == Some(cur)
    && (dist'[v].n, v) in heap'
  }

  /** How the state after relaxing some of the edges out of `cur` relates to the
      state before: distances only decrease, a distance changes only by an
      improvement through `cur`, other predecessors stay, and the heap only grows,
      by entries no cheaper than `cur`'s distance. */
  ghost predicate RelaxedFrom<Id, EId>(g: Graph<Id, EId>, cur: Id,
                                       dist: map<Id, Dist>, pred: map<Id, Option<Id>>, heap: seq<Entry<Id>>,
                                       dist': map<Id, Dist>, pred': map<Id, Option<Id>>, heap': seq<Entry<Id>>)
    requires Valid(g) && cur in dist && dist[cur].Fin?
  {
    && dist'.Keys == dist.Keys
    && pred.Keys <= pred'.Keys <= pred.Keys + dist.Keys
    && dist'[cur] == dist[cur]
    && (forall v :: v in dist ==> AtMost(dist'[v], dist[v]))
    && (forall v :: v in dist && dist'[v] != dist[v] ==> Improved(g, cur, dist, dist', pred', heap', v))
    && (forall v :: v in pred' && (v !in dist || dist'[v] == dist[v]) ==> v in pred && pred'[v] == pred[v])
    && |heap| <= |heap'| && heap'[..|heap|] == heap
    && (forall k :: |heap| <= k < |heap'| ==>
          && heap'[k].0 >= dist[cur].n
          && heap'[k].1 in dist'
          && AtMost(dist'[heap'[k].1], Fin(heap'[k].0)))
  }

  /** The candidate through `cur` no longer beats `v`'s distance. */
  ghost predicate Settled<Id, EId>(g: Graph<Id, EId>, cur: Id, dist: map<Id, Dist>, v: Id)
    requires Valid(g) && cur in dist
  {
    && v in dist
    && FirstEdge(g.edges, g.kind, cur, v).Some?
    && AtMost(dist[v], Plus(dist[cur], Weight(g, cur, v)))
  }

  /** One strict improvement keeps RelaxedFrom and settles `v`. */
  lemma ImprovePreserves<Id, EId>(g: Graph<Id, EId>, cur: Id,
                                  dist: map<Id, Dist>, pred: map<Id, Option<Id>>, heap: seq<Entry<Id>>,
                                  dist': map<Id, Dist>, pred': map<Id, Option<Id>>, heap': seq<Entry<Id>>, v: Id)
    requires Valid(g) && cur in dist && dist[cur].Fin?
    requires RelaxedFrom(g, cur, dist, pred, heap, dist', pred', heap')
    requires v in dist' && Step(g, cur, v) && FirstEdge(g.edges, g.kind, cur, v).Some?
    requires Less(Plus(dist'[cur], Weight(g, cur, v)), dist'[v])
    ensures var c := Plus(dist'[cur], Weight(g, cur, v));
      && RelaxedFrom(g, cur, dist, pred, heap, dist'[v := c], pred'[v := Some(cur)], heap' + [(c.n, v)])
      && Settled(g, cur, dist'[v := c], v)
  {
    var c := Plus(dist'[cur], Weight(g, cur, v));
    var d2, p2, h2 := dist'[v := c], pred'[v := Some(cur)], heap' + [(c.n, v)];
    assert v != cur && v in dist;
    assert AtMost(dist'[v], dist[v]);
    LessIsStrictOrder(c, dist'[v], dist[v]);
    ImproveLowers(dist, dist', v, c);
    ImproveKeepsLinks(dist, pred, dist', pred', v, c, Some(cur));
    PushKeepsHeap(g, cur, dist, heap, dist', heap', v, c);
    ImproveRecords(g, cur, dist, dist', pred', heap', v);
  }

  /** Giving the improved node a new predecessor keeps every other link. */
  lemma ImproveKeepsLinks<Id, P>(dist: map<Id, Dist>, pred: map<Id, P>, dist': map<Id, Dist>, pred': map<Id, P>,
                                 v: Id, c: Dist, link: P)
    requires dist'.Keys == dist.Keys && v in dist && Less(c, dist[v])
    requires pred.Keys <= pred'.Keys <= pred.Keys + dist.Keys
    requires forall w :: w in pred' && (w !in dist || dist'[w] == dist[w]) ==> w in pred && pred'[w] == pred[w]
    ensures pred.Keys <= pred'[v := link].Keys <= pred.Keys + dist.Keys
    ensures forall w :: w in pred'[v := link] && (w !in dist || dist'[v := c][w] == dist[w]) ==>
              w in pred && pred'[v := link][w] == pred[w]
  {
    LessIsStrictOrder(c, dist[v], dist[v]);
    forall w | w in pred'[v := link] && (w !in dist || dist'[v := c][w] == dist[w])
      ensures w in pred && pred'[v := link][w] == pred[w]
    {
      if w != v {
        assert pred'[v := link][w] == pred'[w];
      }
    }
  }

  /** The new improvement of `v` is recorded, and earlier ones stay recorded. */
  lemma ImproveRecords<Id, EId>(g: Graph<Id, EId>, cur: Id, dist: map<Id, Dist>,
                                dist': map<Id, Dist>, pred': map<Id, Option<Id>>, heap': seq<Entry<Id>>, v: Id)
    requires Valid(g) && cur in dist && dist[cur].Fin? && dist'.Keys == dist.Keys && v in dist && v != cur
    requires dist'[cur] == dist[cur] && Step(g, cur, v) && FirstEdge(g.edges, g.kind, cur, v).Some?
    requires Less(Plus(dist'[cur], Weight(g, cur, v)), dist[v])
    requires forall w :: w in dist && dist'[w] != dist[w] ==> Improved(g, cur, dist, dist', pred', heap', w)
    ensures var c := Plus(dist'[cur], Weight(g, cur, v));
      var d2, p2, h2 := dist'[v := c], pred'[v := Some(cur)], heap' + [(c.n, v)];
      forall w :: w in dist && d2[w] != dist[w] ==> Improved(g, cur, dist, d2, p2, h2, w)
  {
    var c := Plus(dist'[cur], Weight(g, cur, v));
    var d2, p2, h2 := dist'[v := c], pred'[v := Some(cur)], heap' + [(c.n, v)];
    assert h2[|heap'|] == (c.n, v);
    forall w | w in dist && d2[w] != dist[w]
      ensures Improved(g, cur, dist, d2, p2, h2, w)
    {
      if w != v {
        ImprovedStays(g, cur, dist, dist', pred', heap', d2, p2, h2, w);
      }
    }
  }

  /** An earlier improvement of `w` survives changes that leave `w` alone. */
  lemma ImprovedStays<Id, EId>(g: Graph<Id, EId>, cur: Id, dist: map<Id, Dist>,
                               dist': map<Id, Dist>, pred': map<Id, Option<Id>>, heap': seq<Entry<Id>>,
                               d2: map<Id, Dist>, p2: map<Id, Option<Id>>, h2: seq<Entry<Id>>, w: Id)
    requires Valid(g) && cur in dist && w in dist && w in dist' && w in d2
    requires dist'[w] != dist[w] ==> Improved(g, cur, dist, dist', pred', heap', w)
    requires d2[w] == dist'[w] && (w in pred' ==> w in p2 && p2[w] == pred'[w])
    requires |heap'| <= |h2| && h2[..|heap'|] == heap'
    ensures d2[w] != dist[w] ==> Improved(g, cur, dist, d2, p2, h2, w)
  {
    if d2[w] != dist[w] {
      var k :| 0 <= k < |heap'| && heap'[k] == (dist'[w].n, w);
      assert h2[k] == heap'[k];
    }
  }

  /** Pushing the improved distance of `v` keeps the heap's new entries no cheaper
      than `cur`'s distance and no cheaper than their nodes' distances. */
  lemma PushKeepsHeap<Id, EId>(g: Graph<Id, EId>, cur: Id, dist: map<Id, Dist>, heap: seq<Entry<Id>>,
                               dist': map<Id, Dist>, heap': seq<Entry<Id>>, v: Id, c: Dist)
    requires Valid(g) && cur in dist && dist[cur].Fin? && dist'.Keys == dist.Keys && v in dist
    requires c.Fin? && c.n >= dist[cur].n
    requires |heap| <= |heap'| && heap'[..|heap|] == heap
    requires forall k :: |heap| <= k < |heap'| ==>
               && heap'[k].0 >= dist[cur].n
               && heap'[k].1 in dist'
               && AtMost(dist'[heap'[k].1], Fin(heap'[k].0))
    requires forall w :: w in dist' ==> AtMost(dist'[v := c][w], dist'[w])
    ensures var h2, d2 := heap' + [(c.n, v)], dist'[v := c];
      && |heap| <= |h2| && h2[..|heap|] == heap
      && forall k :: |heap| <= k < |h2| ==>
           && h2[k].0 >= dist[cur].n
           && h2[k].1 in d2
           && AtMost(d2[h2[k].1], Fin(h2[k].0))
  {
    var h2, d2 := heap' + [(c.n, v)], dist'[v := c];
    assert h2[..|heap|] == heap by {
      assert h2[..|heap'|] == heap';
    }
    forall k | |heap| <= k < |h2|
      ensures h2[k].0 >= dist[cur].n && h2[k].1 in d2 && AtMost(d2[h2[k].1], Fin(h2[k].0))
    {
      if k < |heap'| {
        assert h2[k] == heap'[k];
        assert AtMost(d2[h2[k].1], dist'[h2[k].1]);
        LessIsStrictOrder(d2[h2[k].1], dist'[h2[k].1], Fin(h2[k].0));
      }
    }
  }

  /** The relaxation loop over the neighbours of `cur` (dijkstra.py:39-45). */
  method Relax<Id(==), EId>(g: Graph<Id, EId>, cur: Id, dist: map<Id, Dist>, pred: map<Id, Option<Id>>, heap: seq<Entry<Id>>)
    returns (err: Option<SearchError>, dist': map<Id, Dist>, pred': map<Id, Option<Id>>, heap': seq<Entry<Id>>)
    requires Valid(g) && cur in g.nodes && cur in dist && dist[cur].Fin?
    ensures RelaxedFrom(g, cur, dist, pred, heap, dist', pred', heap')
    ensures err.None? ==> Relaxed(g, dist', cur)
    ensures err == None || err == Some(NoEdge) || err == Some(MissingKey)
    ensures WellFormedAt(g, cur) && g.nodes.Keys <= dist.Keys ==> err.None?
  {
    var neighbors := Neighbors(g, cur).value;
    dist', pred', heap' := dist, pred, heap;
    var i := 0;
    while i < |neighbors|
      invariant 0 <= i <= |neighbors|
      invariant RelaxedFrom(g, cur, dist, pred, heap, dist', pred', heap')
      invariant forall j :: 0 <= j < i ==> Settled(g, cur, dist', neighbors[j].id)
    {
      assert neighbors[i].id == NeighborIds(g, cur)[i];
      ghost var before := dist';
      err, dist', pred', heap' := RelaxEdge(g, cur, dist, pred, heap, dist', pred', heap', neighbors[i]);
      if err.Some? {
        return;
      }
      forall j | 0 <= j < i
        ensures Settled(g, cur, dist', neighbors[j].id)
      {
        SettledStays(g, cur, before, dist', neighbors[j].id);
      }
      i := i + 1;
    }
    err := None;
    forall v | v in NeighborIds(g, cur)
      ensures Settled(g, cur, dist', v)
    {
      var j :| 0 <= j < |neighbors| && NeighborIds(g, cur)[j] == v;
    }
  }

  /** One pass of the relaxation loop (dijkstra.py:40-45): look up the edge to
      `neighbor`, and lower its distance if the route through `cur` is shorter. */
  method RelaxEdge<Id(==), EId>(g: Graph<Id, EId>, cur: Id, dist: map<Id, Dist>, pred: map<Id, Option<Id>>,
                                heap: seq<Entry<Id>>, dist0: map<Id, Dist>, pred0: map<Id, Option<Id>>,
                                heap0: seq<Entry<Id>>, neighbor: NodeRec<Id>)
    returns (err: Option<SearchError>, dist1: map<Id, Dist>, pred1: map<Id, Option<Id>>, heap1: seq<Entry<Id>>)
    requires Valid(g) && cur in g.nodes && cur in dist && dist[cur].Fin? && neighbor.id in NeighborIds(g, cur)
    requires RelaxedFrom(g, cur, dist, pred, heap, dist0, pred0, heap0)
    ensures RelaxedFrom(g, cur, dist, pred, heap, dist1, pred1, heap1)
    ensures err.None? ==> Settled(g, cur, dist1, neighbor.id) && AtMostEverywhere(dist1, dist0)
    ensures err == None || err == Some(NoEdge) || err == Some(MissingKey)
    ensures WellFormedAt(g, cur) && g.nodes.Keys <= dist.Keys ==> err.None?
  {
    dist1, pred1, heap1 := dist0, pred0, heap0;
    var v := neighbor.id;
    var edge := EdgeBetween(g, ById(cur), ByNode(neighbor));
    if edge.None? {
      return Some(NoEdge), dist1, pred1, heap1;
    }
    var potential := Plus(dist1[cur], edge.value.weight);
    if v !in dist1 {
      return Some(MissingKey), dist1, pred1, heap1;
    }
    assert edge.value.weight == Weight(g, cur, v);
    if Less(potential, dist1[v]) {
      ImprovePreserves(g, cur, dist, pred, heap, dist1, pred1, heap1, v);
      LessIsStrictOrder(potential, dist1[v], dist1[v]);
      dist1 := dist1[v := potential];
      pred1 := pred1[v := Some(cur)];
      heap1 := heap1 + [(potential.n, v)];
    } else {
      LessIsStrictOrder(potential, dist1[v], dist1[v]);
    }
    err := None;
  }

  /** Costs that only drop, with `cur`'s kept, keep `v` settled. */
  lemma SettledStays<Id, EId>(g: Graph<Id, EId>, cur: Id, d0: map<Id, Dist>, d1: map<Id, Dist>, v: Id)
    requires Valid(g) && cur in d0 && AtMostEverywhere(d1, d0) && d1[cur] == d0[cur]
    requires Settled(g, cur, d0, v)
    ensures Settled(g, cur, d1, v)
  {
    LessIsStrictOrder(d1[v], d0[v], Plus(d0[cur], Weight(g, cur, v)));
  }


  /** `v`'s predecessor `p` has been visited, an edge leads from `p` to `v`, and
      `v`'s distance is `p`'s plus the weight of the edge get_edge_between finds. */
  ghost predicate LinkedToPredecessor<Id, EId>(g: Graph<Id, EId>, dist: map<Id, Dist>, p: Id, v: Id)
    requires Valid(g)
  {
    && p in g.nodes && p in dist && v in dist
    && Step(g, p, v)
    && FirstEdge(g.edges, g.kind, p, v).Some?
    && dist[p].Fin?
    && dist[v] == Plus(dist[p], Weight(g, p, v))
  }

  /** The invariant of the main loop (dijkstra.py:29-45). `lo` is the priority of
      the last entry that visited a node. */
  ghost predicate Searching<Id(!new), EId>(g: Graph<Id, EId>, source: Id, dist: map<Id, Dist>, pred: map<Id, Option<Id>>,
                                           heap: seq<Entry<Id>>, unvisited: set<Id>, lo: nat)
    requires Valid(g)
  {
    && unvisited <= g.nodes.Keys
    && dist.Keys == g.nodes.Keys + {source}
    && g.nodes.Keys <= pred.Keys <= dist.Keys
    && dist[source] == Fin(0)
    && (source in g.nodes ==> pred[source] == None)
    && (source !in g.nodes ==>
          unvisited == g.nodes.Keys && pred.Keys == g.nodes.Keys && forall e :: e in heap ==> e.1 == source)
    && (forall e :: e in heap ==> e.1 in dist && AtMost(dist[e.1], Fin(e.0)) && lo <= e.0)
    && (forall v :: v in unvisited && dist[v].Fin? ==> (dist[v].n, v) in heap)
    && (forall u :: u in g.nodes && u !in unvisited ==> dist[u].Fin? && dist[u].n <= lo && Relaxed(g, dist, u))
    && (forall v :: v in pred && pred[v].Some? ==>
          pred[v].value !in unvisited && LinkedToPredecessor(g, dist, pred[v].value, v))
    && (forall v :: v in g.nodes && v != source && dist[v].Fin? ==> pred[v].Some?)
    && (forall v :: v in dist && dist[v].Fin? ==> WalkOfCost(g, source, v, dist[v].n))
  }

  /** Skipping a stale entry (dijkstra.py:32-34) keeps the invariant. */
  lemma SkipPreserves<Id(!new), EId>(g: Graph<Id, EId>, source: Id, dist: map<Id, Dist>, pred: map<Id, Option<Id>>,
                                     heap: seq<Entry<Id>>, unvisited: set<Id>, lo: nat, entry: Entry<Id>, rest: seq<Entry<Id>>)
    requires Valid(g) && Searching(g, source, dist, pred, heap, unvisited, lo)
    requires entry in heap && multiset(heap) == multiset(rest) + multiset{entry}
    requires entry.1 !in unvisited
    ensures Searching(g, source, dist, pred, rest, unvisited, lo)
  {
    forall e | e in rest ensures e in heap {
      WasQueued(heap, entry, rest, e);
    }
    forall v | v in unvisited && dist[v].Fin? ensures (dist[v].n, v) in rest {
      StillQueued(heap, entry, rest, (dist[v].n, v));
    }
  }

  /** A node whose distance is already no more than `cur`'s is not improved. */
  lemma NoImprovementBelow<Id, EId>(g: Graph<Id, EId>, cur: Id,
                                    dist: map<Id, Dist>, pred: map<Id, Option<Id>>, heap: seq<Entry<Id>>,
                                    dist': map<Id, Dist>, pred': map<Id, Option<Id>>, heap': seq<Entry<Id>>, u: Id)
    requires Valid(g) && cur in dist && dist[cur].Fin?
    requires RelaxedFrom(g, cur, dist, pred, heap, dist', pred', heap')
    requires u in dist && AtMost(dist[u], dist[cur])
    ensures dist'[u] == dist[u]
  {
  }

  /** Visiting the popped node and relaxing its edges (dijkstra.py:36-45) keeps
      the invariant: the popped priority is the node's distance, no visited node
      is improved, and every improved node is reachable. */
  lemma VisitPreserves<Id(!new), EId>(g: Graph<Id, EId>, source: Id, dist: map<Id, Dist>, pred: map<Id, Option<Id>>,
                                      heap: seq<Entry<Id>>, unvisited: set<Id>, lo: nat, entry: Entry<Id>, rest: seq<Entry<Id>>,
                                      dist': map<Id, Dist>, pred': map<Id, Option<Id>>, heap': seq<Entry<Id>>)
    requires Valid(g) && Searching(g, source, dist, pred, heap, unvisited, lo)
    requires entry in heap && multiset(heap) == multiset(rest) + multiset{entry}
    requires forall x :: x in heap ==> entry.0 <= x.0
    requires entry.1 in unvisited && dist[entry.1].Fin?
    requires RelaxedFrom(g, entry.1, dist, pred, rest, dist', pred', heap')
    requires Relaxed(g, dist', entry.1)
    ensures Searching(g, source, dist', pred', heap', unvisited - {entry.1}, entry.0)
  {
    VisitKeepsHeap(g, source, dist, pred, heap, unvisited, lo, entry, rest, dist', pred', heap');
    VisitKeepsSettled(g, source, dist, pred, heap, unvisited, lo, entry, rest, dist', pred', heap');
    VisitKeepsLinks(g, entry.1, dist, pred, rest, dist', pred', heap', unvisited);
    VisitKeepsWalks(g, source, entry.1, dist, pred, rest, dist', pred', heap');
    VisitKeepsShape(g, source, dist, pred, heap, unvisited, lo, entry, rest, dist', pred', heap');
  }

  /** After a visit the maps still cover the graph, the source keeps distance 0
      and no predecessor, and every other node with a finite distance has one. */
  lemma VisitKeepsShape<Id(!new), EId>(g: Graph<Id, EId>, source: Id, dist: map<Id, Dist>, pred: map<Id, Option<Id>>,
                                       heap: seq<Entry<Id>>, unvisited: set<Id>, lo: nat, entry: Entry<Id>, rest: seq<Entry<Id>>,
                                       dist': map<Id, Dist>, pred': map<Id, Option<Id>>, heap': seq<Entry<Id>>)
    requires Valid(g) && Searching(g, source, dist, pred, heap, unvisited, lo)
    requires entry in heap && multiset(heap) == multiset(rest) + multiset{entry}
    requires forall x :: x in heap ==> entry.0 <= x.0
    requires entry.1 in unvisited && dist[entry.1].Fin?
    requires RelaxedFrom(g, entry.1, dist, pred, rest, dist', pred', heap')
    requires Relaxed(g, dist', entry.1)
    ensures unvisited - {entry.1} <= g.nodes.Keys
    ensures dist'.Keys == g.nodes.Keys + {source}
    ensures g.nodes.Keys <= pred'.Keys <= dist'.Keys
    ensures dist'[source] == Fin(0)
    ensures source in g.nodes ==> pred'[source] == None
    ensures source in g.nodes
    ensures forall v :: v in g.nodes && v != source && dist'[v].Fin? ==> pred'[v].Some?
  {
    var k :| 0 <= k < |heap| && heap[k] == entry;
    assert AtMost(dist'[source], dist[source]);
    forall v | v in g.nodes && v != source && dist'[v].Fin?
      ensures pred'[v].Some?
    {
      if dist'[v] != dist[v] {
        assert Improved(g, entry.1, dist, dist', pred', heap', v);
      }
    }
  }

  /** After a visit every heap entry still bounds its node's distance from above and
      from below by the popped distance, and every unvisited node with a finite
      distance is queued with it. */
  lemma VisitKeepsHeap<Id(!new), EId>(g: Graph<Id, EId>, source: Id, dist: map<Id, Dist>, pred: map<Id, Option<Id>>,
                                      heap: seq<Entry<Id>>, unvisited: set<Id>, lo: nat, entry: Entry<Id>, rest: seq<Entry<Id>>,
                                      dist': map<Id, Dist>, pred': map<Id, Option<Id>>, heap': seq<Entry<Id>>)
    requires Valid(g) && Searching(g, source, dist, pred, heap, unvisited, lo)
    requires entry in heap && multiset(heap) == multiset(rest) + multiset{entry}
    requires forall x :: x in heap ==> entry.0 <= x.0
    requires entry.1 in unvisited && dist[entry.1].Fin?
    requires RelaxedFrom(g, entry.1, dist, pred, rest, dist', pred', heap')
    requires Relaxed(g, dist', entry.1)
    ensures forall e :: e in heap' ==> e.1 in dist' && AtMost(dist'[e.1], Fin(e.0)) && entry.0 <= e.0
    ensures forall v :: v in unvisited - {entry.1} && dist'[v].Fin? ==> (dist'[v].n, v) in heap'
  {
    var cur, d := entry.1, entry.0;
    var unvisited' := unvisited - {cur};
    assert (dist[cur].n, cur) in heap;
    assert dist[cur] == Fin(d);
    forall e | e in heap'
      ensures e.1 in dist' && AtMost(dist'[e.1], Fin(e.0)) && d <= e.0
    {
      var k :| 0 <= k < |heap'| && heap'[k] == e;
      if k < |rest| {
        assert e in rest;
        WasQueued(heap, entry, rest, e);
      }
    }
    forall v | v in unvisited' && dist'[v].Fin?
      ensures (dist'[v].n, v) in heap'
    {
      if dist'[v] == dist[v] {
        StillQueued(heap, entry, rest, (dist[v].n, v));
        assert heap'[..|rest|] == rest;
        var k :| 0 <= k < |rest| && rest[k] == (dist[v].n, v);
        assert heap'[k] == rest[k];
      } else {
        assert Improved(g, cur, dist, dist', pred', heap', v);
      }
    }
  }

  /** After a visit the visited nodes keep their distances and stay relaxed, links
      point to visited nodes and every finite distance is the cost of a walk. */
  lemma VisitKeepsSettled<Id(!new), EId>(g: Graph<Id, EId>, source: Id, dist: map<Id, Dist>, pred: map<Id, Option<Id>>,
                                         heap: seq<Entry<Id>>, unvisited: set<Id>, lo: nat, entry: Entry<Id>, rest: seq<Entry<Id>>,
                                         dist': map<Id, Dist>, pred': map<Id, Option<Id>>, heap': seq<Entry<Id>>)
    requires Valid(g) && Searching(g, source, dist, pred, heap, unvisited, lo)
    requires entry in heap && multiset(heap) == multiset(rest) + multiset{entry}
    requires forall x :: x in heap ==> entry.0 <= x.0
    requires entry.1 in unvisited && dist[entry.1].Fin?
    requires RelaxedFrom(g, entry.1, dist, pred, rest, dist', pred', heap')
    requires Relaxed(g, dist', entry.1)
    ensures forall u :: u in g.nodes && u !in unvisited - {entry.1} ==> dist'[u] == dist[u]
    ensures forall u :: u in g.nodes && u !in unvisited - {entry.1} ==>
              dist'[u].Fin? && dist'[u].n <= entry.0 && Relaxed(g, dist', u)
  {
    var cur, d := entry.1, entry.0;
    var unvisited' := unvisited - {cur};
    assert (dist[cur].n, cur) in heap;
    assert dist[cur] == Fin(d);
    // No visited node is improved: its distance is at most `d`, every candidate at least `d`.
    forall u | u in g.nodes && u !in unvisited'
      ensures dist'[u] == dist[u]
    {
      NoImprovementBelow(g, cur, dist, pred, rest, dist', pred', heap', u);
    }
    forall u | u in g.nodes && u !in unvisited'
      ensures Relaxed(g, dist', u)
    {
      if u != cur {
        RelaxedStays(g, dist, dist', u);
      }
    }
  }

  /** Distances that only drop, with `u`'s kept, keep `u` relaxed. */
  lemma RelaxedStays<Id, EId>(g: Graph<Id, EId>, dist: map<Id, Dist>, dist': map<Id, Dist>, u: Id)
    requires Valid(g) && u in g.nodes && Relaxed(g, dist, u)
    requires dist'.Keys == dist.Keys && dist'[u] == dist[u]
    requires forall v :: v in dist ==> AtMost(dist'[v], dist[v])
    ensures Relaxed(g, dist', u)
  {
    forall v | v in NeighborIds(g, u)
      ensures AtMost(dist'[v], Plus(dist'[u], Weight(g, u, v)))
    {
      LessIsStrictOrder(Plus(dist[u], Weight(g, u, v)), dist'[v], dist[v]);
    }
  }

  /** A link either predates the visit, between nodes whose distances it left alone,
      or was just made from `cur`, which is now visited. */
  lemma VisitKeepsLinks<Id, EId>(g: Graph<Id, EId>, cur: Id,
                                 dist: map<Id, Dist>, pred: map<Id, Option<Id>>, rest: seq<Entry<Id>>,
                                 dist': map<Id, Dist>, pred': map<Id, Option<Id>>, heap': seq<Entry<Id>>,
                                 unvisited: set<Id>)
    requires Valid(g) && cur in dist && dist[cur].Fin? && g.nodes.Keys <= dist.Keys
    requires RelaxedFrom(g, cur, dist, pred, rest, dist', pred', heap')
    requires forall v :: v in pred && pred[v].Some? ==>
               pred[v].value !in unvisited && LinkedToPredecessor(g, dist, pred[v].value, v)
    requires forall u :: u in g.nodes && u !in unvisited - {cur} ==> dist'[u] == dist[u]
    ensures forall v :: v in pred' && pred'[v].Some? ==>
              pred'[v].value !in unvisited - {cur} && LinkedToPredecessor(g, dist', pred'[v].value, v)
  {
    forall v | v in pred' && pred'[v].Some?
      ensures pred'[v].value !in unvisited - {cur} && LinkedToPredecessor(g, dist', pred'[v].value, v)
    {
      if v in dist && dist'[v] != dist[v] {
        assert Improved(g, cur, dist, dist', pred', heap', v);
      } else {
        assert LinkedToPredecessor(g, dist, pred[v].value, v);
      }
    }
  }

  /** A lowered distance is the cost of the walk to `cur` and one step more. */
  lemma VisitKeepsWalks<Id(!new), EId>(g: Graph<Id, EId>, source: Id, cur: Id,
                                       dist: map<Id, Dist>, pred: map<Id, Option<Id>>, rest: seq<Entry<Id>>,
                                       dist': map<Id, Dist>, pred': map<Id, Option<Id>>, heap': seq<Entry<Id>>)
    requires Valid(g) && cur in dist && dist[cur].Fin?
    requires RelaxedFrom(g, cur, dist, pred, rest, dist', pred', heap')
    requires forall v :: v in dist && dist[v].Fin? ==> WalkOfCost(g, source, v, dist[v].n)
    ensures forall v :: v in dist' && dist'[v].Fin? ==> WalkOfCost(g, source, v, dist'[v].n)
  {
    forall v | v in dist' && dist'[v].Fin?
      ensures WalkOfCost(g, source, v, dist'[v].n)
    {
      if dist'[v] != dist[v] {
        assert Improved(g, cur, dist, dist', pred', heap', v);
        WalkOfCostStep(g, source, cur, v, dist[cur].n);
      }
    }
  }


  /** When the heap runs dry with nodes left unvisited, some node is unreachable
      from the source: the visited nodes hold the source and are closed under
      get_neighbors. */
  lemma StuckMeansUnreachable<Id(!new), EId>(g: Graph<Id, EId>, source: Id, dist: map<Id, Dist>, pred: map<Id, Option<Id>>,
                                             unvisited: set<Id>, lo: nat)
    requires Valid(g) && Searching(g, source, dist, pred, [], unvisited, lo)
    requires unvisited != {}
    ensures exists v :: v in g.nodes && !Reachable(g, source, v)
  {
    var w :| w in unvisited;
    if source !in g.nodes {
      if Reachable(g, source, w) {
        ReachableFromMissing(g, source, w);
      }
    } else {
      var visited := g.nodes.Keys - unvisited;
      assert source in visited;
      forall u, v | u in visited && Step(g, u, v)
        ensures v in visited
      {
        assert Relaxed(g, dist, u);
        assert v in NeighborIds(g, u);
      }
      if Reachable(g, source, w) {
        ReachableWithinClosedSet(g, source, visited, w);
      }
    }
  }

  /** Every node with a predecessor is `p`'s distance plus the step weight away. */
  ghost predicate PredecessorLinked<Id, EId>(g: Graph<Id, EId>, r: Paths<Id>, v: Id)
    requires Valid(g) && v in r && r[v].1.Some?
  {
    var p := r[v].1.value;
    && p in r && Step(g, p, v)
    && FirstEdge(g.edges, g.kind, p, v).Some?
    && r[p].0.Fin?
    && r[v].0 == Plus(r[p].0, Weight(g, p, v))
  }

  /** No edge out of `u` leads to a node more cheaply than its reported distance. */
  ghost predicate NoShortcutFrom<Id, EId>(g: Graph<Id, EId>, r: Paths<Id>, u: Id)
    requires Valid(g) && u in g.nodes && u in r
  {
    forall v :: v in NeighborIds(g, u) ==>
      && v in r
      && FirstEdge(g.edges, g.kind, u, v).Some?
      && AtMost(r[v].0, Plus(r[u].0, Weight(g, u, v)))
  }

  /** The state before the first pop (dijkstra.py:23-27) satisfies the invariant. */
  lemma InitialSearching<Id(!new), EId>(g: Graph<Id, EId>, source: Id, dist: map<Id, Dist>, pred: map<Id, Option<Id>>)
    requires Valid(g)
    requires dist == (map v | v in g.nodes :: Inf)[source := Fin(0)]
    requires pred == map v | v in g.nodes :: None
    ensures Searching(g, source, dist, pred, [(0, source)], g.nodes.Keys, 0)
  {
    WalkOfCostSelf(g, source);
  }

  /** What the final dictionary promises once every node has been visited. */
  lemma FinishedSearch<Id(!new), EId>(g: Graph<Id, EId>, source: Id, dist: map<Id, Dist>, pred: map<Id, Option<Id>>,
                                      heap: seq<Entry<Id>>, lo: nat, paths: Paths<Id>)
    requires Valid(g) && Searching(g, source, dist, pred, heap, {}, lo)
    requires dist.Keys <= pred.Keys
    requires paths == map v | v in dist :: (dist[v], pred[v])
    ensures source in g.nodes
    ensures paths.Keys == g.nodes.Keys
    ensures paths[source] == (Fin(0), None)
    ensures forall v :: v in paths ==> paths[v].0.Fin? && WalkOfCost(g, source, v, paths[v].0.n)
    ensures forall v :: v in paths ==> Reachable(g, source, v)
    ensures forall v :: v in paths && v != source ==> paths[v].1.Some?
    ensures forall v :: v in paths && paths[v].1.Some? ==> PredecessorLinked(g, paths, v)
    ensures forall u :: u in paths ==> NoShortcutFrom(g, paths, u)
  {
    forall u | u in paths
      ensures NoShortcutFrom(g, paths, u)
    {
      assert Relaxed(g, dist, u);
    }
    forall v | v in paths && paths[v].1.Some?
      ensures PredecessorLinked(g, paths, v)
    {
      assert LinkedToPredecessor(g, dist, pred[v].value, v);
    }
    forall v | v in paths
      ensures Reachable(g, source, v)
    {
      WalkOfCostIsReachable(g, source, v, paths[v].0.n);
    }
  }

  /** One pass of the main loop (dijkstra.py:30-45): pop the cheapest entry, skip
      it when its node was already visited, otherwise visit the node and relax
      its edges. `stop` is the error that ends the search. */
  method SearchStep<Id(==,!new), EId>(g: Graph<Id, EId>, source: Id, dist: map<Id, Dist>, pred: map<Id, Option<Id>>,
                                      heap: seq<Entry<Id>>, unvisited: set<Id>, ghost lo: nat)
    returns (stop: Option<SearchError>, dist': map<Id, Dist>, pred': map<Id, Option<Id>>,
             heap': seq<Entry<Id>>, unvisited': set<Id>, ghost lo': nat)
    requires Valid(g) && Searching(g, source, dist, pred, heap, unvisited, lo)
    requires unvisited != {}
    ensures stop.None? ==> Searching(g, source, dist', pred', heap', unvisited', lo')
    ensures stop.None? ==> unvisited' < unvisited || (unvisited' == unvisited && |heap'| < |heap|)
    ensures stop == Some(EmptyFrontier) ==> exists v :: v in g.nodes && !Reachable(g, source, v)
    ensures stop.Some? && stop != Some(EmptyFrontier) ==> !WellFormed(g)
    ensures source !in g.nodes ==> stop.None? || stop == Some(EmptyFrontier)
  {
    var popped := HeapPop(heap);
    if popped.None? {
      StuckMeansUnreachable(g, source, dist, pred, unvisited, lo);
      return Some(EmptyFrontier), dist, pred, heap, unvisited, lo;
    }
    var entry, rest := popped.value.0, popped.value.1;
    var current := entry.1;
    if current !in unvisited {
      SkipPreserves(g, source, dist, pred, heap, unvisited, lo, entry, rest);
      assert |heap| == |multiset(heap)| == |multiset(rest)| + 1 == |rest| + 1;
      return None, dist, pred, rest, unvisited, lo;
    }
    var err;
    err, dist', pred', heap' := Relax(g, current, dist, pred, rest);
    if err.Some? {
      assert !WellFormed(g) by {
        assert !WellFormedAt(g, current);
      }
      return err, dist, pred, heap, unvisited, lo;
    }
    VisitPreserves(g, source, dist, pred, heap, unvisited, lo, entry, rest, dist', pred', heap');
    stop, unvisited', lo' := None, unvisited - {current}, entry.0;
  }

  /** Dijkstra.find_shortest_paths(source). */
  method FindShortestPaths<Id(==,!new), EId>(g: Graph<Id, EId>, source: Id) returns (r: Result<Paths<Id>, SearchError>)
    requires Valid(g)
    ensures source !in g.nodes ==> r == Failure(if g.nodes == map[] then MissingKey else EmptyFrontier)
    ensures r.Success? ==> r.value.Keys == g.nodes.Keys
    ensures r.Success? ==> r.value[source] == (Fin(0), None)
    ensures r.Success? ==> forall v :: v in r.value ==> r.value[v].0.Fin? && WalkOfCost(g, source, v, r.value[v].0.n)
    ensures r.Success? ==> forall v :: v in r.value ==> Reachable(g, source, v)
    ensures r.Success? ==> forall v :: v in r.value && v != source ==> r.value[v].1.Some?
    ensures r.Success? ==> forall v :: v in r.value && r.value[v].1.Some? ==> PredecessorLinked(g, r.value, v)
    ensures r.Success? ==> forall u :: u in r.value ==> NoShortcutFrom(g, r.value, u)
    ensures r == Failure(EmptyFrontier) ==> exists v :: v in g.nodes && !Reachable(g, source, v)
    ensures r == Failure(NoEdge) ==> !WellFormed(g)
    ensures r == Failure(MissingKey) ==> !WellFormed(g) || source !in g.nodes
    ensures WellFormed(g) ==>
      (r.Success? <==> source in g.nodes && forall v :: v in g.nodes ==> Reachable(g, source, v))
  {
    var dist: map<Id, Dist> := map v | v in g.nodes :: Inf;
    var pred: map<Id, Option<Id>> := map v | v in g.nodes :: None;
    dist := dist[source := Fin(0)];
    var heap: seq<Entry<Id>> := [(0, source)];
    var unvisited: set<Id> := g.nodes.Keys;
    ghost var lo: nat := 0;
    InitialSearching(g, source, dist, pred);
    while unvisited != {}
      invariant Searching(g, source, dist, pred, heap, unvisited, lo)
      decreases unvisited, |heap|
    {
      var stop;
      stop, dist, pred, heap, unvisited, lo := SearchStep(g, source, dist, pred, heap, unvisited, lo);
      if stop.Some? {
        return Failure(stop.value);
      }
    }
    if !(dist.Keys <= pred.Keys) {
      // The final comprehension reads predecessors[source], absent when the source is not a node.
      return Failure(MissingKey);
    }
    var paths := map v | v in dist :: (dist[v], pred[v]);
    FinishedSearch(g, source, dist, pred, heap, lo, paths);
    r := Success(paths);
  }

  /** Along any walk the reported distance of the last node is at most the
      reported distance of the first plus the walk's cost, once no edge offers
      a shortcut. */
  lemma {:induction false} NoWalkIsCheaper<Id, EId>(g: Graph<Id, EId>, r: Paths<Id>, p: seq<Id>)
    requires Valid(g) && IsWalk(g, p) && p[0] in r
    requires forall u :: u in r && u in g.nodes ==> NoShortcutFrom(g, r, u)
    ensures p[|p| - 1] in r && AtMost(r[p[|p| - 1]].0, Plus(r[p[0]].0, WalkCost(g, p)))
    decreases |p|
  {
    if |p| > 1 {
      assert Step(g, p[0], p[1]);
      assert NoShortcutFrom(g, r, p[0]);
      var q := p[1..];
      assert IsWalk(g, q) by {
        forall i | 0 <= i < |q| - 1
          ensures Step(g, q[i], q[i + 1])
        {
          assert Step(g, p[i + 1], p[i + 2]);
        }
      }
      NoWalkIsCheaper(g, r, q);
    }
  }

  /** The distances find_shortest_paths reports are shortest: each is the cost
      of some walk from the source, and no walk from the source is cheaper. */
  lemma ShortestDistances<Id, EId>(g: Graph<Id, EId>, source: Id, r: Paths<Id>, p: seq<Id>)
    requires Valid(g) && r.Keys == g.nodes.Keys
    requires source in r && r[source].0 == Fin(0)
    requires forall u :: u in r ==> NoShortcutFrom(g, r, u)
    requires IsWalk(g, p) && p[0] == source
    ensures p[|p| - 1] in r && r[p[|p| - 1]].0.Fin? && r[p[|p| - 1]].0.n <= WalkCost(g, p)
  {
    NoWalkIsCheaper(g, r, p);
  }
}
