/** The costs and the priority queue shared by both searches. Python's heapq
    list is modelled as a sequence of (priority, id) entries; a pop takes out
    an entry of least priority, and which of several such entries it takes is
    left open, so nothing proved here depends on heapq's tie-breaking. */
module Frontier {
  import opened Wrappers

  /** A tentative cost: a finite non-negative number, or float('inf'). */
  datatype Dist = Fin(n: nat) | Inf

  /** `d + w` on floats: infinity absorbs the weight. */
  function Plus(d: Dist, w: nat): (r: Dist)
    ensures r.Fin? <==> d.Fin?
    ensures r.Fin? ==> r.n == d.n + w
  {
    match d
    case Fin(n) => Fin(n + w)
    case Inf => Inf
  }

  /** `a < b` on floats where Inf is float('inf'): nothing is below a finite
      cost that is not smaller, and infinity is below nothing. */
  predicate Less(a: Dist, b: Dist) {
    a.Fin? && (b.Inf? || a.n < b.n)
  }

  predicate AtMost(a: Dist, b: Dist) {
    b.Inf? || (a.Fin? && a.n <= b.n)
  }

  /** A strict improvement is never undone by adding a non-negative weight to
      the smaller side. */
  lemma LessIsStrictOrder(a: Dist, b: Dist, c: Dist)
    ensures !Less(a, a)
    ensures Less(a, b) ==> !Less(b, a) && !AtMost(b, a)
    ensures Less(a, b) && AtMost(b, c) ==> Less(a, c)
    ensures AtMost(a, b) <==> !Less(b, a)
  {
  }

  /** No cost in `a` exceeds the one in `b`. */
  ghost predicate AtMostEverywhere<Id>(a: map<Id, Dist>, b: map<Id, Dist>) {
    a.Keys == b.Keys && forall v :: v in a ==> AtMost(a[v], b[v])
  }

  /** Lowering one distance below the old one keeps every distance at most the old one. */
  lemma ImproveLowers<Id>(dist: map<Id, Dist>, dist': map<Id, Dist>, v: Id, c: Dist)
    requires dist'.Keys == dist.Keys && v in dist && Less(c, dist[v])
    requires forall w :: w in dist ==> AtMost(dist'[w], dist[w])
    ensures dist'[v := c].Keys == dist.Keys
    ensures forall w :: w in dist ==> AtMost(dist'[v := c][w], dist[w])
  {
    LessIsStrictOrder(c, dist[v], dist[v]);
  }

  /** A heap entry: (priority, node id). */
  type Entry<Id> = (nat, Id)

  /** heapq.heappop: None stands for the IndexError raised on an empty heap;
      otherwise an entry of least priority and the entries left behind. */
  method HeapPop<Id>(heap: seq<Entry<Id>>) returns (r: Option<(Entry<Id>, seq<Entry<Id>>)>)
    ensures r.None? <==> heap == []
    ensures r.Some? ==> r.value.0 in heap
    ensures r.Some? ==> forall x :: x in heap ==> r.value.0.0 <= x.0
    ensures r.Some? ==> multiset(heap) == multiset(r.value.1) + multiset{r.value.0}
  {
    if heap == [] {
      return None;
    }
    var k := 0;
    var i := 1;
    while i < |heap|
      invariant 0 <= k < i <= |heap|
      invariant forall j :: 0 <= j < i ==> heap[k].0 <= heap[j].0
    {
      if heap[i].0 < heap[k].0 {
        k := i;
      }
      i := i + 1;
    }
    var rest := heap[..k] + heap[k + 1..];
    assert heap == heap[..k] + [heap[k]] + heap[k + 1..];
    r := Some((heap[k], rest));
  }

  /** An entry that was queued and is not the one popped is still queued. */
  lemma StillQueued<Id>(heap: seq<Entry<Id>>, popped: Entry<Id>, rest: seq<Entry<Id>>, x: Entry<Id>)
    requires multiset(heap) == multiset(rest) + multiset{popped}
    requires x in heap && x != popped
    ensures x in rest
  {
    assert x in multiset(heap);
  }

  /** What remains after a pop was all queued before it. */
  lemma WasQueued<Id>(heap: seq<Entry<Id>>, popped: Entry<Id>, rest: seq<Entry<Id>>, x: Entry<Id>)
    requires multiset(heap) == multiset(rest) + multiset{popped}
    requires x in rest
    ensures x in heap
  {
    assert x in multiset(rest);
    assert x in multiset(heap);
  }
}
