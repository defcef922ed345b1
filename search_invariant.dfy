/** What holds of the state of `findFastestRoute` between two steps, and
    why it makes the returned route a shortest one.

    The state is `dist` (`distanceFromStart`, one entry per node),
    `cameFrom`, and the items of the priority queue, each an
    `{ node, priority }` pair with priority = distance + h, where h is the
    heuristic's value (the same for every node). Because stale entries are
    never removed from the queue, the invariant speaks of a node that is
    "pending": one whose edges have not all been relaxed against its current
    distance still has an entry in the queue carrying that distance. */
module SearchInvariant {
  import opened Common
  import opened Queue
  import opened RouteGraph

  // ----- the termination measure: fewer infinite entries, or a smaller sum of finite ones

  function CountInf(d: seq<ExtNat>): nat
  {
    if d == [] then 0 else (if d[0].Inf? then 1 else 0) + CountInf(d[1..])
  }

  function SumFin(d: seq<ExtNat>): nat
  {
    if d == [] then 0 else (if d[0].Fin? then d[0].n else 0) + SumFin(d[1..])
  }

  ghost predicate MeasureLess(a: seq<ExtNat>, b: seq<ExtNat>)
  {
    CountInf(a) < CountInf(b) || (CountInf(a) == CountInf(b) && SumFin(a) < SumFin(b))
  }

  /** How one entry contributes to the measure. */
  lemma {:induction false} MeasureOfUpdate(d: seq<ExtNat>, i: nat, x: ExtNat)
    requires i < |d|
    ensures CountInf(d[i := x]) + (if d[i].Inf? then 1 else 0) == CountInf(d) + (if x.Inf? then 1 else 0)
    ensures SumFin(d[i := x]) + (if d[i].Fin? then d[i].n else 0) == SumFin(d) + (if x.Fin? then x.n else 0)
  {
    if i > 0 {
      MeasureOfUpdate(d[1..], i - 1, x);
      assert d[i := x][1..] == d[1..][i - 1 := x];
    }
  }

  /** Lowering a distance to a finite value makes the measure smaller. */
  lemma LoweringDecreases(d: seq<ExtNat>, i: nat, x: ExtNat)
    requires i < |d| && Less(x, d[i])
    ensures MeasureLess(d[i := x], d)
  {
    MeasureOfUpdate(d, i, x);
  }

  // ----- the invariant

  /** Every edge is at least 1 long, `dist` has one entry per node, and the
      start node is at distance 0. */
  ghost predicate Base(g: Graph, s: int, dist: seq<ExtNat>)
  {
    PositiveWeights(g) && |dist| == |g| && 0 <= s < |g| && dist[s] == Fin(0)
  }

  /** Edge k of node u offers its target nothing shorter than its current distance. */
  ghost predicate EdgeRelaxed(g: Graph, dist: seq<ExtNat>, u: int, k: int)
  {
    && |dist| == |g| && 0 <= u < |g| && 0 <= k < |g[u]|
    && (0 <= g[u][k].target < |g| ==>
          AtMost(dist[g[u][k].target], Add(dist[u], Fin(g[u][k].distance))))
  }

  /** All edges of node u are relaxed. */
  ghost predicate Relaxed(g: Graph, dist: seq<ExtNat>, u: int)
  {
    |dist| == |g| && 0 <= u < |g| && forall k :: 0 <= k < |g[u]| ==> EdgeRelaxed(g, dist, u, k)
  }

  /** Node v is relaxed, or the queue holds an entry for v at its current distance. */
  ghost predicate PendingAt(g: Graph, dist: seq<ExtNat>, h: nat, items: seq<Item<int>>, v: int)
  {
    || Relaxed(g, dist, v)
    || (|dist| == |g| && 0 <= v < |g| && dist[v].Fin? && Item(v, dist[v].n + h) in items)
  }

  /** Every entry names a node with a finite distance, and its priority is
      at least that distance plus h (entries are never made cheaper). */
  ghost predicate QueueSound(g: Graph, dist: seq<ExtNat>, h: nat, items: seq<Item<int>>)
  {
    |dist| == |g| &&
    forall it :: it in items ==>
      0 <= it.payload < |g| && dist[it.payload].Fin? && dist[it.payload].n + h <= it.priority
  }

  /** Once the end node has a finite distance, the queue holds an entry for it. */
  ghost predicate EndTracked(g: Graph, dist: seq<ExtNat>, e: int, items: seq<Item<int>>)
  {
    |dist| == |g| && (0 <= e < |g| && dist[e].Fin? ==> exists it :: it in items && it.payload == e)
  }

  /** A node other than the start with a finite distance has a predecessor
      in `cameFrom`, reached from it by an edge, whose distance plus that
      edge is at most the node's own distance. */
  ghost predicate ParentOk(g: Graph, s: int, dist: seq<ExtNat>, cameFrom: map<int, int>, v: int)
  {
    && |dist| == |g| && 0 <= v < |g|
    && (v != s && dist[v].Fin? ==>
          && v in cameFrom && 0 <= cameFrom[v] < |g|
          && AtMost(Add(dist[cameFrom[v]], EdgeWeight(g[cameFrom[v]], v)), dist[v]))
  }

  /** The invariant of the main loop of `findFastestRoute`. */
  ghost predicate SearchInv(g: Graph, s: int, e: int, h: nat, dist: seq<ExtNat>,
                            cameFrom: map<int, int>, items: seq<Item<int>>)
  {
    && Base(g, s, dist)
    && QueueSound(g, dist, h, items)
    && EndTracked(g, dist, e, items)
    && (forall v :: 0 <= v < |g| ==> PendingAt(g, dist, h, items, v))
    && (forall v :: 0 <= v < |g| ==> ParentOk(g, s, dist, cameFrom, v))
  }

  /** The invariant while the edges of node u are relaxed, the first i done. */
  ghost predicate RelaxInv(g: Graph, s: int, e: int, h: nat, u: int, i: int, dist: seq<ExtNat>,
                           cameFrom: map<int, int>, items: seq<Item<int>>)
  {
    && Base(g, s, dist)
    && QueueSound(g, dist, h, items)
    && EndTracked(g, dist, e, items)
    && 0 <= u < |g| && dist[u].Fin? && 0 <= i <= |g[u]|
    && (forall v :: 0 <= v < |g| && v != u ==> PendingAt(g, dist, h, items, v))
    && (forall k :: 0 <= k < i ==> EdgeRelaxed(g, dist, u, k))
    && (forall v :: 0 <= v < |g| ==> ParentOk(g, s, dist, cameFrom, v))
  }

  /** The distances of a search just started: 0 for the start, Infinity
      elsewhere. The ensures give callers these facts pointwise, so that
      their proofs need not unfold the comprehension. */
  function InitialDistances(n: nat, s: int): (d: seq<ExtNat>)
    requires 0 <= s < n
    ensures |d| == n && d[s] == Fin(0)
    ensures forall v :: 0 <= v < n && v != s ==> d[v] == Inf
  {
    seq(n, v => if v == s then Fin(0) else Inf)
  }

  // ----- the invariant holds initially and is kept by each step

  lemma InitiallySearchInv(g: Graph, s: int, e: int, h: nat, items: seq<Item<int>>)
    requires PositiveWeights(g) && 0 <= s < |g|
    requires multiset(items) == multiset{Item(s, h)}
    ensures SearchInv(g, s, e, h, InitialDistances(|g|, s), map[], items)
  {
    var d := InitialDistances(|g|, s);
    assert Item(s, h) in multiset(items);
    forall it | it in items ensures it == Item(s, h) {
      assert it in multiset(items);
    }
    forall v | 0 <= v < |g| ensures PendingAt(g, d, h, items, v) {
      if v != s {
        assert Relaxed(g, d, v);
      }
    }
  }

  /** Taking the first entry (not for the end node) off the queue leaves the
      invariant of the relaxation of that entry's node, with no edge done. */
  lemma AfterDequeue(g: Graph, s: int, e: int, h: nat, dist: seq<ExtNat>,
                     cameFrom: map<int, int>, items: seq<Item<int>>)
    requires SearchInv(g, s, e, h, dist, cameFrom, items)
    requires items != [] && items[0].payload != e
    ensures RelaxInv(g, s, e, h, items[0].payload, 0, dist, cameFrom, items[1..])
  {
    var u := items[0].payload;
    assert items[0] in items;
    forall it | it in items[1..] ensures it in items { }
    forall it | it in items && it.payload != u ensures it in items[1..] {
      var k :| 0 <= k < |items| && items[k] == it;
      assert k != 0;
      assert items[1..][k - 1] == it;
    }
    forall v | 0 <= v < |g| && v != u ensures PendingAt(g, dist, h, items[1..], v) {
      assert PendingAt(g, dist, h, items, v);
    }
    if 0 <= e < |g| && dist[e].Fin? {
      var it :| it in items && it.payload == e;
      assert it in items[1..];
    }
  }

  /** Relaxing edge i of u when it shortens the distance of its target t:
      the target gets the new distance, u as predecessor, and a new entry. */
  lemma RelaxLowers(g: Graph, s: int, e: int, h: nat, u: int, i: int, dist: seq<ExtNat>,
                    cameFrom: map<int, int>, items: seq<Item<int>>,
                    t: int, nd: nat, dist': seq<ExtNat>, cameFrom': map<int, int>, items': seq<Item<int>>)
    requires RelaxInv(g, s, e, h, u, i, dist, cameFrom, items) && i < |g[u]|
    requires t == g[u][i].target && nd == dist[u].n + g[u][i].distance
    requires 0 <= t < |g| && Less(Fin(nd), dist[t])
    requires dist' == dist[t := Fin(nd)] && cameFrom' == cameFrom[t := u]
    requires multiset(items') == multiset(items) + multiset{Item(t, nd + h)}
    ensures RelaxInv(g, s, e, h, u, i + 1, dist', cameFrom', items')
    ensures MeasureLess(dist', dist)
  {
    var w := g[u][i].distance;
    var d' := dist';
    var c' := cameFrom';
    var added := Item(t, nd + h);
    assert w >= 1;
    assert t != u && t != s;
    LoweringDecreases(dist, t, Fin(nd));
    forall x ensures x in items' <==> x in items || x == added {
      assert x in items' <==> x in multiset(items');
      assert x in items <==> x in multiset(items);
    }
    assert forall x :: 0 <= x < |g| ==> AtMost(d'[x], dist[x]);
    forall v | 0 <= v < |g| && v != u ensures PendingAt(g, d', h, items', v) {
      if v != t {
        assert PendingAt(g, dist, h, items, v);
        if Relaxed(g, dist, v) {
          forall k | 0 <= k < |g[v]| ensures EdgeRelaxed(g, d', v, k) {
            assert EdgeRelaxed(g, dist, v, k);
          }
        }
      }
    }
    forall k | 0 <= k < i + 1 ensures EdgeRelaxed(g, d', u, k) {
      if k < i {
        assert EdgeRelaxed(g, dist, u, k);
      }
    }
    forall v | 0 <= v < |g| ensures ParentOk(g, s, d', c', v) {
      if v == t {
        EdgeWeightIsLowest(g[u], t, i);
      } else {
        assert ParentOk(g, s, dist, cameFrom, v);
      }
    }
    if 0 <= e < |g| && d'[e].Fin? && e != t {
      var it :| it in items && it.payload == e;
      assert it in items';
    }
    assert added in items';
  }

  /** Edge i of u offers nothing shorter: nothing changes. */
  lemma RelaxSkips(g: Graph, s: int, e: int, h: nat, u: int, i: int, dist: seq<ExtNat>,
                   cameFrom: map<int, int>, items: seq<Item<int>>)
    requires RelaxInv(g, s, e, h, u, i, dist, cameFrom, items) && i < |g[u]|
    requires !(0 <= g[u][i].target < |g| && Less(Fin(dist[u].n + g[u][i].distance), dist[g[u][i].target]))
    ensures RelaxInv(g, s, e, h, u, i + 1, dist, cameFrom, items)
  {
    assert EdgeRelaxed(g, dist, u, i);
  }

  /** Edge i of u leads to a node of the graph and offers it a distance
      strictly below its current one. */
  ghost predicate EdgeLowers(g: Graph, dist: seq<ExtNat>, u: int, i: int)
  {
    && |dist| == |g| && 0 <= u < |g| && 0 <= i < |g[u]| && dist[u].Fin?
    && 0 <= g[u][i].target < |g|
    && Less(Fin(dist[u].n + g[u][i].distance), dist[g[u][i].target])
  }

  /** The distance edge i of u offers its target: u's distance plus the
      edge's length. */
  ghost function Offered(g: Graph, dist: seq<ExtNat>, u: int, i: int): (nd: nat)
    requires EdgeLowers(g, dist, u, i)
    ensures Less(Fin(nd), dist[g[u][i].target])
  {
    dist[u].n + g[u][i].distance
  }

  /** The state after the `forEach` callback for edge i of u: when the edge
      lowers its target, the target gets the offered distance, u as its
      predecessor, and a queue entry (priority: the offered distance plus
      the heuristic) at its stable insertion index, where pushing it and
      re-sorting places it (`EnqueueInsertsAfterTies`); otherwise distances,
      predecessors and queue are unchanged. */
  ghost predicate EdgeRelaxation(g: Graph, h: nat, u: int, i: int,
                                 dist: seq<ExtNat>, cameFrom: map<int, int>, items: seq<Item<int>>,
                                 dist': seq<ExtNat>, cameFrom': map<int, int>, items': seq<Item<int>>)
  {
    if EdgeLowers(g, dist, u, i) then
      && dist' == dist[g[u][i].target := Fin(Offered(g, dist, u, i))]
      && cameFrom' == cameFrom[g[u][i].target := u]
      && items' == items[..InsertionIndex(items, Item(g[u][i].target, Offered(g, dist, u, i) + h))]
                   + [Item(g[u][i].target, Offered(g, dist, u, i) + h)]
                   + items[InsertionIndex(items, Item(g[u][i].target, Offered(g, dist, u, i) + h))..]
    else
      dist' == dist && cameFrom' == cameFrom && items' == items
  }

  /** `EdgeRelaxation` with the queue seen as a multiset: the lowered
      target's entry is added, nothing else. This is all the search
      invariant needs of the queue; it follows from `EdgeRelaxation` by
      `InsertedMultiset`, and is stated on its own so that the proofs of the
      invariant never see the queue as a concatenation, which makes them
      far more expensive. */
  ghost predicate EdgeRelaxationCounts(g: Graph, h: nat, u: int, i: int,
                                       dist: seq<ExtNat>, cameFrom: map<int, int>, items: seq<Item<int>>,
                                       dist': seq<ExtNat>, cameFrom': map<int, int>, items': seq<Item<int>>)
  {
    if EdgeLowers(g, dist, u, i) then
      && dist' == dist[g[u][i].target := Fin(Offered(g, dist, u, i))]
      && cameFrom' == cameFrom[g[u][i].target := u]
      && multiset(items') == multiset(items) + multiset{Item(g[u][i].target, Offered(g, dist, u, i) + h)}
    else
      dist' == dist && cameFrom' == cameFrom && items' == items
  }

  /** Inserting x at index k adds exactly x to the multiset of items. */
  lemma InsertedMultiset(s: seq<Item<int>>, k: nat, x: Item<int>)
    requires k <= |s|
    ensures multiset(s[..k] + [x] + s[k..]) == multiset(s) + multiset{x}
  {
    assert s == s[..k] + s[k..];
  }

  /** The lowering case of `EdgeRelaxation` and `EdgeRelaxationCounts`,
      from the three updates. */
  lemma LoweredRelaxation(g: Graph, h: nat, u: int, i: int,
                          dist: seq<ExtNat>, cameFrom: map<int, int>, items: seq<Item<int>>,
                          t: int, nd: int, k: nat,
                          dist': seq<ExtNat>, cameFrom': map<int, int>, items': seq<Item<int>>)
    requires EdgeLowers(g, dist, u, i) && t == g[u][i].target && nd == dist[u].n + g[u][i].distance
    requires k == InsertionIndex(items, Item(t, nd + h))
    requires dist' == dist[t := Fin(nd)] && cameFrom' == cameFrom[t := u]
    requires items' == items[..k] + [Item(t, nd + h)] + items[k..]
    ensures EdgeRelaxation(g, h, u, i, dist, cameFrom, items, dist', cameFrom', items')
    ensures EdgeRelaxationCounts(g, h, u, i, dist, cameFrom, items, dist', cameFrom', items')
  {
    InsertedMultiset(items, k, Item(t, nd + h));
  }

  /** One callback keeps the relaxation invariant, one more edge done, and
      either changes nothing or decreases the measure. */
  lemma RelaxEdgeKeeps(g: Graph, s: int, e: int, h: nat, u: int, i: int,
                       dist: seq<ExtNat>, cameFrom: map<int, int>, items: seq<Item<int>>,
                       dist': seq<ExtNat>, cameFrom': map<int, int>, items': seq<Item<int>>)
    requires RelaxInv(g, s, e, h, u, i, dist, cameFrom, items) && i < |g[u]|
    requires EdgeRelaxationCounts(g, h, u, i, dist, cameFrom, items, dist', cameFrom', items')
    ensures RelaxInv(g, s, e, h, u, i + 1, dist', cameFrom', items')
    ensures || (dist' == dist && items' == items)
            || MeasureLess(dist', dist)
  {
    if EdgeLowers(g, dist, u, i) {
      var t, nd := g[u][i].target, Offered(g, dist, u, i);
      RelaxLowers(g, s, e, h, u, i, dist, cameFrom, items, t, nd, dist', cameFrom', items');
    } else {
      RelaxSkips(g, s, e, h, u, i, dist, cameFrom, items);
    }
  }

  /** All edges of u relaxed: u is no longer pending and the main invariant is back. */
  lemma RelaxFinished(g: Graph, s: int, e: int, h: nat, u: int, dist: seq<ExtNat>,
                      cameFrom: map<int, int>, items: seq<Item<int>>)
    requires 0 <= u < |g| && RelaxInv(g, s, e, h, u, |g[u]|, dist, cameFrom, items)
    ensures SearchInv(g, s, e, h, dist, cameFrom, items)
  {
    assert Relaxed(g, dist, u);
    assert forall v :: 0 <= v < |g| ==> PendingAt(g, dist, h, items, v);
  }

  // ----- what the invariant implies

  /** Along a route from the start whose first j nodes are relaxed, the
      distance of node j is at most the length of the route up to it. */
  lemma {:induction false} PrefixBound(g: Graph, s: int, dist: seq<ExtNat>, q: seq<int>, j: nat)
    requires Base(g, s, dist)
    requires InGraph(g, q) && |q| >= 1 && q[0] == s && j < |q|
    requires forall i :: 0 <= i < j ==> Relaxed(g, dist, q[i])
    ensures InGraph(g, q[..j + 1])
    ensures AtMost(dist[q[j]], PathCost(g, q[..j + 1]))
  {
    if j == 0 {
      assert q[..1] == [s];
    } else {
      PrefixBound(g, s, dist, q, j - 1);
      var p := q[..j + 1];
      assert p[..j] == q[..j];
      var w := EdgeWeight(g[q[j - 1]], q[j]);
      assert PathCost(g, p) == Add(PathCost(g, q[..j]), w);
      if w.Fin? {
        var k := EdgeWeightIsAnEdge(g[q[j - 1]], q[j]);
        assert Relaxed(g, dist, q[j - 1]);
        assert EdgeRelaxed(g, dist, q[j - 1], k);
      }
    }
  }

  /** When the entry at the head of the queue is for the end node, no route
      is shorter than the end node's distance. Walk the route until its
      first node that is not relaxed: that node's entry is still queued, so
      its distance is at least the head's priority. */
  lemma {:induction false} HeadIsShortest(g: Graph, s: int, e: int, h: nat, dist: seq<ExtNat>,
                                          cameFrom: map<int, int>, items: seq<Item<int>>,
                                          q: seq<int>, j: nat)
    requires SearchInv(g, s, e, h, dist, cameFrom, items) && Sorted(items)
    requires items != [] && items[0].payload == e
    requires IsRoute(g, s, e, q) && j < |q|
    requires forall i :: 0 <= i < j ==> Relaxed(g, dist, q[i])
    ensures AtMost(dist[e], PathCost(g, q))
    decreases |q| - j
  {
    PrefixBound(g, s, dist, q, j);
    PathCostPrefix(g, q, j + 1);
    if j == |q| - 1 {
      assert q[..j + 1] == q;
    } else if Relaxed(g, dist, q[j]) {
      HeadIsShortest(g, s, e, h, dist, cameFrom, items, q, j + 1);
    } else if q[j] != e {
      assert PendingAt(g, dist, h, items, q[j]);
      var k :| 0 <= k < |items| && items[k] == Item(q[j], dist[q[j]].n + h);
      assert items[0].priority <= items[k].priority;
      assert items[0] in items;
    }
  }

  /** The end node's distance, when its entry heads the queue, is the
      length of a shortest route. */
  lemma ShortestWhenDequeued(g: Graph, s: int, e: int, h: nat, dist: seq<ExtNat>,
                             cameFrom: map<int, int>, items: seq<Item<int>>)
    requires SearchInv(g, s, e, h, dist, cameFrom, items) && Sorted(items)
    requires items != [] && items[0].payload == e
    ensures 0 <= e < |g| && dist[e].Fin?
    ensures forall q :: IsRoute(g, s, e, q) ==> AtMost(dist[e], PathCost(g, q))
  {
    assert items[0] in items;
    forall q | IsRoute(g, s, e, q) ensures AtMost(dist[e], PathCost(g, q)) {
      HeadIsShortest(g, s, e, h, dist, cameFrom, items, q, 0);
    }
  }

  /** When the queue runs dry the end node is unreachable: every node is
      relaxed, so a route would give the end node a finite distance, and
      then the queue would still hold an entry for it. */
  lemma NoRouteWhenExhausted(g: Graph, s: int, e: int, h: nat, dist: seq<ExtNat>,
                             cameFrom: map<int, int>)
    requires SearchInv(g, s, e, h, dist, cameFrom, [])
    ensures forall q :: !IsRoute(g, s, e, q)
  {
    forall q | IsRoute(g, s, e, q) ensures dist[e].Fin? {
      forall i | 0 <= i < |q| - 1 ensures Relaxed(g, dist, q[i]) {
        assert PendingAt(g, dist, h, [], q[i]);
      }
      PrefixBound(g, s, dist, q, |q| - 1);
      assert q[..|q|] == q;
    }
  }
}
