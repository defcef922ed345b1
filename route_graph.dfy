/** The graph of the Leaflet variant: an object whose keys are the node
    numbers 0..n-1 and whose values are the adjacency lists, each edge a
    `{ target, distance }` record. It is modelled as a sequence indexed by
    node; a target outside 0..n-1 names no node of the graph. */
module RouteGraph {
  import opened Common

  datatype Edge = Edge(target: int, distance: nat)

  /** `graph[u]` is the adjacency list of node `u`. */
  type Graph = seq<seq<Edge>>

  /** Every edge is at least 1 long. */
  ghost predicate PositiveWeights(g: Graph)
  {
    forall u, k :: 0 <= u < |g| && 0 <= k < |g[u]| ==> g[u][k].distance >= 1
  }

  /** Whether some edge of `es` leads to `t` (JavaScript's
      `es.some(edge => edge.target === t)`). */
  function HasTarget(es: seq<Edge>, t: int): (b: bool)
    ensures b <==> exists k :: 0 <= k < |es| && es[k].target == t
  {
    if es == [] then false
    else es[0].target == t || HasTarget(es[1..], t)
  }

  /** The length of the shortest edge of `es` that leads to `t`, or
      `Infinity` when none does. */
  function EdgeWeight(es: seq<Edge>, t: int): ExtNat
  {
    if es == [] then Inf
    else
      var rest := EdgeWeight(es[1..], t);
      if es[0].target == t && AtMost(Fin(es[0].distance), rest) then Fin(es[0].distance) else rest
  }

  /** No edge to `t` is shorter than `EdgeWeight(es, t)`. */
  lemma {:induction false} EdgeWeightIsLowest(es: seq<Edge>, t: int, k: nat)
    requires k < |es| && es[k].target == t
    ensures AtMost(EdgeWeight(es, t), Fin(es[k].distance))
  {
    if k > 0 {
      EdgeWeightIsLowest(es[1..], t, k - 1);
    }
  }

  /** Appending an edge to the list: the weight drops to its length when
      it leads to `t` and is strictly shorter, and stays put otherwise. */
  lemma {:induction false} EdgeWeightSnoc(es: seq<Edge>, e: Edge, t: int)
    ensures EdgeWeight(es + [e], t) ==
            if e.target == t && Less(Fin(e.distance), EdgeWeight(es, t)) then Fin(e.distance) else EdgeWeight(es, t)
    decreases |es|
  {
    if es != [] {
      assert (es + [e])[0] == es[0] && (es + [e])[1..] == es[1..] + [e];
      EdgeWeightSnoc(es[1..], e, t);
    } else {
      assert es + [e] == [e];
    }
  }

  /** A finite `EdgeWeight(es, t)` is the length of an edge of `es` to `t`;
      an infinite one means that no edge leads to `t`. */
  lemma {:induction false} EdgeWeightIsAnEdge(es: seq<Edge>, t: int) returns (k: nat)
    ensures EdgeWeight(es, t).Fin? ==> k < |es| && es[k].target == t && es[k].distance == EdgeWeight(es, t).n
    ensures EdgeWeight(es, t).Inf? <==> !HasTarget(es, t)
  {
    if es == [] {
      k := 0;
    } else {
      var j := EdgeWeightIsAnEdge(es[1..], t);
      var rest := EdgeWeight(es[1..], t);
      if es[0].target == t && AtMost(Fin(es[0].distance), rest) {
        k := 0;
      } else {
        k := j + 1;
      }
    }
  }

  /** Every node of `q` is a node of `g`. */
  predicate InGraph(g: Graph, q: seq<int>)
  {
    forall i :: 0 <= i < |q| ==> 0 <= q[i] < |g|
  }

  /** The total length of the node sequence `q`, taking the shortest edge
      between each consecutive pair; `Infinity` when some pair has no edge. */
  ghost function PathCost(g: Graph, q: seq<int>): ExtNat
    requires InGraph(g, q)
    decreases |q|
  {
    if |q| <= 1 then Fin(0)
    else Add(PathCost(g, q[..|q| - 1]), EdgeWeight(g[q[|q| - 2]], q[|q| - 1]))
  }

  /** `q` leads from `s` to `e` along edges of `g`. */
  ghost predicate IsRoute(g: Graph, s: int, e: int, q: seq<int>)
  {
    |q| >= 1 && q[0] == s && q[|q| - 1] == e && InGraph(g, q) && PathCost(g, q).Fin?
  }

  /** Prepending a node adds the edge from it to the old first node. */
  lemma {:induction false} PathCostCons(g: Graph, x: int, q: seq<int>)
    requires 0 <= x < |g| && InGraph(g, q) && |q| >= 1
    ensures InGraph(g, [x] + q)
    ensures PathCost(g, [x] + q) == Add(EdgeWeight(g[x], q[0]), PathCost(g, q))
  {
    var xq := [x] + q;
    assert InGraph(g, xq) by {
      forall i | 0 <= i < |xq| ensures 0 <= xq[i] < |g| {
        if i > 0 { assert xq[i] == q[i - 1]; }
      }
    }
    if |q| == 1 {
      assert xq[..|xq| - 1] == [x];
    } else {
      var p := q[..|q| - 1];
      assert InGraph(g, p);
      assert xq[..|xq| - 1] == [x] + p;
      PathCostCons(g, x, p);
      var w := EdgeWeight(g[q[|q| - 2]], q[|q| - 1]);
      assert PathCost(g, xq) == Add(PathCost(g, [x] + p), w);
      assert PathCost(g, q) == Add(PathCost(g, p), w);
    }
  }

  /** A route is never cheaper than any of its prefixes. */
  lemma {:induction false} PathCostPrefix(g: Graph, q: seq<int>, j: nat)
    requires InGraph(g, q) && 1 <= j <= |q|
    ensures InGraph(g, q[..j])
    ensures AtMost(PathCost(g, q[..j]), PathCost(g, q))
  {
    if j < |q| {
      var p := q[..|q| - 1];
      PathCostPrefix(g, p, j);
      assert p[..j] == q[..j];
    } else {
      assert q[..j] == q;
    }
  }

  /** On a route every consecutive pair of nodes is joined by an edge. */
  lemma {:induction false} RouteFollowsEdges(g: Graph, s: int, e: int, q: seq<int>)
    requires IsRoute(g, s, e, q)
    ensures forall i :: 0 <= i < |q| - 1 ==> HasTarget(g[q[i]], q[i + 1])
  {
    forall i | 0 <= i < |q| - 1
      ensures HasTarget(g[q[i]], q[i + 1])
    {
      PathCostPrefix(g, q, i + 2);
      var p := q[..i + 2];
      assert p[..|p| - 1] == q[..i + 1];
      var _ := EdgeWeightIsAnEdge(g[q[i]], q[i + 1]);
    }
  }
}
