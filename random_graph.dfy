/** The random graph generator of the Leaflet variant. `Math.random` is
    injected: `random(k)` is the value of its k-th call, a real in [0, 1). */
module RandomGraph {
  import opened RouteGraph

  /** What every generated graph of `n` nodes looks like: each node 0..n-1
      has an adjacency list, no edge is a self-loop, no two edges of one
      node share a target, every target is a node and every distance lies
      in 1..100. */
  ghost predicate WellFormed(g: Graph, n: nat)
  {
    && |g| == n
    && (forall i, k :: 0 <= i < n && 0 <= k < |g[i]| ==>
          0 <= g[i][k].target < n && g[i][k].target != i && 1 <= g[i][k].distance <= 100)
    && (forall i, k, l :: 0 <= i < n && 0 <= k < l < |g[i]| ==> g[i][k].target != g[i][l].target)
  }

  /** `Math.floor(r * m)` for a draw `r` in [0, 1). */
  function Scale(r: real, m: nat): (v: int)
    requires 0.0 <= r < 1.0
    ensures m > 0 ==> 0 <= v < m
    ensures m == 0 ==> v == 0
  {
    assert 0.0 <= r * m as real;
    assert m > 0 ==> r * m as real < m as real by {
      if m > 0 {
        assert (1.0 - r) * m as real > 0.0;
      }
    }
    (r * m as real).Floor
  }

  /** Every graph this builds is well formed, and node i tries at most
      `floor(random * n) < n` targets, so it gets fewer than n edges. */
  method CreateRandomGraph(nodeCount: nat, random: nat -> real) returns (graph: Graph)
    requires forall k :: 0.0 <= random(k) < 1.0
    ensures WellFormed(graph, nodeCount)
    ensures PositiveWeights(graph)
    ensures forall i :: 0 <= i < nodeCount ==> |graph[i]| < nodeCount
  {
    graph := [];
    for i := 0 to nodeCount
      invariant |graph| == i
      invariant forall x :: 0 <= x < i ==> graph[x] == []
    {
      graph := graph + [[]];
    }

    var draw := 0;
    for i := 0 to nodeCount
      invariant WellFormed(graph, nodeCount)
      invariant forall x :: i <= x < nodeCount ==> graph[x] == []
      invariant forall x :: 0 <= x < i ==> |graph[x]| < nodeCount
    {
      var edges := Scale(random(draw), nodeCount);
      draw := draw + 1;
      ghost var before := graph;
      for j := 0 to edges
        invariant WellFormed(graph, nodeCount)
        invariant forall x :: 0 <= x < nodeCount && x != i ==> graph[x] == before[x]
        invariant |graph[i]| <= j
      {
        var targetNode := Scale(random(draw), nodeCount);
        draw := draw + 1;
        if !HasTarget(graph[i], targetNode) && i != targetNode {
          var distance := Scale(random(draw), 100) + 1;
          draw := draw + 1;
          graph := graph[i := graph[i] + [Edge(targetNode, distance)]];
        }
      }
    }
  }
}
