/** `findFastestRoute` and `reconstructPath` of the Leaflet variant.

    The heuristic of the source measures the straight line from the start
    node's position to the end node's position, whatever node it is asked
    about, so it adds the same amount `h` to every priority; the search is
    Dijkstra's algorithm with lazy deletion of stale queue entries. */
module FastestRoute {
  import opened Common
  import opened Queue
  import opened RouteGraph
  import opened SearchInvariant

  /** Walk `cameFrom` back from the end node to the start node. The result
      is that chain: every node after the first is not the start node and
      `cameFrom` maps it to the node before it. Each step goes to a node of
      strictly smaller distance, so the walk ends, and each step follows an
      edge, so the result is a route whose length is at most the end node's
      distance. */
  method ReconstructPath(startNode: int, endNode: int, cameFrom: map<int, int>,
                         ghost g: Graph, ghost dist: seq<ExtNat>)
    returns (path: seq<int>)
    requires |dist| == |g| && PositiveWeights(g)
    requires 0 <= startNode < |g| && 0 <= endNode < |g| && dist[endNode].Fin?
    requires forall v :: 0 <= v < |g| ==> ParentOk(g, startNode, dist, cameFrom, v)
    ensures IsRoute(g, startNode, endNode, path)
    ensures AtMost(PathCost(g, path), dist[endNode])
    ensures startNode == endNode ==> path == [startNode]
    ensures forall i :: 1 <= i < |path| ==>
              path[i] != startNode && path[i] in cameFrom && cameFrom[path[i]] == path[i - 1]
  {
    path := [];
    var currentNode := endNode;
    while currentNode != startNode
      invariant 0 <= currentNode < |g| && dist[currentNode].Fin?
      invariant InGraph(g, [currentNode] + path)
      invariant ([currentNode] + path)[|path|] == endNode
      invariant AtMost(Add(dist[currentNode], PathCost(g, [currentNode] + path)), dist[endNode])
      invariant path == [] ==> currentNode == endNode
      invariant startNode == endNode ==> path == []
      invariant forall i :: 1 <= i < |[currentNode] + path| ==>
                  && ([currentNode] + path)[i] != startNode
                  && ([currentNode] + path)[i] in cameFrom
                  && cameFrom[([currentNode] + path)[i]] == ([currentNode] + path)[i - 1]
      decreases dist[currentNode].n
    {
      assert ParentOk(g, startNode, dist, cameFrom, currentNode);
      var previous := cameFrom[currentNode];
      var w := EdgeWeight(g[previous], currentNode);
      var k := EdgeWeightIsAnEdge(g[previous], currentNode);
      assert g[previous][k].distance >= 1;
      PathCostCons(g, previous, [currentNode] + path);
      path := [currentNode] + path;
      currentNode := previous;
    }
    path := [startNode] + path;
  }

  /** Relaxing edges es of node u from the distances d0 lowers node v
      exactly when d0[u] plus the shortest of those edges to v is strictly
      below d0[v]. */
  ghost predicate Lowers(d0: seq<ExtNat>, u: int, es: seq<Edge>, v: int)
    requires 0 <= u < |d0|
  {
    0 <= v < |d0| && Less(Add(d0[u], EdgeWeight(es, v)), d0[v])
  }

  /** The distance of v once the edges es of u are relaxed from d0. */
  ghost function RelaxedDistance(d0: seq<ExtNat>, u: int, es: seq<Edge>, v: int): ExtNat
    requires 0 <= u < |d0| && 0 <= v < |d0|
  {
    if Lowers(d0, u, es, v) then Add(d0[u], EdgeWeight(es, v)) else d0[v]
  }

  /** The state after the first i edges of u are relaxed from `d0` and
      `cameFrom`: every distance is its relaxed distance, and the lowered
      nodes, and only they, now have u as their predecessor. */
  ghost predicate RelaxedUpTo(g: Graph, d0: seq<ExtNat>, u: int, i: nat, cameFrom: map<int, int>,
                              dist: seq<ExtNat>, parents: map<int, int>)
    requires |d0| == |g| && 0 <= u < |g| && i <= |g[u]|
  {
    && |dist| == |g|
    && (forall v :: 0 <= v < |g| ==> dist[v] == RelaxedDistance(d0, u, g[u][..i], v))
    && (forall v :: v in parents <==> v in cameFrom || Lowers(d0, u, g[u][..i], v))
    && (forall v :: v in parents ==> parents[v] == if Lowers(d0, u, g[u][..i], v) then u else cameFrom[v])
  }

  /** One more edge relaxed, as `RelaxEdge` does it, keeps the closed form. */
  lemma RelaxStep(g: Graph, h: nat, d0: seq<ExtNat>, u: int, i: nat, cameFrom: map<int, int>,
                  dist: seq<ExtNat>, parents: map<int, int>, items: seq<Item<int>>,
                  dist': seq<ExtNat>, parents': map<int, int>, items': seq<Item<int>>)
    requires |d0| == |g| && 0 <= u < |g| && d0[u].Fin? && i < |g[u]|
    requires RelaxedUpTo(g, d0, u, i, cameFrom, dist, parents)
    requires EdgeRelaxationCounts(g, h, u, i, dist, parents, items, dist', parents', items')
    ensures RelaxedUpTo(g, d0, u, i + 1, cameFrom, dist', parents')
  {
    var es, e := g[u][..i], g[u][i];
    assert g[u][..i + 1] == es + [e];
    assert dist[u] == d0[u];
    forall v | 0 <= v < |g|
      ensures dist'[v] == RelaxedDistance(d0, u, es + [e], v)
      ensures Lowers(d0, u, es + [e], v) <==> Lowers(d0, u, es, v) || (v == e.target && dist' != dist)
    {
      EdgeWeightSnoc(es, e, v);
    }
  }

  /** The `forEach` callback for edge i of `currentNode`: an edge to a node
      of the graph that gives it a shorter distance records the new distance
      and predecessor and enqueues the node (push, then stable sort). A
      target that is not a node of the graph has no distance entry, and
      `x < undefined` is false, so such an edge changes nothing. */
  method RelaxEdge(graph: Graph, h: nat, currentNode: int, i: int,
                   distanceFromStart: seq<ExtNat>, cameFrom: map<int, int>,
                   queue: PriorityQueue<int>)
    returns (dist: seq<ExtNat>, parents: map<int, int>)
    requires queue.Valid()
    requires |distanceFromStart| == |graph| && 0 <= currentNode < |graph| && distanceFromStart[currentNode].Fin?
    requires 0 <= i < |graph[currentNode]|
    modifies queue
    ensures queue.Valid()
    ensures EdgeRelaxation(graph, h, currentNode, i, distanceFromStart, cameFrom, old(queue.items),
                           dist, parents, queue.items)
    ensures EdgeRelaxationCounts(graph, h, currentNode, i, distanceFromStart, cameFrom, old(queue.items),
                                 dist, parents, queue.items)
  {
    dist, parents := distanceFromStart, cameFrom;
    var edge := graph[currentNode][i];
    var nextNode := edge.target;
    var newDistance := dist[currentNode].n + edge.distance;
    if 0 <= nextNode < |dist| && Less(Fin(newDistance), dist[nextNode]) {
      assert EdgeLowers(graph, distanceFromStart, currentNode, i);
      ghost var items0 := queue.items;
      ghost var k := InsertionIndex(items0, Item(nextNode, newDistance + h));
      dist := dist[nextNode := Fin(newDistance)];
      parents := parents[nextNode := currentNode];
      queue.Enqueue(Item(nextNode, newDistance + h));
      LoweredRelaxation(graph, h, currentNode, i, distanceFromStart, cameFrom, items0,
                        nextNode, newDistance, k, dist, parents, queue.items);
    } else {
      assert !EdgeLowers(graph, distanceFromStart, currentNode, i);
    }
  }

  /** Relax every edge of `currentNode` in order (the `forEach` loop). Each
      node ends at its relaxed distance: lowered to the current node's
      distance plus its shortest edge to it when that is strictly shorter,
      with the current node as its new predecessor, and unchanged
      otherwise. */
  method RelaxNeighbours(graph: Graph, ghost start: int, ghost end: int, h: nat, currentNode: int,
                         distanceFromStart: seq<ExtNat>, cameFrom: map<int, int>,
                         queue: PriorityQueue<int>)
    returns (dist: seq<ExtNat>, parents: map<int, int>)
    requires queue.Valid()
    requires RelaxInv(graph, start, end, h, currentNode, 0, distanceFromStart, cameFrom, queue.items)
    modifies queue
    ensures queue.Valid()
    ensures SearchInv(graph, start, end, h, dist, parents, queue.items)
    ensures forall v :: 0 <= v < |graph| ==>
              dist[v] == RelaxedDistance(distanceFromStart, currentNode, graph[currentNode], v)
    ensures forall v :: v in parents <==>
              v in cameFrom || Lowers(distanceFromStart, currentNode, graph[currentNode], v)
    ensures forall v :: v in parents ==>
              parents[v] == if Lowers(distanceFromStart, currentNode, graph[currentNode], v)
                            then currentNode else cameFrom[v]
    ensures || (dist == distanceFromStart && queue.items == old(queue.items))
            || MeasureLess(dist, distanceFromStart)
  {
    dist, parents := distanceFromStart, cameFrom;
    var count := |graph[currentNode]|;
    assert graph[currentNode][..0] == [];
    for i := 0 to count
      invariant queue.Valid()
      invariant RelaxInv(graph, start, end, h, currentNode, i, dist, parents, queue.items)
      invariant RelaxedUpTo(graph, distanceFromStart, currentNode, i, cameFrom, dist, parents)
      invariant || (dist == distanceFromStart && queue.items == old(queue.items))
                || MeasureLess(dist, distanceFromStart)
    {
      ghost var dist0, parents0, items0 := dist, parents, queue.items;
      dist, parents := RelaxEdge(graph, h, currentNode, i, dist, parents, queue);
      RelaxEdgeKeeps(graph, start, end, h, currentNode, i, dist0, parents0, items0, dist, parents, queue.items);
      RelaxStep(graph, h, distanceFromStart, currentNode, i, cameFrom, dist0, parents0, items0,
                dist, parents, queue.items);
    }
    assert graph[currentNode][..count] == graph[currentNode];
    RelaxFinished(graph, start, end, h, currentNode, dist, parents, queue.items);
  }

  /** The route search. A route it returns runs from the start node to the
      end node along edges of the graph and is no longer than any other such
      route; it returns `null` exactly when there is no route. */
  method FindFastestRoute(graph: Graph, startNode: int, endNode: int, h: nat)
    returns (route: Option<seq<int>>)
    requires 0 <= startNode < |graph|
    requires PositiveWeights(graph)
    ensures route.Some? ==> IsRoute(graph, startNode, endNode, route.value)
    ensures route.Some? ==>
              forall q :: IsRoute(graph, startNode, endNode, q) ==>
                AtMost(PathCost(graph, route.value), PathCost(graph, q))
    ensures route.None? <==> forall q :: !IsRoute(graph, startNode, endNode, q)
    ensures startNode == endNode ==> route == Some([startNode])
  {
    var distanceFromStart: seq<ExtNat> := [];
    for node := 0 to |graph|
      invariant |distanceFromStart| == node
      invariant forall v :: 0 <= v < node ==> distanceFromStart[v] == Inf
    {
      distanceFromStart := distanceFromStart + [Inf];
    }
    distanceFromStart := distanceFromStart[startNode := Fin(0)];
    assert distanceFromStart == InitialDistances(|graph|, startNode);
    var cameFrom: map<int, int> := map[];
    var priorityQueue := new PriorityQueue<int>();
    priorityQueue.Enqueue(Item(startNode, h));
    InitiallySearchInv(graph, startNode, endNode, h, priorityQueue.items);

    while !priorityQueue.IsEmpty()
      invariant fresh(priorityQueue) && priorityQueue.Valid()
      invariant SearchInv(graph, startNode, endNode, h, distanceFromStart, cameFrom, priorityQueue.items)
      decreases CountInf(distanceFromStart), SumFin(distanceFromStart), |priorityQueue.items|
    {
      ghost var waiting := priorityQueue.items;
      var entry := priorityQueue.Dequeue();
      var currentNode := entry.value.payload;

      if currentNode == endNode {
        ShortestWhenDequeued(graph, startNode, endNode, h, distanceFromStart, cameFrom, waiting);
        var path := ReconstructPath(startNode, endNode, cameFrom, graph, distanceFromStart);
        return Some(path);
      }

      AfterDequeue(graph, startNode, endNode, h, distanceFromStart, cameFrom, waiting);
      distanceFromStart, cameFrom :=
        RelaxNeighbours(graph, startNode, endNode, h, currentNode, distanceFromStart, cameFrom, priorityQueue);
    }

    NoRouteWhenExhausted(graph, startNode, endNode, h, distanceFromStart, cameFrom);
    return None;
  }
}
