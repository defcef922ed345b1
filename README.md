# Travel planner route engine, in Dafny

The travel planner has two front ends, each with its own copy of the route engine:

- **Leaflet front end (`script.js`).** It draws a random directed graph with weighted edges, then searches it for the fastest route from node 0 to node n-1. The search is best-first over a priority queue kept sorted by priority. `cameFrom` links then lead back from the end node.
- **Google Maps front end (`googleMapsApi.js`).** It builds a `Graph` object from a distance matrix. `findShortestTour` then tries, by depth-first backtracking, every order of visiting all the nodes from the start node, and completes each order with the edge to the end node.

This project models both copies of the engine and proves what they promise:

| file | module | what it holds |
|---|---|---|
| `common.dfy` | `Common` | `Option`, and `ExtNat`, the naturals extended with JavaScript's `Infinity`, with `+`, `<` and `<=` on them |
| `priority_queue.dfy` | `Queue` | the `PriorityQueue` class (see below) |
| `route_graph.dfy` | `RouteGraph` | the graph of the Leaflet front end: an adjacency list per node 0..n-1, the cost of a path (`PathCost`) and what a route is (`IsRoute`) |
| `random_graph.dfy` | `RandomGraph` | `createRandomGraph`, with `Math.random` passed in as the sequence of its results |
| `search_invariant.dfy` | `SearchInvariant` | the invariant of the route search and the lemmas that it holds and what it implies |
| `fastest_route.dfy` | `FastestRoute` | `findFastestRoute`, its `forEach` relaxation loop, and `reconstructPath` |
| `maps_graph.dfy` | `MapsGraph` | the `Graph` class of the Google Maps front end |
| `shortest_tour.dfy` | `ShortestTour` | `findShortestTour` with its recursive `dfs` over the shared `visited` array |

The `PriorityQueue` class is a `seq` of items that `push` followed by a stable `sort` keeps in order. The sort is modelled by a stable insertion sort, `SortByPriority`. `googleMapsApi.js:36-60` holds a copy of the same class, character for character, and the one class models both copies.

The heuristic of `findFastestRoute` ignores the node it is asked about (`script.js:256-263`). It measures the distance from the start node's position to the end node's position, so it adds the same amount `h` to every priority. The search is therefore Dijkstra's algorithm with lazy deletion: stale queue entries stay queued. The model takes `h` as a natural-number parameter.

`findShortestTour` is specified by two functions:

- `Completions` is the sequence of completed candidates, in the order the depth-first search meets them.
- `KeepAll` folds that sequence with the program's strict `<`.

Tours are also defined independently (`IsTour`, `TourTotal`). Two lemmas show that the candidates are exactly the tours: `CompletionsSound` and `CompletionsComplete`.

## Model

| member | source | states |
|---|---|---|
| Queue.InsertionIndex | script.js:102-105 | the position where the stable sort puts a pushed item: every item from there on has a strictly greater priority, and in a sorted queue every item before it has a priority no greater |
| Queue.SortByPriority | script.js:104 | `sort` by ascending priority: the result is sorted and holds exactly the same items (as a multiset) |
| Queue.SortKeepsSorted | script.js:104 | sorting a queue that is already sorted leaves it unchanged (the sort is stable) |
| Queue.InsertKeepsSorted | script.js:102-105 | putting an item at its insertion index in a sorted queue leaves the queue sorted |
| Queue.EnqueueInsertsAfterTies | script.js:102-105 | push-then-sort on a sorted queue inserts the new item after every item of equal or smaller priority and before every item of greater priority, so ties keep insertion order |
| Queue.PriorityQueue.constructor | script.js:98-100 | a new queue is empty (and sorted) |
| Queue.PriorityQueue.Enqueue | script.js:102-105 | the queue stays sorted, holds exactly the old items plus the new one, grows by one, and the new item goes after its ties (the same in googleMapsApi.js:41-44) |
| Queue.PriorityQueue.Dequeue | script.js:107-112 | an empty queue gives `null` and is unchanged; otherwise the first item is returned and only it is removed, and it has the least priority of the queue (the same in googleMapsApi.js:46-51) |
| Queue.PriorityQueue.Size | script.js:114-116 | the number of queued items, 0 exactly when no item is queued |
| Queue.PriorityQueue.IsEmpty | script.js:118-120 | true exactly when the size is 0, that is when no item is queued |
| RouteGraph.HasTarget | script.js:152-154 | `edges.some(edge => edge.target === t)`: true exactly when some edge of the list leads to `t` |
| RouteGraph.EdgeWeightIsLowest | script.js:283-291 | the weight of the step u to t that the relaxation can achieve is at most the length of every edge from u to t |
| RouteGraph.EdgeWeightIsAnEdge | script.js:283-291 | a finite step weight is the length of an actual edge from u to t, and the weight is `Infinity` exactly when u has no edge to t |
| RouteGraph.EdgeWeightSnoc | script.js:283-291 | relaxing along one more edge e: the step weight to t over the longer list is e's length when e leads to t and is shorter than the old step weight, and the old step weight otherwise |
| RouteGraph.PathCostCons | script.js:283-291 | putting a node in front of a path adds the step weight from that node to the path's first node |
| RouteGraph.PathCostPrefix | script.js:283-291 | a prefix of a path never costs more than the whole path |
| RouteGraph.RouteFollowsEdges | script.js:298-307 | every consecutive pair of nodes on a route is an edge of the graph |
| RandomGraph.Scale | script.js:149-156 | `Math.floor(r * m)` for a draw r in [0, 1) lies in 0..m-1 when m > 0 |
| RandomGraph.CreateRandomGraph | script.js:141-163 | every node 0..n-1 has a list; every target is in 0..n-1 and differs from its source; no two edges of a node share a target; every distance is in 1..100; every node has fewer than n edges |
| SearchInvariant.MeasureOfUpdate | script.js:286-287 | how overwriting one distance changes the count of `Infinity` entries and the sum of the finite ones |
| SearchInvariant.LoweringDecreases | script.js:286-287 | lowering a distance strictly decreases the termination measure (the count of infinite distances, then the sum of the finite ones) |
| SearchInvariant.InitiallySearchInv | script.js:265-274 | the search invariant holds once the start node is queued with priority `h` |
| SearchInvariant.AfterDequeue | script.js:276-283 | once the dequeued node is not the end node, the relaxation invariant holds for its edge list with the rest of the queue |
| SearchInvariant.RelaxLowers | script.js:284-291 | lowering a target's distance, recording its predecessor and enqueuing it keeps the relaxation invariant for the next edge, and the measure decreases |
| SearchInvariant.RelaxSkips | script.js:284-291 | an edge that lowers nothing (or whose target is not a node) keeps the relaxation invariant for the next edge |
| SearchInvariant.LoweredRelaxation | script.js:286-290 | the three updates of a lowering edge (distance, predecessor, queue entry at its stable insertion index) are the callback's new state, and they add exactly the new entry to the queue's multiset |
| SearchInvariant.RelaxEdgeKeeps | script.js:284-291 | whatever one callback does to distances, predecessors and queue, the relaxation invariant holds for the next edge, and either nothing changed or the measure decreased |
| SearchInvariant.RelaxFinished | script.js:283-292 | after the node's last edge the search invariant holds again |
| SearchInvariant.PrefixBound | script.js:283-292 | on a path from the start whose first j nodes are relaxed, the distance of the j-th node is at most the cost of the path up to it |
| SearchInvariant.HeadIsShortest | script.js:276-281 | when the end node is at the head of the queue, its distance is at most the cost of any route (by induction along the route) |
| SearchInvariant.ShortestWhenDequeued | script.js:276-281 | when the end node is dequeued its distance is finite and no greater than the cost of any route |
| SearchInvariant.NoRouteWhenExhausted | script.js:276-295 | when the queue runs empty there is no route from the start node to the end node |
| FastestRoute.ReconstructPath | script.js:298-308 | the result is the `cameFrom` chain: each node after the first is not the start node and `cameFrom` maps it to the node before it; the walk ends and gives a route from the start node to the end node, costing at most the end node's distance; it is `[start]` when the two nodes coincide |
| FastestRoute.RelaxStep | script.js:283-292 | after one more edge, every distance is the current node's distance plus its shortest edge so far to that node when that is strictly shorter than the distance before the loop, and the old distance otherwise; exactly the nodes so lowered have the current node as predecessor, and every other predecessor is unchanged |
| FastestRoute.RelaxEdge | script.js:284-291 | the new state of one `forEach` callback: when the edge leads to a node of the graph and the current distance plus the edge is strictly below the target's distance, the target gets that distance and the current node as predecessor, and the queue gets the entry (target, distance + h) at its stable insertion index; otherwise distances, predecessors and queue are unchanged |
| FastestRoute.RelaxNeighbours | script.js:283-292 | after the whole `forEach`, every node's distance is the lesser of its old distance and the current node's distance plus its shortest edge to it (lowered only when strictly shorter); exactly the lowered nodes get the current node as predecessor, the others keep theirs; the search invariant holds again; either nothing changed or the measure decreased |
| FastestRoute.FindFastestRoute | script.js:255-296 | a returned path is a route from the start node to the end node of least total distance; `null` is returned exactly when there is no route; `[start]` when start and end coincide |
| MapsGraph.Graph.constructor | googleMapsApi.js:4-7 | no nodes, no edge lists, no markers |
| MapsGraph.Graph.AddNode | googleMapsApi.js:9-12 | appends the node and sets its edge list to empty (again when it was already added); nothing else changes |
| MapsGraph.Graph.AddEdge | googleMapsApi.js:14-16 | for a registered source, appends `{target, distance, direction}` to the end of its list; no other list and no node changes |
| MapsGraph.Graph.AddStartNode | googleMapsApi.js:18-20 | sets the start marker and nothing else |
| MapsGraph.Graph.AddEndNode | googleMapsApi.js:22-24 | sets the end marker and nothing else |
| ShortestTour.FirstEdgeTo | googleMapsApi.js:197-198 | `find`: nothing exactly when no edge leads to the target, otherwise the first edge that does |
| ShortestTour.ReturnCost | googleMapsApi.js:196-198 | the return cost is finite exactly when the first edge to the end node has a length of at least 1, and then it is that length; with no edge to the end node, or a first one of length 0 (falsy), it is `Infinity` |
| ShortestTour.Completions | googleMapsApi.js:194-214 | defines the candidates `dfs` completes, in the order it completes them: one candidate (path plus end node, distance plus return cost) once the path holds n nodes, otherwise those of `ExtendAlong` from the first edge; `CompletionsSound` and `CompletionsComplete` state what they are |
| ShortestTour.ExtendAlong | googleMapsApi.js:207-213 | defines the candidates of the `for…of` loop from edge i on: an edge to an unvisited node contributes everything completed from the path extended by that node, followed by the candidates of the later edges; `ExtendAlongSound` and `ExtendAlongHas` state what they are |
| ShortestTour.Keep | googleMapsApi.js:199-203 | one candidate against the best so far: the kept distance is no greater than either, and the result is either the old best or exactly the candidate |
| ShortestTour.KeepAll | googleMapsApi.js:194-214 | the best so far after every candidate in turn: its distance never grows |
| ShortestTour.KeepAllAppend | googleMapsApi.js:194-214 | keeping the best of two runs of candidates in turn is keeping the best of both together |
| ShortestTour.KeepAllChooses | googleMapsApi.js:199-203 | the kept total is no greater than any candidate's; unless `null` is kept, the kept candidate is the first one of least total (strict `<` keeps the earlier of two ties) |
| ShortestTour.IsPartialMeans | googleMapsApi.js:207-213 | a path the search builds one edge at a time, each time to a node not yet visited, is exactly a simple path: it starts at the start node, its nodes lie in 0..n-1 and are pairwise distinct, and each step is an edge from one node to the next |
| ShortestTour.PartialPrefix | googleMapsApi.js:207-213 | every prefix of such a path, with the matching prefix of its edges, is such a path too |
| ShortestTour.LastListed | googleMapsApi.js:207-210 | the last node of a simple path from a start node with a list has a list too, so `graph.edges[currentNode]` is never undefined |
| ShortestTour.PartialNodes | googleMapsApi.js:207-213 | the nodes of such a path are pairwise distinct and all have lists: as many distinct listed nodes as the path is long |
| ShortestTour.TourNeedsLists | googleMapsApi.js:195 | a tour through n nodes needs at least n adjacency lists |
| ShortestTour.ExtendPartial | googleMapsApi.js:207-210 | a simple path extended along an edge to an unvisited node is a simple path whose length grows by that edge |
| ShortestTour.WalkOn | googleMapsApi.js:207-210 | following an edge of the current node to an unvisited node keeps the search at the end of a simple path whose distance is the length of its edges |
| ShortestTour.CompletionsSound | googleMapsApi.js:194-214 | every completed candidate is a tour through all n nodes extending the current path, followed by the end node, with the tour's total |
| ShortestTour.ExtendAlongSound | googleMapsApi.js:207-213 | the same for the candidates completed through the remaining edges of the current node |
| ShortestTour.EdgeSound | googleMapsApi.js:208-211 | the same for the candidates completed through one edge to an unvisited node |
| ShortestTour.CompletesShorter | googleMapsApi.js:210 | a tour that extends a path followed by one more node also extends the path itself |
| ShortestTour.ExtendAlongHas | googleMapsApi.js:207-213 | the candidates through any remaining edge of the current node are among those the loop completes |
| ShortestTour.NextStep | googleMapsApi.js:207-211 | a tour that extends a shorter simple path continues along an edge of the path's last node, to a node the path has not visited |
| ShortestTour.CompletionsComplete | googleMapsApi.js:194-214 | every tour extending the current path is completed by the search from that path |
| ShortestTour.Dfs | googleMapsApi.js:194-214 | leaves `visited` exactly as it found it, and updates the best so far by every candidate completed from the current path, in order |
| ShortestTour.SearchFindsShortestTour | googleMapsApi.js:186-219 | the search keeps a tour through all nodes, followed by the end node, of finite total no greater than any tour's; it keeps `null` exactly when every tour totals `Infinity` |
| ShortestTour.FewListsFindNothing | googleMapsApi.js:186-219 | with fewer adjacency lists than `nodes.length` the search returns `null` |
| ShortestTour.RepeatedNodeFindsNothing | googleMapsApi.js:65 | the one global graph is never reset, so a second search adds nodes 0..L-1 again; with a repeated node in `nodes` and one list per distinct node, the search returns `null` |
| ShortestTour.FindShortestTour | googleMapsApi.js:186-219 | returns the first tour of least finite total, of length n+1: the start node, the other nodes each once along edges, then the end node; `null` exactly when every tour totals `Infinity` |

## Left out

- The DOM, Leaflet and Google Maps glue is not modelled, because it is rendering, input and calls to external services. This covers `generateGraph`, `displayGraph`, `visualizeGraphOnMap`, `clearMap`, `searchBarsNearby`, `initMap`, `geocodeCoordinates`, `displayFastestRoute` and `printGraph`.
- `calculateDistances` is not modelled, because it is asynchronous and talks to the network. Its graph is an input of `FindShortestTour`, which requires only what every graph the program builds has: a list for the start node, and every edge leading to a node with a list whose number is below `nodes.length`. This covers the second and later searches too, whose `nodes` repeat 0..L-1 (`RepeatedNodeFindsNothing`).
- `generateRandomPositions` and the square-root heuristic are not modelled, because they are floating point over random coordinates. The heuristic does not depend on the node it is asked about, so it becomes the constant `h`.
- The pseudo-random generator behind `Math.random` is not modelled. `CreateRandomGraph` takes the sequence of its results as a parameter.
- The commented-out breadth-first search at the top of `script.js` is not modelled, because it is dead code.
- Distances are natural numbers, not the real kilometres of the distance matrix, so floating-point rounding is not modelled.
- FastestRoute.FindFastestRoute: requires the start node to be a node of the graph and every edge to have length at least 1. `createRandomGraph` guarantees both.
  - With zero-length edges, strict relaxation still keeps `cameFrom` free of cycles, so the walk of `reconstructPath` still ends. It no longer ends by a strict decrease of the distance along `cameFrom`, which is the termination measure of the model, so that case is not modelled. `createRandomGraph` draws every length from 1..100 (script.js:156).
  - With a start node outside the graph, the source throws, because the first call of the heuristic (script.js:274) reads `positions[startNode]` (script.js:258), and `positions` has entries for 0..n-1 only (script.js:239-243). That case is not modelled.
- FastestRoute.FindFastestRoute: turning the heuristic into the constant `h` assumes that `positions` has entries for the start and end nodes. The program's only call passes 0 and n-1 with positions for 0..n-1 (script.js:131, 135-137). Without those entries the source throws at script.js:258-259. The model instead accepts any end node and returns `null` for one outside the graph, where no route can end.
- FastestRoute.FindFastestRoute: the `distanceFromStart` object is modelled as a sequence indexed by node, and `cameFrom` as a map. A target outside 0..n-1 is an edge the search skips, as `x < undefined` is false in the source.
- ShortestTour.Dfs: requires the current node to have a list and the current path to hold at most n nodes. The program only calls `dfs` on simple paths from the start node, which always satisfy both (`LastListed`, `PartialNodes`).
- ShortestTour.FindShortestTour: requires the start node to be below `nodes.length` with a list, and every edge to lead to a node below `nodes.length` with a list. Every graph the program builds meets this. Some other graphs make the source read `undefined` entries or throw; others, such as a graph with an extra list the search never reaches, run normally but are excluded anyway.
- FastestRoute.RelaxNeighbours: the queue after the whole loop is stated through the search invariant and the measure, not entry by entry; each entry is stated by `RelaxEdge`, one callback at a time.
- Queue.SortByPriority: its stability is proved only for the way the queue uses it, namely sorting a sorted queue plus one new item. It is not proved for arbitrary sequences.
