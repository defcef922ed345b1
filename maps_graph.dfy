/** The `Graph` class of the Google Maps variant: a list of nodes, an
    adjacency list per node of `{ target, distance, direction }` records,
    and optional start and end markers. */
module MapsGraph {
  import opened Common

  datatype Edge = Edge(target: int, distance: nat, direction: string)

  class Graph {
    var nodes: seq<int>
    var edges: map<int, seq<Edge>>
    var startNode: Option<int>
    var endNode: Option<int>

    /** A node has an adjacency list exactly when it has been added. */
    ghost predicate Valid()
      reads this
    {
      forall v :: v in edges <==> v in nodes
    }

    constructor ()
      ensures Valid()
      ensures nodes == [] && edges == map[]
      ensures startNode == None && endNode == None
    {
      nodes := [];
      edges := map[];
      startNode := None;
      endNode := None;
    }

    /** Append the node and give it an empty adjacency list; adding a node
        again appends it a second time and empties its list. */
    method AddNode(node: int)
      requires Valid()
      modifies this
      ensures Valid()
      ensures nodes == old(nodes) + [node]
      ensures edges == old(edges)[node := []]
      ensures startNode == old(startNode) && endNode == old(endNode)
    {
      nodes := nodes + [node];
      edges := edges[node := []];
    }

    /** Append an edge to the end of the source's adjacency list. The
        source must have been added (otherwise the list is `undefined` and
        `push` throws); the target need not have been. */
    method AddEdge(source: int, target: int, distance: nat, direction: string)
      requires Valid() && source in edges
      modifies this
      ensures Valid()
      ensures edges == old(edges)[source := old(edges)[source] + [Edge(target, distance, direction)]]
      ensures nodes == old(nodes)
      ensures startNode == old(startNode) && endNode == old(endNode)
    {
      edges := edges[source := edges[source] + [Edge(target, distance, direction)]];
    }

    method AddStartNode(node: int)
      modifies this
      ensures old(Valid()) ==> Valid()
      ensures startNode == Some(node)
      ensures nodes == old(nodes) && edges == old(edges) && endNode == old(endNode)
    {
      startNode := Some(node);
    }

    method AddEndNode(node: int)
      modifies this
      ensures old(Valid()) ==> Valid()
      ensures endNode == Some(node)
      ensures nodes == old(nodes) && edges == old(edges) && startNode == old(startNode)
    {
      endNode := Some(node);
    }
  }
}
