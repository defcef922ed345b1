/** `findShortestTour` of the Google Maps variant: a depth-first search over
    every path that starts at the start node and visits each of the n nodes
    once; each such path is completed by the edge back to the end node, and
    the cheapest completed path wins.

    The search is specified by the list of completed candidates in the
    order the depth-first search meets them (`Completions`) and by the fold
    that keeps the best of them (`KeepAll`). */
module ShortestTour {
  import opened Common
  import opened MapsGraph

  /** What `dfs` reads of the graph: every edge of every adjacency list
      leads to a node in 0..n-1 that has an adjacency list of its own (as the
      program's distance matrix makes it). Together with a start node that
      has a list, no list the search looks up is missing. The node count n
      may exceed the number of lists: the program's graph keeps its nodes
      from one search to the next. */
  ghost predicate TourReady(edges: map<int, seq<Edge>>, n: nat)
  {
    forall v, k {:trigger edges[v][k]} :: v in edges && 0 <= k < |edges[v]| ==>
      0 <= edges[v][k].target < n && edges[v][k].target in edges
  }

  /** `es.find(edge => edge.target === t)`. */
  function FirstEdgeTo(es: seq<Edge>, t: int): (r: Option<Edge>)
    ensures r.None? <==> forall k :: 0 <= k < |es| ==> es[k].target != t
    ensures r.Some? ==> exists k :: 0 <= k < |es| && es[k] == r.value && es[k].target == t &&
                                    forall j :: 0 <= j < k ==> es[j].target != t
  {
    if es == [] then None
    else if es[0].target == t then Some(es[0])
    else FirstEdgeTo(es[1..], t)
  }

  /** `es.find(edge => edge.target === end)?.distance || Infinity`: the
      length of the first edge to the end node; `Infinity` when there is no
      such edge or when its length is 0 (a falsy number). */
  function ReturnCost(es: seq<Edge>, end: int): (c: ExtNat)
    ensures c.Fin? <==> exists k :: && 0 <= k < |es| && es[k].target == end && es[k].distance >= 1
                                    && forall j :: 0 <= j < k ==> es[j].target != end
    ensures c.Fin? ==> exists k :: && 0 <= k < |es| && es[k].target == end && es[k].distance == c.n
                                   && forall j :: 0 <= j < k ==> es[j].target != end
    ensures (forall k :: 0 <= k < |es| ==> es[k].target != end) ==> c == Inf
  {
    match FirstEdgeTo(es, end)
    case None => Inf
    case Some(edge) => if edge.distance == 0 then Inf else Fin(edge.distance)
  }

  /** A completed path (the path plus the end node) and its total. */
  datatype Candidate = Candidate(path: seq<int>, total: ExtNat)

  /** The candidates the search completes, in order, from the call
      `dfs(cur, dist, path)`. */
  ghost function Completions(edges: map<int, seq<Edge>>, n: nat, end: int,
                             cur: int, dist: nat, path: seq<int>): (cs: seq<Candidate>)
    requires TourReady(edges, n) && 0 <= cur < n && cur in edges && |path| <= n
    decreases n - |path|, 1, 0
  {
    if |path| == n then
      [Candidate(path + [end], Add(Fin(dist), ReturnCost(edges[cur], end)))]
    else
      ExtendAlong(edges, n, end, cur, dist, path, 0)
  }

  /** The candidates completed through edges i, i+1, ... of `cur`: an edge
      to an unvisited node extends the path by that node. */
  ghost function ExtendAlong(edges: map<int, seq<Edge>>, n: nat, end: int,
                             cur: int, dist: nat, path: seq<int>, i: nat): (cs: seq<Candidate>)
    requires TourReady(edges, n) && 0 <= cur < n && cur in edges && |path| < n && i <= |edges[cur]|
    decreases n - |path|, 0, |edges[cur]| - i
  {
    if i == |edges[cur]| then []
    else
      var edge := edges[cur][i];
      var t := edge.target;
      (if t !in path then Completions(edges, n, end, t, dist + edge.distance, path + [t]) else [])
      + ExtendAlong(edges, n, end, cur, dist, path, i + 1)
  }

  /** The captured `shortestDistance` and `shortestPath`. */
  datatype Best = Best(distance: ExtNat, path: Option<seq<int>>)

  /** One completed candidate: it replaces the best so far only when it is
      strictly shorter. */
  ghost function Keep(b: Best, c: Candidate): (r: Best)
    ensures AtMost(r.distance, b.distance) && AtMost(r.distance, c.total)
    ensures r == b || r == Best(c.total, Some(c.path))
  {
    if Less(c.total, b.distance) then Best(c.total, Some(c.path)) else b
  }

  /** Every candidate in turn, through `Keep`. */
  ghost function KeepAll(b: Best, cs: seq<Candidate>): (r: Best)
    ensures AtMost(r.distance, b.distance)
    decreases |cs|
  {
    if cs == [] then b else KeepAll(Keep(b, cs[0]), cs[1..])
  }

  lemma {:induction false} KeepAllAppend(b: Best, xs: seq<Candidate>, ys: seq<Candidate>)
    ensures KeepAll(b, xs + ys) == KeepAll(KeepAll(b, xs), ys)
    decreases |xs|
  {
    if xs == [] {
      assert xs + ys == ys;
    } else {
      assert (xs + ys)[0] == xs[0] && (xs + ys)[1..] == xs[1..] + ys;
      KeepAllAppend(Keep(b, xs[0]), xs[1..], ys);
    }
  }

  /** The fold ends no higher than it started and no higher than any
      candidate; unless it kept its starting value, it holds the first
      candidate of least total, which lies strictly below the starting value
      and strictly below every candidate before it. */
  lemma {:induction false} KeepAllChooses(b: Best, cs: seq<Candidate>)
    ensures AtMost(KeepAll(b, cs).distance, b.distance)
    ensures forall i :: 0 <= i < |cs| ==> AtMost(KeepAll(b, cs).distance, cs[i].total)
    ensures || KeepAll(b, cs) == b
            || exists i :: && 0 <= i < |cs|
                           && KeepAll(b, cs) == Best(cs[i].total, Some(cs[i].path))
                           && Less(cs[i].total, b.distance)
                           && forall j :: 0 <= j < i ==> Less(cs[i].total, cs[j].total)
    decreases |cs|
  {
    if cs != [] {
      var b' := Keep(b, cs[0]);
      var rest := cs[1..];
      KeepAllChooses(b', rest);
      var r := KeepAll(b, cs);
      assert r == KeepAll(b', rest);
      forall i | 0 <= i < |cs|
        ensures AtMost(r.distance, cs[i].total)
      {
        if i > 0 {
          assert cs[i] == rest[i - 1];
        }
      }
      if r != b && r != b' {
        var i' :| && 0 <= i' < |rest|
                  && r == Best(rest[i'].total, Some(rest[i'].path))
                  && Less(rest[i'].total, b'.distance)
                  && forall j :: 0 <= j < i' ==> Less(rest[i'].total, rest[j].total);
        var i := i' + 1;
        assert cs[i] == rest[i'];
        forall j | 0 <= j < i
          ensures Less(cs[i].total, cs[j].total)
        {
          if j > 0 {
            assert cs[j] == rest[j - 1];
          }
        }
      }
    }
  }

  /** The sum of the lengths of a sequence of edges. */
  function Length(steps: seq<Edge>): nat
  {
    if steps == [] then 0 else Length(steps[..|steps| - 1]) + steps[|steps| - 1].distance
  }

  /** A simple path from `start` over nodes 0..n-1, built one edge at a
      time: each step takes an edge of the last node reached to a node
      the path has not visited yet. `steps` lists the edges taken. */
  ghost predicate IsPartial(edges: map<int, seq<Edge>>, n: nat, start: int, p: seq<int>, steps: seq<Edge>)
    decreases |p|
  {
    if |p| <= 1 then p == [start] && steps == [] && 0 <= start < n
    else
      && |steps| == |p| - 1
      && var prev, e, v := p[..|p| - 1], steps[|steps| - 1], p[|p| - 1];
         && IsPartial(edges, n, start, prev, steps[..|steps| - 1])
         && prev[|prev| - 1] in edges && e in edges[prev[|prev| - 1]] && e.target == v
         && 0 <= v < n && v !in prev
  }

  /** The same paths, read as a whole: they start at `start`, their nodes
      lie in 0..n-1 and are pairwise distinct, and steps[i] is an edge of
      p[i] that leads to p[i+1]. */
  ghost predicate SimplePath(edges: map<int, seq<Edge>>, n: nat, start: int, p: seq<int>, steps: seq<Edge>)
  {
    && |p| >= 1 && p[0] == start && |steps| == |p| - 1
    && (forall i :: 0 <= i < |p| ==> 0 <= p[i] < n)
    && (forall i, j :: 0 <= i < j < |p| ==> p[i] != p[j])
    && (forall i :: 0 <= i < |steps| ==> p[i] in edges && steps[i] in edges[p[i]] && steps[i].target == p[i + 1])
  }

  /** A simple path of two or more nodes is a shorter simple path plus one
      last step to a node it has not visited. */
  lemma SimplePathSnoc(edges: map<int, seq<Edge>>, n: nat, start: int, p: seq<int>, steps: seq<Edge>)
    requires |p| >= 2 && |steps| == |p| - 1
    ensures var prev, e, v := p[..|p| - 1], steps[|steps| - 1], p[|p| - 1];
            SimplePath(edges, n, start, p, steps) <==>
              && SimplePath(edges, n, start, prev, steps[..|steps| - 1])
              && prev[|prev| - 1] in edges && e in edges[prev[|prev| - 1]] && e.target == v
              && 0 <= v < n && v !in prev
  {
    var prev, pre, e, v := p[..|p| - 1], steps[..|steps| - 1], steps[|steps| - 1], p[|p| - 1];
    if SimplePath(edges, n, start, p, steps) {
      SimplePathShorter(edges, n, start, p, steps);
    }
    if && SimplePath(edges, n, start, prev, pre)
       && prev[|prev| - 1] in edges && e in edges[prev[|prev| - 1]] && e.target == v
       && 0 <= v < n && v !in prev {
      forall i, j | 0 <= i < j < |p|
        ensures p[i] != p[j]
      {
        assert p[i] == prev[i];
        if j < |prev| {
          assert p[j] == prev[j];
        }
      }
      forall i | 0 <= i < |steps|
        ensures p[i] in edges && steps[i] in edges[p[i]] && steps[i].target == p[i + 1]
      {
        if i < |pre| {
          assert prev[i] == p[i] && pre[i] == steps[i] && prev[i + 1] == p[i + 1];
        }
      }
    }
  }

  lemma SimplePathShorter(edges: map<int, seq<Edge>>, n: nat, start: int, p: seq<int>, steps: seq<Edge>)
    requires |p| >= 2 && SimplePath(edges, n, start, p, steps)
    ensures var prev, e, v := p[..|p| - 1], steps[|steps| - 1], p[|p| - 1];
            && SimplePath(edges, n, start, prev, steps[..|steps| - 1])
            && prev[|prev| - 1] in edges && e in edges[prev[|prev| - 1]] && e.target == v
            && 0 <= v < n && v !in prev
  {
    var prev, pre, e, v := p[..|p| - 1], steps[..|steps| - 1], steps[|steps| - 1], p[|p| - 1];
    forall i, j | 0 <= i < j < |prev|
      ensures prev[i] != prev[j]
    {
      assert prev[i] == p[i] && prev[j] == p[j];
    }
    forall i | 0 <= i < |pre|
      ensures prev[i] in edges && pre[i] in edges[prev[i]] && pre[i].target == prev[i + 1]
    {
      assert prev[i] == p[i] && pre[i] == steps[i] && prev[i + 1] == p[i + 1];
    }
    assert steps[|pre|] == e && p[|pre|] == prev[|prev| - 1];
    forall i | 0 <= i < |prev|
      ensures prev[i] != v
    {
      assert prev[i] == p[i];
    }
  }

  /** `IsPartial` and `SimplePath` describe the same paths. */
  lemma {:induction false} IsPartialMeans(edges: map<int, seq<Edge>>, n: nat, start: int, p: seq<int>, steps: seq<Edge>)
    ensures IsPartial(edges, n, start, p, steps) <==> SimplePath(edges, n, start, p, steps)
    decreases |p|
  {
    if |p| >= 2 && |steps| == |p| - 1 {
      IsPartialMeans(edges, n, start, p[..|p| - 1], steps[..|steps| - 1]);
      SimplePathSnoc(edges, n, start, p, steps);
    }
  }

  /** Every prefix of a simple path is a simple path along the first
      steps. */
  lemma {:induction false} PartialPrefix(edges: map<int, seq<Edge>>, n: nat, start: int,
                                         p: seq<int>, steps: seq<Edge>, j: nat)
    requires IsPartial(edges, n, start, p, steps) && 1 <= j <= |p|
    ensures IsPartial(edges, n, start, p[..j], steps[..j - 1])
    decreases |p|
  {
    if j < |p| {
      var prev, pre := p[..|p| - 1], steps[..|steps| - 1];
      assert prev[..j] == p[..j] && pre[..j - 1] == steps[..j - 1];
      PartialPrefix(edges, n, start, prev, pre, j);
    } else {
      assert p[..j] == p;
      assert steps[..j - 1] == steps;
    }
  }

  /** A tour: a simple path from `start` through all n nodes. */
  ghost predicate IsTour(edges: map<int, seq<Edge>>, n: nat, start: int, p: seq<int>, steps: seq<Edge>)
  {
    |p| == n && IsPartial(edges, n, start, p, steps)
  }

  /** What the program charges for a tour: its edges, then the return to the
      end node from the last node of the tour. */
  ghost function TourTotal(edges: map<int, seq<Edge>>, n: nat, start: int, end: int,
                           p: seq<int>, steps: seq<Edge>): ExtNat
    requires TourReady(edges, n) && start in edges && IsTour(edges, n, start, p, steps)
  {
    LastListed(edges, n, start, p, steps);
    Add(Fin(Length(steps)), ReturnCost(edges[p[n - 1]], end))
  }

  /** The last node of a simple path from a listed start node has an
      adjacency list. */
  lemma LastListed(edges: map<int, seq<Edge>>, n: nat, start: int, p: seq<int>, steps: seq<Edge>)
    requires TourReady(edges, n) && start in edges && IsPartial(edges, n, start, p, steps)
    ensures p[|p| - 1] in edges
  {
    if |p| >= 2 {
      var u, e := p[|p| - 2], steps[|steps| - 1];
      assert p[..|p| - 1][|p| - 2] == u;
      var k :| 0 <= k < |edges[u]| && edges[u][k] == e;
    }
  }

  /** The nodes of a simple path from a listed start node are |p| distinct
      nodes that all have adjacency lists. */
  lemma {:induction false} PartialNodes(edges: map<int, seq<Edge>>, n: nat, start: int, p: seq<int>, steps: seq<Edge>)
    requires TourReady(edges, n) && start in edges && IsPartial(edges, n, start, p, steps)
    ensures (set x | x in p) <= edges.Keys
    ensures |set x | x in p| == |p|
    decreases |p|
  {
    if |p| >= 2 {
      var prev, v := p[..|p| - 1], p[|p| - 1];
      PartialNodes(edges, n, start, prev, steps[..|steps| - 1]);
      LastListed(edges, n, start, p, steps);
      assert p == prev + [v];
      assert (set x | x in p) == (set x | x in prev) + {v};
    } else {
      assert (set x | x in p) == {start};
    }
  }

  lemma SubsetCard(a: set<int>, b: set<int>)
    requires a <= b
    ensures |a| <= |b|
  {
    assert b == a + (b - a);
  }

  /** A tour visits n distinct nodes, each with an adjacency list, so it
      needs at least n lists. */
  lemma TourNeedsLists(edges: map<int, seq<Edge>>, n: nat, start: int)
    requires TourReady(edges, n) && start in edges
    ensures forall p, all :: IsTour(edges, n, start, p, all) ==> n <= |edges.Keys|
  {
    forall p, all | IsTour(edges, n, start, p, all)
      ensures n <= |edges.Keys|
    {
      PartialNodes(edges, n, start, p, all);
      SubsetCard((set x | x in p), edges.Keys);
    }
  }

  /** A simple path extended by an edge to a node it has not visited is a
      simple path, one edge longer. */
  lemma ExtendPartial(edges: map<int, seq<Edge>>, n: nat, start: int, path: seq<int>, steps: seq<Edge>, e: Edge)
    requires IsPartial(edges, n, start, path, steps) && path[|path| - 1] in edges
    requires e in edges[path[|path| - 1]] && 0 <= e.target < n && e.target !in path
    ensures IsPartial(edges, n, start, path + [e.target], steps + [e])
    ensures Length(steps + [e]) == Length(steps) + e.distance
  {
    var p', steps' := path + [e.target], steps + [e];
    assert p'[..|p'| - 1] == path && steps'[..|steps'| - 1] == steps;
  }

  /** The search stands at `cur` having walked the simple path `path`
      along `steps`, and `dist` is what those steps add up to. */
  ghost predicate Walked(edges: map<int, seq<Edge>>, n: nat, start: int,
                         cur: int, dist: nat, path: seq<int>, steps: seq<Edge>)
  {
    && TourReady(edges, n) && start in edges && 0 <= cur < n && cur in edges
    && IsPartial(edges, n, start, path, steps) && |path| <= n && path[|path| - 1] == cur && dist == Length(steps)
  }

  /** `c` is the tour `p` (taken along `all`) extending `path`, completed
      by the end node, with the tour's total. */
  ghost predicate CompletesTo(edges: map<int, seq<Edge>>, n: nat, start: int, end: int,
                              path: seq<int>, c: Candidate, p: seq<int>, all: seq<Edge>)
  {
    && TourReady(edges, n) && start in edges && IsTour(edges, n, start, p, all)
    && |path| <= |p| && p[..|path|] == path
    && c == Candidate(p + [end], TourTotal(edges, n, start, end, p, all))
  }

  /** Following edge i of `cur` to a node not yet visited walks one edge
      further. */
  lemma WalkOn(edges: map<int, seq<Edge>>, n: nat, start: int,
               cur: int, dist: nat, path: seq<int>, steps: seq<Edge>, i: nat)
    requires Walked(edges, n, start, cur, dist, path, steps) && |path| < n && i < |edges[cur]|
    requires edges[cur][i].target !in path
    ensures Walked(edges, n, start, edges[cur][i].target, dist + edges[cur][i].distance,
                   path + [edges[cur][i].target], steps + [edges[cur][i]])
  {
    var e := edges[cur][i];
    assert e in edges[cur];
    ExtendPartial(edges, n, start, path, steps, e);
  }

  /** Every candidate the search completes from a simple path is a tour
      extending that path, completed by the end node, with the tour's total. */
  lemma CompletionsSound(edges: map<int, seq<Edge>>, n: nat, start: int, end: int,
                         cur: int, dist: nat, path: seq<int>, steps: seq<Edge>, c: Candidate)
    returns (p: seq<int>, all: seq<Edge>)
    requires Walked(edges, n, start, cur, dist, path, steps)
    requires c in Completions(edges, n, end, cur, dist, path)
    ensures CompletesTo(edges, n, start, end, path, c, p, all)
    decreases n - |path|, 1, 0, 0
  {
    if |path| == n {
      p, all := path, steps;
    } else {
      p, all := ExtendAlongSound(edges, n, start, end, cur, dist, path, steps, 0, c);
    }
  }

  lemma ExtendAlongSound(edges: map<int, seq<Edge>>, n: nat, start: int, end: int,
                         cur: int, dist: nat, path: seq<int>, steps: seq<Edge>, i: nat, c: Candidate)
    returns (p: seq<int>, all: seq<Edge>)
    requires Walked(edges, n, start, cur, dist, path, steps) && |path| < n && i <= |edges[cur]|
    requires c in ExtendAlong(edges, n, end, cur, dist, path, i)
    ensures CompletesTo(edges, n, start, end, path, c, p, all)
    decreases n - |path|, 0, |edges[cur]| - i, 1
  {
    var edge := edges[cur][i];
    var t := edge.target;
    var here := if t !in path then Completions(edges, n, end, t, dist + edge.distance, path + [t]) else [];
    assert ExtendAlong(edges, n, end, cur, dist, path, i) == here + ExtendAlong(edges, n, end, cur, dist, path, i + 1);
    if c in here {
      p, all := EdgeSound(edges, n, start, end, cur, dist, path, steps, i, c);
    } else {
      p, all := ExtendAlongSound(edges, n, start, end, cur, dist, path, steps, i + 1, c);
    }
  }

  /** The same for the candidates completed through edge i of `cur`. */
  lemma EdgeSound(edges: map<int, seq<Edge>>, n: nat, start: int, end: int,
                  cur: int, dist: nat, path: seq<int>, steps: seq<Edge>, i: nat, c: Candidate)
    returns (p: seq<int>, all: seq<Edge>)
    requires Walked(edges, n, start, cur, dist, path, steps) && |path| < n && i < |edges[cur]|
    requires edges[cur][i].target !in path
    requires c in Completions(edges, n, end, edges[cur][i].target, dist + edges[cur][i].distance,
                              path + [edges[cur][i].target])
    ensures CompletesTo(edges, n, start, end, path, c, p, all)
    decreases n - |path|, 0, |edges[cur]| - i, 0
  {
    var edge := edges[cur][i];
    var t := edge.target;
    WalkOn(edges, n, start, cur, dist, path, steps, i);
    p, all := CompletionsSound(edges, n, start, end, t, dist + edge.distance, path + [t], steps + [edge], c);
    CompletesShorter(edges, n, start, end, path, t, c, p, all);
  }

  /** A tour extending a path extends every prefix of it. */
  lemma CompletesShorter(edges: map<int, seq<Edge>>, n: nat, start: int, end: int,
                         path: seq<int>, t: int, c: Candidate, p: seq<int>, all: seq<Edge>)
    requires CompletesTo(edges, n, start, end, path + [t], c, p, all)
    ensures CompletesTo(edges, n, start, end, path, c, p, all)
  {
    assert p[..|path|] == p[..|path| + 1][..|path|];
  }

  /** The completions through edge `idx` of `cur` are among those through
      edges i, i+1, ... when i <= idx. */
  lemma {:induction false} ExtendAlongHas(edges: map<int, seq<Edge>>, n: nat, end: int,
                                          cur: int, dist: nat, path: seq<int>, i: nat, idx: nat, c: Candidate)
    requires TourReady(edges, n) && 0 <= cur < n && cur in edges && |path| < n && i <= idx < |edges[cur]|
    requires edges[cur][idx].target !in path
    requires c in Completions(edges, n, end, edges[cur][idx].target,
                              dist + edges[cur][idx].distance, path + [edges[cur][idx].target])
    ensures c in ExtendAlong(edges, n, end, cur, dist, path, i)
    decreases idx - i
  {
    if i < idx {
      ExtendAlongHas(edges, n, end, cur, dist, path, i + 1, idx, c);
    }
  }

  /** A tour that extends a shorter simple path takes, after it, one of
      the edges of the path's last node, to a node the path has not
      visited. */
  lemma NextStep(edges: map<int, seq<Edge>>, n: nat, start: int, path: seq<int>, steps: seq<Edge>,
                 p: seq<int>, all: seq<Edge>)
    returns (idx: nat)
    requires IsPartial(edges, n, start, path, steps)
    requires IsTour(edges, n, start, p, all) && |path| < n && p[..|path|] == path && all[..|steps|] == steps
    ensures path[|path| - 1] in edges && idx < |edges[path[|path| - 1]]|
    ensures edges[path[|path| - 1]][idx] == all[|path| - 1] && all[|path| - 1].target == p[|path|]
    ensures 0 <= p[|path|] < n && p[|path|] !in path
    ensures p[..|path| + 1] == path + [p[|path|]] && all[..|path|] == steps + [all[|path| - 1]]
  {
    var k := |path|;
    assert |steps| == k - 1;
    PartialPrefix(edges, n, start, p, all, k + 1);
    var q, qs := p[..k + 1], all[..k];
    assert q[..k] == path && qs[..k - 1] == steps && qs[k - 1] == all[k - 1] && q[k] == p[k];
    var cur := path[k - 1];
    assert all[k - 1] in edges[cur];
    idx :| 0 <= idx < |edges[cur]| && edges[cur][idx] == all[k - 1];
  }

  /** Every tour extending a simple path is completed by the search from
      that path. */
  lemma CompletionsComplete(edges: map<int, seq<Edge>>, n: nat, start: int, end: int,
                            cur: int, dist: nat, path: seq<int>, steps: seq<Edge>,
                            p: seq<int>, all: seq<Edge>)
    requires Walked(edges, n, start, cur, dist, path, steps)
    requires IsTour(edges, n, start, p, all) && |path| <= n && p[..|path|] == path && all[..|steps|] == steps
    ensures Candidate(p + [end], TourTotal(edges, n, start, end, p, all)) in Completions(edges, n, end, cur, dist, path)
    decreases n - |path|, 1, 0
  {
    if |path| == n {
      assert p == p[..|path|];
      assert all == all[..|steps|];
    } else {
      var idx := NextStep(edges, n, start, path, steps, p, all);
      var e := edges[cur][idx];
      var t := e.target;
      WalkOn(edges, n, start, cur, dist, path, steps, idx);
      CompletionsComplete(edges, n, start, end, t, dist + e.distance, path + [t], steps + [e], p, all);
      ExtendAlongHas(edges, n, end, cur, dist, path, 0, idx,
                     Candidate(p + [end], TourTotal(edges, n, start, end, p, all)));
    }
  }

  /** The recursive `dfs`. `visited` is the shared array; the captured
      best-so-far comes in as `best` and goes out as `result`. */
  method Dfs(edges: map<int, seq<Edge>>, n: nat, endNode: int, visited: array<bool>,
             currentNode: int, currentDistance: nat, currentPath: seq<int>, best: Best)
    returns (result: Best)
    requires TourReady(edges, n) && visited.Length == n && 0 <= currentNode < n && currentNode in edges
    requires |currentPath| <= n
    requires forall v :: 0 <= v < n ==> visited[v] == (v in currentPath)
    modifies visited
    ensures visited[..] == old(visited[..])
    ensures result == KeepAll(best, Completions(edges, n, endNode, currentNode, currentDistance, currentPath))
    decreases n - |currentPath|
  {
    if |currentPath| == n {
      var returnDistance := ReturnCost(edges[currentNode], endNode);
      var totalDistance := Add(Fin(currentDistance), returnDistance);
      if Less(totalDistance, best.distance) {
        result := Best(totalDistance, Some(currentPath + [endNode]));
      } else {
        result := best;
      }
      return;
    }

    result := best;
    var adjacent := edges[currentNode];
    for i := 0 to |adjacent|
      invariant visited[..] == old(visited[..])
      invariant KeepAll(result, ExtendAlong(edges, n, endNode, currentNode, currentDistance, currentPath, i))
                == KeepAll(best, Completions(edges, n, endNode, currentNode, currentDistance, currentPath))
    {
      var target := adjacent[i].target;
      var distance := adjacent[i].distance;
      ghost var here := if target !in currentPath
        then Completions(edges, n, endNode, target, currentDistance + distance, currentPath + [target])
        else [];
      ghost var rest := ExtendAlong(edges, n, endNode, currentNode, currentDistance, currentPath, i + 1);
      assert ExtendAlong(edges, n, endNode, currentNode, currentDistance, currentPath, i) == here + rest;
      KeepAllAppend(result, here, rest);
      ghost var before := result;
      assert 0 <= target < n && target in edges;
      assert visited[target] == old(visited[..])[target] == (target in currentPath);
      if !visited[target] {
        visited[target] := true;
        result := Dfs(edges, n, endNode, visited, target, currentDistance + distance, currentPath + [target], result);
        visited[target] := false;
        assert visited[..] == old(visited[..]);
      } else {
        assert here == [];
      }
      assert result == KeepAll(before, here);
    }
  }

  /** The candidates of the whole search, in the order they are met. */
  ghost function Candidates(edges: map<int, seq<Edge>>, n: nat, start: int, end: int): seq<Candidate>
    requires TourReady(edges, n) && 0 <= start < n && start in edges
  {
    Completions(edges, n, end, start, 0, [start])
  }

  /** The best the whole search keeps, from `Infinity` and `null`. */
  ghost function Search(edges: map<int, seq<Edge>>, n: nat, start: int, end: int): Best
    requires TourReady(edges, n) && 0 <= start < n && start in edges
  {
    KeepAll(Best(Inf, None), Candidates(edges, n, start, end))
  }

  /** The search in terms of tours alone: it returns a tour, completed by
      the end node, whose total is finite and no greater than that of any
      other tour; it returns `null` exactly when every tour totals
      `Infinity`. */
  lemma SearchFindsShortestTour(edges: map<int, seq<Edge>>, n: nat, start: int, end: int)
    requires TourReady(edges, n) && 0 <= start < n && start in edges
    ensures Search(edges, n, start, end).path.Some? ==>
              exists p, all :: && IsTour(edges, n, start, p, all)
                               && Search(edges, n, start, end).path.value == p + [end]
                               && TourTotal(edges, n, start, end, p, all) == Search(edges, n, start, end).distance
                               && TourTotal(edges, n, start, end, p, all).Fin?
    ensures forall p, all :: IsTour(edges, n, start, p, all) ==>
              AtMost(Search(edges, n, start, end).distance, TourTotal(edges, n, start, end, p, all))
    ensures Search(edges, n, start, end).path.None? <==>
              forall p, all :: IsTour(edges, n, start, p, all) ==> TourTotal(edges, n, start, end, p, all) == Inf
  {
    var b0 := Best(Inf, None);
    var cs := Candidates(edges, n, start, end);
    var r := Search(edges, n, start, end);
    KeepAllChooses(b0, cs);
    assert IsPartial(edges, n, start, [start], []);
    forall p, all | IsTour(edges, n, start, p, all)
      ensures AtMost(r.distance, TourTotal(edges, n, start, end, p, all))
    {
      PartialPrefix(edges, n, start, p, all, 1);
      CompletionsComplete(edges, n, start, end, start, 0, [start], [], p, all);
    }
    if r != b0 {
      var i :| && 0 <= i < |cs|
               && r == Best(cs[i].total, Some(cs[i].path))
               && Less(cs[i].total, b0.distance);
      var p, all := CompletionsSound(edges, n, start, end, start, 0, [start], [], cs[i]);
      assert IsTour(edges, n, start, p, all) && r.path.value == p + [end];
    }
  }

  /** With fewer adjacency lists than nodes no tour exists, and the search
      keeps `null`. */
  lemma FewListsFindNothing(edges: map<int, seq<Edge>>, n: nat, start: int, end: int)
    requires TourReady(edges, n) && 0 <= start < n && start in edges
    requires |edges.Keys| < n
    ensures Search(edges, n, start, end).path == None
  {
    TourNeedsLists(edges, n, start);
    SearchFindsShortestTour(edges, n, start, end);
  }

  /** A sequence has at most as many distinct values as entries, and fewer
      when some value repeats. */
  lemma {:induction false} DistinctCount(s: seq<int>)
    ensures |set x | x in s| <= |s|
    ensures (exists i, j :: 0 <= i < j < |s| && s[i] == s[j]) ==> |set x | x in s| < |s|
    decreases |s|
  {
    if s != [] {
      var prev, last := s[..|s| - 1], s[|s| - 1];
      DistinctCount(prev);
      assert s == prev + [last];
      assert (set x | x in s) == (set x | x in prev) + {last};
      if exists i, j :: 0 <= i < j < |s| && s[i] == s[j] {
        var i, j :| 0 <= i < j < |s| && s[i] == s[j];
        if j < |s| - 1 {
          assert prev[i] == prev[j];
        } else {
          assert prev[i] == last;
        }
      }
    }
  }

  /** The program's graph is never reset: every search adds nodes 0..L-1
      again, so from the second search on its node list repeats a node while
      its adjacency lists stay one per distinct node. Then no tour through
      n = |nodes| nodes exists and the search returns `null`. */
  lemma RepeatedNodeFindsNothing(graph: Graph, start: int, end: int)
    requires graph.Valid()
    requires TourReady(graph.edges, |graph.nodes|) && 0 <= start < |graph.nodes| && start in graph.edges
    requires exists i, j :: 0 <= i < j < |graph.nodes| && graph.nodes[i] == graph.nodes[j]
    ensures Search(graph.edges, |graph.nodes|, start, end).path == None
  {
    var listed := set x | x in graph.nodes;
    forall v
      ensures v in graph.edges.Keys <==> v in listed
    {
      assert v in graph.edges <==> v in graph.nodes;
    }
    assert graph.edges.Keys == listed;
    DistinctCount(graph.nodes);
    FewListsFindNothing(graph.edges, |graph.nodes|, start, end);
  }

  /** `findShortestTour`: the graph's node count is n, the visited array
      starts all false but for the start node, and the search starts from
      the path holding the start node alone. */
  method FindShortestTour(startNode: int, endNode: int, graph: Graph) returns (shortestPath: Option<seq<int>>)
    requires TourReady(graph.edges, |graph.nodes|) && 0 <= startNode < |graph.nodes| && startNode in graph.edges
    ensures shortestPath == Search(graph.edges, |graph.nodes|, startNode, endNode).path
    ensures shortestPath.Some? ==>
              exists p, all :: && IsTour(graph.edges, |graph.nodes|, startNode, p, all)
                               && shortestPath.value == p + [endNode]
                               && TourTotal(graph.edges, |graph.nodes|, startNode, endNode, p, all).Fin?
                               && forall p', all' :: IsTour(graph.edges, |graph.nodes|, startNode, p', all') ==>
                                    AtMost(TourTotal(graph.edges, |graph.nodes|, startNode, endNode, p, all),
                                           TourTotal(graph.edges, |graph.nodes|, startNode, endNode, p', all'))
    ensures shortestPath.None? <==>
              forall p, all :: IsTour(graph.edges, |graph.nodes|, startNode, p, all) ==>
                TourTotal(graph.edges, |graph.nodes|, startNode, endNode, p, all) == Inf
  {
    var nodes := graph.nodes;
    var n := |nodes|;
    var visited := new bool[n](_ => false);
    visited[startNode] := true;
    var best := Dfs(graph.edges, n, endNode, visited, startNode, 0, [startNode], Best(Inf, None));
    shortestPath := best.path;
    SearchFindsShortestTour(graph.edges, n, startNode, endNode);
  }
}
