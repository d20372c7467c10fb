/** The route report of the planner: search from the chosen home stop, walk the predecessor
    table back from the target, and look up the weight of every segment of the route. */
module Route {
  import opened Paths
  import opened RouteGraph

  /** Walks the predecessor table back from `target` until a stop without predecessor,
      putting each stop in front of the ones already collected. */
  method ReconstructPath(prev: array<int>, target: int) returns (path: seq<int>)
    requires 0 <= target < prev.Length && PrevAcyclic(prev[..])
    ensures IsPrevChain(prev[..], path, target)
  {
    ghost var P := prev[..];
    ghost var rank :| Ranked(P, rank);
    path := [];
    var current := target;
    while current != -1
      invariant current == -1 || 0 <= current < prev.Length
      invariant path == [] ==> current == target
      invariant forall i :: 0 <= i < |path| ==> 0 <= path[i] < |P|
      invariant path != [] ==> path[|path| - 1] == target && P[path[0]] == current
      invariant forall i :: 0 <= i < |path| - 1 ==> P[path[i + 1]] == path[i]
      decreases if current == -1 then 0 else rank[current] + 1
    {
      path := [current] + path;
      current := prev[current];
    }
  }

  /** The weights shown for the segments of a route, one `EdgeWeight` lookup per consecutive
      pair of stops. */
  method RouteSegments(g: Graph, path: seq<int>) returns (weights: seq<int>)
    requires forall i :: 0 <= i < |path| ==> 0 <= path[i] < |g.adj|
    ensures weights == SegmentWeights(g.adj, path)
  {
    weights := [];
    var i := 0;
    while i + 1 < |path|
      invariant 0 <= i && (i <= |path| - 1 || (i == 0 && path == []))
      invariant |weights| == i
      invariant forall j :: 0 <= j < i ==> weights[j] == FirstWeight(g.adj[path[j]], path[j + 1])
    {
      var w := g.EdgeWeight(path[i], path[i + 1]);
      weights := weights + [w];
      i := i + 1;
    }
  }

  /** The planner's report: the search from `source`, the route from `source` to `target`
      recovered from the predecessor table, and the weight shown for each of its segments. */
  method ShortestRoute(g: Graph, source: int, target: int)
    returns (dist: array<Dist>, prev: array<int>, path: seq<int>, weights: seq<int>)
    requires g.Valid() && NonNegative(g.adj)
    requires 0 <= source < g.V && 0 <= target < g.V
    ensures ShortestPathTree(g.adj, source, dist[..], prev[..])
    ensures IsPrevChain(prev[..], path, target) && weights == SegmentWeights(g.adj, path)
    ensures dist[target].Fin? ==> path[0] == source && IsWalk(g.adj, path, weights) && dist[target].n <= Sum(weights)
    ensures dist[target].Fin? && FirstIsLightest(g.adj) ==> Sum(weights) == dist[target].n
    ensures dist[target].Inf? ==> path == [target] && weights == []
    ensures target == source ==> path == [source] && weights == []
  {
    prev := new int[g.V];
    dist := g.Dijkstra(source, prev);
    path := ReconstructPath(prev, target);
    weights := RouteSegments(g, path);
    if dist[target].Fin? {
      ChainSegmentsWalk(g.adj, source, dist[..], prev[..], path, target);
      WalkLowerBound(g.adj, source, dist[..], path, weights);
      if FirstIsLightest(g.adj) {
        ChainSegmentCost(g.adj, source, dist[..], prev[..], path, target);
      }
    } else {
      UnreachedChain(g.adj, source, dist[..], prev[..], path, target);
    }
    if target == source {
      ChainSingleton(prev[..], path, target);
    }
  }

  /** Why `ShortestRoute` needs `FirstIsLightest` for the total: with two entries between stops
      0 and 1, of weights 5 and 3 in that order, the search reaches stop 1 at distance 3, but the
      report shows the first-listed weight 5 for the segment. */
  lemma ParallelEdgesReport()
    ensures var adj: Adjacency := [[Edge(1, 5), Edge(1, 3)], [Edge(0, 5), Edge(0, 3)]];
      var D: seq<Dist>, P: seq<int> := [Fin(0), Fin(3)], [-1, 0];
      ShortestPathTree(adj, 0, D, P) && IsPrevChain(P, [0, 1], 1) &&
      SegmentWeights(adj, [0, 1]) == [5] && Sum(SegmentWeights(adj, [0, 1])) != D[1].n &&
      !FirstIsLightest(adj)
  {
    var adj: Adjacency := [[Edge(1, 5), Edge(1, 3)], [Edge(0, 5), Edge(0, 3)]];
    var D: seq<Dist>, P: seq<int> := [Fin(0), Fin(3)], [-1, 0];
    assert Ranked(P, [0, 1]);
    assert adj[0][1].to == 1 && D[1].n == D[0].n + adj[0][1].weight;
    assert TightPred(adj, D, P, 1);
    assert FirstWeight(adj[0], adj[0][1].to) > adj[0][1].weight;
  }
}
