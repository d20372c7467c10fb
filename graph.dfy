/** The bus-stop graph of the route planner: `V` stops, one adjacency list per stop, edges added
    as mirrored pairs of entries, a first-match weight lookup and the shortest-path search. */
module RouteGraph {
  import opened Paths
  import opened Frontier
  import opened Relaxation

  class Graph {
    /** Number of stops; never changes after construction. */
    const V: int
    /** `adj[u]` holds the entries of stop `u` in insertion order. */
    var adj: Adjacency

    /** One list per stop (none when `V` is negative), every entry names a stop, and entries come
        in mirrored pairs. */
    ghost predicate Valid()
      reads this
    {
      |adj| == (if V < 0 then 0 else V) && WellFormed(adj) && Undirected(adj)
    }

    /** A graph of `V` stops and no edges. */
    constructor (V: int)
      ensures Valid() && this.V == V && |adj| == (if V < 0 then 0 else V)
      ensures forall u :: 0 <= u < |adj| ==> adj[u] == []
    {
      this.V := V;
      var lists: Adjacency := [];
      var i := 0;
      while i < V
        invariant i <= (if V < 0 then 0 else V)
        invariant |lists| == i && forall u :: 0 <= u < i ==> lists[u] == []
      {
        lists := lists + [[]];
        i := i + 1;
      }
      adj := lists;
    }

    /** Appends `Edge(v, weight)` to the list of `u`, then `Edge(u, weight)` to the list of `v`. */
    method AddEdge(u: int, v: int, weight: int)
      requires Valid() && 0 <= u < |adj| && 0 <= v < |adj|
      modifies this
      ensures Valid() && |adj| == |old(adj)| && adj == WithEdge(old(adj), u, v, weight)
    {
      ghost var a := adj;
      adj := adj[u := adj[u] + [Edge(v, weight)]];
      adj := adj[v := adj[v] + [Edge(u, weight)]];
      forall x | 0 <= x < |adj| ensures adj[x] == Extended(a, x, u, v, weight) {}
      AddKeepsUndirected(a, adj, u, v, weight);
    }

    /** The weight of the first entry of `u` leading to `v`, or -1 when there is none. */
    method EdgeWeight(u: int, v: int) returns (w: int)
      requires 0 <= u < |adj|
      ensures w == FirstWeight(adj[u], v)
    {
      var es := adj[u];
      FirstWeightSpec(es, v);
      for i := 0 to |es|
        invariant forall j :: 0 <= j < i ==> es[j].to != v
      {
        if es[i].to == v {
          assert IsFirstTo(es, v, i);
          return es[i].weight;
        }
      }
      return -1;
    }

    /** Dijkstra's search from `source`: returns the distance table and fills the caller's `prev`
        with the predecessor table. A polled stop is expanded with its current distance, whatever
        distance its entry carried. */
    method Dijkstra(source: int, prev: array<int>) returns (dist: array<Dist>)
      requires Valid() && NonNegative(adj)
      requires 0 <= source < V && prev.Length == V
      modifies prev
      ensures fresh(dist) && dist.Length == V
      ensures ShortestPathTree(adj, source, dist[..], prev[..])
    {
      for i := 0 to prev.Length
        invariant forall j :: 0 <= j < i ==> prev[j] == -1
      {
        prev[i] := -1;
      }
      dist := new Dist[V](_ => Inf);
      dist[source] := Fin(0);

      var pq := [Entry(source, 0)];
      ghost var stamp: seq<nat> := seq(V, _ => 0);
      ghost var clock: nat := 1;
      InitialSearch(adj, source);
      assert dist[..] == InitialDist(|adj|, source) by {
        forall x | 0 <= x < V ensures dist[x] == InitialDist(|adj|, source)[x] {}
      }
      assert prev[..] == seq(|adj|, _ => -1);

      while pq != []
        invariant SearchState(adj, source, dist[..], prev[..], stamp, clock)
        invariant Covered(adj, dist[..], pq, -1)
        decreases InfCount(dist[..]), FinSum(dist[..]), |pq|
      {
        var current, rest := Poll(pq);
        PollStep(adj, dist[..], pq, current, rest);
        pq := rest;
        var u := current.vertex;

        pq, stamp, clock := Expand(source, u, dist, prev, pq, stamp, clock);
      }
      SearchDone(adj, source, dist[..], prev[..], stamp, clock);
    }

    /** The body of the search loop for the polled stop `u`: every entry of `u` whose far end
        gets closer through `u` lowers that stop's distance, makes `u` its predecessor and queues
        it again. */
    method Expand(source: int, u: int, dist: array<Dist>, prev: array<int>, pq: seq<Entry>,
                  ghost stamp: seq<nat>, ghost clock: nat)
      returns (queue: seq<Entry>, ghost stamp': seq<nat>, ghost clock': nat)
      requires 0 <= u < |adj|
      requires SearchState(adj, source, dist[..], prev[..], stamp, clock) && Covered(adj, dist[..], pq, u)
      modifies dist, prev
      ensures SearchState(adj, source, dist[..], prev[..], stamp', clock')
      ensures Covered(adj, dist[..], queue, -1)
      ensures (dist[..] == old(dist[..]) && queue == pq) || Lower(dist[..], old(dist[..]))
      ensures NoHigher(dist[..], old(dist[..]))
      ensures dist[u] == old(dist[u]) && Settled(adj, dist[..], u)
      ensures forall x :: 0 <= x < dist.Length ==>
        (dist[x] == old(dist[x]) && prev[x] == old(prev[x])) ||
        (prev[x] == u && Below(dist[x], old(dist[x])) && RelaxedVia(adj, u, dist[u], x, dist[x]))
      ensures |pq| <= |queue| && queue[..|pq|] == pq
      ensures forall k :: |pq| <= k < |queue| ==> RelaxedVia(adj, u, dist[u], queue[k].vertex, Fin(queue[k].d))
    {
      queue, stamp', clock' := pq, stamp, clock;
      ghost var before, prevBefore := dist[..], prev[..];
      var edges := adj[u];
      for i := 0 to |edges|
        invariant SearchState(adj, source, dist[..], prev[..], stamp', clock')
        invariant Covered(adj, dist[..], queue, u)
        invariant forall j :: 0 <= j < i ==> EdgeSettled(adj, dist[..], u, j)
        invariant dist[u] == before[u]
        invariant (dist[..] == before && queue == pq) || Lower(dist[..], before)
        invariant NoHigher(dist[..], before)
        invariant forall x :: 0 <= x < |adj| ==>
          (dist[x] == before[x] && prev[x] == prevBefore[x]) ||
          (prev[x] == u && Below(dist[x], before[x]) && RelaxedVia(adj, u, before[u], x, dist[x]))
        invariant |pq| <= |queue| && queue[..|pq|] == pq
        invariant forall k :: |pq| <= k < |queue| ==> RelaxedVia(adj, u, before[u], queue[k].vertex, Fin(queue[k].d))
      {
        var v, weight := edges[i].to, edges[i].weight;
        var candidate := Plus(dist[u], weight);
        if Below(candidate, dist[v]) {
          ghost var (D, P, Q) := (dist[..], prev[..], queue);
          RelaxStep(adj, source, D, P, stamp', clock', Q, u, i, v, candidate.n,
                    D[v := candidate], P[v := u], stamp'[v := clock'], Q + [Entry(v, candidate.n)]);
          dist[v] := candidate;
          prev[v] := u;
          queue := queue + [Entry(v, candidate.n)];
          stamp', clock' := stamp'[v := clock'], clock' + 1;
          assert dist[..] == D[v := candidate] && prev[..] == P[v := u];
          assert adj[u][i].to == v && Plus(before[u], adj[u][i].weight) == candidate;
        } else {
          SkipStep(adj, dist[..], u, i);
        }
      }
      FinishStep(adj, dist[..], queue, u);
      assert Settled(adj, dist[..], u);
    }
  }

  /** The list of stop `x` once `Edge(v, weight)` is appended to the list of `u` and then
      `Edge(u, weight)` to the list of `v`. */
  function Extended(a: Adjacency, x: int, u: int, v: int, weight: int): (r: seq<Edge>)
    requires 0 <= x < |a|
  {
    a[x] + (if x == u then [Edge(v, weight)] else []) + (if x == v then [Edge(u, weight)] else [])
  }

  /** The lists after `Edge(v, weight)` is appended to the list of `u` and then `Edge(u, weight)`
      to the list of `v`. */
  function WithEdge(a: Adjacency, u: int, v: int, weight: int): (r: Adjacency)
    requires 0 <= u < |a| && 0 <= v < |a|
  {
    var b := a[u := a[u] + [Edge(v, weight)]];
    b[v := b[v] + [Edge(u, weight)]]
  }

  /** Adding an edge appends one entry at the end of each of its two stops' lists (two entries
      to the same list for a loop) and leaves every other list as it was. */
  lemma WithEdgeContents(a: Adjacency, u: int, v: int, weight: int)
    requires 0 <= u < |a| && 0 <= v < |a|
    ensures var b := WithEdge(a, u, v, weight);
      |b| == |a| &&
      (u != v ==> b[u] == a[u] + [Edge(v, weight)] && b[v] == a[v] + [Edge(u, weight)]) &&
      (u == v ==> b[u] == a[u] + [Edge(v, weight), Edge(u, weight)]) &&
      forall x :: 0 <= x < |a| && x != u && x != v ==> b[x] == a[x]
  {
  }

  /** In an undirected structure, after adding an edge between two stops that had none, the
      lookup finds the new weight in both directions; otherwise both lookups are unchanged. */
  lemma WithEdgeLookup(a: Adjacency, u: int, v: int, weight: int)
    requires Undirected(a) && 0 <= u < |a| && 0 <= v < |a|
    ensures var b := WithEdge(a, u, v, weight);
      (!HasEdgeTo(a[u], v) ==> FirstWeight(b[u], v) == weight && FirstWeight(b[v], u) == weight) &&
      (HasEdgeTo(a[u], v) ==> FirstWeight(b[u], v) == FirstWeight(a[u], v) && FirstWeight(b[v], u) == FirstWeight(a[v], u))
  {
    var b := WithEdge(a, u, v, weight);
    EdgeMirrored(a, u, v);
    assert [Edge(v, weight)][0].to == v && [Edge(u, weight)][0].to == u;
    if u == v {
      assert b[u] == a[u] + [Edge(v, weight), Edge(u, weight)];
      FirstWeightAppend(a[u], [Edge(v, weight), Edge(u, weight)], v);
    } else {
      assert b[u] == a[u] + [Edge(v, weight)] && b[v] == a[v] + [Edge(u, weight)];
      FirstWeightAppend(a[u], [Edge(v, weight)], v);
      FirstWeightAppend(a[v], [Edge(u, weight)], u);
    }
  }

  /** Adding a mirrored pair of entries keeps the adjacency structure well formed and undirected. */
  lemma AddKeepsUndirected(a: Adjacency, b: Adjacency, u: int, v: int, weight: int)
    requires Undirected(a) && WellFormed(a) && 0 <= u < |a| && 0 <= v < |a|
    requires |b| == |a| && forall x :: 0 <= x < |b| ==> b[x] == Extended(a, x, u, v, weight)
    ensures Undirected(b) && WellFormed(b)
  {
    forall x, y, w | 0 <= x < |b| && 0 <= y < |b|
      ensures Copies(b[x], y, w) == Copies(b[y], x, w)
    {
      ExtendedCount(a, x, u, v, weight, y, w);
      ExtendedCount(a, y, u, v, weight, x, w);
    }
    forall x, i | 0 <= x < |b| && 0 <= i < |b[x]|
      ensures 0 <= b[x][i].to < |b|
    {
      assert b[x] == Extended(a, x, u, v, weight);
      if i < |a[x]| {
        assert b[x][i] == a[x][i];
      }
    }
  }

  /** How many copies of `Edge(y, w)` the list of `x` holds after the addition. */
  lemma ExtendedCount(a: Adjacency, x: int, u: int, v: int, weight: int, y: int, w: int)
    requires 0 <= x < |a|
    ensures Copies(Extended(a, x, u, v, weight), y, w) ==
      Copies(a[x], y, w) + (if x == u && y == v && w == weight then 1 else 0)
                                 + (if x == v && y == u && w == weight then 1 else 0)
  {
  }
}
