/** The vocabulary shared by the bus-stop graph, the shortest-path search and the route
    reconstruction: adjacency entries, distances with an explicit "not reached" value,
    walks, predecessor chains and the shortest-path tree that the search leaves behind. */
module Paths {

  /** One adjacency-list entry: the stop at the far end and the weight (both Java ints). */
  datatype Edge = Edge(to: int, weight: int)

  /** A tentative distance. `Inf` plays the part of Integer.MAX_VALUE, "not reached";
      finite distances are unbounded naturals. */
  datatype Dist = Fin(n: nat) | Inf

  /** `adj[u]` lists the entries of stop `u` in insertion order. */
  type Adjacency = seq<seq<Edge>>

  /** Every entry names a stop of the graph. */
  ghost predicate WellFormed(adj: Adjacency) {
    forall u, i :: 0 <= u < |adj| && 0 <= i < |adj[u]| ==> 0 <= adj[u][i].to < |adj|
  }

  /** No entry carries a negative weight. */
  ghost predicate NonNegative(adj: Adjacency) {
    forall u, i :: 0 <= u < |adj| && 0 <= i < |adj[u]| ==> adj[u][i].weight >= 0
  }

  /** Entries come in mirrored pairs: `u` lists `Edge(v, w)` exactly as often as `v` lists `Edge(u, w)`. */
  ghost predicate Undirected(adj: Adjacency) {
    forall u, v, w :: 0 <= u < |adj| && 0 <= v < |adj| ==> Copies(adj[u], v, w) == Copies(adj[v], u, w)
  }

  /** How many entries of `es` lead to `v` with weight `w`. */
  ghost function Copies(es: seq<Edge>, v: int, w: int): (r: nat) {
    multiset(es)[Edge(v, w)]
  }

  /** `d + w`; a stop that was not reached stays not reached. */
  function Plus(d: Dist, w: nat): (r: Dist) {
    if d.Inf? then Inf else Fin(d.n + w)
  }

  /** Strictly shorter, with `Inf` above every finite distance. */
  predicate Below(a: Dist, b: Dist) {
    a.Fin? && (b.Inf? || a.n < b.n)
  }

  // ---------------------------------------------------------------------------------
  // Edge lookup

  ghost predicate HasEdgeTo(es: seq<Edge>, v: int) {
    exists i :: 0 <= i < |es| && es[i].to == v
  }

  /** `i` is the first position of `es` that leads to `v`. */
  ghost predicate IsFirstTo(es: seq<Edge>, v: int, i: int) {
    0 <= i < |es| && es[i].to == v && forall j :: 0 <= j < i ==> es[j].to != v
  }

  /** The weight of the first entry of `es` that leads to `v`, and -1 when there is none. */
  function FirstWeight(es: seq<Edge>, v: int): (r: int) {
    if es == [] then -1
    else if es[0].to == v then es[0].weight
    else FirstWeight(es[1..], v)
  }

  /** `FirstWeight` is the weight at the first position leading to `v`, and -1 exactly when no
      position leads there (as long as no weight is itself -1). */
  lemma {:induction false} FirstWeightSpec(es: seq<Edge>, v: int)
    ensures !HasEdgeTo(es, v) ==> FirstWeight(es, v) == -1
    ensures HasEdgeTo(es, v) ==> exists i :: IsFirstTo(es, v, i) && FirstWeight(es, v) == es[i].weight
  {
    if es == [] {
    } else if es[0].to == v {
      assert IsFirstTo(es, v, 0);
    } else {
      FirstWeightSpec(es[1..], v);
      if HasEdgeTo(es, v) {
        var i :| 0 <= i < |es| && es[i].to == v;
        assert es[1..][i - 1].to == v;
        var j :| IsFirstTo(es[1..], v, j) && FirstWeight(es[1..], v) == es[1..][j].weight;
        assert IsFirstTo(es, v, j + 1);
      } else {
        forall i | 0 <= i < |es[1..]| ensures es[1..][i].to != v {
          assert es[1..][i] == es[i + 1];
        }
      }
    }
  }

  /** Appending never changes the answer for a stop that is already listed (the first-inserted
      entry wins), and a stop that was not listed is looked up in what was appended. */
  lemma {:induction false} FirstWeightAppend(es: seq<Edge>, more: seq<Edge>, v: int)
    ensures FirstWeight(es + more, v) == if HasEdgeTo(es, v) then FirstWeight(es, v) else FirstWeight(more, v)
  {
    if es == [] {
      assert es + more == more;
    } else if es[0].to == v {
      assert (es + more)[0] == es[0];
    } else {
      assert (es + more)[1..] == es[1..] + more;
      FirstWeightAppend(es[1..], more, v);
      if HasEdgeTo(es, v) {
        var i :| 0 <= i < |es| && es[i].to == v;
        assert es[1..][i - 1].to == v;
      }
      if HasEdgeTo(es[1..], v) {
        var i :| 0 <= i < |es[1..]| && es[1..][i].to == v;
        assert es[i + 1].to == v;
      }
    }
  }

  /** In an undirected adjacency structure, `u` lists `v` exactly when `v` lists `u`. */
  lemma EdgeMirrored(adj: Adjacency, u: int, v: int)
    requires Undirected(adj) && 0 <= u < |adj| && 0 <= v < |adj|
    ensures HasEdgeTo(adj[u], v) <==> HasEdgeTo(adj[v], u)
  {
    if HasEdgeTo(adj[u], v) {
      var i :| 0 <= i < |adj[u]| && adj[u][i].to == v;
      var w := adj[u][i].weight;
      assert adj[u][i] == Edge(v, w);
      assert Copies(adj[v], u, w) > 0;
      assert Edge(u, w) in adj[v];
    }
    if HasEdgeTo(adj[v], u) {
      var i :| 0 <= i < |adj[v]| && adj[v][i].to == u;
      var w := adj[v][i].weight;
      assert adj[v][i] == Edge(u, w);
      assert Copies(adj[u], v, w) > 0;
      assert Edge(v, w) in adj[u];
    }
  }

  // ---------------------------------------------------------------------------------
  // Walks

  /** `vs` is a walk through the graph and `ws[i]` the weight of an entry from `vs[i]` to `vs[i + 1]`. */
  ghost predicate IsWalk(adj: Adjacency, vs: seq<int>, ws: seq<int>) {
    |vs| == |ws| + 1 &&
    (forall i :: 0 <= i < |vs| ==> 0 <= vs[i] < |adj|) &&
    (forall i :: 0 <= i < |ws| ==> Edge(vs[i + 1], ws[i]) in adj[vs[i]])
  }

  /** A walk extended by one more entry is a walk. */
  lemma WalkExtend(adj: Adjacency, vs: seq<int>, ws: seq<int>, v: int, w: int)
    requires IsWalk(adj, vs, ws) && 0 <= v < |adj| && Edge(v, w) in adj[vs[|vs| - 1]]
    ensures IsWalk(adj, vs + [v], ws + [w])
  {
    var vs', ws' := vs + [v], ws + [w];
    forall i | 0 <= i < |ws'| ensures Edge(vs'[i + 1], ws'[i]) in adj[vs'[i]] {
      if i < |ws| {
        assert vs'[i + 1] == vs[i + 1] && vs'[i] == vs[i] && ws'[i] == ws[i];
      }
    }
  }

  function Sum(ws: seq<int>): (r: int) {
    if ws == [] then 0 else Sum(ws[..|ws| - 1]) + ws[|ws| - 1]
  }

  ghost predicate Reachable(adj: Adjacency, s: int, v: int) {
    exists vs, ws :: IsWalk(adj, vs, ws) && vs[0] == s && vs[|vs| - 1] == v
  }

  // ---------------------------------------------------------------------------------
  // Distance and predecessor tables

  /** Entry `i` of `u` satisfies the triangle inequality: if `u` was reached, so was the far end,
      and no further than `dist[u]` plus the entry's weight. */
  ghost predicate EdgeSettled(adj: Adjacency, D: seq<Dist>, u: int, i: int) {
    0 <= u < |adj| && 0 <= i < |adj[u]| && |D| == |adj| &&
    (D[u].Fin? ==>
      0 <= adj[u][i].to < |D| && D[adj[u][i].to].Fin? &&
      D[adj[u][i].to].n <= D[u].n + adj[u][i].weight)
  }

  ghost predicate Settled(adj: Adjacency, D: seq<Dist>, u: int) {
    0 <= u < |adj| && |D| == |adj| &&
    forall i :: 0 <= i < |adj[u]| ==> EdgeSettled(adj, D, u, i)
  }

  ghost predicate Triangle(adj: Adjacency, D: seq<Dist>) {
    |D| == |adj| && forall u :: 0 <= u < |adj| ==> Settled(adj, D, u)
  }

  /** If `v` has a predecessor, both were reached and some entry of the predecessor leads to `v`
      with exactly the difference of their distances as weight. */
  ghost predicate TightPred(adj: Adjacency, D: seq<Dist>, P: seq<int>, v: int) {
    0 <= v < |adj| && |D| == |adj| && |P| == |adj| &&
    (P[v] != -1 ==>
      0 <= P[v] < |adj| && D[v].Fin? && D[P[v]].Fin? &&
      exists i :: 0 <= i < |adj[P[v]]| && adj[P[v]][i].to == v &&
        D[v].n == D[P[v]].n + adj[P[v]][i].weight)
  }

  /** Only the source may be reached without a predecessor. */
  ghost predicate Rooted(s: int, D: seq<Dist>, P: seq<int>) {
    |D| == |P| && forall v :: 0 <= v < |D| && v != s && D[v].Fin? ==> P[v] != -1
  }

  /** Following a predecessor link strictly lowers `rank`, so no chain of links is cyclic. */
  ghost predicate Ranked(P: seq<int>, rank: seq<nat>) {
    |rank| == |P| &&
    forall v :: 0 <= v < |P| && P[v] != -1 ==> 0 <= P[v] < |P| && rank[P[v]] < rank[v]
  }

  ghost predicate PrevAcyclic(P: seq<int>) {
    exists rank: seq<nat> :: Ranked(P, rank)
  }

  /** What the search promises about its tables for source `s`. */
  ghost predicate ShortestPathTree(adj: Adjacency, s: int, D: seq<Dist>, P: seq<int>) {
    WellFormed(adj) && |D| == |adj| && |P| == |adj| && 0 <= s < |adj| &&
    D[s] == Fin(0) && P[s] == -1 &&
    Triangle(adj, D) &&
    (forall v :: 0 <= v < |adj| ==> TightPred(adj, D, P, v)) &&
    Rooted(s, D, P) &&
    PrevAcyclic(P)
  }

  /** `path` is the chain of predecessor links that ends at `t`, written from its first stop. */
  ghost predicate IsPrevChain(P: seq<int>, path: seq<int>, t: int) {
    |path| > 0 && path[|path| - 1] == t &&
    (forall i :: 0 <= i < |path| ==> 0 <= path[i] < |P|) &&
    P[path[0]] == -1 &&
    forall i :: 0 <= i < |path| - 1 ==> P[path[i + 1]] == path[i]
  }

  /** The weight the route report shows for each segment of `path`: the first-match lookup. */
  function SegmentWeights(adj: Adjacency, path: seq<int>): (r: seq<int>)
    requires forall i :: 0 <= i < |path| ==> 0 <= path[i] < |adj|
  {
    if |path| == 0 then []
    else seq(|path| - 1, i requires 0 <= i < |path| - 1 => FirstWeight(adj[path[i]], path[i + 1]))
  }

  /** For every pair of stops, the first-listed entry between them is the lightest one
      (true in particular when there are no parallel edges). */
  ghost predicate FirstIsLightest(adj: Adjacency) {
    forall u, i :: 0 <= u < |adj| && 0 <= i < |adj[u]| ==>
      FirstWeight(adj[u], adj[u][i].to) <= adj[u][i].weight
  }

  // ---------------------------------------------------------------------------------
  // What a shortest-path tree guarantees

  /** Triangle inequalities bound every walk from the source from below. */
  lemma {:induction false} WalkLowerBound(adj: Adjacency, s: int, D: seq<Dist>, vs: seq<int>, ws: seq<int>)
    requires |D| == |adj| && 0 <= s < |adj| && D[s] == Fin(0) && Triangle(adj, D)
    requires IsWalk(adj, vs, ws) && vs[0] == s
    ensures D[vs[|vs| - 1]].Fin? && D[vs[|vs| - 1]].n <= Sum(ws)
    decreases |ws|
  {
    if ws != [] {
      var k := |ws| - 1;
      assert IsWalk(adj, vs[..k + 1], ws[..k]);
      WalkLowerBound(adj, s, D, vs[..k + 1], ws[..k]);
      var u, v := vs[k], vs[k + 1];
      assert Edge(v, ws[k]) in adj[u];
      var i :| 0 <= i < |adj[u]| && adj[u][i] == Edge(v, ws[k]);
      assert Settled(adj, D, u);
      assert EdgeSettled(adj, D, u, i);
    }
  }

  /** Every stop has a predecessor chain when the links are ranked. */
  lemma {:induction false} ChainExists(P: seq<int>, rank: seq<nat>, v: int)
    requires Ranked(P, rank) && 0 <= v < |P|
    ensures exists path :: IsPrevChain(P, path, v)
    decreases rank[v]
  {
    if P[v] == -1 {
      assert IsPrevChain(P, [v], v);
    } else {
      ChainExists(P, rank, P[v]);
      var path :| IsPrevChain(P, path, P[v]);
      assert IsPrevChain(P, path + [v], v);
    }
  }

  /** The predecessor chain of a reached stop starts at the source and is a walk whose
      weights add up to the stop's distance. */
  lemma {:induction false} ChainWalk(adj: Adjacency, s: int, D: seq<Dist>, P: seq<int>, path: seq<int>, t: int)
    requires ShortestPathTree(adj, s, D, P) && IsPrevChain(P, path, t) && D[t].Fin?
    ensures path[0] == s
    ensures exists ws :: IsWalk(adj, path, ws) && Sum(ws) == D[t].n
    decreases |path|
  {
    if |path| == 1 {
      assert IsWalk(adj, path, []);
    } else {
      var k := |path| - 1;
      var u := path[k - 1];
      assert P[t] == u;
      assert TightPred(adj, D, P, t);
      var i :| 0 <= i < |adj[u]| && adj[u][i].to == t && D[t].n == D[u].n + adj[u][i].weight;
      assert IsPrevChain(P, path[..k], u);
      ChainWalk(adj, s, D, P, path[..k], u);
      var ws' :| IsWalk(adj, path[..k], ws') && Sum(ws') == D[u].n;
      var ws := ws' + [adj[u][i].weight];
      assert ws[..|ws| - 1] == ws';
      assert adj[u][i] == Edge(t, adj[u][i].weight);
      WalkExtend(adj, path[..k], ws', t, adj[u][i].weight);
      assert path[..k] + [t] == path;
    }
  }

  /** A chain is its target alone exactly when the target has no predecessor. */
  lemma ChainSingleton(P: seq<int>, path: seq<int>, t: int)
    requires IsPrevChain(P, path, t)
    ensures path == [t] <==> P[t] == -1
  {
    if |path| > 1 {
      assert P[t] == path[|path| - 2];
    }
  }

  /** A chain that ends at a stop that was not reached is that stop alone. */
  lemma UnreachedChain(adj: Adjacency, s: int, D: seq<Dist>, P: seq<int>, path: seq<int>, t: int)
    requires ShortestPathTree(adj, s, D, P) && IsPrevChain(P, path, t) && D[t].Inf?
    ensures path == [t]
  {
    assert TightPred(adj, D, P, t);
    ChainSingleton(P, path, t);
  }

  /** The distances are the true shortest-walk weights: no walk from the source is cheaper,
      and every reached stop has a walk of exactly its distance. */
  lemma DistIsShortest(adj: Adjacency, s: int, D: seq<Dist>, P: seq<int>, v: int)
    requires ShortestPathTree(adj, s, D, P) && 0 <= v < |adj|
    ensures forall vs, ws :: IsWalk(adj, vs, ws) && vs[0] == s && vs[|vs| - 1] == v ==>
      D[v].Fin? && D[v].n <= Sum(ws)
    ensures D[v].Fin? ==> exists vs, ws :: IsWalk(adj, vs, ws) && vs[0] == s && vs[|vs| - 1] == v && Sum(ws) == D[v].n
  {
    forall vs, ws | IsWalk(adj, vs, ws) && vs[0] == s && vs[|vs| - 1] == v
      ensures D[v].Fin? && D[v].n <= Sum(ws)
    {
      WalkLowerBound(adj, s, D, vs, ws);
    }
    if D[v].Fin? {
      var rank :| Ranked(P, rank);
      ChainExists(P, rank, v);
      var path :| IsPrevChain(P, path, v);
      ChainWalk(adj, s, D, P, path, v);
      var ws :| IsWalk(adj, path, ws) && Sum(ws) == D[v].n;
      assert IsWalk(adj, path, ws) && path[0] == s && path[|path| - 1] == v && Sum(ws) == D[v].n;
    }
  }

  /** A stop is reached exactly when some walk leads to it from the source; a stop no walk
      leads to keeps the "not reached" distance and no predecessor. */
  lemma ReachableIffFinite(adj: Adjacency, s: int, D: seq<Dist>, P: seq<int>, v: int)
    requires ShortestPathTree(adj, s, D, P) && 0 <= v < |adj|
    ensures D[v].Fin? <==> Reachable(adj, s, v)
    ensures !Reachable(adj, s, v) ==> D[v] == Inf && P[v] == -1
  {
    DistIsShortest(adj, s, D, P, v);
    assert TightPred(adj, D, P, v);
  }

  /** The distance table does not depend on how ties were broken: any two shortest-path trees
      for the same source have the same distances. */
  lemma DistUnique(adj: Adjacency, s: int, D1: seq<Dist>, P1: seq<int>, D2: seq<Dist>, P2: seq<int>)
    requires ShortestPathTree(adj, s, D1, P1) && ShortestPathTree(adj, s, D2, P2)
    ensures D1 == D2
  {
    forall v | 0 <= v < |adj| ensures D1[v] == D2[v] {
      DistIsShortest(adj, s, D1, P1, v);
      DistIsShortest(adj, s, D2, P2, v);
    }
  }

  /** In an undirected graph the triangle inequality holds across each edge in both directions,
      and an edge never joins a reached stop to an unreached one. */
  lemma TriangleBothWays(adj: Adjacency, D: seq<Dist>)
    requires WellFormed(adj) && Undirected(adj) && Triangle(adj, D)
    ensures forall u, i :: 0 <= u < |adj| && 0 <= i < |adj[u]| && (D[u].Fin? || D[adj[u][i].to].Fin?) ==>
      D[u].Fin? && D[adj[u][i].to].Fin? &&
      D[adj[u][i].to].n <= D[u].n + adj[u][i].weight &&
      D[u].n <= D[adj[u][i].to].n + adj[u][i].weight
  {
    forall u, i | 0 <= u < |adj| && 0 <= i < |adj[u]| && (D[u].Fin? || D[adj[u][i].to].Fin?)
      ensures D[u].Fin? && D[adj[u][i].to].Fin? &&
        D[adj[u][i].to].n <= D[u].n + adj[u][i].weight &&
        D[u].n <= D[adj[u][i].to].n + adj[u][i].weight
    {
      var v, w := adj[u][i].to, adj[u][i].weight;
      assert adj[u][i] == Edge(v, w);
      assert Copies(adj[v], u, w) > 0;
      assert Edge(u, w) in adj[v];
      var j :| 0 <= j < |adj[v]| && adj[v][j] == Edge(u, w);
      assert Settled(adj, D, u) && Settled(adj, D, v);
      assert EdgeSettled(adj, D, u, i) && EdgeSettled(adj, D, v, j);
    }
  }

  /** The link from `u` to its successor `t` on a chain is tight for the first-listed entry,
      provided that entry is the lightest one between the two stops. */
  lemma FirstEntryTight(adj: Adjacency, s: int, D: seq<Dist>, P: seq<int>, u: int, t: int)
    requires ShortestPathTree(adj, s, D, P) && FirstIsLightest(adj)
    requires 0 <= t < |adj| && P[t] == u && u != -1
    ensures 0 <= u < |adj| && D[u].Fin? && D[t].Fin?
    ensures Edge(t, FirstWeight(adj[u], t)) in adj[u]
    ensures D[t].n == D[u].n + FirstWeight(adj[u], t)
  {
    assert TightPred(adj, D, P, t);
    var i :| 0 <= i < |adj[u]| && adj[u][i].to == t && D[t].n == D[u].n + adj[u][i].weight;
    assert HasEdgeTo(adj[u], t);
    FirstWeightSpec(adj[u], t);
    var f :| IsFirstTo(adj[u], t, f) && FirstWeight(adj[u], t) == adj[u][f].weight;
    assert Settled(adj, D, u);
    assert EdgeSettled(adj, D, u, f);
    assert adj[u][f] == Edge(t, FirstWeight(adj[u], t));
  }

  /** When the first-listed entry between two stops is the lightest, the per-segment weights of
      the report add up to the target's distance. */
  lemma ChainSegmentCost(adj: Adjacency, s: int, D: seq<Dist>, P: seq<int>, path: seq<int>, t: int)
    requires ShortestPathTree(adj, s, D, P) && FirstIsLightest(adj)
    requires IsPrevChain(P, path, t) && D[t].Fin?
    ensures path[0] == s
    ensures Sum(SegmentWeights(adj, path)) == D[t].n
  {
    forall i | 0 <= i < |path| - 1 ensures SegmentTight(adj, D, path[i], path[i + 1]) {
      FirstEntryTight(adj, s, D, P, path[i], path[i + 1]);
    }
    if |path| > 1 {
      assert SegmentTight(adj, D, path[0], path[1]);
    }
    assert Rooted(s, D, P);
    TightChainSum(adj, D, path);
  }

  /** Both ends of the segment from `u` to `v` were reached, and its lookup weight is exactly the
      difference of their distances. */
  ghost predicate SegmentTight(adj: Adjacency, D: seq<Dist>, u: int, v: int) {
    0 <= u < |adj| && 0 <= v < |adj| && |D| == |adj| && D[u].Fin? && D[v].Fin? &&
    D[v].n == D[u].n + FirstWeight(adj[u], v)
  }

  /** Along a chain of tight segments the lookup weights telescope to the difference of the
      distances at the two ends. */
  lemma {:induction false} TightChainSum(adj: Adjacency, D: seq<Dist>, path: seq<int>)
    requires |path| > 0 && |D| == |adj| && 0 <= path[0] < |adj| && D[path[0]].Fin?
    requires forall i :: 0 <= i < |path| ==> 0 <= path[i] < |adj|
    requires forall i :: 0 <= i < |path| - 1 ==> SegmentTight(adj, D, path[i], path[i + 1])
    ensures D[path[|path| - 1]].Fin?
    ensures Sum(SegmentWeights(adj, path)) == D[path[|path| - 1]].n - D[path[0]].n
    decreases |path|
  {
    if |path| == 1 {
      assert SegmentWeights(adj, path) == [];
    } else {
      var k := |path| - 1;
      var prefix := path[..k];
      assert forall i :: 0 <= i < |prefix| ==> prefix[i] == path[i];
      TightChainSum(adj, D, prefix);
      assert SegmentTight(adj, D, path[k - 1], path[k]);
      assert prefix + [path[k]] == path;
      SegmentsAppend(adj, prefix, path[k]);
      var pws := SegmentWeights(adj, prefix);
      assert (pws + [FirstWeight(adj[path[k - 1]], path[k])])[..|pws|] == pws;
    }
  }

  /** Extending a route by one stop adds the lookup for the new segment at the end. */
  lemma SegmentsAppend(adj: Adjacency, prefix: seq<int>, t: int)
    requires |prefix| > 0 && forall i :: 0 <= i < |prefix| ==> 0 <= prefix[i] < |adj|
    requires 0 <= t < |adj|
    ensures SegmentWeights(adj, prefix + [t]) ==
      SegmentWeights(adj, prefix) + [FirstWeight(adj[prefix[|prefix| - 1]], t)]
  {
    var path := prefix + [t];
    var pws := SegmentWeights(adj, prefix);
    var w := FirstWeight(adj[prefix[|prefix| - 1]], t);
    assert forall i :: 0 <= i < |path| - 1 ==> SegmentWeights(adj, path)[i] == (pws + [w])[i];
  }

  /** Whatever the entries between two stops, the per-segment weights of the report form a walk
      from the source: each segment weight is that of an entry between the two stops. */
  lemma {:induction false} ChainSegmentsWalk(adj: Adjacency, s: int, D: seq<Dist>, P: seq<int>, path: seq<int>, t: int)
    requires ShortestPathTree(adj, s, D, P)
    requires IsPrevChain(P, path, t) && D[t].Fin?
    ensures path[0] == s
    ensures IsWalk(adj, path, SegmentWeights(adj, path))
    decreases |path|
  {
    if |path| == 1 {
      assert IsWalk(adj, path, []);
    } else {
      var k := |path| - 1;
      var u := path[k - 1];
      assert P[t] == u;
      assert TightPred(adj, D, P, t);
      var i :| 0 <= i < |adj[u]| && adj[u][i].to == t && D[t].n == D[u].n + adj[u][i].weight;
      FirstWeightSpec(adj[u], t);
      var f :| IsFirstTo(adj[u], t, f) && FirstWeight(adj[u], t) == adj[u][f].weight;
      assert adj[u][f] == Edge(t, FirstWeight(adj[u], t));
      var prefix := path[..k];
      assert IsPrevChain(P, prefix, u);
      ChainSegmentsWalk(adj, s, D, P, prefix, u);
      assert prefix + [t] == path;
      SegmentStep(adj, prefix, t);
    }
  }

  /** The predecessor table determines the chain ending at a stop: there is at most one. */
  lemma {:induction false} ChainUnique(P: seq<int>, p1: seq<int>, p2: seq<int>, t: int)
    requires IsPrevChain(P, p1, t) && IsPrevChain(P, p2, t)
    ensures p1 == p2
    decreases |p1|
  {
    ChainSingleton(P, p1, t);
    ChainSingleton(P, p2, t);
    if |p1| > 1 && |p2| > 1 {
      var u := P[t];
      assert p1[|p1| - 2] == u && p2[|p2| - 2] == u;
      var q1, q2 := p1[..|p1| - 1], p2[..|p2| - 1];
      assert IsPrevChain(P, q1, u) && IsPrevChain(P, q2, u);
      ChainUnique(P, q1, q2, u);
      assert p1 == q1 + [t] && p2 == q2 + [t];
    }
  }

  /** Adding a stop reached through its first-listed entry extends the reported segments. */
  lemma SegmentStep(adj: Adjacency, prefix: seq<int>, t: int)
    requires |prefix| > 0 && forall i :: 0 <= i < |prefix| ==> 0 <= prefix[i] < |adj|
    requires IsWalk(adj, prefix, SegmentWeights(adj, prefix))
    requires 0 <= t < |adj| && Edge(t, FirstWeight(adj[prefix[|prefix| - 1]], t)) in adj[prefix[|prefix| - 1]]
    ensures IsWalk(adj, prefix + [t], SegmentWeights(adj, prefix + [t]))
  {
    var pws := SegmentWeights(adj, prefix);
    var w := FirstWeight(adj[prefix[|prefix| - 1]], t);
    SegmentsAppend(adj, prefix, t);
    WalkExtend(adj, prefix, pws, t, w);
  }
}
