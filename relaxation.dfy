/** The invariants of the shortest-path search loop and the lemmas that show each of its steps
    (seeding, polling, relaxing or skipping an entry, finishing a stop, stopping) keeps them.

    Besides the distance table `D` and the predecessor table `P`, the proof keeps a ghost stamp
    `S[v]`, the step at which `D[v]` was last lowered, and a `clock` above every stamp. Along each
    predecessor link the pair (distance, stamp) strictly increases; this is what shows that the
    links never form a cycle, even across entries of weight zero. */
module Relaxation {
  import opened Paths
  import opened Frontier

  // ---------------------------------------------------------------------------------
  // Termination: every relaxation lowers this potential, every poll without one shortens the queue.

  function InfCount(D: seq<Dist>): (r: nat) {
    if D == [] then 0 else InfCount(D[1..]) + (if D[0].Inf? then 1 else 0)
  }

  function FinSum(D: seq<Dist>): (r: nat) {
    if D == [] then 0 else FinSum(D[1..]) + (if D[0].Fin? then D[0].n else 0)
  }

  /** `D'` is below `D` in the order (number of unreached stops, sum of finite distances). */
  ghost predicate Lower(D': seq<Dist>, D: seq<Dist>) {
    InfCount(D') < InfCount(D) || (InfCount(D') == InfCount(D) && FinSum(D') < FinSum(D))
  }

  lemma {:induction false} CountsAfterUpdate(D: seq<Dist>, v: int, x: Dist)
    requires 0 <= v < |D|
    ensures InfCount(D[v := x]) + (if D[v].Inf? then 1 else 0) == InfCount(D) + (if x.Inf? then 1 else 0)
    ensures FinSum(D[v := x]) + (if D[v].Fin? then D[v].n else 0) == FinSum(D) + (if x.Fin? then x.n else 0)
  {
    if v == 0 {
      assert D[v := x][1..] == D[1..];
    } else {
      assert D[v := x][1..] == D[1..][v - 1 := x];
      CountsAfterUpdate(D[1..], v - 1, x);
    }
  }

  /** Replacing one distance by a strictly shorter one lowers the potential. */
  lemma LoweringLowers(D: seq<Dist>, v: int, x: Dist)
    requires 0 <= v < |D| && Below(x, D[v])
    ensures Lower(D[v := x], D)
  {
    CountsAfterUpdate(D, v, x);
  }

  // ---------------------------------------------------------------------------------
  // The invariants

  /** A predecessor link of `v` is justified by an entry whose weight fits between the two
      distances, and the (distance, stamp) pair grows along the link. */
  ghost predicate PredBelow(adj: Adjacency, D: seq<Dist>, P: seq<int>, S: seq<nat>, v: int) {
    0 <= v < |adj| && |D| == |adj| && |P| == |adj| && |S| == |adj| &&
    (P[v] != -1 ==>
      0 <= P[v] < |adj| && D[v].Fin? && D[P[v]].Fin? &&
      (exists i :: 0 <= i < |adj[P[v]]| && adj[P[v]][i].to == v &&
        D[P[v]].n + adj[P[v]][i].weight <= D[v].n) &&
      (D[P[v]].n < D[v].n || (D[P[v]].n == D[v].n && S[P[v]] < S[v])))
  }

  ghost predicate SearchState(adj: Adjacency, s: int, D: seq<Dist>, P: seq<int>, S: seq<nat>, clock: nat) {
    WellFormed(adj) && NonNegative(adj) && 0 <= s < |adj| &&
    |D| == |adj| && |P| == |adj| && |S| == |adj| &&
    D[s] == Fin(0) && P[s] == -1 &&
    (forall v :: 0 <= v < |adj| ==> S[v] < clock) &&
    (forall v :: 0 <= v < |adj| ==> PredBelow(adj, D, P, S, v)) &&
    Rooted(s, D, P)
  }

  /** Every queued entry names a stop, and every reached stop is being expanded (`ex`), still
      queued, or has all its entries settled. */
  ghost predicate Covered(adj: Adjacency, D: seq<Dist>, Q: seq<Entry>, ex: int) {
    |D| == |adj| &&
    (forall j :: 0 <= j < |Q| ==> 0 <= Q[j].vertex < |adj|) &&
    forall x :: 0 <= x < |adj| && D[x].Fin? ==> x == ex || Queued(Q, x) || Settled(adj, D, x)
  }

  /** No distance of `D'` is above the one `D` holds for the same stop. */
  ghost predicate NoHigher(D': seq<Dist>, D: seq<Dist>) {
    |D'| == |D| && forall x :: 0 <= x < |D| ==> !Below(D[x], D'[x])
  }

  /** Some entry of `u` leads to `x` and, added to `u`'s distance `du`, gives exactly `d`. */
  ghost predicate RelaxedVia(adj: Adjacency, u: int, du: Dist, x: int, d: Dist) {
    0 <= u < |adj| &&
    exists i :: 0 <= i < |adj[u]| && adj[u][i].to == x && adj[u][i].weight >= 0 && Plus(du, adj[u][i].weight) == d
  }

  // ---------------------------------------------------------------------------------
  // The steps

  function InitialDist(n: nat, s: int): (r: seq<Dist>) {
    seq(n, i => if i == s then Fin(0) else Inf)
  }

  /** Filling the tables and seeding the queue with the source establishes the invariants. */
  lemma InitialSearch(adj: Adjacency, s: int)
    requires WellFormed(adj) && NonNegative(adj) && 0 <= s < |adj|
    ensures SearchState(adj, s, InitialDist(|adj|, s), seq(|adj|, _ => -1), seq(|adj|, _ => 0), 1)
    ensures Covered(adj, InitialDist(|adj|, s), [Entry(s, 0)], -1)
  {
    assert [Entry(s, 0)][0].vertex == s;
    assert Queued([Entry(s, 0)], s);
  }

  /** Polling an entry of stop `u` leaves `u` as the stop being expanded. */
  lemma PollStep(adj: Adjacency, D: seq<Dist>, Q: seq<Entry>, top: Entry, rest: seq<Entry>)
    requires Covered(adj, D, Q, -1) && multiset(rest) + multiset{top} == multiset(Q)
    ensures 0 <= top.vertex < |adj|
    ensures Covered(adj, D, rest, top.vertex)
  {
    assert top in multiset(Q);
    forall j | 0 <= j < |rest| ensures 0 <= rest[j].vertex < |adj| {
      assert rest[j] in multiset(rest);
      assert rest[j] in multiset(Q);
      assert rest[j] in Q;
    }
    forall x | 0 <= x < |adj| && D[x].Fin? && x != top.vertex && Queued(Q, x)
      ensures Queued(rest, x)
    {
      PollKeepsOthers(Q, top, rest, x);
    }
  }

  /** Settled entries stay settled when some other stop gets a shorter distance. */
  lemma SettledLowered(adj: Adjacency, D: seq<Dist>, v: int, x: Dist, u: int, j: int)
    requires EdgeSettled(adj, D, u, j) && u != v && 0 <= v < |D| && Below(x, D[v])
    ensures EdgeSettled(adj, D[v := x], u, j)
  {
  }

  /** The predecessor links stay justified when `u` relaxes its entry to `v` down to `d`. */
  lemma RelaxKeepsPreds(adj: Adjacency, s: int, D: seq<Dist>, P: seq<int>, S: seq<nat>, clock: nat,
                        u: int, i: int, v: int, d: nat, D': seq<Dist>, P': seq<int>, S': seq<nat>)
    requires SearchState(adj, s, D, P, S, clock)
    requires 0 <= u < |adj| && 0 <= i < |adj[u]| && v == adj[u][i].to && D[u].Fin?
    requires d == D[u].n + adj[u][i].weight && Below(Fin(d), D[v])
    requires D' == D[v := Fin(d)] && P' == P[v := u] && S' == S[v := clock]
    ensures forall y :: 0 <= y < |adj| ==> PredBelow(adj, D', P', S', y)
  {
    forall y | 0 <= y < |adj| ensures PredBelow(adj, D', P', S', y) {
      assert PredBelow(adj, D, P, S, y);
      if y == v {
        assert adj[u][i].to == v && D'[u].n + adj[u][i].weight <= D'[v].n;
      } else if P[y] != -1 && P[y] == v {
        var k :| 0 <= k < |adj[v]| && adj[v][k].to == y && D[v].n + adj[v][k].weight <= D[y].n;
        assert D'[v].n + adj[v][k].weight <= D'[y].n;
      }
    }
  }

  /** Relaxing entry `i` of `u` keeps the invariants, settles that entry, keeps the earlier entries
      of `u` settled and lowers the potential. */
  lemma RelaxStep(adj: Adjacency, s: int, D: seq<Dist>, P: seq<int>, S: seq<nat>, clock: nat, Q: seq<Entry>,
                  u: int, i: int, v: int, d: nat, D': seq<Dist>, P': seq<int>, S': seq<nat>, Q': seq<Entry>)
    requires SearchState(adj, s, D, P, S, clock) && Covered(adj, D, Q, u)
    requires 0 <= u < |adj| && 0 <= i < |adj[u]| && v == adj[u][i].to && D[u].Fin?
    requires forall j :: 0 <= j < i ==> EdgeSettled(adj, D, u, j)
    requires d == D[u].n + adj[u][i].weight && Below(Fin(d), D[v])
    requires D' == D[v := Fin(d)] && P' == P[v := u] && S' == S[v := clock] && Q' == Q + [Entry(v, d)]
    ensures v != u && v != s
    ensures SearchState(adj, s, D', P', S', clock + 1)
    ensures Covered(adj, D', Q', u)
    ensures forall j :: 0 <= j <= i ==> EdgeSettled(adj, D', u, j)
    ensures Lower(D', D)
  {
    RelaxKeepsPreds(adj, s, D, P, S, clock, u, i, v, d, D', P', S');
    assert Rooted(s, D', P');
    forall x | 0 <= x < |adj| && D'[x].Fin? ensures x == u || Queued(Q', x) || Settled(adj, D', x) {
      if x == v {
        assert Q'[|Q|].vertex == v;
      } else if x == u {
      } else if Queued(Q, x) {
        var j :| 0 <= j < |Q| && Q[j].vertex == x;
        assert Q'[j].vertex == x;
      } else {
        assert Settled(adj, D, x);
        forall j | 0 <= j < |adj[x]| ensures EdgeSettled(adj, D', x, j) {
          SettledLowered(adj, D, v, Fin(d), x, j);
        }
      }
    }
    forall j | 0 <= j < i ensures EdgeSettled(adj, D', u, j) {
      SettledLowered(adj, D, v, Fin(d), u, j);
    }
    LoweringLowers(D, v, Fin(d));
  }

  /** An entry that does not improve its far end is already settled. */
  lemma SkipStep(adj: Adjacency, D: seq<Dist>, u: int, i: int)
    requires WellFormed(adj) && NonNegative(adj) && |D| == |adj| && 0 <= u < |adj| && 0 <= i < |adj[u]|
    requires !Below(Plus(D[u], adj[u][i].weight), D[adj[u][i].to])
    ensures EdgeSettled(adj, D, u, i)
  {
  }

  /** Once every entry of the expanded stop is settled, that stop is covered. */
  lemma FinishStep(adj: Adjacency, D: seq<Dist>, Q: seq<Entry>, u: int)
    requires Covered(adj, D, Q, u) && 0 <= u < |adj|
    requires forall j :: 0 <= j < |adj[u]| ==> EdgeSettled(adj, D, u, j)
    ensures Covered(adj, D, Q, -1)
  {
    assert Settled(adj, D, u);
  }

  /** A (distance, stamp) pair below another one, read as a single natural number. */
  lemma KeyOrder(a: nat, b: nat, sa: nat, sb: nat, c: nat)
    requires sa < c && sb < c && (a < b || (a == b && sa < sb))
    ensures a * c + sa < b * c + sb
  {
    if a < b {
      assert (a + 1) * c <= b * c;
    }
  }

  /** With the queue empty, the tables form a shortest-path tree. */
  lemma SearchDone(adj: Adjacency, s: int, D: seq<Dist>, P: seq<int>, S: seq<nat>, clock: nat)
    requires SearchState(adj, s, D, P, S, clock) && Covered(adj, D, [], -1)
    ensures ShortestPathTree(adj, s, D, P)
  {
    DrainedSettled(adj, D);
    PredsTight(adj, s, D, P, S, clock);
    StampsRank(adj, s, D, P, S, clock);
  }

  /** Once nothing is queued and nothing is being expanded, every reached stop is settled. */
  lemma DrainedSettled(adj: Adjacency, D: seq<Dist>)
    requires Covered(adj, D, [], -1)
    ensures Triangle(adj, D)
  {
    forall x | 0 <= x < |adj| ensures Settled(adj, D, x) {
      if D[x].Fin? {
        assert !Queued([], x);
      }
    }
  }

  /** Under the triangle inequality, a link whose entry fits between the two distances is tight. */
  lemma PredsTight(adj: Adjacency, s: int, D: seq<Dist>, P: seq<int>, S: seq<nat>, clock: nat)
    requires SearchState(adj, s, D, P, S, clock) && Triangle(adj, D)
    ensures forall v :: 0 <= v < |adj| ==> TightPred(adj, D, P, v)
  {
    forall v | 0 <= v < |adj| ensures TightPred(adj, D, P, v) {
      assert PredBelow(adj, D, P, S, v);
      if P[v] != -1 {
        var p := P[v];
        var i :| 0 <= i < |adj[p]| && adj[p][i].to == v && D[p].n + adj[p][i].weight <= D[v].n;
        assert Settled(adj, D, p);
        assert EdgeSettled(adj, D, p, i);
      }
    }
  }

  /** At every point of the search the predecessor links are acyclic: the (distance, stamp)
      key, read as one number, drops along each link. */
  lemma StampsRank(adj: Adjacency, s: int, D: seq<Dist>, P: seq<int>, S: seq<nat>, clock: nat)
    requires SearchState(adj, s, D, P, S, clock)
    ensures PrevAcyclic(P)
  {
    var rank := seq(|P|, x requires 0 <= x < |P| => if D[x].Fin? then D[x].n * clock + S[x] else 0);
    forall v | 0 <= v < |P| && P[v] != -1 ensures 0 <= P[v] < |P| && rank[P[v]] < rank[v] {
      assert PredBelow(adj, D, P, S, v);
      KeyOrder(D[P[v]].n, D[v].n, S[P[v]], S[v], clock);
    }
    assert Ranked(P, rank);
  }
}
