/** The search frontier: a priority queue of (stop, distance) pairs of which only the
    extract-minimum contract is modelled; the order among equal distances is left open. */
module Frontier {

  /** A queued pair, the `int[]{v, dist[v]}` of the search. */
  datatype Entry = Entry(vertex: int, d: nat)

  /** `x` has at least one entry in the queue. */
  ghost predicate Queued(pq: seq<Entry>, x: int) {
    exists j :: 0 <= j < |pq| && pq[j].vertex == x
  }

  /** Removes and returns an entry of least distance. */
  method Poll(pq: seq<Entry>) returns (top: Entry, rest: seq<Entry>)
    requires pq != []
    ensures forall j :: 0 <= j < |pq| ==> top.d <= pq[j].d
    ensures multiset(rest) + multiset{top} == multiset(pq)
    ensures |rest| == |pq| - 1
  {
    var k := 0;
    for i := 1 to |pq|
      invariant 0 <= k < |pq|
      invariant forall j :: 0 <= j < i ==> pq[k].d <= pq[j].d
    {
      if pq[i].d < pq[k].d {
        k := i;
      }
    }
    top := pq[k];
    rest := pq[..k] + pq[k + 1..];
    assert pq == pq[..k] + [top] + pq[k + 1..];
  }

  /** Removing one stop's entry leaves every other queued stop queued. */
  lemma PollKeepsOthers(pq: seq<Entry>, top: Entry, rest: seq<Entry>, x: int)
    requires multiset(rest) + multiset{top} == multiset(pq)
    requires Queued(pq, x) && top.vertex != x
    ensures Queued(rest, x)
  {
    var j :| 0 <= j < |pq| && pq[j].vertex == x;
    assert pq[j] in multiset(pq);
    assert pq[j] != top;
    assert pq[j] in multiset(rest);
    assert pq[j] in rest;
    var j' :| 0 <= j' < |rest| && rest[j'] == pq[j];
  }
}
