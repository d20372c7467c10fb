/** The planner's own network: eight stops (home stops 1 to 7 and the college) joined by eleven
    roads, and the route it reports from Stop 1 to the college. */
module SchoolBus {
  import opened Paths
  import opened RouteGraph
  import opened Route

  /** Number of stops; index 7 is the college. */
  const Stops := 8
  const College := 7

  /** The adjacency lists the eleven `AddEdge` calls build, in insertion order. */
  function Network(): (r: Adjacency) {
    [ [Edge(1, 24), Edge(3, 16)],
      [Edge(0, 24), Edge(4, 19), Edge(5, 32), Edge(3, 14)],
      [Edge(3, 17)],
      [Edge(0, 16), Edge(1, 14), Edge(4, 11), Edge(2, 17)],
      [Edge(1, 19), Edge(3, 11), Edge(6, 21), Edge(7, 23)],
      [Edge(1, 32), Edge(7, 7)],
      [Edge(4, 21), Edge(7, 10)],
      [Edge(4, 23), Edge(5, 7), Edge(6, 10)] ]
  }

  /** Shortest distances from Stop 1 (index 0). */
  function HomeDist(): (r: seq<Dist>) {
    [Fin(0), Fin(24), Fin(33), Fin(16), Fin(27), Fin(56), Fin(48), Fin(50)]
  }

  /** The predecessor of every stop on its shortest route from Stop 1. */
  function HomePrev(): (r: seq<int>) {
    [-1, 0, 3, 0, 3, 1, 4, 4]
  }

  /** Eight stops and no roads yet. */
  function NoRoads(): (r: Adjacency) {
    [[], [], [], [], [], [], [], []]
  }

  /** Builds the network with the roads in the order the planner adds them. */
  method BuildNetwork() returns (g: Graph)
    ensures fresh(g) && g.Valid() && g.V == Stops
    ensures g.adj == Network()
  {
    g := new Graph(Stops);
    assert g.adj == NoRoads();
    g.AddEdge(0, 1, 24);
    g.AddEdge(1, 4, 19);
    g.AddEdge(1, 5, 32);
    g.AddEdge(3, 0, 16);
    g.AddEdge(3, 1, 14);
    g.AddEdge(3, 4, 11);
    g.AddEdge(4, 6, 21);
    g.AddEdge(4, 7, 23);
    g.AddEdge(5, 7, 7);
    g.AddEdge(6, 7, 10);
    g.AddEdge(2, 3, 17);
    RoadsInOrder();
  }

  /** Adding the eleven roads, in order, to eight empty lists yields `Network()`. */
  lemma RoadsInOrder()
    ensures WithEdge(WithEdge(WithEdge(WithEdge(WithEdge(WithEdge(WithEdge(WithEdge(WithEdge(WithEdge(WithEdge(NoRoads(), 0, 1, 24), 1, 4, 19), 1, 5, 32), 3, 0, 16), 3, 1, 14), 3, 4, 11), 4, 6, 21), 4, 7, 23), 5, 7, 7), 6, 7, 10), 2, 3, 17) == Network()
  {
    FirstSixRoads();
    LastFiveRoads();
  }

  /** The lists once the first six roads are in. */
  function HalfBuilt(): (r: Adjacency) {
    [[Edge(1, 24), Edge(3, 16)], [Edge(0, 24), Edge(4, 19), Edge(5, 32), Edge(3, 14)], [], [Edge(0, 16), Edge(1, 14), Edge(4, 11)], [Edge(1, 19), Edge(3, 11)], [Edge(1, 32)], [], []]
  }

  lemma FirstSixRoads()
    ensures WithEdge(WithEdge(WithEdge(WithEdge(WithEdge(WithEdge(NoRoads(), 0, 1, 24), 1, 4, 19), 1, 5, 32), 3, 0, 16), 3, 1, 14), 3, 4, 11) == HalfBuilt()
  {
    var a0: Adjacency := NoRoads();
    var a1 := WithEdge(a0, 0, 1, 24);
    assert a1[0] == [Edge(1, 24)] && a1[1] == [Edge(0, 24)];
    var a2 := WithEdge(a1, 1, 4, 19);
    assert a2[1] == [Edge(0, 24), Edge(4, 19)] && a2[4] == [Edge(1, 19)];
    var a3 := WithEdge(a2, 1, 5, 32);
    assert a3[1] == [Edge(0, 24), Edge(4, 19), Edge(5, 32)] && a3[5] == [Edge(1, 32)];
    var a4 := WithEdge(a3, 3, 0, 16);
    assert a4[3] == [Edge(0, 16)] && a4[0] == [Edge(1, 24), Edge(3, 16)];
    var a5 := WithEdge(a4, 3, 1, 14);
    assert a5[3] == [Edge(0, 16), Edge(1, 14)] && a5[1] == [Edge(0, 24), Edge(4, 19), Edge(5, 32), Edge(3, 14)];
    var a6 := WithEdge(a5, 3, 4, 11);
    assert a6[3] == [Edge(0, 16), Edge(1, 14), Edge(4, 11)] && a6[4] == [Edge(1, 19), Edge(3, 11)];
    assert a6 == HalfBuilt();
  }

  lemma LastFiveRoads()
    ensures WithEdge(WithEdge(WithEdge(WithEdge(WithEdge(HalfBuilt(), 4, 6, 21), 4, 7, 23), 5, 7, 7), 6, 7, 10), 2, 3, 17) == Network()
  {
    var a0: Adjacency := HalfBuilt();
    var a1 := WithEdge(a0, 4, 6, 21);
    assert a1[4] == [Edge(1, 19), Edge(3, 11), Edge(6, 21)] && a1[6] == [Edge(4, 21)];
    var a2 := WithEdge(a1, 4, 7, 23);
    assert a2[4] == [Edge(1, 19), Edge(3, 11), Edge(6, 21), Edge(7, 23)] && a2[7] == [Edge(4, 23)];
    var a3 := WithEdge(a2, 5, 7, 7);
    assert a3[5] == [Edge(1, 32), Edge(7, 7)] && a3[7] == [Edge(4, 23), Edge(5, 7)];
    var a4 := WithEdge(a3, 6, 7, 10);
    assert a4[6] == [Edge(4, 21), Edge(7, 10)] && a4[7] == [Edge(4, 23), Edge(5, 7), Edge(6, 10)];
    var a5 := WithEdge(a4, 2, 3, 17);
    assert a5[2] == [Edge(3, 17)] && a5[3] == [Edge(0, 16), Edge(1, 14), Edge(4, 11), Edge(2, 17)];
    assert a5 == Network();
  }

  /** The network has no roads of negative weight and no parallel roads to mislead the report. */
  lemma NetworkShape()
    ensures NonNegative(Network()) && FirstIsLightest(Network())
  {
    var adj: Adjacency := Network();
    forall u, i | 0 <= u < |adj| && 0 <= i < |adj[u]|
      ensures FirstWeight(adj[u], adj[u][i].to) <= adj[u][i].weight
    {
      assert u == 0 || u == 1 || u == 2 || u == 3 || u == 4 || u == 5 || u == 6 || u == 7;
    }
  }

  /** The reference tables form a shortest-path tree from Stop 1. */
  lemma HomeTree()
    ensures ShortestPathTree(Network(), 0, HomeDist(), HomePrev())
  {
    HomeTriangle();
    HomeLinks();
    var rank: seq<nat> := [0, 24, 33, 16, 27, 56, 48, 50];
    assert Ranked(HomePrev(), rank);
  }

  /** No road leads to a stop more cheaply than its reference distance. */
  lemma HomeTriangle()
    ensures Triangle(Network(), HomeDist())
  {
    var adj: Adjacency, D: seq<Dist> := Network(), HomeDist();
    forall u | 0 <= u < |adj| ensures Settled(adj, D, u) {
      forall i | 0 <= i < |adj[u]| ensures EdgeSettled(adj, D, u, i) {
        assert u == 0 || u == 1 || u == 2 || u == 3 || u == 4 || u == 5 || u == 6 || u == 7;
      }
    }
  }

  /** Every reference predecessor is joined to its stop by a road of exactly the distance gap. */
  lemma HomeLinks()
    ensures forall v :: 0 <= v < Stops ==> TightPred(Network(), HomeDist(), HomePrev(), v)
  {
    var adj: Adjacency, D: seq<Dist>, P: seq<int> := Network(), HomeDist(), HomePrev();
    var links := [0, 0, 3, 1, 2, 2, 2, 3];
    forall v | 0 <= v < |adj| ensures TightPred(adj, D, P, v) {
      if v != 0 {
        var i := links[v];
        assert adj[P[v]][i].to == v && D[v].n == D[P[v]].n + adj[P[v]][i].weight;
      }
    }
  }

  /** From Stop 1 the distances are forced, and since no stop can be reached by two routes of the
      same length, so is the predecessor table. */
  lemma HomeTreeUnique(D: seq<Dist>, P: seq<int>)
    requires ShortestPathTree(Network(), 0, D, P)
    ensures D == HomeDist() && P == HomePrev()
  {
    HomeTree();
    DistUnique(Network(), 0, D, P, HomeDist(), HomePrev());
    forall v | 0 <= v < |P| ensures P[v] == HomePrev()[v] {
      assert TightPred(Network(), D, P, v);
      if v == 0 {
      } else {
        assert Rooted(0, D, P);
        ForcedPred(P, v);
      }
    }
  }

  /** A stop other than Stop 1 has one predecessor that its distance allows. */
  lemma ForcedPred(P: seq<int>, v: int)
    requires 0 < v < Stops && |P| == Stops && P[v] != -1
    requires TightPred(Network(), HomeDist(), P, v)
    ensures P[v] == HomePrev()[v]
  {
    var adj: Adjacency, D: seq<Dist> := Network(), HomeDist();
    var u := P[v];
    var i :| 0 <= i < |adj[u]| && adj[u][i].to == v && D[v].n == D[u].n + adj[u][i].weight;
    if u == 0 {} else if u == 1 {} else if u == 2 {} else if u == 3 {}
    else if u == 4 {} else if u == 5 {} else if u == 6 {} else {}
  }

  /** The report from Stop 1 to the college: distance 50 along 0, 3, 4, 7 with the segments
      16, 11 and 23. */
  method HomeToCollege() returns (dist: array<Dist>, prev: array<int>, path: seq<int>, weights: seq<int>)
    ensures dist[..] == HomeDist() && prev[..] == HomePrev()
    ensures dist[College] == Fin(50)
    ensures path == [0, 3, 4, 7] && weights == [16, 11, 23]
  {
    var g := BuildNetwork();
    NetworkShape();
    dist, prev, path, weights := ShortestRoute(g, 0, College);
    HomeRoute(dist[..], prev[..], path, weights);
  }

  /** Any search result from Stop 1 on this network, walked back from the college, gives the
      route 0, 3, 4, 7 and the segment weights 16, 11, 23. */
  lemma HomeRoute(D: seq<Dist>, P: seq<int>, path: seq<int>, weights: seq<int>)
    requires ShortestPathTree(Network(), 0, D, P) && IsPrevChain(P, path, College)
    requires weights == SegmentWeights(Network(), path)
    ensures D == HomeDist() && P == HomePrev()
    ensures path == [0, 3, 4, 7] && weights == [16, 11, 23]
  {
    HomeTreeUnique(D, P);
    HomeChain();
    ChainUnique(P, path, [0, 3, 4, 7], College);
    HomeSegments();
  }

  /** Walking the reference predecessors back from the college gives 0, 3, 4, 7. */
  lemma HomeChain()
    ensures IsPrevChain(HomePrev(), [0, 3, 4, 7], College)
  {
  }

  /** The lookups for the segments of 0, 3, 4, 7 give 16, 11 and 23. */
  lemma HomeSegments()
    ensures SegmentWeights(Network(), [0, 3, 4, 7]) == [16, 11, 23]
  {
    var adj: Adjacency := Network();
    assert FirstWeight(adj[0], 3) == 16 && FirstWeight(adj[3], 4) == 11 && FirstWeight(adj[4], 7) == 23;
  }
}
