# School bus route planner — verified model of the graph core

The planner in `SchoolBusRouteGUI.java` keeps a small undirected road network of bus stops as
adjacency lists (`Graph`). It runs Dijkstra's search from the home stop the user picks. Then it walks
the predecessor table back from the college (index 7) and looks up the weight of every segment of the
route it finds. This project models that core in Dafny and proves what the code does:

- `paths.dfy` (module `Paths`) holds the shared vocabulary. An adjacency entry is `Edge(to, weight)`.
  A distance is `Fin(n)` or `Inf`, where `Inf` stands for `Integer.MAX_VALUE`. It also defines walks,
  the first-match lookup `FirstWeight`, predecessor chains and the `ShortestPathTree` property. Its
  lemmas derive from that property that distances are true shortest-walk weights, that the chain of
  every reached stop starts at the source, and, when the first-listed entry between two stops is the
  lightest (`FirstIsLightest`), that the reported segment weights add up to the distance.
- `frontier.dfy` (module `Frontier`) models the priority queue of `(stop, distance)` pairs. Only
  `poll` is modelled, by its extract-minimum contract.
- `graph.dfy` (module `RouteGraph`) holds the `Graph` class. Its constructor, `AddEdge`, `EdgeWeight`
  and `Dijkstra` keep the Java shape: `adj` is a field that `AddEdge` reassigns, `Dijkstra` fills the
  caller's `prev` array and returns a fresh `dist` array, and the search is a `while` loop over the
  queue with an inner loop over the polled stop's entries (`Expand`).
- `relaxation.dfy` (module `Relaxation`) holds the loop invariants of the search and one lemma per
  step (seed, poll, relax, skip, finish, stop). Ghost stamps record when each distance was last
  lowered. The pair (distance, stamp) grows along every predecessor link, so the links are acyclic
  even across zero-weight entries.
- `route.dfy` (module `Route`) models the path walk and the segment lookups of `main`, with the
  target as a parameter instead of the literal 7.
- `school_bus.dfy` (module `SchoolBus`) builds the planner's own eight-stop network with its eleven
  `addEdge` calls. It proves that from Stop 1 the search ends with distance 50 at the college, along
  0, 3, 4, 7 with segments 16, 11 and 23, however ties in the queue are broken.

Facts about the code that the model keeps:

- The search does not skip stale queue entries. A polled stop is expanded again with its current
  distance. The model does the same and proves the result correct anyway.
- From Stop 1 the college is at distance 50, along 0→3→4→7.
- A missing edge is reported as `-1`.

The search's correctness needs non-negative weights. The source never checks for them; the model
states them as the precondition `NonNegative` of `Dijkstra`. Vertex indices out of range make the
Java code throw; the model states in-range indices as preconditions instead.

The report shows, for each segment, the weight of the FIRST entry between the two stops. With
parallel roads this can disagree with the search; see "## Findings".

## Model

| member | source | states |
|---|---|---|
| `RouteGraph.Graph.constructor` | SchoolBusRouteGUI.java:21-25 | exactly `V` adjacency lists (none for negative `V`), all empty |
| `RouteGraph.Graph.AddEdge` | SchoolBusRouteGUI.java:28-31 | the new lists are the old ones with `Edge(v, w)` appended to `u`'s list, then `Edge(u, w)` to `v`'s; the graph stays well formed and undirected |
| `RouteGraph.WithEdgeContents` | SchoolBusRouteGUI.java:28-31 | adding an edge appends exactly one entry to the end of each endpoint's list (two for a loop) and leaves every other list unchanged |
| `RouteGraph.AddKeepsUndirected` | SchoolBusRouteGUI.java:28-31 | a mirrored pair of appends keeps every entry in range and keeps `u→v,w` entries as numerous as `v→u,w` entries |
| `RouteGraph.WithEdgeLookup` | SchoolBusRouteGUI.java:28-31 | after adding `u–v` with weight `w` and no earlier `u–v` edge, the lookup gives `w` both ways; with an earlier edge both lookups are unchanged |
| `RouteGraph.Graph.EdgeWeight` | SchoolBusRouteGUI.java:61-66 | the early-return scan returns the first-match lookup `FirstWeight(adj[u], v)` |
| `Paths.FirstWeightSpec` | SchoolBusRouteGUI.java:61-66 | the lookup is `-1` when no entry leads to `v`, and otherwise the weight at the first position leading to `v` |
| `Paths.FirstWeightAppend` | SchoolBusRouteGUI.java:61-66 | appending entries never changes a lookup that already succeeds; a failing lookup is answered by the appended entries |
| `Paths.EdgeMirrored` | SchoolBusRouteGUI.java:28-31 | in an undirected structure `u` lists `v` exactly when `v` lists `u` |
| `Frontier.Poll` | SchoolBusRouteGUI.java:41-45 | returns an entry of least distance and the remaining entries, which together are the old queue |
| `Frontier.PollKeepsOthers` | SchoolBusRouteGUI.java:45 | polling one stop's entry leaves every other queued stop queued |
| `RouteGraph.Graph.Dijkstra` | SchoolBusRouteGUI.java:34-58 | returns a fresh `dist` of length `V` and fills `prev` so that they form a shortest-path tree from `source` |
| `RouteGraph.Graph.Expand` | SchoolBusRouteGUI.java:48-55 | relaxing the polled stop's entries keeps the search invariants, leaves `dist[u]` as it was and settles `u`, never raises a distance, and lowers the termination measure unless nothing changed; every stop either keeps its distance and predecessor or now has predecessor `u` and a strictly lower distance equal to `dist[u]` plus the weight of one of `u`'s entries to it; the old queue is a prefix of the new one and each appended entry carries such a relaxed distance |
| `Relaxation.InitialSearch` | SchoolBusRouteGUI.java:35-42 | filling `dist` with "not reached" and `prev` with `-1`, setting `dist[source] = 0` and seeding the queue establishes the loop invariants |
| `Relaxation.PollStep` | SchoolBusRouteGUI.java:44-46 | every reached stop is still being expanded, queued or settled after a poll |
| `Relaxation.RelaxStep` | SchoolBusRouteGUI.java:50-53 | a strict improvement (it never touches the source or the expanded stop) keeps the invariants, settles the entry and lowers the termination measure |
| `Relaxation.RelaxKeepsPreds` | SchoolBusRouteGUI.java:50-53 | after `dist[v]` and `prev[v] = u` change, every predecessor link is still backed by an entry and still increases (distance, stamp) |
| `Relaxation.LoweringLowers` | SchoolBusRouteGUI.java:50-51 | lowering one distance strictly lowers (unreached count, finite sum), so the loop terminates |
| `Relaxation.SkipStep` | SchoolBusRouteGUI.java:50 | an entry that fails the strict `<` test already satisfies the triangle inequality |
| `Relaxation.FinishStep` | SchoolBusRouteGUI.java:48-55 | once all entries of the polled stop are settled, every reached stop is queued or settled, with no stop under expansion |
| `Relaxation.SearchDone` | SchoolBusRouteGUI.java:44-57 | with the queue empty the tables form a shortest-path tree |
| `Relaxation.DrainedSettled` | SchoolBusRouteGUI.java:44-56 | with the queue empty every reached stop satisfies the triangle inequality on each of its entries |
| `Relaxation.PredsTight` | SchoolBusRouteGUI.java:52 | at the end each `prev[v] = u` is backed by an entry `u→v,w` with `dist[v] == dist[u] + w` |
| `Relaxation.StampsRank` | SchoolBusRouteGUI.java:52 | the predecessor links are acyclic at every point of the search |
| `Paths.WalkLowerBound` | SchoolBusRouteGUI.java:44-56 | under the triangle inequality no walk from the source is lighter than the distance of its end |
| `Paths.DistIsShortest` | SchoolBusRouteGUI.java:34-58 | each distance is at most the weight of every walk to the stop, and a reached stop has a walk of exactly its distance |
| `Paths.ReachableIffFinite` | SchoolBusRouteGUI.java:34-58 | a stop is reached exactly when a walk leads to it; an unreachable stop keeps "not reached" and `prev == -1` |
| `Paths.DistUnique` | SchoolBusRouteGUI.java:34-58 | any two results for the same source have the same distance table, however ties were broken |
| `Paths.TriangleBothWays` | SchoolBusRouteGUI.java:44-56 | in the undirected graph the triangle inequality holds across each edge in both directions |
| `Paths.ChainExists` | SchoolBusRouteGUI.java:196-201 | acyclic links give every stop a predecessor chain ending at it |
| `Paths.ChainUnique` | SchoolBusRouteGUI.java:196-201 | the predecessor table determines the chain ending at a stop |
| `Paths.ChainSingleton` | SchoolBusRouteGUI.java:196-201 | the chain is the target alone exactly when the target has no predecessor |
| `Paths.UnreachedChain` | SchoolBusRouteGUI.java:196-201 | the chain of an unreachable target is that target alone |
| `Paths.ChainWalk` | SchoolBusRouteGUI.java:196-201 | the chain of a reached target starts at the source and is a walk whose weights sum to the target's distance |
| `Paths.ChainSegmentsWalk` | SchoolBusRouteGUI.java:203-208 | the looked-up segment weights of a reached target's chain are weights of actual entries, so the chain with them is a walk |
| `Paths.FirstEntryTight` | SchoolBusRouteGUI.java:203-208 | when the first-listed entry is the lightest, the link from `prev[t]` to `t` is tight for the looked-up weight |
| `Paths.ChainSegmentCost` | SchoolBusRouteGUI.java:196-208 | when the first-listed entry is the lightest, the looked-up segment weights sum to the target's distance |
| `Route.ReconstructPath` | SchoolBusRouteGUI.java:196-201 | the prepend loop terminates and returns the predecessor chain ending at the target |
| `Route.RouteSegments` | SchoolBusRouteGUI.java:203-208 | returns one lookup weight per consecutive pair of the route |
| `Route.ShortestRoute` | SchoolBusRouteGUI.java:190-208 | the route starts at the source and ends at the target; it is a walk no lighter than the distance; its weight equals the distance when first-listed entries are lightest; an unreachable target or `target == source` gives the target alone and no segments |
| `Route.ParallelEdgesReport` | SchoolBusRouteGUI.java:61-66 | with two parallel entries listed heavier first, the reported segment weight exceeds the distance |
| `SchoolBus.BuildNetwork` | SchoolBusRouteGUI.java:143-156 | the eleven `addEdge` calls on eight stops build exactly the listed adjacency lists |
| `SchoolBus.RoadsInOrder` | SchoolBusRouteGUI.java:146-156 | applying the eleven additions in order to eight empty lists gives the network |
| `SchoolBus.NetworkShape` | SchoolBusRouteGUI.java:146-156 | the network has no negative weights and its first-listed entries are the lightest |
| `SchoolBus.HomeTree` | SchoolBusRouteGUI.java:146-156 | the reference tables from Stop 1 (college at 50) form a shortest-path tree |
| `SchoolBus.HomeTreeUnique` | SchoolBusRouteGUI.java:190-191 | every search result from Stop 1 is exactly the reference tables |
| `SchoolBus.HomeRoute` | SchoolBusRouteGUI.java:196-208 | from Stop 1 the route to the college is 0, 3, 4, 7 with segments 16, 11, 23 |
| `SchoolBus.HomeToCollege` | SchoolBusRouteGUI.java:190-208 | building the network, searching from Stop 1 and walking back from the college gives `dist[7] == 50`, route 0, 3, 4, 7 and weights 16, 11, 23 |

## Findings

| source | as written | input that shows it | evidently intended | confidence | as-written member | corrected member |
|---|---|---|---|---|---|---|
| SchoolBusRouteGUI.java:50, 62-63, 203-208 | the search relaxes through every entry of a stop, so it may use a later, lighter parallel road, while the report looks up the first-listed road between the two stops | two stops joined by roads of weight 5 then 3: the search reaches stop 1 at distance 3, the report shows segment weight 5 | the reported segment weights add up to the target's distance | not executed | `Route.ParallelEdgesReport` | `Paths.ChainSegmentCost` |

`Paths.ChainSegmentCost` proves the total equals the distance when the first-listed entry between
two stops is the lightest (`FirstIsLightest`). That condition holds whenever there are no parallel
roads, and `SchoolBus.NetworkShape` proves it for the built-in network. `Route.ShortestRoute` uses it
for its total.

## Left out

- The Swing drawing (`GraphPanel`, `paintComponent`), the source-selection dialog, the text area and the
  frame are rendering and user input. They are not part of this model. The source stop is a parameter.
- Stop-label formatting ("Stop n", "College") and the report string are presentation only.
- Java `int` overflow in `dist[u] + weight`. Distances are unbounded naturals, and `Inf` replaces
  `Integer.MAX_VALUE`.
- `java.util.PriorityQueue` internals. `Poll` gives any least entry (the model takes the first one);
  every property of the search holds whichever least entry is taken, because `Expand` is proved for
  any polled stop.
- Negative weights and out-of-range stop indices, which the source does not check, are preconditions
  (`NonNegative`, index bounds). `Dijkstra` also requires `prev` to have length `V`.
- The spread of the predecessor table under ties: for a general graph only distances are proved
  unique (`DistUnique`); which equal-cost predecessor wins depends on queue order and is left open.
