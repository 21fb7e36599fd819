# Single-source shortest paths: a verified model of `ShortestPaths`

This project models the shortest-path engine of a small Java graph program.
`ShortestPaths.compute(origin)` rebuilds a map `paths` from each reached node
to a `PathData` record. A record holds the length of the best walk found from
the origin and the node before it on that walk. The engine fills the map with
a frontier priority queue and edge relaxation.

`shortestPathLength(d)` answers the recorded length, or positive infinity when
`d` has no record. `shortestPath(d)` follows the `previous` pointers back from
`d` and returns the nodes in walking order.

The model keeps the code's two departures from textbook Dijkstra:

- A newly discovered node enters the frontier with the weight of the
  discovering edge as its priority, not its accumulated distance.
- A later, strictly shorter route to a node rewrites its record but never
  touches the frontier. There is no decrease-key, and a node already polled
  is not polled again.

Because of these, recorded distances are not always the shortest ones. The
model proves what the code does guarantee.

Modules, one per file:

- `Wrappers` (`wrappers.dfy`): `Option`.
- `Graphs` (`graphs.dfy`): the weighted graph as an adjacency map with
  natural-number weights. It also defines walks, their weights,
  reachability, and closed node sets.
- `Frontier` (`frontier.dfy`): the priority queue as a map from node to
  priority. `Poll` removes some entry of least priority. Which one, among
  equal priorities, is left open.
- `Records` (`records.dfy`): `PathData`, `Distance` (finite or `Infinity`),
  and the invariants the records keep. Walking back along the predecessor
  pointers is the function `Backtrack`.
- `Dijkstra` (`shortest_paths.dfy`): the class `ShortestPaths`, with the
  `paths` field and its three operations. `Compute` is split into the
  methods it is made of:
  - `Explore`: the `while` loop over the frontier.
  - `PollAndVisit`: one iteration of that loop.
  - `VisitNeighbors`: the `for` loop over the neighbours. Its loop state
    is the predicate `Visiting`, and what it has done so far is `Progress`.
  - `VisitNeighbor`: one pass of that loop, which calls `Relax` and keeps
    `Visiting`.
  - `Relax`: the `if`/`else if` of that pass.
- `Scenarios` (`scenarios.dfy`): two clients that follow the source's tests.

Ghost state used by the proofs:

- `rank`: for each record, the moment it was last written. It orders nodes
  of equal distance, so that every predecessor lies strictly below its
  successor in (distance, rank). This is why predecessor chains are acyclic
  and `shortestPath` terminates.
- `walks`: for each record, a walk from the origin whose weight is exactly
  the recorded distance.
- `history`: every value the record map took during `Compute`.
- `enqueued` and `polled`: the nodes in the order they entered and left the
  frontier.

## Model

| member | source | states |
|---|---|---|
| Dijkstra.ShortestPaths.Compute | app/src/main/java/graph/ShortestPaths.java:37-64 | earlier records are discarded. Afterwards: the keys of `paths` are exactly the nodes reachable from the origin; the origin's record is (0, none); every other record has a predecessor that is recorded, has an edge to it, and whose distance plus that edge's weight is at most its own; predecessor chains are acyclic; every distance is the weight of a walk from the origin. The ghost trace starts from the map holding only the origin, ends at the stored map, and never lets a record get worse; the enqueue and poll orders each hold every recorded node exactly once, so there were as many polls as reachable nodes. That these traces follow the run is fixed step by step by `Relax` and `PollAndVisit` |
| Dijkstra.Explore | app/src/main/java/graph/ShortestPaths.java:44-62 | the polling loop keeps the record invariants and ends with the records exactly the reachable nodes; the history and the enqueue order given to it are prefixes of the ones it returns, the history stays monotone, and the poll order, built one poll at a time by `PollAndVisit`, holds each recorded node exactly once |
| Dijkstra.PollAndVisit | app/src/main/java/graph/ShortestPaths.java:45-61 | one iteration polls a node `f` of least priority that was not finished before and appends it to the poll order; relative to the queue without `f`, no record gets worse, `f`'s record is untouched, every neighbour of `f` ends at most `f`'s distance plus the edge weight, queued entries keep their priority, new entries are neighbours of `f` queued with their edge weight, and history and enqueue order only grow; the loop invariant `Exploring` holds again with `f` finished |
| Dijkstra.VisitNeighbors | app/src/main/java/graph/ShortestPaths.java:47-61 | after the neighbour loop every neighbour of the polled node `f` is recorded at most `f`'s distance plus the edge weight; no record got worse and `f`'s own is untouched; queued entries keep their priority and new ones are neighbours queued with their edge weight; the record invariants, the split into queued and finished nodes, and the monotone history are preserved, and history and enqueue order only grow |
| Dijkstra.Relax | app/src/main/java/graph/ShortestPaths.java:53-60 | an unseen neighbour is recorded with distance through `f`, predecessor `f`, and queued with the edge weight as priority; a seen one is rewritten only on strict improvement, and the frontier is then unchanged; the invariants hold afterwards, the node set grows by exactly `w`, no record gets worse, the history gains the new map exactly when the map changed, and `w` joins the enqueue order exactly when it had no record |
| Dijkstra.VisitNeighbor | app/src/main/java/graph/ShortestPaths.java:47-60 | one pass of the neighbour loop keeps the loop state `Visiting` and adds the relaxed neighbour to the visited set |
| Dijkstra.ProgressCompose | app/src/main/java/graph/ShortestPaths.java:47-61 | the effects of two stretches of the neighbour loop compose: records still no worse, visited neighbours still within `f`'s distance plus their edge weight, frontier entries kept, history and enqueue order prefixes |
| Dijkstra.ExploringStarts | app/src/main/java/graph/ShortestPaths.java:38-44 | before the first poll, with only queued records, the loop invariant holds |
| Dijkstra.ExploringEnds | app/src/main/java/graph/ShortestPaths.java:44 | when the frontier is empty, the records are exactly the reachable nodes and the number of polls equals the number of records |
| Dijkstra.FirstRecord | app/src/main/java/graph/ShortestPaths.java:38-43 | the initial map holding only the origin at (0, none) satisfies every record invariant |
| Dijkstra.RecordsAreReachable | app/src/main/java/graph/ShortestPaths.java:53-57 | a witnessed record set that contains the origin and that no edge leaves is exactly the set of nodes reachable from the origin (both directions) |
| Dijkstra.DistinctCardinality | app/src/main/java/graph/ShortestPaths.java:44-46 | a sequence without repetitions has as many elements as the set of its members; this counts the polls |
| Dijkstra.LengthOf | app/src/main/java/graph/ShortestPaths.java:76-82 | finite exactly when the node has a record, and then equal to its recorded distance; otherwise infinity |
| Dijkstra.ShortestPaths.ShortestPathLength | app/src/main/java/graph/ShortestPaths.java:76-82 | the recorded distance of `destination`, or infinity exactly when it has no record |
| Dijkstra.ShortestPaths.ShortestPath | app/src/main/java/graph/ShortestPaths.java:90-101 | the empty sequence when `destination` has no record; otherwise the loop terminates and returns a walk along edges from the origin to `destination`, with each node strictly above the previous one in (distance, rank), so no repeats; its weight is at most the recorded distance; for the origin itself the result is exactly `[origin]` |
| Records.Backtrack | app/src/main/java/graph/ShortestPaths.java:94-99 | following predecessors from `d` terminates; the result is non-empty exactly when `d` is recorded, ends at `d`, and lists only recorded nodes |
| Records.BacktrackIsWalk | app/src/main/java/graph/ShortestPaths.java:94-99 | for a recorded `d` the predecessor walk starts at the origin, ends at `d`, follows edges, and weighs no more than `d`'s recorded distance |
| Records.BacktrackAscends | app/src/main/java/graph/ShortestPaths.java:94-99 | along the predecessor walk, nodes strictly ascend in (distance, rank) |
| Records.AscendingIsSimple | app/src/main/java/graph/ShortestPaths.java:94-99 | an ascending walk repeats no node, and recorded distances never decrease along it |
| Records.RecordStep | app/src/main/java/graph/ShortestPaths.java:53-60 | writing a first or strictly better record for a neighbour of a recorded node keeps every record invariant (root, links, acyclic order, witnessing walks), and no record gets worse |
| Records.MonotoneExtend | app/src/main/java/graph/ShortestPaths.java:58-60 | appending a state no worse than the last keeps the history monotone |
| Records.MonotoneSpan | app/src/main/java/graph/ShortestPaths.java:58-60 | in a monotone history, every later state keeps each record of an earlier one at no larger distance |
| Records.ZeroStaysZero | app/src/main/java/graph/ShortestPaths.java:42-43 | a record that starts at distance 0, such as the origin's, stays at distance 0 in every state of a monotone history |
| Frontier.Poll | app/src/main/java/graph/ShortestPaths.java:46 | the polled node has the least priority in the queue; it is removed and every other entry keeps its priority |
| Frontier.MinimumAmong | app/src/main/java/graph/ShortestPaths.java:46 | every non-empty set of queued nodes has one of least priority |
| Graphs.ExtendWalk | app/src/main/java/graph/ShortestPaths.java:54 | extending a walk by an edge gives a walk whose weight grows by that edge's weight |
| Graphs.ClosedWalkStaysInside | app/src/main/java/graph/ShortestPaths.java:48-57 | a walk that starts in a node set no edge leaves stays in it |
| Graphs.ClosedContainsReachable | app/src/main/java/graph/ShortestPaths.java:48-57 | such a set that contains `u` contains every node reachable from `u` |
| Graphs.SinkReachesOnlyItself | app/src/test/java/graph/ShortestPathsTest.java:114-118 | a node without outgoing edges reaches exactly itself |
| Scenarios.ComputeFromSink | app/src/test/java/graph/ShortestPathsTest.java:114-118 | computing from a node without outgoing edges leaves one record, the origin at distance 0; any other node has length infinity and an empty path; the origin's path is the origin alone |
| Scenarios.SingleEdgeWalks | app/src/test/java/graph/ShortestPathsTest.java:64-66 | in the graph with the single edge A to B, the only walks from A are A and A, B |
| Scenarios.ComputeSingleEdge | app/src/test/java/graph/ShortestPathsTest.java:55-68 | computing from A in that graph gives B length 1 and the path A, B |

## Left out

- `parseGraph` and `main`: file input, command-line handling and printing.
  The graph is a parameter of `Compute` instead of coming from a parsed file.
- `getPaths`: a plain accessor. The model's `paths` field is public, so the
  tests' `getPaths().size()` is the size of that field.
- The internals of `heap.Heap`. The frontier is an abstract map from node to
  priority, and `Poll` returns some entry of least priority.
- `Graph` and `Node`: their implementation and `Graph.report()`. A node is
  its label, and the graph is a map from a node to its outgoing edges.
- `HashMap` iteration order over neighbours. The model visits them in an
  arbitrary order and proves its results for every order.
- IEEE `double`. Weights and distances are natural numbers, and positive
  infinity is the constructor `Infinity`.
- The test graph files `Simple0.txt`, `Simple1.txt` and `Simple2.txt`. They
  are not part of this model, so their concrete expected distances are not
  modelled. Two small graphs of the same kind are in `Scenarios`.
- Global optimality of the distances. The code does not guarantee it,
  because of the edge-weight priority and the missing decrease-key. A hand
  trace shows this. Take edges A to P (3), A to Q (6), P to B (5), Q to B (1)
  and B to C (1):
  - P is polled before Q, and B before Q.
  - C is therefore recorded at 9 through B's first record (8).
  - Q later lowers B to 7, but C keeps 9, although A, Q, B, C weighs 8.

  The model proves only the weaker facts: each distance is the weight of
  some walk, and the reconstructed path weighs no more than it.
- `compute` documents that `origin` is a node of the graph
  (ShortestPaths.java:36) but does not check it (ShortestPaths.java:37-43).
  The model follows the code: any origin gets the record (0, none), and a
  node the graph does not list has no edges.
- The doc comment of `shortestPath` (ShortestPaths.java:87) promises
  `null` for a destination without a record, but the code returns an empty
  list (ShortestPaths.java:91-100). The model follows the code and returns
  the empty sequence.
- Dijkstra.ShortestPaths.ShortestPathLength: does not model the Java
  `NullPointerException` when it is called before any `compute`. The
  constructor starts with an empty map, so such a call answers infinity.
  `ShortestPath` requires the record invariants, which hold only after
  `Compute`.
- Dijkstra.ShortestPaths.Compute: builds the record map in a local variable
  and stores it in the field when the loop ends, instead of updating the
  field in place. The only read of the field during the run is the call
  `shortestPathLength(w)` at ShortestPaths.java:58. The model answers it
  with `LengthOf(paths, w)` on the local map, which holds the same
  contents, so the result is the same.
- Dijkstra.ShortestPaths.Compute: the ghost trace of the run (walks,
  history, enqueued and polled nodes) is returned as ghost results rather
  than kept in the object.
- Dijkstra.ShortestPaths.Compute: that the origin's record is never
  overwritten is stated through invariants. Every step keeps `Rooted`, which
  pins the origin's record, and `Records.ZeroStaysZero` keeps its distance
  at 0 throughout the history. There is no separate statement about each
  intermediate map.
