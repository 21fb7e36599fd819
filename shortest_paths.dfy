/** The single-source shortest-path engine: `Compute` rebuilds the record map
    from one origin with a frontier queue and edge relaxation, and the two
    queries answer from the records of the most recent computation. */
module Dijkstra {

  import opened Wrappers
  import opened Graphs
  import opened Frontier
  import opened Records

  /** No element of `s` occurs twice. */
  ghost predicate Distinct(s: seq<Node>)
  {
    forall i, j :: 0 <= i < j < |s| ==> s[i] != s[j]
  }

  /** A sequence without repetitions is as long as the set of its elements. */
  lemma {:induction false} DistinctCardinality(s: seq<Node>, k: set<Node>)
    requires Distinct(s)
    requires forall x :: x in s <==> x in k
    ensures |s| == |k|
    decreases |s|
  {
    if s != [] {
      var last := s[|s| - 1];
      var init := s[..|s| - 1];
      assert Distinct(init) by {
        forall i, j | 0 <= i < j < |init|
          ensures init[i] != init[j]
        {
          assert init[i] == s[i] && init[j] == s[j];
        }
      }
      assert last !in init by {
        forall i | 0 <= i < |init|
          ensures init[i] != last
        {
          assert init[i] == s[i];
        }
      }
      assert forall x :: x in init <==> x in k - {last} by {
        assert s == init + [last];
      }
      DistinctCardinality(init, k - {last});
    }
  }

  /** The recorded distance of `d`, or infinity when `d` has no record. */
  function LengthOf(paths: Paths, d: Node): (r: Distance)
    ensures r.Finite? <==> d in paths
    ensures r.Finite? ==> r.value == paths[d].distance
  {
    if d in paths then Finite(paths[d].distance) else Infinity
  }

  /** One pass of the neighbour loop: the neighbour `w` of the polled node
      `f` is queued and recorded when it is neither queued nor recorded yet
      (its priority is the weight of the edge from `f`, not its distance);
      otherwise its record is rewritten when the route through `f` is
      strictly shorter, and the frontier is left alone. The ghost
      parameters track the proof state: write times, witnessing walks, the
      history of record maps and the order of enqueueing. */
  method Relax(g: Graph, origin: Node, f: Node, w: Node, paths: Paths, frontier: Queue,
               ghost rank: map<Node, nat>, ghost walks: map<Node, seq<Node>>, ghost clock: nat,
               ghost history: seq<Paths>, ghost enqueued: seq<Node>)
    returns (paths': Paths, frontier': Queue,
             ghost rank': map<Node, nat>, ghost walks': map<Node, seq<Node>>, ghost clock': nat,
             ghost history': seq<Paths>, ghost enqueued': seq<Node>)
    requires Consistent(g, origin, paths, rank, walks)
    requires forall x :: x in rank ==> rank[x] < clock
    requires f in paths && w in Neighbors(g, f)
    requires frontier.Keys <= paths.Keys
    requires Distinct(enqueued) && forall x :: x in enqueued <==> x in paths
    requires |history| > 0 && history[|history| - 1] == paths && Monotone(history)
    ensures var d := paths[f].distance + Neighbors(g, f)[w];
      if w !in frontier && w !in paths then
        paths' == paths[w := PathData(d, Some(f))] && frontier' == frontier[w := Neighbors(g, f)[w]]
      else if LengthOf(paths, w).Exceeds(d) then
        paths' == paths[w := PathData(d, Some(f))] && frontier' == frontier
      else
        paths' == paths && frontier' == frontier
    ensures Consistent(g, origin, paths', rank', walks')
    ensures forall x :: x in rank' ==> rank'[x] < clock'
    ensures paths'.Keys == paths.Keys + {w}
    ensures frontier'.Keys == frontier.Keys + (paths'.Keys - paths.Keys)
    ensures Progress(g, f, paths, frontier, history, enqueued, paths', frontier', history', enqueued', {w})
    ensures enqueued' == if w in paths then enqueued else enqueued + [w]
    ensures history' == if paths' == paths then history else history + [paths']
    ensures Distinct(enqueued') && forall x :: x in enqueued' <==> x in paths'
    ensures |history'| > 0 && history'[0] == history[0]
    ensures history'[|history'| - 1] == paths' && Monotone(history')
  {
    paths', frontier', rank', walks', clock', history', enqueued' :=
      paths, frontier, rank, walks, clock, history, enqueued;
    var weight := Neighbors(g, f)[w];
    if w !in frontier && w !in paths {
      var distance := paths[f].distance + weight;
      frontier' := frontier[w := weight];
      RecordStep(g, origin, paths, rank, walks, f, w, clock);
      paths' := paths[w := PathData(distance, Some(f))];
      rank', walks', clock' := rank[w := clock], walks[w := walks[f] + [w]], clock + 1;
      MonotoneExtend(history, paths');
      history', enqueued' := history + [paths'], enqueued + [w];
    } else if LengthOf(paths, w).Exceeds(paths[f].distance + weight) {
      RecordStep(g, origin, paths, rank, walks, f, w, clock);
      paths' := paths[w := PathData(paths[f].distance + weight, Some(f))];
      rank', walks', clock' := rank[w := clock], walks[w := walks[f] + [w]], clock + 1;
      MonotoneExtend(history, paths');
      history' := history + [paths'];
    }
  }

  /** When no edge leaves the recorded nodes, the origin is recorded and
      every record is witnessed by a walk, the records are exactly the
      nodes reachable from the origin. */
  lemma RecordsAreReachable(g: Graph, origin: Node, paths: Paths, walks: map<Node, seq<Node>>)
    requires origin in paths && Closed(g, paths.Keys)
    requires Witnessed(g, origin, paths, walks)
    ensures forall x :: x in paths <==> Reachable(g, origin, x)
  {
    forall x | x in paths
      ensures Reachable(g, origin, x)
    {
      assert WitnessedAt(g, origin, paths, walks, x);
    }
    forall x | Reachable(g, origin, x)
      ensures x in paths
    {
      ClosedContainsReachable(g, paths.Keys, origin, x);
    }
  }

  /** The state before the first poll: only the origin is recorded, at
      distance 0, witnessed by the walk of the origin alone. */
  lemma FirstRecord(g: Graph, origin: Node)
    ensures var paths := map[origin := PathData(0, None)];
      && Consistent(g, origin, paths, map[origin := 0], map[origin := [origin]])
      && Monotone([paths])
      && Distinct([origin])
  {
  }

  /** Recording one more node, and queueing it when it is new, keeps the
      records split into queued, finished and current nodes. */
  lemma PartitionGrows(recorded: set<Node>, recorded': set<Node>, queued: set<Node>, queued': set<Node>,
                       finished: set<Node>, f: Node, w: Node)
    requires recorded == queued + finished + {f} && queued !! finished && f !in queued + finished
    requires recorded' == recorded + {w} && queued' == queued + (recorded' - recorded)
    ensures recorded' == queued' + finished + {f} && queued' !! finished && f !in queued' + finished
  {
  }

  /** Polling `f` from the queue keeps the records split into queued,
      finished and current nodes. */
  lemma PartitionPolls(recorded: set<Node>, queued: set<Node>, rest: set<Node>, finished: set<Node>, f: Node)
    requires forall x :: x in recorded <==> x in queued || x in finished
    requires forall x :: x in queued ==> x !in finished
    requires f in queued && rest == queued - {f}
    ensures recorded == rest + finished + {f} && rest !! finished && f !in rest + finished
  {
  }

  /** Once `f` is finished, every record is queued or finished, never both. */
  lemma PartitionFinishes(recorded: set<Node>, queued: set<Node>, finished: set<Node>, f: Node)
    requires recorded == queued + finished + {f} && queued !! finished && f !in queued + finished
    ensures forall x :: x in recorded <==> x in queued || x in finished + {f}
    ensures forall x :: x in queued ==> x !in finished + {f}
  {
  }

  /** Appending a new element keeps a sequence free of repetitions. */
  lemma VisitOne(all: set<Node>, todo: set<Node>, w: Node)
    requires w in todo && todo <= all
    ensures all - (todo - {w}) == (all - todo) + {w}
  {
  }

  lemma DistinctAppend(s: seq<Node>, x: Node)
    requires Distinct(s) && x !in s
    ensures Distinct(s + [x])
  {
  }

  /** What the neighbour loop of the polled node `f` has done so far,
      going from `paths`, `frontier` to `paths'`, `frontier'`: no record got
      worse and `f`'s own record is untouched; each neighbour in `visited`
      is recorded at most `f`'s distance plus the edge weight; queued
      entries keep their priority, and each new one is a neighbour queued
      with its edge weight; the history and the enqueue order only grew. */
  ghost predicate Progress(g: Graph, f: Node, paths: Paths, frontier: Queue, history: seq<Paths>, enqueued: seq<Node>,
                           paths': Paths, frontier': Queue, history': seq<Paths>, enqueued': seq<Node>,
                           visited: set<Node>)
  {
    && f in paths && f in paths' && paths'[f] == paths[f]
    && NoWorse(paths, paths')
    && (forall v :: v in visited ==>
          v in Neighbors(g, f) && v in paths' && paths'[v].distance <= paths'[f].distance + Neighbors(g, f)[v])
    && (forall x :: x in frontier ==> x in frontier' && frontier'[x] == frontier[x])
    && (forall x :: x in frontier' && x !in frontier ==> x in Neighbors(g, f) && frontier'[x] == Neighbors(g, f)[x])
    && history <= history' && enqueued <= enqueued'
  }

  /** Progress over `visited` followed by progress over `more` is progress
      over both. */
  lemma ProgressCompose(g: Graph, f: Node,
                        paths: Paths, frontier: Queue, history: seq<Paths>, enqueued: seq<Node>,
                        mid: Paths, queued: Queue, midHistory: seq<Paths>, midEnqueued: seq<Node>,
                        paths': Paths, frontier': Queue, history': seq<Paths>, enqueued': seq<Node>,
                        visited: set<Node>, more: set<Node>)
    requires Progress(g, f, paths, frontier, history, enqueued, mid, queued, midHistory, midEnqueued, visited)
    requires Progress(g, f, mid, queued, midHistory, midEnqueued, paths', frontier', history', enqueued', more)
    ensures Progress(g, f, paths, frontier, history, enqueued, paths', frontier', history', enqueued', visited + more)
  {
    forall v | v in visited
      ensures paths'[v].distance <= paths'[f].distance + Neighbors(g, f)[v]
    {
      assert v in mid;
    }
  }

  /** The state of the neighbour loop of the polled node `f` after the
      neighbours in `visited` were relaxed, starting from `paths0`,
      `frontier0`, `history0`, `enqueued0`: the record invariants hold,
      every record is queued, finished (`done`) or `f`, the neighbours of
      finished nodes and the visited neighbours are recorded, and the loop
      has made `Progress` over `visited`. */
  ghost predicate Visiting(g: Graph, origin: Node, f: Node, done: set<Node>,
                           paths0: Paths, frontier0: Queue, history0: seq<Paths>, enqueued0: seq<Node>,
                           paths: Paths, frontier: Queue, rank: map<Node, nat>, walks: map<Node, seq<Node>>,
                           clock: nat, history: seq<Paths>, enqueued: seq<Node>, visited: set<Node>)
  {
    && Consistent(g, origin, paths, rank, walks)
    && (forall x :: x in rank ==> rank[x] < clock)
    && paths.Keys == frontier.Keys + done + {f}
    && f !in frontier && f !in done && frontier.Keys !! done
    && Distinct(enqueued) && (forall x :: x in enqueued <==> x in paths)
    && (forall u :: u in done ==> Neighbors(g, u).Keys <= paths.Keys)
    && visited <= Neighbors(g, f).Keys && visited <= paths.Keys
    && Progress(g, f, paths0, frontier0, history0, enqueued0, paths, frontier, history, enqueued, visited)
    && paths.Keys <= AllNodes(g, origin)
    && |history| > 0 && history[|history| - 1] == paths && Monotone(history)
  }

  /** One pass of the neighbour loop: relax the neighbour `w` of `f`. */
  method VisitNeighbor(g: Graph, origin: Node, f: Node, ghost done: set<Node>,
                       ghost paths0: Paths, ghost frontier0: Queue, ghost history0: seq<Paths>, ghost enqueued0: seq<Node>,
                       paths: Paths, frontier: Queue, ghost rank: map<Node, nat>, ghost walks: map<Node, seq<Node>>,
                       ghost clock: nat, ghost history: seq<Paths>, ghost enqueued: seq<Node>, ghost visited: set<Node>,
                       w: Node)
    returns (paths': Paths, frontier': Queue,
             ghost rank': map<Node, nat>, ghost walks': map<Node, seq<Node>>, ghost clock': nat,
             ghost history': seq<Paths>, ghost enqueued': seq<Node>)
    requires Visiting(g, origin, f, done, paths0, frontier0, history0, enqueued0,
                      paths, frontier, rank, walks, clock, history, enqueued, visited)
    requires w in Neighbors(g, f)
    ensures Visiting(g, origin, f, done, paths0, frontier0, history0, enqueued0,
                     paths', frontier', rank', walks', clock', history', enqueued', visited + {w})
  {
    NeighborsInAllNodes(g, origin, f, w);
    paths', frontier', rank', walks', clock', history', enqueued' :=
      Relax(g, origin, f, w, paths, frontier, rank, walks, clock, history, enqueued);
    PartitionGrows(paths.Keys, paths'.Keys, frontier.Keys, frontier'.Keys, done, f, w);
    ProgressCompose(g, f, paths0, frontier0, history0, enqueued0, paths, frontier, history, enqueued,
                    paths', frontier', history', enqueued', visited, {w});
  }

  /** The loop over the neighbours of the polled node `f`: each neighbour is
      relaxed once, in an order that is not specified. The records of
      `done`, the nodes polled before `f`, keep all their neighbours
      recorded, and afterwards so does `f`; every neighbour of `f` ends at
      most `f`'s distance plus the edge weight. */
  method VisitNeighbors(g: Graph, origin: Node, f: Node, paths: Paths, frontier: Queue,
                        ghost rank: map<Node, nat>, ghost walks: map<Node, seq<Node>>, ghost clock: nat,
                        ghost history: seq<Paths>, ghost enqueued: seq<Node>, ghost done: set<Node>)
    returns (paths': Paths, frontier': Queue,
             ghost rank': map<Node, nat>, ghost walks': map<Node, seq<Node>>, ghost clock': nat,
             ghost history': seq<Paths>, ghost enqueued': seq<Node>)
    requires Consistent(g, origin, paths, rank, walks)
    requires forall x :: x in rank ==> rank[x] < clock
    requires paths.Keys == frontier.Keys + done + {f}
    requires f !in frontier && f !in done && frontier.Keys !! done
    requires Distinct(enqueued) && forall x :: x in enqueued <==> x in paths
    requires forall u :: u in done ==> Neighbors(g, u).Keys <= paths.Keys
    requires paths.Keys <= AllNodes(g, origin)
    requires |history| > 0 && history[|history| - 1] == paths && Monotone(history)
    ensures Consistent(g, origin, paths', rank', walks')
    ensures forall x :: x in rank' ==> rank'[x] < clock'
    ensures paths'.Keys == frontier'.Keys + done + {f}
    ensures f !in frontier' && f !in done && frontier'.Keys !! done
    ensures Distinct(enqueued') && forall x :: x in enqueued' <==> x in paths'
    ensures forall u :: u in done || u == f ==> Neighbors(g, u).Keys <= paths'.Keys
    ensures Progress(g, f, paths, frontier, history, enqueued, paths', frontier', history', enqueued', Neighbors(g, f).Keys)
    ensures paths'.Keys <= AllNodes(g, origin)
    ensures history'[|history'| - 1] == paths' && Monotone(history')
  {
    paths', frontier', rank', walks', clock', history', enqueued' :=
      paths, frontier, rank, walks, clock, history, enqueued;
    var todo := Neighbors(g, f).Keys;
    while todo != {}
      invariant todo <= Neighbors(g, f).Keys
      invariant Visiting(g, origin, f, done, paths, frontier, history, enqueued,
                         paths', frontier', rank', walks', clock', history', enqueued', Neighbors(g, f).Keys - todo)
    {
      var w :| w in todo;
      VisitOne(Neighbors(g, f).Keys, todo, w);
      ghost var visited := Neighbors(g, f).Keys - todo;
      todo := todo - {w};
      paths', frontier', rank', walks', clock', history', enqueued' :=
        VisitNeighbor(g, origin, f, done, paths, frontier, history, enqueued,
                      paths', frontier', rank', walks', clock', history', enqueued', visited, w);
    }
    assert Neighbors(g, f).Keys - todo == Neighbors(g, f).Keys;
  }

  /** The state of the polling loop between two polls. Every record is
      either queued or finished (`done`, in the order `polled`), never both;
      every node ever queued is recorded and was queued once; the neighbours
      of a finished node are all recorded; and the records only ever
      improved since `start`. */
  ghost predicate Exploring(g: Graph, origin: Node, paths: Paths, frontier: Queue,
                            rank: map<Node, nat>, walks: map<Node, seq<Node>>, clock: nat,
                            history: seq<Paths>, enqueued: seq<Node>, polled: seq<Node>,
                            done: set<Node>, start: Paths)
  {
    && Consistent(g, origin, paths, rank, walks)
    && (forall x :: x in rank ==> rank[x] < clock)
    && (forall x :: x in paths <==> x in frontier || x in done)
    && (forall x :: x in frontier ==> x !in done)
    && Distinct(polled) && (forall x :: x in polled <==> x in done)
    && Distinct(enqueued) && (forall x :: x in enqueued <==> x in paths)
    && (forall u :: u in done ==> Neighbors(g, u).Keys <= paths.Keys)
    && paths.Keys <= AllNodes(g, origin)
    && |history| > 0 && history[0] == start
    && history[|history| - 1] == paths && Monotone(history)
  }

  /** One iteration of the polling loop: poll a node `f` of least priority
      and visit its neighbours; `f` is then finished. */
  method PollAndVisit(g: Graph, origin: Node, paths: Paths, frontier: Queue,
                      ghost rank: map<Node, nat>, ghost walks: map<Node, seq<Node>>, ghost clock: nat,
                      ghost history: seq<Paths>, ghost enqueued: seq<Node>, ghost polled: seq<Node>,
                      ghost done: set<Node>, ghost start: Paths)
    returns (f: Node, paths': Paths, frontier': Queue,
             ghost rank': map<Node, nat>, ghost walks': map<Node, seq<Node>>, ghost clock': nat,
             ghost history': seq<Paths>, ghost enqueued': seq<Node>, ghost polled': seq<Node>)
    requires Exploring(g, origin, paths, frontier, rank, walks, clock, history, enqueued, polled, done, start)
    requires |frontier| > 0
    ensures IsMinimum(frontier, f) && f !in done && f in AllNodes(g, origin)
    ensures polled' == polled + [f]
    ensures Progress(g, f, paths, frontier - {f}, history, enqueued, paths', frontier', history', enqueued', Neighbors(g, f).Keys)
    ensures Exploring(g, origin, paths', frontier', rank', walks', clock', history', enqueued', polled', done + {f}, start)
  {
    var rest;
    f, rest := Poll(frontier);
    assert rest == frontier - {f};
    PartitionPolls(paths.Keys, frontier.Keys, rest.Keys, done, f);
    paths', frontier', rank', walks', clock', history', enqueued' :=
      VisitNeighbors(g, origin, f, paths, rest, rank, walks, clock, history, enqueued, done);
    PartitionFinishes(paths'.Keys, frontier'.Keys, done, f);
    DistinctAppend(polled, f);
    polled' := polled + [f];
  }

  /** Before the first poll every record is queued and none is finished. */
  lemma ExploringStarts(g: Graph, origin: Node, paths: Paths, frontier: Queue,
                        rank: map<Node, nat>, walks: map<Node, seq<Node>>, clock: nat,
                        history: seq<Paths>, enqueued: seq<Node>)
    requires Consistent(g, origin, paths, rank, walks)
    requires forall x :: x in rank ==> rank[x] < clock
    requires forall x :: x in paths <==> x in frontier
    requires Distinct(enqueued) && forall x :: x in enqueued <==> x in paths
    requires paths.Keys <= AllNodes(g, origin)
    requires |history| > 0 && history[|history| - 1] == paths && Monotone(history)
    ensures Exploring(g, origin, paths, frontier, rank, walks, clock, history, enqueued, [], {}, history[0])
  {
  }

  /** Once the frontier is empty every record is finished, so no edge
      leaves the recorded nodes, and every record was polled exactly once. */
  lemma ExploringEnds(g: Graph, origin: Node, paths: Paths, frontier: Queue,
                      rank: map<Node, nat>, walks: map<Node, seq<Node>>, clock: nat,
                      history: seq<Paths>, enqueued: seq<Node>, polled: seq<Node>,
                      done: set<Node>, start: Paths)
    requires Exploring(g, origin, paths, frontier, rank, walks, clock, history, enqueued, polled, done, start)
    requires |frontier| == 0
    ensures Consistent(g, origin, paths, rank, walks)
    ensures forall x :: x in paths <==> Reachable(g, origin, x)
    ensures Distinct(polled) && forall x :: x in polled <==> x in paths
    ensures |polled| == |paths|
    ensures Distinct(enqueued) && forall x :: x in enqueued <==> x in paths
    ensures |history| > 0 && history[0] == start
    ensures history[|history| - 1] == paths && Monotone(history)
  {
    assert forall x :: x !in frontier;
    RecordsAreReachable(g, origin, paths, walks);
    DistinctCardinality(polled, paths.Keys);
  }

  /** The polling loop of the computation: while the frontier is not empty,
      poll a node of least priority and visit its neighbours. Every recorded
      node is queued once and polled once, so on return no edge leaves the
      recorded nodes. */
  method Explore(g: Graph, origin: Node, paths: Paths, frontier: Queue,
                 ghost rank: map<Node, nat>, ghost walks: map<Node, seq<Node>>, ghost clock: nat,
                 ghost history: seq<Paths>, ghost enqueued: seq<Node>)
    returns (paths': Paths, ghost rank': map<Node, nat>, ghost walks': map<Node, seq<Node>>,
             ghost history': seq<Paths>, ghost enqueued': seq<Node>, ghost polled': seq<Node>)
    requires Consistent(g, origin, paths, rank, walks)
    requires forall x :: x in rank ==> rank[x] < clock
    requires forall x :: x in paths <==> x in frontier
    requires Distinct(enqueued) && forall x :: x in enqueued <==> x in paths
    requires paths.Keys <= AllNodes(g, origin)
    requires |history| > 0 && history[|history| - 1] == paths && Monotone(history)
    ensures Consistent(g, origin, paths', rank', walks')
    ensures forall x :: x in paths' <==> Reachable(g, origin, x)
    ensures Distinct(polled') && forall x :: x in polled' <==> x in paths'
    ensures |polled'| == |paths'|
    ensures Distinct(enqueued') && forall x :: x in enqueued' <==> x in paths'
    ensures history <= history' && enqueued <= enqueued'
    ensures history'[|history'| - 1] == paths' && Monotone(history')
  {
    paths', rank', walks', history', enqueued', polled' := paths, rank, walks, history, enqueued, [];
    var frontier := frontier;
    ghost var clock := clock;
    ghost var done: set<Node> := {};
    ExploringStarts(g, origin, paths, frontier, rank, walks, clock, history, enqueued);
    while |frontier| > 0
      invariant Exploring(g, origin, paths', frontier, rank', walks', clock, history', enqueued', polled', done, history[0])
      invariant history <= history' && enqueued <= enqueued'
      decreases AllNodes(g, origin) - done
    {
      var f;
      f, paths', frontier, rank', walks', clock, history', enqueued', polled' :=
        PollAndVisit(g, origin, paths', frontier, rank', walks', clock, history', enqueued', polled', done, history[0]);
      done := done + {f};
    }
    ExploringEnds(g, origin, paths', frontier, rank', walks', clock, history', enqueued', polled', done, history[0]);
  }

  class ShortestPaths {
    /** The record of every node reached by the most recent computation. */
    var paths: Paths

    // The graph and origin of the most recent computation.
    ghost var graph: Graph
    ghost var origin: Node
    // For each record, when it was last written: this breaks distance ties
    // in the order that keeps predecessor chains acyclic.
    ghost var rank: map<Node, nat>

    /** The records hang together: the origin is the root, every
        backpointer follows an edge, and backpointer chains are acyclic. */
    ghost predicate Valid()
      reads this
    {
      Rooted(origin, paths) && Linked(graph, paths) && Ranked(paths, rank)
    }

    constructor ()
      ensures paths == map[]
    {
      paths := map[];
    }

    /** The recorded distance of `destination`, or infinity without a record. */
    function ShortestPathLength(destination: Node): (r: Distance)
      reads this
      ensures r.Finite? <==> destination in paths
      ensures r.Finite? ==> r.value == paths[destination].distance
    {
      LengthOf(paths, destination)
    }

    /** Discards earlier results and records every node reachable from
        `origin`: a node is queued when first discovered, with the weight of
        the edge that discovered it as its priority, and a later strictly
        shorter route only rewrites its record. The ghost results describe
        the run: a walk witnessing each recorded distance, every value the
        record map took in order, and the nodes in the order they were
        queued and polled. */
    method Compute(g: Graph, origin: Node)
      returns (ghost walks: map<Node, seq<Node>>, ghost history: seq<Paths>,
               ghost enqueued: seq<Node>, ghost polled: seq<Node>)
      modifies this
      ensures graph == g && this.origin == origin
      ensures Valid() && Witnessed(g, origin, paths, walks)
      ensures forall x :: x in paths <==> Reachable(g, origin, x)
      ensures |history| > 0 && history[0] == map[origin := PathData(0, None)]
      ensures history[|history| - 1] == paths && Monotone(history)
      ensures Distinct(enqueued) && forall x :: x in enqueued <==> x in paths
      ensures Distinct(polled) && forall x :: x in polled <==> x in paths
      ensures |polled| == |paths|
    {
      var paths: Paths := map[];
      var frontier: Queue := map[];
      var pathData := PathData(0, None);
      frontier := frontier[origin := 0];
      paths := paths[origin := pathData];
      FirstRecord(g, origin);
      ghost var rank;
      paths, rank, walks, history, enqueued, polled :=
        Explore(g, origin, paths, frontier, map[origin := 0], map[origin := [origin]], 1, [paths], [origin]);
      this.paths, this.graph, this.origin, this.rank := paths, g, origin, rank;
    }

    /** The nodes from the origin to `destination` along the recorded
        predecessors, or the empty sequence when `destination` has no
        record. */
    method ShortestPath(destination: Node) returns (path: seq<Node>)
      requires Valid()
      ensures path == Backtrack(paths, rank, destination)
      ensures destination !in paths ==> path == []
      ensures destination == origin ==> path == [origin]
      ensures destination in paths ==>
        && IsWalkBetween(graph, path, origin, destination)
        && Weight(graph, path) <= paths[destination].distance
      ensures Ascending(paths, rank, path)
    {
      path := [];
      var node: Option<Node> := Some(destination);
      if ShortestPathLength(destination) != Infinity {
        while node.Some?
          invariant node.Some? ==> node.value in paths
          invariant Backtrack(paths, rank, destination) ==
            (if node.Some? then Backtrack(paths, rank, node.value) else []) + path
          decreases if node.Some? then paths[node.value].distance else 0,
                    if node.Some? then rank[node.value] + 1 else 0
        {
          assert RankedAt(paths, rank, node.value) && LinkedAt(graph, paths, node.value);
          path := [node.value] + path;
          node := paths[node.value].previous;
        }
      }
      assert path == Backtrack(paths, rank, destination);
      if destination in paths {
        BacktrackIsWalk(graph, origin, paths, rank, destination);
      }
      BacktrackAscends(paths, rank, destination);
    }
  }
}
