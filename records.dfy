/** The per-node records built by one shortest-path computation (the
    `paths` map of PathData in the source), the invariants they keep, and the
    walk back along their predecessor pointers. */
module Records {

  import opened Wrappers
  import opened Graphs

  /** What the engine knows about one node: the length of the best walk from
      the origin found so far, and the node before it on that walk (absent
      only for the origin). */
  datatype PathData = PathData(distance: nat, previous: Option<Node>)

  /** A path length as the source reports it: a finite number, or positive
      infinity when there is no path. */
  datatype Distance = Finite(value: nat) | Infinity
  {
    /** `this` is strictly greater than the finite length `d`. */
    predicate Exceeds(d: nat)
    {
      Infinity? || d < value
    }
  }

  type Paths = map<Node, PathData>

  /** The origin is recorded at distance 0 without predecessor, and it is the
      only record without one. */
  ghost predicate Rooted(origin: Node, paths: Paths)
  {
    && origin in paths
    && paths[origin] == PathData(0, None)
    && forall x :: x in paths && x != origin ==> paths[x].previous.Some?
  }

  /** If `x` has a predecessor, that node is itself recorded, has an edge to
      `x`, and its distance plus the edge's weight is at most `x`'s. */
  ghost predicate LinkedAt(g: Graph, paths: Paths, x: Node)
  {
    x in paths && paths[x].previous.Some? ==>
      var p := paths[x].previous.value;
      && p in paths
      && x in Neighbors(g, p)
      && paths[p].distance + Neighbors(g, p)[x] <= paths[x].distance
  }

  ghost predicate Linked(g: Graph, paths: Paths)
  {
    forall x :: LinkedAt(g, paths, x)
  }

  /** `u` lies strictly below `v` in the order (distance, rank). */
  ghost predicate Below(paths: Paths, rank: map<Node, nat>, u: Node, v: Node)
  {
    && u in paths && v in paths && u in rank && v in rank
    && (paths[u].distance < paths[v].distance
        || (paths[u].distance == paths[v].distance && rank[u] < rank[v]))
  }

  /** Every predecessor lies strictly below its successor; `rank` (the moment
      a record was last written) breaks ties between equal distances. This
      is what makes the predecessor chains acyclic. */
  ghost predicate Ranked(paths: Paths, rank: map<Node, nat>)
  {
    paths.Keys <= rank.Keys && forall x :: RankedAt(paths, rank, x)
  }

  ghost predicate RankedAt(paths: Paths, rank: map<Node, nat>, x: Node)
  {
    x in paths && paths[x].previous.Some? ==> Below(paths, rank, paths[x].previous.value, x)
  }

  /** If `x` is recorded, `walks[x]` is a walk from the origin to `x` whose
      weight is the recorded distance. */
  ghost predicate WitnessedAt(g: Graph, origin: Node, paths: Paths, walks: map<Node, seq<Node>>, x: Node)
  {
    x in paths ==>
      && x in walks
      && IsWalkBetween(g, walks[x], origin, x)
      && Weight(g, walks[x]) == paths[x].distance
  }

  /** Every recorded distance is the weight of a recorded walk from the
      origin to that node. */
  ghost predicate Witnessed(g: Graph, origin: Node, paths: Paths, walks: map<Node, seq<Node>>)
  {
    paths.Keys <= walks.Keys && forall x :: WitnessedAt(g, origin, paths, walks, x)
  }

  ghost predicate Consistent(g: Graph, origin: Node, paths: Paths, rank: map<Node, nat>, walks: map<Node, seq<Node>>)
  {
    Rooted(origin, paths) && Linked(g, paths) && Ranked(paths, rank) && Witnessed(g, origin, paths, walks)
  }

  /** `after` keeps every record of `before`, never at a larger distance. */
  ghost predicate NoWorse(before: Paths, after: Paths)
  {
    forall x :: x in before ==> x in after && after[x].distance <= before[x].distance
  }

  /** The state after position `i` of `h` is no worse than the one at `i`. */
  ghost predicate NoWorseAt(h: seq<Paths>, i: nat)
  {
    i + 1 < |h| ==> NoWorse(h[i], h[i + 1])
  }

  /** Each state in `h` is no worse than the one before it. */
  ghost predicate Monotone(h: seq<Paths>)
  {
    forall i: nat :: NoWorseAt(h, i)
  }

  /** The nodes met by following predecessor pointers from `d` back to the
      record that has none, in walking order from that record to `d`; empty
      when `d` has no record. */
  ghost function Backtrack(paths: Paths, rank: map<Node, nat>, d: Node): (r: seq<Node>)
    requires Ranked(paths, rank)
    ensures |r| > 0 <==> d in paths
    ensures |r| > 0 ==> r[|r| - 1] == d
    ensures forall i :: 0 <= i < |r| ==> r[i] in paths
    decreases if d in paths then paths[d].distance else 0, if d in paths then rank[d] else 0
  {
    if d !in paths then []
    else assert RankedAt(paths, rank, d); match paths[d].previous
      case None => [d]
      case Some(p) => Backtrack(paths, rank, p) + [d]
  }

  lemma BelowTransitive(paths: Paths, rank: map<Node, nat>, u: Node, v: Node, w: Node)
    requires Below(paths, rank, u, v) && Below(paths, rank, v, w)
    ensures Below(paths, rank, u, w)
  {
  }

  /** Writing a record that strictly improves on `w`'s (or is `w`'s first),
      reached from the recorded `f` over an edge, with a rank above all
      earlier ones, keeps every invariant and makes no record worse. */
  lemma RecordStep(g: Graph, origin: Node, paths: Paths, rank: map<Node, nat>, walks: map<Node, seq<Node>>,
                   f: Node, w: Node, clock: nat)
    requires Consistent(g, origin, paths, rank, walks)
    requires f in paths && w in Neighbors(g, f)
    requires forall x :: x in rank ==> rank[x] < clock
    requires w !in paths || paths[f].distance + Neighbors(g, f)[w] < paths[w].distance
    ensures var paths' := paths[w := PathData(paths[f].distance + Neighbors(g, f)[w], Some(f))];
      && Consistent(g, origin, paths', rank[w := clock], walks[w := walks[f] + [w]])
      && NoWorse(paths, paths')
  {
    var e := Neighbors(g, f)[w];
    var d := paths[f].distance + e;
    var paths', rank', walks' := paths[w := PathData(d, Some(f))], rank[w := clock], walks[w := walks[f] + [w]];
    assert f != w;
    assert w != origin;
    assert Rooted(origin, paths');
    assert Linked(g, paths') by {
      forall x
        ensures LinkedAt(g, paths', x)
      {
        assert LinkedAt(g, paths, x);
        if x != w && x in paths {
          assert paths'[x] == paths[x];
        }
      }
    }
    assert Ranked(paths', rank') by {
      forall x
        ensures RankedAt(paths', rank', x)
      {
        assert RankedAt(paths, rank, x);
        assert LinkedAt(g, paths, x);
        if x == w {
          assert rank'[f] == rank[f] < clock == rank'[w];
        } else if x in paths && paths[x].previous.Some? {
          var p := paths[x].previous.value;
          assert paths'[x] == paths[x];
          if p == w {
            // `x` followed `w`, whose distance has just dropped strictly.
            assert paths'[p].distance < paths[p].distance;
          } else {
            assert Below(paths, rank, p, x);
          }
        }
      }
    }
    assert Witnessed(g, origin, paths', walks') by {
      assert WitnessedAt(g, origin, paths, walks, f);
      ExtendWalk(g, walks[f], w);
      forall x
        ensures WitnessedAt(g, origin, paths', walks', x)
      {
        assert WitnessedAt(g, origin, paths, walks, x);
      }
    }
  }

  /** Following the predecessors from a recorded `d` ends at the origin, goes
      along edges only, and the walk weighs no more than `d`'s distance. */
  lemma {:induction false} BacktrackIsWalk(g: Graph, origin: Node, paths: Paths, rank: map<Node, nat>, d: Node)
    requires Rooted(origin, paths) && Linked(g, paths) && Ranked(paths, rank)
    requires d in paths
    ensures IsWalkBetween(g, Backtrack(paths, rank, d), origin, d)
    ensures Weight(g, Backtrack(paths, rank, d)) <= paths[d].distance
    decreases paths[d].distance, rank[d]
  {
    assert LinkedAt(g, paths, d) && RankedAt(paths, rank, d);
    match paths[d].previous
    case None =>
      assert d == origin;
    case Some(p) =>
      BacktrackIsWalk(g, origin, paths, rank, p);
      var s := Backtrack(paths, rank, p);
      assert Backtrack(paths, rank, d) == s + [d];
      ExtendWalk(g, s, d);
  }

  /** Each node of `r` lies strictly below every later one. */
  ghost predicate Ascending(paths: Paths, rank: map<Node, nat>, r: seq<Node>)
  {
    forall i, j :: 0 <= i < j < |r| ==> Below(paths, rank, r[i], r[j])
  }

  /** An ascending sequence of nodes repeats none, and their recorded
      distances never decrease along it. */
  lemma AscendingIsSimple(paths: Paths, rank: map<Node, nat>, r: seq<Node>)
    requires Ascending(paths, rank, r)
    ensures forall i, j :: 0 <= i < j < |r| ==>
      && r[i] != r[j]
      && r[i] in paths && r[j] in paths
      && paths[r[i]].distance <= paths[r[j]].distance
  {
    forall i, j | 0 <= i < j < |r|
      ensures r[i] != r[j] && r[i] in paths && r[j] in paths && paths[r[i]].distance <= paths[r[j]].distance
    {
      assert Below(paths, rank, r[i], r[j]);
    }
  }

  /** Along the walk back from `d`, nodes strictly ascend in (distance, rank):
      in particular no node occurs twice and distances never decrease. */
  lemma {:induction false} BacktrackAscends(paths: Paths, rank: map<Node, nat>, d: Node)
    requires Ranked(paths, rank)
    ensures Ascending(paths, rank, Backtrack(paths, rank, d))
    decreases if d in paths then paths[d].distance else 0, if d in paths then rank[d] else 0
  {
    if d in paths && paths[d].previous.Some? {
      var p := paths[d].previous.value;
      assert RankedAt(paths, rank, d);
      BacktrackAscends(paths, rank, p);
      var s := Backtrack(paths, rank, p);
      assert Ascending(paths, rank, s);
      var r := s + [d];
      assert Backtrack(paths, rank, d) == r;
      forall i, j | 0 <= i < j < |r|
        ensures Below(paths, rank, r[i], r[j])
      {
        if j == |r| - 1 {
          assert s[|s| - 1] == p && Below(paths, rank, p, d);
          if i < |s| - 1 {
            assert Below(paths, rank, s[i], s[|s| - 1]);
            BelowTransitive(paths, rank, s[i], p, d);
          }
        } else {
          assert r[i] == s[i] && r[j] == s[j];
        }
      }
    }
  }

  /** Consecutive states no worse than each other make every later state no
      worse than every earlier one. */
  lemma {:induction false} MonotoneSpan(h: seq<Paths>, i: nat, j: nat)
    requires Monotone(h) && i <= j < |h|
    ensures NoWorse(h[i], h[j])
    decreases j - i
  {
    if i < j {
      MonotoneSpan(h, i + 1, j);
      assert NoWorseAt(h, i);
    }
  }

  /** Appending a state no worse than the last keeps a history monotone. */
  lemma MonotoneExtend(h: seq<Paths>, next: Paths)
    requires Monotone(h) && |h| > 0 && NoWorse(h[|h| - 1], next)
    ensures Monotone(h + [next])
  {
    var h' := h + [next];
    forall i: nat
      ensures NoWorseAt(h', i)
    {
      assert NoWorseAt(h, i);
      if i + 1 < |h| {
        assert h'[i] == h[i] && h'[i + 1] == h[i + 1];
      }
    }
  }

  /** A record that starts at distance 0 keeps distance 0 in every later
      state of a monotone history: no relaxation can strictly improve on 0. */
  lemma ZeroStaysZero(h: seq<Paths>, x: Node, i: nat)
    requires Monotone(h) && i < |h|
    requires |h| > 0 && x in h[0] && h[0][x].distance == 0
    ensures x in h[i] && h[i][x].distance == 0
  {
    MonotoneSpan(h, 0, i);
  }
}
