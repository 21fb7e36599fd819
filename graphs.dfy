/** The weighted directed graph the engine runs over: every node owns a map
    from each neighbour to the non-negative weight of the edge to it. Nodes
    are identified by their label, which is unique within one graph. */
module Graphs {

  type Node = string

  /** Adjacency: the outgoing edges of each node that has any. */
  type Graph = map<Node, map<Node, nat>>

  /** The neighbours of `u` with their edge weights; a node that is not a key
      has none. */
  function Neighbors(g: Graph, u: Node): map<Node, nat>
  {
    if u in g then g[u] else map[]
  }

  /** The weight of the edge from `u` to `v`, or 0 when there is none. */
  function Cost(g: Graph, u: Node, v: Node): nat
  {
    var n := Neighbors(g, u);
    if v in n then n[v] else 0
  }

  /** Every node mentioned by `g`, together with `origin`. */
  function AllNodes(g: Graph, origin: Node): (nodes: set<Node>)
    ensures origin in nodes
  {
    {origin} + g.Keys + (set u, v | u in g && v in g[u] :: v)
  }

  /** The node after position `i` of `p` is a neighbour of the node at `i`. */
  ghost predicate StepAt(g: Graph, p: seq<Node>, i: nat)
  {
    i + 1 < |p| ==> p[i + 1] in Neighbors(g, p[i])
  }

  /** Consecutive nodes of `p` are joined by edges. */
  ghost predicate IsWalk(g: Graph, p: seq<Node>)
  {
    forall i: nat :: StepAt(g, p, i)
  }

  ghost predicate IsWalkBetween(g: Graph, p: seq<Node>, u: Node, v: Node)
  {
    |p| > 0 && p[0] == u && p[|p| - 1] == v && IsWalk(g, p)
  }

  /** Total weight of the edges along `p`. */
  ghost function Weight(g: Graph, p: seq<Node>): nat
  {
    if |p| <= 1 then 0 else Weight(g, p[..|p| - 1]) + Cost(g, p[|p| - 2], p[|p| - 1])
  }

  ghost predicate Reachable(g: Graph, u: Node, v: Node)
  {
    exists p :: IsWalkBetween(g, p, u, v)
  }

  /** No edge leaves the node set `k`. */
  ghost predicate Closed(g: Graph, k: set<Node>)
  {
    forall u, v :: u in k && v in Neighbors(g, u) ==> v in k
  }

  lemma NeighborsInAllNodes(g: Graph, origin: Node, u: Node, v: Node)
    requires v in Neighbors(g, u)
    ensures v in AllNodes(g, origin)
  {
    assert u in g;
    assert v in (set u', v' | u' in g && v' in g[u'] :: v');
  }

  /** Extending a walk by an edge out of its last node gives a walk whose
      weight grows by exactly that edge's weight. */
  lemma ExtendWalk(g: Graph, p: seq<Node>, w: Node)
    requires IsWalk(g, p) && |p| > 0
    requires w in Neighbors(g, p[|p| - 1])
    ensures IsWalk(g, p + [w])
    ensures Weight(g, p + [w]) == Weight(g, p) + Neighbors(g, p[|p| - 1])[w]
  {
    var q := p + [w];
    assert q[..|q| - 1] == p;
    forall i: nat
      ensures StepAt(g, q, i)
    {
      if i + 1 < |p| {
        assert StepAt(g, p, i);
        assert q[i] == p[i] && q[i + 1] == p[i + 1];
      }
    }
  }

  /** A walk that starts inside a closed node set never leaves it. */
  lemma {:induction false} ClosedWalkStaysInside(g: Graph, k: set<Node>, p: seq<Node>)
    requires Closed(g, k) && IsWalk(g, p) && |p| > 0 && p[0] in k
    ensures p[|p| - 1] in k
    decreases |p|
  {
    if |p| > 1 {
      var q := p[..|p| - 1];
      assert IsWalk(g, q) by {
        forall i: nat
          ensures StepAt(g, q, i)
        {
          assert StepAt(g, p, i);
          if i + 1 < |q| {
            assert q[i] == p[i] && q[i + 1] == p[i + 1];
          }
        }
      }
      ClosedWalkStaysInside(g, k, q);
      assert StepAt(g, p, |p| - 2);
    }
  }

  /** A closed node set that contains `u` contains every node reachable
      from `u`. */
  lemma ClosedContainsReachable(g: Graph, k: set<Node>, u: Node, v: Node)
    requires Closed(g, k) && u in k
    requires Reachable(g, u, v)
    ensures v in k
  {
    var p :| IsWalkBetween(g, p, u, v);
    ClosedWalkStaysInside(g, k, p);
  }

  /** A node without outgoing edges reaches only itself. */
  lemma SinkReachesOnlyItself(g: Graph, u: Node, v: Node)
    requires Neighbors(g, u) == map[]
    ensures Reachable(g, u, v) <==> v == u
  {
    assert IsWalkBetween(g, [u], u, u);
    if Reachable(g, u, v) {
      ClosedContainsReachable(g, {u}, u, v);
    }
  }
}
