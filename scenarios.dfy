/** A client of the engine, following the source's test of an origin that
    has no outgoing edge. */
module Scenarios {

  import opened Graphs
  import opened Records
  import opened Dijkstra

  /** Computing from a node without outgoing edges records that node alone,
      at distance 0: every other node has length infinity and an empty
      path, and the path to the origin is the origin alone. */
  method ComputeFromSink(g: Graph, origin: Node, other: Node)
    returns (sp: ShortestPaths, toOther: seq<Node>, toOrigin: seq<Node>)
    requires Neighbors(g, origin) == map[] && other != origin
    ensures sp.paths.Keys == {origin}
    ensures sp.ShortestPathLength(origin) == Finite(0)
    ensures sp.ShortestPathLength(other) == Infinity
    ensures toOther == [] && toOrigin == [origin]
  {
    sp := new ShortestPaths();
    ghost var walks, history, enqueued, polled := sp.Compute(g, origin);
    forall x
      ensures x in sp.paths <==> x == origin
    {
      SinkReachesOnlyItself(g, origin, x);
    }
    toOther := sp.ShortestPath(other);
    toOrigin := sp.ShortestPath(origin);
  }

  /** The graph with the single edge A -> B of weight 1. */
  function SingleEdge(): Graph
  {
    map["A" := map["B" := 1]]
  }

  /** In that graph the only walks from A are A alone and A, B. */
  lemma SingleEdgeWalks(p: seq<Node>, x: Node)
    requires IsWalkBetween(SingleEdge(), p, "A", x)
    ensures p == ["A"] || p == ["A", "B"]
  {
    if |p| > 1 {
      assert StepAt(SingleEdge(), p, 0);
      assert StepAt(SingleEdge(), p, 1);
    }
  }

  /** Computing from A in the single-edge graph records B at distance 1,
      and the path to B is A, B. */
  method ComputeSingleEdge() returns (sp: ShortestPaths, toB: seq<Node>)
    ensures sp.ShortestPathLength("B") == Finite(1)
    ensures toB == ["A", "B"]
  {
    sp := new ShortestPaths();
    ghost var walks, history, enqueued, polled := sp.Compute(SingleEdge(), "A");
    assert IsWalkBetween(SingleEdge(), ["A", "B"], "A", "B") by {
      assert StepAt(SingleEdge(), ["A", "B"], 0);
    }
    assert "B" in sp.paths;
    assert WitnessedAt(SingleEdge(), "A", sp.paths, walks, "B");
    SingleEdgeWalks(walks["B"], "B");
    toB := sp.ShortestPath("B");
    SingleEdgeWalks(toB, "B");
  }
}
