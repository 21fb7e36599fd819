/** The frontier priority queue (heap.Heap<Node, Double> in the source), seen
    from outside: a set of queued nodes, each with a priority. Its internals
    are not part of this model; all the engine relies on is that `poll`
    removes and returns some entry of least priority, and that `add`,
    `contains` and `size` are insertion, membership and cardinality. */
module Frontier {

  import opened Graphs

  /** Each queued node with its priority; a node is queued at most once. */
  type Queue = map<Node, nat>

  /** `x` is queued with a priority no larger than any other entry's. */
  predicate IsMinimum(q: Queue, x: Node)
  {
    x in q && forall y :: y in q ==> q[x] <= q[y]
  }

  /** Some key of `keys` has the least priority among them. */
  lemma {:induction false} MinimumAmong(q: Queue, keys: set<Node>) returns (m: Node)
    requires keys != {} && keys <= q.Keys
    ensures m in keys && forall y :: y in keys ==> q[m] <= q[y]
    decreases keys
  {
    var y :| y in keys;
    if keys == {y} {
      m := y;
    } else {
      var rest := MinimumAmong(q, keys - {y});
      m := if q[y] < q[rest] then y else rest;
    }
  }

  /** Removes and returns an entry of least priority; which one, among
      several of equal priority, is not specified. */
  method Poll(q: Queue) returns (x: Node, rest: Queue)
    requires |q| > 0
    ensures IsMinimum(q, x)
    ensures rest.Keys == q.Keys - {x}
    ensures forall y :: y in rest ==> rest[y] == q[y]
  {
    assert q.Keys != {} by {
      var k :| k in q;
    }
    ghost var m := MinimumAmong(q, q.Keys);
    assert IsMinimum(q, m);
    x :| IsMinimum(q, x);
    rest := q - {x};
  }
}
