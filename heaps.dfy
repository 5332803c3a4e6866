/**
 * The `heapq` priority queues of the planners. A queue holds `(priority, node)`
 * tuples; `heappop` removes a least tuple, and Python compares tuples
 * lexicographically, so equal priorities are ordered by node identifier. Only
 * which tuple comes out matters to the planners, so the heap layout of the
 * list is not modelled: the queue is a sequence, and popping removes a least
 * element wherever it sits.
 */
module Heaps {
  import opened Graphs

  datatype Entry = Entry(priority: real, node: Node)

  /** Python's `<=` on `(priority, node)` tuples. */
  predicate Le(a: Entry, b: Entry) {
    a.priority < b.priority || (a.priority == b.priority && a.node <= b.node)
  }

  /** `heapq.heappop`: a least entry `e`, and the queue without one occurrence of it. */
  method PopMin(q: seq<Entry>) returns (e: Entry, rest: seq<Entry>)
    requires q != []
    ensures e in q
    ensures forall x :: x in q ==> Le(e, x)
    ensures multiset(rest) + multiset{e} == multiset(q)
    ensures |rest| == |q| - 1
    ensures forall x :: x in rest ==> x in q
    ensures forall x :: x in q && x != e ==> x in rest
  {
    var k := 0;
    var i := 1;
    while i < |q|
      invariant 0 <= k < i <= |q|
      invariant forall j :: 0 <= j < i ==> Le(q[k], q[j])
    {
      if !Le(q[k], q[i]) {
        k := i;
      }
      i := i + 1;
    }
    e := q[k];
    rest := q[..k] + q[k + 1..];
    assert q == q[..k] + [e] + q[k + 1..];
    assert multiset(q) == multiset(q[..k]) + multiset{e} + multiset(q[k + 1..]);
    forall x | x in q
      ensures Le(e, x)
    {
      var j :| 0 <= j < |q| && q[j] == x;
    }
    forall x | x in rest
      ensures x in q
    {
      assert x in multiset(rest);
    }
    forall x | x in q && x != e
      ensures x in rest
    {
      assert x in multiset(q);
    }
  }

  /** Some entry of `q` is for node `v`. */
  ghost predicate Queued(q: seq<Entry>, v: Node) {
    exists x :: x in q && x.node == v
  }

  /** Appending to a queue keeps every node it had queued. */
  lemma QueuedGrow(q: seq<Entry>, q': seq<Entry>, v: Node)
    requires |q| <= |q'| && q'[..|q|] == q
    requires Queued(q, v)
    ensures Queued(q', v)
  {
    var x :| x in q && x.node == v;
    var j :| 0 <= j < |q| && q[j] == x;
    assert q'[j] == x;
  }

  /** Popping an entry keeps every other node queued. */
  lemma QueuedAfterPop(q: seq<Entry>, rest: seq<Entry>, e: Entry, v: Node)
    requires forall x :: x in q && x != e ==> x in rest
    requires Queued(q, v) && v != e.node
    ensures Queued(rest, v)
  {
    var x :| x in q && x.node == v;
    assert x in rest;
  }
}
