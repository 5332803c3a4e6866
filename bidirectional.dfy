/**
 * `Bidirectional_A_Star`: two best-first searches, one forward from `start`
 * over the graph and one backward from `end` over the reversed graph, taking
 * turns. Each hop costs the length of the first parallel edge (1 m when it
 * has none), and each queue is ordered by that cost plus the great-circle
 * distance to the other search's root. The searches stop as soon as one of
 * them pops a node the other has already popped.
 */
module Bidirectional {
  import opened Wrappers
  import opened Graphs
  import opened Heaps
  import opened Predecessors
  import opened SearchState

  /**
   * `haversine((y1, x1), (y2, x2))` on the coordinates of two nodes: the
   * coordinates are not modelled, so the distance is a parameter.
   */
  type Haversine = (Node, Node) -> real

  /** The neighbours a search looks at from `u`: successors going forward, predecessors going backward. */
  function Adjacent(g: Graph, forward: bool, u: Node): seq<Node>
    requires u in g.succ && u in g.pred
  {
    if forward then g.succ[u] else g.pred[u]
  }

  /** The edge between `u` and its neighbour `v` in the direction of the search. */
  function EdgeOf(forward: bool, u: Node, v: Node): (Node, Node) {
    if forward then (u, v) else (v, u)
  }

  /** The length of the first parallel edge between `a` and `b`, 1 m when it has none (lines 55-56, 69-70). */
  function FirstLength(g: Graph, e: (Node, Node)): (l: real)
    requires e in g.parallel && |g.parallel[e]| > 0
    ensures NonNegative(g.parallel[e]) ==> l >= 0.0
    ensures l == 1.0 || Some(l) == g.parallel[e][0]
  {
    g.parallel[e][0].GetOr(1.0)
  }

  /** Every neighbour of `u` in the search direction is a node, joined to `u` by edges with non-negative lengths. */
  ghost predicate SideValid(g: Graph, forward: bool, u: Node)
    requires u in g.succ && u in g.pred
  {
    forall v :: v in Adjacent(g, forward, u) ==>
      && v in g.succ && EdgeOf(forward, u, v) in g.parallel
      && |g.parallel[EdgeOf(forward, u, v)]| > 0 && NonNegative(g.parallel[EdgeOf(forward, u, v)])
  }

  /** What the searches use of the graph's validity, at every node and in both directions. */
  ghost predicate SidesValid(g: Graph) {
    forall u :: u in g.succ ==> u in g.pred && SideValid(g, true, u) && SideValid(g, false, u)
  }

  lemma ValidSides(g: Graph)
    requires g.Valid()
    ensures SidesValid(g)
  {
    ValidAllEdges(g);
    forall u | u in g.succ
      ensures u in g.pred && SideValid(g, true, u) && SideValid(g, false, u)
    {
      assert OutEdgesValid(g, u) && InEdgesValid(g, u);
    }
  }

  /** Every neighbour of `v` in the search direction is in `keys`. */
  ghost predicate AdjacentIn(g: Graph, forward: bool, v: Node, keys: set<Node>)
    requires v in g.succ && v in g.pred
  {
    forall w :: w in Adjacent(g, forward, v) ==> w in keys
  }

  /** `v` is labelled no higher than `base` plus the first edge between `u` and `v`. */
  ghost predicate LengthBound(g: Graph, forward: bool, cost: CostMap, u: Node, v: Node, base: real)
    requires EdgeOf(forward, u, v) in g.parallel && |g.parallel[EdgeOf(forward, u, v)]| > 0
  {
    v in cost && cost[v] <= base + FirstLength(g, EdgeOf(forward, u, v))
  }

  /**
   * What lines 55-61 (going forward) or 69-75 (going backward) do to one
   * side's labelling for the neighbour `v` of `u`: a strict improvement
   * through `u` relabels `v` with it, makes `u` its predecessor and pushes
   * `v` at that cost plus the distance to `target`.
   */
  function SideStep(g: Graph, forward: bool, target: Node, hav: Haversine, u: Node, v: Node, s: Labelling)
    : (r: Labelling)
    requires EdgeOf(forward, u, v) in g.parallel && |g.parallel[EdgeOf(forward, u, v)]| > 0
    requires u in s.cost
    ensures s.cost.Keys <= r.cost.Keys
  {
    var c := s.cost[u] + FirstLength(g, EdgeOf(forward, u, v));
    if v !in s.cost || c < s.cost[v] then
      Labelling(s.cost[v := c], s.pred[v := Some(u)], s.queue + [Entry(c + hav(v, target), v)])
    else
      s
  }

  /** Every node of `vs` is joined to `u`, in the direction of the search, by at least one edge. */
  ghost predicate EdgesTo(g: Graph, forward: bool, u: Node, vs: seq<Node>) {
    forall i :: 0 <= i < |vs| ==> EdgeOf(forward, u, vs[i]) in g.parallel && |g.parallel[EdgeOf(forward, u, vs[i])]| > 0
  }

  /** The neighbours `vs` of `u` relaxed one after the other, in order. */
  function SideAll(g: Graph, forward: bool, target: Node, hav: Haversine, u: Node, vs: seq<Node>, s: Labelling)
    : (r: Labelling)
    requires EdgesTo(g, forward, u, vs) && u in s.cost
    ensures s.cost.Keys <= r.cost.Keys
    decreases |vs|
  {
    if vs == [] then s
    else SideStep(g, forward, target, hav, u, vs[|vs| - 1], SideAll(g, forward, target, hav, u, vs[..|vs| - 1], s))
  }

  lemma SideStepIs(g: Graph, forward: bool, target: Node, hav: Haversine, u: Node, v: Node, s: Labelling, c: real)
    requires EdgeOf(forward, u, v) in g.parallel && |g.parallel[EdgeOf(forward, u, v)]| > 0
    requires u in s.cost && c == s.cost[u] + FirstLength(g, EdgeOf(forward, u, v))
    ensures v !in s.cost || c < s.cost[v] ==>
      SideStep(g, forward, target, hav, u, v, s)
      == Labelling(s.cost[v := c], s.pred[v := Some(u)], s.queue + [Entry(c + hav(v, target), v)])
    ensures !(v !in s.cost || c < s.cost[v]) ==> SideStep(g, forward, target, hav, u, v, s) == s
  {
  }

  lemma SideAllNext(g: Graph, forward: bool, target: Node, hav: Haversine, u: Node, vs: seq<Node>, i: nat,
                    s: Labelling, r: Labelling, r': Labelling)
    requires i < |vs| && EdgesTo(g, forward, u, vs) && u in s.cost
    requires r == SideAll(g, forward, target, hav, u, vs[..i], s)
    requires r' == SideStep(g, forward, target, hav, u, vs[i], r)
    ensures r' == SideAll(g, forward, target, hav, u, vs[..i + 1], s)
  {
    assert vs[..i + 1][..i] == vs[..i];
  }

  lemma SideValidEdgesTo(g: Graph, forward: bool, u: Node)
    requires u in g.succ && u in g.pred && SideValid(g, forward, u)
    ensures EdgesTo(g, forward, u, Adjacent(g, forward, u))
  {
    var vs := Adjacent(g, forward, u);
    forall i | 0 <= i < |vs|
      ensures EdgeOf(forward, u, vs[i]) in g.parallel && |g.parallel[EdgeOf(forward, u, vs[i])]| > 0
    {
      assert vs[i] in vs;
    }
  }

  /**
   * One neighbour `v` of the popped node `u` (lines 55-61 going forward, 69-75
   * going backward): when the cost through `u` beats the known cost of `v`,
   * `v` gets it and `u` as predecessor, and is pushed at that cost plus the
   * distance to `target`; otherwise nothing changes.
   */
  method RelaxSide(g: Graph, forward: bool, root: Node, target: Node, hav: Haversine, u: Node, v: Node,
                   cost: CostMap, pred: PredMap, q: seq<Entry>, ghost stamp: map<Node, nat>, ghost clock: nat)
    returns (cost': CostMap, pred': PredMap, q': seq<Entry>, ghost stamp': map<Node, nat>, ghost clock': nat)
    requires v in g.succ && EdgeOf(forward, u, v) in g.parallel
    requires |g.parallel[EdgeOf(forward, u, v)]| > 0 && NonNegative(g.parallel[EdgeOf(forward, u, v)])
    requires Labels(g, forward, root, cost, pred, stamp, clock) && u in cost
    ensures Labels(g, forward, root, cost', pred', stamp', clock')
    ensures u in cost' && cost'[u] == cost[u]
    ensures LengthBound(g, forward, cost', u, v, cost[u])
    ensures forall w :: w != v ==> (w in cost' <==> w in cost) && (w in cost ==> cost'[w] == cost[w])
    ensures forall w :: w in cost ==> w in cost' && cost'[w] <= cost[w]
    ensures v in cost && cost'[v] == cost[v] ==> q' == q && pred' == pred
    ensures !(v in cost && cost'[v] == cost[v]) ==>
      && cost'[v] == cost[u] + FirstLength(g, EdgeOf(forward, u, v)) && pred' == pred[v := Some(u)]
      && q' == q + [Entry(cost'[v] + hav(v, target), v)]
    ensures Labelling(cost', pred', q') == SideStep(g, forward, target, hav, u, v, Labelling(cost, pred, q))
  {
    cost', pred', q', stamp', clock' := cost, pred, q, stamp, clock;
    var length := FirstLength(g, EdgeOf(forward, u, v));
    var tg := cost[u] + length;
    if v !in cost || tg < cost[v] {
      Improve(g, forward, root, cost, pred, stamp, clock, u, v, tg);
      cost' := cost[v := tg];
      pred' := pred[v := Some(u)];
      q' := q + [Entry(tg + hav(v, target), v)];
      stamp', clock' := stamp[v := clock], clock + 1;
    }
    SideStepIs(g, forward, target, hav, u, v, Labelling(cost, pred, q), tg);
  }

  /**
   * The state of the neighbour loop after the first `i` neighbours of `u`:
   * the labelling those relaxations produce from `(cost, pred, q)`, labels kept, the queue only grown by entries for labelled nodes, every
   * changed label queued, and each neighbour seen so far labelled no higher
   * than the cost of `u` plus its edge.
   */
  ghost predicate ExpandInv(g: Graph, forward: bool, root: Node, target: Node, hav: Haversine, u: Node,
                            cost: CostMap, pred: PredMap, q: seq<Entry>, i: nat,
                            cost': CostMap, pred': PredMap, q': seq<Entry>, stamp': map<Node, nat>, clock': nat)
  {
    && u in g.succ && u in g.pred && SideValid(g, forward, u) && u in cost
    && EdgesTo(g, forward, u, Adjacent(g, forward, u))
    && i <= |Adjacent(g, forward, u)|
    && Labelling(cost', pred', q') == SideAll(g, forward, target, hav, u, Adjacent(g, forward, u)[..i], Labelling(cost, pred, q))
    && Labels(g, forward, root, cost', pred', stamp', clock')
    && cost.Keys <= cost'.Keys && |q| <= |q'| && q'[..|q|] == q
    && u in cost' && cost'[u] == cost[u]
    && (forall w :: w in cost ==> cost'[w] <= cost[w])
    && EntriesLabelled(q'[|q|..], cost')
    && (forall k :: 0 <= k < i ==> LengthBound(g, forward, cost', u, Adjacent(g, forward, u)[k], cost[u]))
    && (forall w :: w in cost' && (w !in cost || cost'[w] != cost[w]) ==> Queued(q', w))
  }

  /** One pass of the neighbour loop: relax the `i`-th neighbour. */
  method ExpandNext(g: Graph, forward: bool, root: Node, target: Node, hav: Haversine, u: Node,
                    cost: CostMap, pred: PredMap, q: seq<Entry>, i: nat,
                    cost0: CostMap, pred0: PredMap, q0: seq<Entry>, ghost stamp0: map<Node, nat>, ghost clock0: nat)
    returns (cost': CostMap, pred': PredMap, q': seq<Entry>, ghost stamp': map<Node, nat>, ghost clock': nat)
    requires ExpandInv(g, forward, root, target, hav, u, cost, pred, q, i, cost0, pred0, q0, stamp0, clock0)
    requires i < |Adjacent(g, forward, u)|
    ensures ExpandInv(g, forward, root, target, hav, u, cost, pred, q, i + 1, cost', pred', q', stamp', clock')
  {
    var neighbours := Adjacent(g, forward, u);
    var v := neighbours[i];
    assert v in neighbours;
    cost', pred', q', stamp', clock' := RelaxSide(g, forward, root, target, hav, u, v, cost0, pred0, q0, stamp0, clock0);
    SideAllNext(g, forward, target, hav, u, neighbours, i, Labelling(cost, pred, q), Labelling(cost0, pred0, q0),
                Labelling(cost', pred', q'));
    SideKeeps(g, forward, target, hav, u, v, cost, q, i, cost0, q0, cost', q');
  }

  /** The bookkeeping of the neighbour loop survives the relaxation of the `i`-th neighbour `v` of `u`. */
  lemma SideKeeps(g: Graph, forward: bool, target: Node, hav: Haversine, u: Node, v: Node,
                  cost: CostMap, q: seq<Entry>, i: nat, cost0: CostMap, q0: seq<Entry>, cost': CostMap, q': seq<Entry>)
    requires u in g.succ && u in g.pred && SideValid(g, forward, u) && u in cost
    requires i < |Adjacent(g, forward, u)| && v == Adjacent(g, forward, u)[i]
    requires cost.Keys <= cost0.Keys && |q| <= |q0| && q0[..|q|] == q
    requires u in cost0 && cost0[u] == cost[u] && (forall w :: w in cost ==> cost0[w] <= cost[w])
    requires EntriesLabelled(q0[|q|..], cost0)
    requires forall k :: 0 <= k < i ==> LengthBound(g, forward, cost0, u, Adjacent(g, forward, u)[k], cost[u])
    requires forall w :: w in cost0 && (w !in cost || cost0[w] != cost[w]) ==> Queued(q0, w)
    requires u in cost' && cost'[u] == cost0[u]
    requires EdgeOf(forward, u, v) in g.parallel && |g.parallel[EdgeOf(forward, u, v)]| > 0
    requires LengthBound(g, forward, cost', u, v, cost0[u])
    requires forall w :: w != v ==> (w in cost' <==> w in cost0) && (w in cost0 ==> cost'[w] == cost0[w])
    requires forall w :: w in cost0 ==> w in cost' && cost'[w] <= cost0[w]
    requires v in cost0 && cost'[v] == cost0[v] ==> q' == q0
    requires !(v in cost0 && cost'[v] == cost0[v]) ==> q' == q0 + [Entry(cost'[v] + hav(v, target), v)]
    ensures cost.Keys <= cost'.Keys && |q| <= |q'| && q'[..|q|] == q
    ensures u in cost' && cost'[u] == cost[u] && (forall w :: w in cost ==> cost'[w] <= cost[w])
    ensures EntriesLabelled(q'[|q|..], cost')
    ensures forall k :: 0 <= k <= i ==> LengthBound(g, forward, cost', u, Adjacent(g, forward, u)[k], cost[u])
    ensures forall w :: w in cost' && (w !in cost || cost'[w] != cost[w]) ==> Queued(q', w)
  {
    var neighbours := Adjacent(g, forward, u);
    if q' != q0 {
      PushKeeps(q, q0, q', cost0, cost', v);
    }
    forall k | 0 <= k <= i
      ensures LengthBound(g, forward, cost', u, neighbours[k], cost[u])
    {
      assert neighbours[k] in neighbours;
      if k < i {
        assert LengthBound(g, forward, cost0, u, neighbours[k], cost[u]);
      }
    }
  }

  /**
   * The loop over the neighbours of the popped node (lines 54-61 going
   * forward, 68-75 going backward). Afterwards every neighbour is labelled no
   * higher than the cost of `u` plus its edge, and every label that changed
   * is queued.
   */
  method ExpandSide(g: Graph, forward: bool, root: Node, target: Node, hav: Haversine, u: Node,
                    cost: CostMap, pred: PredMap, q: seq<Entry>, ghost stamp: map<Node, nat>, ghost clock: nat)
    returns (cost': CostMap, pred': PredMap, q': seq<Entry>, ghost stamp': map<Node, nat>, ghost clock': nat)
    requires u in g.succ && u in g.pred && SideValid(g, forward, u)
    requires Labels(g, forward, root, cost, pred, stamp, clock) && u in cost
    ensures Labels(g, forward, root, cost', pred', stamp', clock')
    ensures cost.Keys <= cost'.Keys && |q| <= |q'| && q'[..|q|] == q
    ensures EntriesLabelled(q'[|q|..], cost')
    ensures forall v :: v in Adjacent(g, forward, u) ==> LengthBound(g, forward, cost', u, v, cost[u])
    ensures forall w :: w in cost' && (w !in cost || cost'[w] != cost[w]) ==> Queued(q', w)
    ensures EdgesTo(g, forward, u, Adjacent(g, forward, u))
    ensures Labelling(cost', pred', q') == SideAll(g, forward, target, hav, u, Adjacent(g, forward, u), Labelling(cost, pred, q))
  {
    cost', pred', q', stamp', clock' := cost, pred, q, stamp, clock;
    var neighbours := Adjacent(g, forward, u);
    SideValidEdgesTo(g, forward, u);
    var i := 0;
    while i < |neighbours|
      invariant i <= |neighbours|
      invariant ExpandInv(g, forward, root, target, hav, u, cost, pred, q, i, cost', pred', q', stamp', clock')
    {
      cost', pred', q', stamp', clock' := ExpandNext(g, forward, root, target, hav, u, cost, pred, q, i, cost', pred', q', stamp', clock');
      i := i + 1;
    }
    assert neighbours[..i] == neighbours;
    forall v | v in neighbours
      ensures LengthBound(g, forward, cost', u, v, cost[u])
    {
      var k :| 0 <= k < |neighbours| && neighbours[k] == v;
    }
  }


  /**
   * Every labelled node is still queued, or was popped (it is in `visited`)
   * and then had all its neighbours in the search direction labelled.
   */
  ghost predicate SideCovered(g: Graph, forward: bool, q: seq<Entry>, cost: CostMap, visited: set<Node>) {
    forall v :: v in cost ==>
      Queued(q, v) || (v in visited && v in g.succ && v in g.pred && AdjacentIn(g, forward, v, cost.Keys))
  }

  /** The invariant of one side of the search, between two of its pops. */
  ghost predicate SideInv(g: Graph, forward: bool, root: Node, cost: CostMap, pred: PredMap, q: seq<Entry>,
                          visited: set<Node>, stamp: map<Node, nat>, clock: nat)
  {
    && SidesValid(g)
    && Labels(g, forward, root, cost, pred, stamp, clock)
    && EntriesLabelled(q, cost)
    && visited <= cost.Keys
    && SideCovered(g, forward, q, cost, visited)
  }

  /** Popping `e`, marking its node visited and expanding it keeps the queue bookkeeping. */
  lemma SidePopKeeps(g: Graph, forward: bool, q: seq<Entry>, e: Entry, rest: seq<Entry>, visited: set<Node>,
                     cost: CostMap, cost': CostMap, q': seq<Entry>)
    requires EntriesLabelled(q, cost) && SideCovered(g, forward, q, cost, visited)
    requires e in q && e.node in g.succ && e.node in g.pred
    requires (forall x :: x in rest ==> x in q) && (forall x :: x in q && x != e ==> x in rest)
    requires cost.Keys <= cost'.Keys && |rest| <= |q'| && q'[..|rest|] == rest
    requires EntriesLabelled(q'[|rest|..], cost')
    requires AdjacentIn(g, forward, e.node, cost'.Keys)
    requires forall w :: w in cost' && (w !in cost || cost'[w] != cost[w]) ==> Queued(q', w)
    ensures EntriesLabelled(q', cost') && SideCovered(g, forward, q', cost', visited + {e.node})
  {
    forall x | x in q'
      ensures x.node in cost'
    {
      var k :| 0 <= k < |q'| && q'[k] == x;
      if k < |rest| {
        assert x == rest[k] && x in q;
      } else {
        assert x in q'[|rest|..];
      }
    }
    forall v | v in cost'
      ensures Queued(q', v) || (v in visited + {e.node} && v in g.succ && v in g.pred && AdjacentIn(g, forward, v, cost'.Keys))
    {
      if v in cost && cost'[v] == cost[v] && v != e.node {
        if Queued(q, v) {
          QueuedAfterPop(q, rest, e, v);
          QueuedGrow(rest, q', v);
        }
      }
    }
  }

  /**
   * One half of a pass of `while f_queue and b_queue:` (lines 49-61 forward,
   * 63-75 backward): pop the least entry and mark its node visited; the
   * searches have met when the other side has visited it too, otherwise the
   * node's neighbours are relaxed.
   */
  method HalfStep(g: Graph, forward: bool, root: Node, target: Node, hav: Haversine,
                  cost: CostMap, pred: PredMap, q: seq<Entry>, visited: set<Node>, other: set<Node>,
                  ghost stamp: map<Node, nat>, ghost clock: nat)
    returns (met: bool, current: Node, cost': CostMap, pred': PredMap, q': seq<Entry>, visited': set<Node>,
             ghost stamp': map<Node, nat>, ghost clock': nat)
    requires q != [] && SideInv(g, forward, root, cost, pred, q, visited, stamp, clock)
    ensures visited' == visited + {current} && current in cost'
    ensures met <==> current in other
    ensures Labels(g, forward, root, cost', pred', stamp', clock')
    ensures !met ==> SideInv(g, forward, root, cost', pred', q', visited', stamp', clock')
    ensures q == [Entry(0.0, root)] ==> current == root
  {
    var e, rest := PopMin(q);
    current := e.node;
    visited' := visited + {current};
    if current in other {
      return true, current, cost, pred, rest, visited', stamp, clock;
    }
    met := false;
    assert current in cost;
    cost', pred', q', stamp', clock' := ExpandSide(g, forward, root, target, hav, current, cost, pred, rest, stamp, clock);
    forall v | v in Adjacent(g, forward, current)
      ensures v in cost'
    {
      assert LengthBound(g, forward, cost', current, v, cost[current]);
    }
    SidePopKeeps(g, forward, q, e, rest, visited, cost, cost', q');
  }

  /**
   * The search ended without meeting because one side ran out of entries:
   * its labelled nodes, which do not include the other side's root, hold
   * every neighbour (in its direction) of each of them.
   */
  ghost predicate Exhausted(g: Graph, forward: bool, target: Node, cost: CostMap) {
    && target !in cost
    && forall v :: v in cost ==> v in g.succ && v in g.pred && AdjacentIn(g, forward, v, cost.Keys)
  }

  /** An empty queue on a side that has popped its own root leaves that side exhausted. */
  lemma EmptySideExhausted(g: Graph, forward: bool, root: Node, target: Node, cost: CostMap, pred: PredMap,
                           visited: set<Node>, otherVisited: set<Node>, stamp: map<Node, nat>, clock: nat)
    requires SideInv(g, forward, root, cost, pred, [], visited, stamp, clock)
    requires visited * otherVisited == {} && target in otherVisited
    ensures Exhausted(g, forward, target, cost)
  {
    forall v | v in cost
      ensures v in visited && v in g.succ && v in g.pred && AdjacentIn(g, forward, v, cost.Keys)
    {
      assert !Queued([], v);
    }
    assert target !in visited by {
      assert target in visited ==> target in visited * otherVisited;
    }
  }

  /** The invariant of the main loop, over the state of both sides. */
  ghost predicate BidirInv(g: Graph, start: Node, end: Node,
                           fg: CostMap, fpred: PredMap, fq: seq<Entry>, visitedF: set<Node>, fstamp: map<Node, nat>, fclock: nat,
                           bg: CostMap, bpred: PredMap, bq: seq<Entry>, visitedB: set<Node>, bstamp: map<Node, nat>, bclock: nat)
  {
    && SideInv(g, true, start, fg, fpred, fq, visitedF, fstamp, fclock)
    && SideInv(g, false, end, bg, bpred, bq, visitedB, bstamp, bclock)
    && visitedF * visitedB == {}
    && (visitedF == {} ==> visitedB == {} && fq == [Entry(0.0, start)] && bq == [Entry(0.0, end)])
    && (visitedF != {} ==> start in visitedF && end in visitedB)
  }

  /**
   * The invariant between the forward and the backward half of a pass: the
   * forward side has popped its root; the backward side has popped its own
   * unless it is still waiting at the start.
   */
  ghost predicate MidInv(g: Graph, start: Node, end: Node,
                         fg: CostMap, fpred: PredMap, fq: seq<Entry>, visitedF: set<Node>, fstamp: map<Node, nat>, fclock: nat,
                         bg: CostMap, bpred: PredMap, bq: seq<Entry>, visitedB: set<Node>, bstamp: map<Node, nat>, bclock: nat)
  {
    && SideInv(g, true, start, fg, fpred, fq, visitedF, fstamp, fclock)
    && SideInv(g, false, end, bg, bpred, bq, visitedB, bstamp, bclock)
    && visitedF * visitedB == {}
    && start in visitedF
    && (visitedB == {} ==> bq == [Entry(0.0, end)])
    && (visitedB != {} ==> end in visitedB)
  }

  /** The forward half of a pass (lines 49-61). */
  method ForwardHalf(g: Graph, hav: Haversine, start: Node, end: Node,
                     fg: CostMap, fpred: PredMap, fq: seq<Entry>, visitedF: set<Node>, ghost fstamp: map<Node, nat>, ghost fclock: nat,
                     bg: CostMap, bpred: PredMap, bq: seq<Entry>, visitedB: set<Node>, ghost bstamp: map<Node, nat>, ghost bclock: nat)
    returns (meeting: Option<Node>,
             fg': CostMap, fpred': PredMap, fq': seq<Entry>, visitedF': set<Node>, ghost fstamp': map<Node, nat>, ghost fclock': nat)
    requires fq != []
    requires BidirInv(g, start, end, fg, fpred, fq, visitedF, fstamp, fclock, bg, bpred, bq, visitedB, bstamp, bclock)
    ensures Labels(g, true, start, fg', fpred', fstamp', fclock')
    ensures meeting.Some? ==> meeting.value in fg' && meeting.value in bg
    ensures meeting.None? ==>
      MidInv(g, start, end, fg', fpred', fq', visitedF', fstamp', fclock', bg, bpred, bq, visitedB, bstamp, bclock)
  {
    var met, current;
    met, current, fg', fpred', fq', visitedF', fstamp', fclock' :=
      HalfStep(g, true, start, end, hav, fg, fpred, fq, visitedF, visitedB, fstamp, fclock);
    meeting := if met then Some(current) else None;
  }

  /** The backward half of a pass (lines 63-75). */
  method BackwardHalf(g: Graph, hav: Haversine, start: Node, end: Node,
                      fg: CostMap, fpred: PredMap, fq: seq<Entry>, visitedF: set<Node>, ghost fstamp: map<Node, nat>, ghost fclock: nat,
                      bg: CostMap, bpred: PredMap, bq: seq<Entry>, visitedB: set<Node>, ghost bstamp: map<Node, nat>, ghost bclock: nat)
    returns (meeting: Option<Node>,
             bg': CostMap, bpred': PredMap, bq': seq<Entry>, visitedB': set<Node>, ghost bstamp': map<Node, nat>, ghost bclock': nat)
    requires bq != []
    requires MidInv(g, start, end, fg, fpred, fq, visitedF, fstamp, fclock, bg, bpred, bq, visitedB, bstamp, bclock)
    ensures Labels(g, false, end, bg', bpred', bstamp', bclock')
    ensures meeting.Some? ==> meeting.value in fg && meeting.value in bg'
    ensures meeting.None? ==>
      BidirInv(g, start, end, fg, fpred, fq, visitedF, fstamp, fclock, bg', bpred', bq', visitedB', bstamp', bclock')
  {
    var met, current;
    met, current, bg', bpred', bq', visitedB', bstamp', bclock' :=
      HalfStep(g, false, end, start, hav, bg, bpred, bq, visitedB, visitedF, bstamp, bclock);
    meeting := if met then Some(current) else None;
  }

  /**
   * One pass of `while f_queue and b_queue:` (lines 48-75): a forward half
   * step, then, unless the searches met, a backward one. A meeting node is
   * labelled by both sides.
   */
  method Round(g: Graph, hav: Haversine, start: Node, end: Node,
               fg: CostMap, fpred: PredMap, fq: seq<Entry>, visitedF: set<Node>, ghost fstamp: map<Node, nat>, ghost fclock: nat,
               bg: CostMap, bpred: PredMap, bq: seq<Entry>, visitedB: set<Node>, ghost bstamp: map<Node, nat>, ghost bclock: nat)
    returns (meeting: Option<Node>,
             fg': CostMap, fpred': PredMap, fq': seq<Entry>, visitedF': set<Node>, ghost fstamp': map<Node, nat>, ghost fclock': nat,
             bg': CostMap, bpred': PredMap, bq': seq<Entry>, visitedB': set<Node>, ghost bstamp': map<Node, nat>, ghost bclock': nat)
    requires fq != [] && bq != []
    requires BidirInv(g, start, end, fg, fpred, fq, visitedF, fstamp, fclock, bg, bpred, bq, visitedB, bstamp, bclock)
    ensures Labels(g, true, start, fg', fpred', fstamp', fclock')
    ensures Labels(g, false, end, bg', bpred', bstamp', bclock')
    ensures meeting.Some? ==> meeting.value in fg' && meeting.value in bg'
    ensures meeting.None? ==>
      BidirInv(g, start, end, fg', fpred', fq', visitedF', fstamp', fclock', bg', bpred', bq', visitedB', bstamp', bclock')
  {
    bg', bpred', bq', visitedB', bstamp', bclock' := bg, bpred, bq, visitedB, bstamp, bclock;
    meeting, fg', fpred', fq', visitedF', fstamp', fclock' :=
      ForwardHalf(g, hav, start, end, fg, fpred, fq, visitedF, fstamp, fclock, bg, bpred, bq, visitedB, bstamp, bclock);
    if meeting.None? {
      meeting, bg', bpred', bq', visitedB', bstamp', bclock' :=
        BackwardHalf(g, hav, start, end, fg', fpred', fq', visitedF', fstamp', fclock', bg, bpred, bq, visitedB, bstamp, bclock);
    }
  }

  /** Lines 34-46: each side starts with its root alone, labelled 0 and queued at priority 0. */
  lemma InitialBidirInv(g: Graph, start: Node, end: Node)
    requires SidesValid(g) && start in g.succ && end in g.succ
    ensures BidirInv(g, start, end,
                     map[start := 0.0], map[start := None], [Entry(0.0, start)], {}, map[start := 0], 1,
                     map[end := 0.0], map[end := None], [Entry(0.0, end)], {}, map[end := 0], 1)
  {
    InitialLabels(g, true, start, map[start := None]);
    InitialLabels(g, false, end, map[end := None]);
    assert [Entry(0.0, start)][0] in [Entry(0.0, start)];
    assert [Entry(0.0, end)][0] in [Entry(0.0, end)];
  }

  /**
   * The main loop (lines 34-78) for at most `fuel` passes: `done` is false
   * when the fuel ran out. A meeting node is labelled by both sides; no
   * meeting means one side is exhausted.
   */
  method BidirSearch(g: Graph, hav: Haversine, start: Node, end: Node, fuel: nat)
    returns (done: bool, meeting: Option<Node>, fg: CostMap, fpred: PredMap, bg: CostMap, bpred: PredMap,
             ghost fstamp: map<Node, nat>, ghost fclock: nat, ghost bstamp: map<Node, nat>, ghost bclock: nat)
    requires SidesValid(g) && start in g.succ && end in g.succ
    ensures Labels(g, true, start, fg, fpred, fstamp, fclock)
    ensures Labels(g, false, end, bg, bpred, bstamp, bclock)
    ensures !done ==> meeting.None?
    ensures meeting.Some? ==> meeting.value in fg && meeting.value in bg
    ensures done && meeting.None? ==> Exhausted(g, true, end, fg) || Exhausted(g, false, start, bg)
  {
    var fq := [Entry(0.0, start)];
    var bq := [Entry(0.0, end)];
    fg, bg := map[start := 0.0], map[end := 0.0];
    fpred, bpred := map[start := None], map[end := None];
    fstamp, fclock, bstamp, bclock := map[start := 0], 1, map[end := 0], 1;
    var visitedF: set<Node>, visitedB: set<Node> := {}, {};
    InitialBidirInv(g, start, end);
    meeting := None;
    done := true;
    var steps := fuel;
    while fq != [] && bq != []
      invariant BidirInv(g, start, end, fg, fpred, fq, visitedF, fstamp, fclock, bg, bpred, bq, visitedB, bstamp, bclock)
      invariant meeting.None?
      decreases steps
    {
      if steps == 0 {
        done := false;
        return;
      }
      steps := steps - 1;
      meeting, fg, fpred, fq, visitedF, fstamp, fclock, bg, bpred, bq, visitedB, bstamp, bclock :=
        Round(g, hav, start, end, fg, fpred, fq, visitedF, fstamp, fclock, bg, bpred, bq, visitedB, bstamp, bclock);
      if meeting.Some? {
        return;
      }
    }
    if fq == [] {
      EmptySideExhausted(g, true, start, end, fg, fpred, visitedF, visitedB, fstamp, fclock);
    } else {
      EmptySideExhausted(g, false, end, start, bg, bpred, visitedB, visitedF, bstamp, bclock);
    }
  }

  /** When one side is exhausted, no walk leads from `start` to `end`. */
  lemma ExhaustedUnreachable(g: Graph, start: Node, end: Node, fg: CostMap, bg: CostMap)
    requires g.Valid() && start in fg && end in bg
    requires Exhausted(g, true, end, fg) || Exhausted(g, false, start, bg)
    ensures !Reachable(g, start, end)
  {
    if Reachable(g, start, end) {
      if Exhausted(g, true, end, fg) {
        forall v | v in fg.Keys
          ensures v in g.succ && SuccsIn(g, v, fg.Keys)
        {
          assert AdjacentIn(g, true, v, fg.Keys);
        }
        ClosedSetHoldsReachable(g, fg.Keys, start, end);
      } else {
        forall v | v in bg.Keys
          ensures v in g.pred && PredsIn(g, v, bg.Keys)
        {
          assert AdjacentIn(g, false, v, bg.Keys);
        }
        ClosedSetHoldsReaching(g, bg.Keys, start, end);
      }
    }
  }

  /**
   * The chain the backward reconstruction follows: from `v` along
   * predecessors, stopping at `stop` or at a node without predecessor,
   * whichever comes first.
   */
  ghost function StopChain(pred: PredMap, v: Node, stop: Node, n: nat): (c: seq<Node>)
    requires ReachesNone(pred, v, n)
    ensures |c| > 0 && c[0] == v
    ensures |c| == 1 <==> v == stop || !HasPred(pred, v)
    ensures c[|c| - 1] == stop || !HasPred(pred, c[|c| - 1])
    decreases n
  {
    if v == stop || !HasPred(pred, v) then [v] else [v] + StopChain(pred, pred[v].value, stop, n - 1)
  }

  /**
   * The loop of lines 88-93: collect nodes from `end` along `b_pred`,
   * stopping after the meeting node or at a node without predecessor.
   */
  method CollectUntil(bpred: PredMap, end: Node, meeting: Node, ghost n: nat) returns (back: seq<Node>)
    requires ReachesNone(bpred, end, n)
    ensures back == StopChain(bpred, end, meeting, n)
  {
    back := [];
    var node: Option<Node> := Some(end);
    ghost var m := n;
    while node.Some?
      invariant node.Some? ==>
        ReachesNone(bpred, node.value, m) && back + StopChain(bpred, node.value, meeting, m) == StopChain(bpred, end, meeting, n)
      invariant node.None? ==> back == StopChain(bpred, end, meeting, n)
      decreases if node.Some? then m + 1 else 0
    {
      var v := node.value;
      ghost var before := back;
      back := back + [v];
      if v == meeting {
        assert StopChain(bpred, v, meeting, m) == [v];
        break;
      }
      node := PredOf(bpred, v);
      if node.Some? {
        m := m - 1;
        ghost var rest := StopChain(bpred, node.value, meeting, m);
        assert StopChain(bpred, v, meeting, m + 1) == [v] + rest;
        assert back + rest == before + ([v] + rest);
      }
    }
  }

  /**
   * Lines 88-95 as written: collect from `end` along `b_pred` until the
   * meeting node, reverse, and drop the first node. The walk starts at
   * `end`, the root of the backward search, so unless `end` is itself the
   * meeting node it stops at once, and the segment is empty exactly when
   * `end` is the meeting node or has no backward predecessor.
   */
  method BackwardAsWritten(bpred: PredMap, end: Node, meeting: Node, ghost n: nat) returns (bwd: seq<Node>)
    requires ReachesNone(bpred, end, n)
    ensures bwd == Reverse(StopChain(bpred, end, meeting, n))[1..]
    ensures bwd == [] <==> end == meeting || !HasPred(bpred, end)
    ensures bwd != [] ==> bwd[|bwd| - 1] == end
  {
    var back := CollectUntil(bpred, end, meeting, n);
    var rev := Reverse(back);
    bwd := rev[1..];
    assert bwd != [] ==> bwd[|bwd| - 1] == rev[|back| - 1] == back[0];
  }

  /**
   * Lines 97-103: the joined route is returned only when each consecutive
   * pair is an edge of the graph, and replaced by the empty route otherwise.
   */
  method ValidateRoute(g: Graph, full: seq<Node>) returns (route: seq<Node>)
    ensures IsWalk(g, full) ==> route == full
    ensures !IsWalk(g, full) ==> route == []
  {
    var i := 0;
    while i + 1 < |full|
      invariant 0 <= i <= |full|
      invariant forall k :: 0 <= k < i && k + 1 < |full| ==> g.IsEdge(full[k], full[k + 1])
    {
      if !g.IsEdge(full[i], full[i + 1]) {
        return [];
      }
      i := i + 1;
    }
    route := full;
  }

  /** A chain each of whose nodes is reached from the next by an edge, reversed, is a walk without repeats if the chain has none. */
  lemma ReversedChain(g: Graph, c: seq<Node>)
    requires forall i :: 0 <= i < |c| - 1 ==> g.IsEdge(c[i + 1], c[i])
    ensures IsWalk(g, Reverse(c))
    ensures Distinct(c) ==> Distinct(Reverse(c))
  {
    var r := Reverse(c);
    forall i | 0 <= i < |r| - 1
      ensures g.IsEdge(r[i], r[i + 1])
    {
      var k := |c| - 2 - i;
      assert r[i] == c[k + 1] && r[i + 1] == c[k];
    }
    if Distinct(c) {
      forall i, j | 0 <= i < j < |r|
        ensures r[i] != r[j]
      {
        assert r[i] == c[|c| - 1 - i] && r[j] == c[|c| - 1 - j];
      }
    }
  }

  /** The forward reconstruction (lines 81-85) from a node the forward search labelled is a walk from `start`. */
  lemma ForwardSegment(g: Graph, start: Node, fg: CostMap, fpred: PredMap, fstamp: map<Node, nat>, fclock: nat,
                       v: Node, n: nat)
    requires Labels(g, true, start, fg, fpred, fstamp, fclock)
    requires v in fg && ReachesNone(fpred, v, n)
    ensures IsWalkFrom(g, Reverse(PredChain(fpred, v, n)), start, v)
    ensures Distinct(Reverse(PredChain(fpred, v, n)))
  {
    var c := PredChain(fpred, v, n);
    ChainToRoot(g, true, start, fg, fpred, fstamp, fclock, c);
    BackChainDistinct(fpred, c);
    forall i | 0 <= i < |c| - 1
      ensures g.IsEdge(c[i + 1], c[i])
    {
      assert LinkEdge(g, true, c[i + 1], c[i]);
    }
    ReversedChain(g, c);
  }

  /** The chain of backward predecessors from a node the backward search labelled is a walk to `end`. */
  lemma BackwardSegment(g: Graph, end: Node, bg: CostMap, bpred: PredMap, bstamp: map<Node, nat>, bclock: nat,
                        v: Node, n: nat)
    requires Labels(g, false, end, bg, bpred, bstamp, bclock)
    requires v in bg && ReachesNone(bpred, v, n)
    ensures IsWalkFrom(g, PredChain(bpred, v, n), v, end)
  {
    var c := PredChain(bpred, v, n);
    ChainToRoot(g, false, end, bg, bpred, bstamp, bclock, c);
    forall i | 0 <= i < |c| - 1
      ensures g.IsEdge(c[i], c[i + 1])
    {
      assert LinkEdge(g, false, c[i + 1], c[i]);
    }
  }

  /**
   * The forward reconstruction up to a node both searches labelled, joined
   * with the backward predecessor chain after it, is a walk from `start` to
   * `end`.
   */
  lemma JoinedRoute(g: Graph, start: Node, end: Node,
                    fg: CostMap, fpred: PredMap, fstamp: map<Node, nat>, fclock: nat,
                    bg: CostMap, bpred: PredMap, bstamp: map<Node, nat>, bclock: nat,
                    m: Node, nf: nat, nb: nat)
    requires Labels(g, true, start, fg, fpred, fstamp, fclock)
    requires Labels(g, false, end, bg, bpred, bstamp, bclock)
    requires m in fg && m in bg && ReachesNone(fpred, m, nf) && ReachesNone(bpred, m, nb)
    ensures IsWalkFrom(g, Reverse(PredChain(fpred, m, nf)) + PredChain(bpred, m, nb)[1..], start, end)
  {
    var fwd, chain := Reverse(PredChain(fpred, m, nf)), PredChain(bpred, m, nb);
    ForwardSegment(g, start, fg, fpred, fstamp, fclock, m, nf);
    BackwardSegment(g, end, bg, bpred, bstamp, bclock, m, nb);
    WalkJoin(g, fwd, chain);
    var full := fwd + chain[1..];
    assert full[|full| - 1] == chain[|chain| - 1];
  }

  /**
   * `Bidirectional_A_Star(start, end, graph)` (lines 22-103) with the
   * backward segment built as the code intends: the chain of backward
   * predecessors from the meeting node to `end`, without the meeting node
   * itself. Run for at most `fuel` passes (None when the fuel runs out), the
   * route is empty exactly when `end` cannot be reached from `start`, and
   * otherwise is a walk from `start` to `end`.
   */
  method BidirectionalAStar(g: Graph, hav: Haversine, start: Node, end: Node, fuel: nat)
    returns (r: Option<seq<Node>>)
    requires g.Valid() && start in g.succ && end in g.succ
    ensures r.Some? ==> (r.value == [] <==> !Reachable(g, start, end))
    ensures r.Some? && r.value != [] ==> IsWalkFrom(g, r.value, start, end)
  {
    ValidSides(g);
    var done, meeting, fg, fpred, bg, bpred, fstamp, fclock, bstamp, bclock := BidirSearch(g, hav, start, end, fuel);
    if !done {
      return None;
    }
    if meeting.None? {
      ExhaustedUnreachable(g, start, end, fg, bg);
      return Some([]);
    }
    var m := meeting.value;
    RankedReachesNone(fpred, fg, fstamp, m);
    ghost var nf := |BelowSet(fg, fstamp, m)|;
    var back := CollectChain(fpred, m, nf);
    var fwd := Reverse(back);
    RankedReachesNone(bpred, bg, bstamp, m);
    ghost var nb := |BelowSet(bg, bstamp, m)|;
    var chain := CollectChain(bpred, m, nb);
    var full := fwd + chain[1..];
    JoinedRoute(g, start, end, fg, fpred, fstamp, fclock, bg, bpred, bstamp, bclock, m, nf, nb);
    var route := ValidateRoute(g, full);
    r := Some(route);
  }

  /**
   * What the labels say about the route when the searches meet at `m`: the
   * forward reconstruction is a walk from `start` to `m` without repeated
   * nodes, and `end` can be reached from `m`, hence from `start`.
   */
  lemma MeetingFacts(g: Graph, start: Node, end: Node,
                     fg: CostMap, fpred: PredMap, fstamp: map<Node, nat>, fclock: nat,
                     bg: CostMap, bpred: PredMap, bstamp: map<Node, nat>, bclock: nat,
                     m: Node, nf: nat)
    requires Labels(g, true, start, fg, fpred, fstamp, fclock)
    requires Labels(g, false, end, bg, bpred, bstamp, bclock)
    requires m in fg && m in bg && ReachesNone(fpred, m, nf)
    ensures IsWalkFrom(g, Reverse(PredChain(fpred, m, nf)), start, m) && Distinct(Reverse(PredChain(fpred, m, nf)))
    ensures Reachable(g, m, end) && Reachable(g, start, end)
  {
    ForwardSegment(g, start, fg, fpred, fstamp, fclock, m, nf);
    RankedReachesNone(bpred, bg, bstamp, m);
    var nb := |BelowSet(bg, bstamp, m)|;
    BackwardSegment(g, end, bg, bpred, bstamp, bclock, m, nb);
    JoinedRoute(g, start, end, fg, fpred, fstamp, fclock, bg, bpred, bstamp, bclock, m, nf, nb);
  }

  /**
   * Lines 80-103 as written, once the searches met at `m`: the forward
   * reconstruction, the (always empty) backward segment and the edge check.
   * The result is the forward walk from `start` to `m`.
   */
  method JoinAsWritten(g: Graph, start: Node, end: Node,
                       fg: CostMap, fpred: PredMap, ghost fstamp: map<Node, nat>, ghost fclock: nat,
                       bg: CostMap, bpred: PredMap, ghost bstamp: map<Node, nat>, ghost bclock: nat,
                       m: Node)
    returns (route: seq<Node>)
    requires Labels(g, true, start, fg, fpred, fstamp, fclock)
    requires Labels(g, false, end, bg, bpred, bstamp, bclock)
    requires m in fg && m in bg
    ensures IsWalkFrom(g, route, start, m) && Distinct(route)
    ensures Reachable(g, m, end) && Reachable(g, start, end)
  {
    RankedReachesNone(fpred, fg, fstamp, m);
    ghost var nf := |BelowSet(fg, fstamp, m)|;
    var back := CollectChain(fpred, m, nf);
    var fwd := Reverse(back);
    RankedReachesNone(bpred, bg, bstamp, end);
    var bwd := BackwardAsWritten(bpred, end, m, |BelowSet(bg, bstamp, end)|);
    assert !HasPred(bpred, end);
    assert fwd + bwd == fwd;
    MeetingFacts(g, start, end, fg, fpred, fstamp, fclock, bg, bpred, bstamp, bclock, m, nf);
    route := ValidateRoute(g, fwd + bwd);
  }

  /**
   * `Bidirectional_A_Star` exactly as written: the backward segment of lines
   * 88-95 is always empty, so a non-empty route is the forward walk from
   * `start` to the meeting node, and it reaches `end` only when the searches
   * met there.
   */
  method BidirectionalAStarAsWritten(g: Graph, hav: Haversine, start: Node, end: Node, fuel: nat)
    returns (r: Option<seq<Node>>, ghost meeting: Option<Node>)
    requires g.Valid() && start in g.succ && end in g.succ
    ensures r.Some? ==> (r.value == [] <==> !Reachable(g, start, end))
    ensures r.Some? && r.value != [] ==>
      && meeting.Some? && IsWalkFrom(g, r.value, start, meeting.value) && Distinct(r.value)
      && Reachable(g, meeting.value, end)
      && (r.value[|r.value| - 1] == end <==> meeting.value == end)
  {
    ValidSides(g);
    var done, m, fg, fpred, bg, bpred, fstamp, fclock, bstamp, bclock := BidirSearch(g, hav, start, end, fuel);
    meeting := m;
    if !done {
      return None, meeting;
    }
    if m.None? {
      ExhaustedUnreachable(g, start, end, fg, bg);
      return Some([]), meeting;
    }
    var route := JoinAsWritten(g, start, end, fg, fpred, fstamp, fclock, bg, bpred, bstamp, bclock, m.value);
    r := Some(route);
  }

  /** The road 0 -> 1 -> 2, each edge 1 m long. */
  function Line(): Graph {
    Graph(map[0 := [1], 1 := [2], 2 := []],
          map[0 := [], 1 := [0], 2 := [1]],
          map[(0, 1) := [Some(1.0)], (1, 2) := [Some(1.0)]])
  }

  /** The road 0 -> 1 -> 2 is a valid road network. */
  lemma LineValid()
    ensures Line().Valid()
  {
    var g := Line();
    assert g.succ.Keys == {0, 1, 2} == g.pred.Keys;
    assert forall u :: u in g.succ ==> |g.succ[u]| <= 1 && |g.pred[u]| <= 1;
    forall u, v | u in g.succ && v in g.succ[u]
      ensures v in g.succ && (u, v) in g.parallel && u in g.pred[v]
    {
      assert (u == 0 && v == 1) || (u == 1 && v == 2);
    }
    forall u, v | v in g.pred && u in g.pred[v]
      ensures u in g.succ && v in g.succ[u]
    {
      assert (u == 0 && v == 1) || (u == 1 && v == 2);
    }
    forall e | e in g.parallel
      ensures e.0 in g.succ && e.1 in g.succ[e.0] && |g.parallel[e]| > 0 && NonNegative(g.parallel[e])
    {
      assert e == (0, 1) || e == (1, 2);
    }
  }

  /** The labels of both searches on the road 0 -> 1 -> 2 from 0 to 2 when they meet at 1. */
  lemma LineLabels()
    ensures Labels(Line(), true, 0, map[0 := 0.0, 1 := 1.0, 2 := 2.0], map[0 := None, 1 := Some(0), 2 := Some(1)],
                   map[0 := 0, 1 := 1, 2 := 2], 3)
    ensures Labels(Line(), false, 2, map[2 := 0.0, 1 := 1.0], map[2 := None, 1 := Some(2)], map[2 := 0, 1 := 1], 2)
  {
  }

  /**
   * On the road 0 -> 1 -> 2 from 0 to 2, with the two searches meeting at
   * node 1 and the predecessor labels of `LineLabels` (which that lemma
   * shows are valid labels of each side), the route as written stops at
   * the meeting node, one hop short of `end`, while the corrected route
   * reaches it. That the searches do meet at 1 on this road is a hand trace
   * of the pops, not something proved here.
   */
  lemma AsWrittenStopsShort()
    ensures ReachesNone(map[0 := None, 1 := Some(0), 2 := Some(1)], 1, 1)
    ensures ReachesNone(map[2 := None, 1 := Some(2)], 2, 0) && ReachesNone(map[2 := None, 1 := Some(2)], 1, 1)
    ensures Reverse(PredChain(map[0 := None, 1 := Some(0), 2 := Some(1)], 1, 1))
              + Reverse(StopChain(map[2 := None, 1 := Some(2)], 2, 1, 0))[1..] == [0, 1]
    ensures Reverse(PredChain(map[0 := None, 1 := Some(0), 2 := Some(1)], 1, 1))
              + PredChain(map[2 := None, 1 := Some(2)], 1, 1)[1..] == [0, 1, 2]
    ensures IsWalkFrom(Line(), [0, 1, 2], 0, 2) && !IsWalkFrom(Line(), [0, 1], 0, 2)
  {
    var fpred: PredMap := map[0 := None, 1 := Some(0), 2 := Some(1)];
    var bpred: PredMap := map[2 := None, 1 := Some(2)];
    assert PredChain(fpred, 0, 0) == [0];
    assert PredChain(fpred, 1, 1) == [1, 0];
    assert Reverse([1, 0]) == [0, 1];
    assert StopChain(bpred, 2, 1, 0) == [2];
    assert PredChain(bpred, 2, 0) == [2];
    assert PredChain(bpred, 1, 1) == [1, 2];
  }
}
