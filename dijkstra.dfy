/**
 * `Djikstra_with_traffic`: a uniform-cost search over travel times. It
 * relaxes every parallel edge of a popped node, has no closed set (a popped
 * entry whose cost has since improved is expanded again), and stops as soon
 * as the target is popped or the queue is empty.
 */
module Dijkstra {
  import opened Wrappers
  import opened Graphs
  import opened Heaps
  import opened TravelTime
  import opened Predecessors
  import opened SearchState

  /** The travel time of the `j`-th parallel edge from `u` to `v`. */
  function EdgeTime(g: Graph, speed: SpeedOracle, u: Node, v: Node, j: nat): real
    requires (u, v) in g.parallel && AllPresent(g.parallel[(u, v)]) && j < |g.parallel[(u, v)]|
  {
    CalculateTravelTime(g.parallel[(u, v)][j].value, speed(u, v))
  }

  /** No parallel edge out of `u` can improve a cost below `base` plus its travel time. */
  ghost predicate RelaxedFrom(g: Graph, speed: SpeedOracle, dist: CostMap, u: Node, base: real)
    requires u in g.succ && OutEdgesValid(g, u) && OutLengths(g, u)
  {
    forall v :: v in g.succ[u] ==> RelaxedTo(g, speed, dist, u, v, base)
  }

  /** Every edge out of `u` has a length (line 63 reads it without a default). */
  ghost predicate OutLengths(g: Graph, u: Node)
    requires u in g.succ && OutEdgesValid(g, u)
  {
    forall v :: v in g.succ[u] ==> AllPresent(g.parallel[(u, v)])
  }

  /** The same, for the edges to one neighbour `v`. */
  ghost predicate RelaxedTo(g: Graph, speed: SpeedOracle, dist: CostMap, u: Node, v: Node, base: real)
    requires (u, v) in g.parallel && AllPresent(g.parallel[(u, v)])
  {
    forall j :: 0 <= j < |g.parallel[(u, v)]| ==> v in dist && dist[v] <= base + EdgeTime(g, speed, u, v, j)
  }

  /** Costs only go down and no labelled node loses its label. */
  ghost predicate Decreased(dist: CostMap, dist': CostMap) {
    dist.Keys <= dist'.Keys && forall v :: v in dist ==> dist'[v] <= dist[v]
  }

  /** `q'` is `q` with entries pushed at the end. */
  ghost predicate Pushed(q: seq<Entry>, q': seq<Entry>) {
    |q| <= |q'| && q'[..|q|] == q
  }

  lemma PushedMember(q: seq<Entry>, q': seq<Entry>, x: Entry)
    requires Pushed(q, q') && x in q
    ensures x in q'
  {
    var k :| 0 <= k < |q| && q[k] == x;
    assert q'[k] == x;
  }

  /** The cost of `v` was set or lowered between `cost` and `cost'`. */
  predicate Relabelled(cost: CostMap, cost': CostMap, v: Node) {
    v in cost' && (v !in cost || cost'[v] != cost[v])
  }

  /**
   * What lines 63-70 do to the labelling for the `j`-th parallel edge
   * `u -> v`, entered with the popped cost `p`: when the travel time of the
   * edge plus `p` beats the cost of `v`, `v` gets that cost and `u` as
   * predecessor, and is pushed at that cost.
   */
  function RelaxEdgeStep(g: Graph, speed: SpeedOracle, u: Node, p: real, v: Node, j: nat, s: Labelling): Labelling
    requires (u, v) in g.parallel && AllPresent(g.parallel[(u, v)]) && j < |g.parallel[(u, v)]|
  {
    var c := EdgeTime(g, speed, u, v, j) + p;
    if v !in s.cost || s.cost[v] > c then
      Labelling(s.cost[v := c], s.pred[v := Some(u)], s.queue + [Entry(c, v)])
    else
      s
  }

  /** The first `n` parallel edges `u -> v` relaxed one after the other. */
  function RelaxEdgesUpTo(g: Graph, speed: SpeedOracle, u: Node, p: real, v: Node, n: nat, s: Labelling): Labelling
    requires (u, v) in g.parallel && AllPresent(g.parallel[(u, v)]) && n <= |g.parallel[(u, v)]|
  {
    if n == 0 then s
    else RelaxEdgeStep(g, speed, u, p, v, n - 1, RelaxEdgesUpTo(g, speed, u, p, v, n - 1, s))
  }

  lemma RelaxEdgesUpToNext(g: Graph, speed: SpeedOracle, u: Node, p: real, v: Node, j: nat,
                           s: Labelling, r: Labelling, r': Labelling)
    requires (u, v) in g.parallel && AllPresent(g.parallel[(u, v)]) && j < |g.parallel[(u, v)]|
    requires r == RelaxEdgesUpTo(g, speed, u, p, v, j, s) && r' == RelaxEdgeStep(g, speed, u, p, v, j, r)
    ensures r' == RelaxEdgesUpTo(g, speed, u, p, v, j + 1, s)
  {
  }

  /** Every node of `vs` is joined to `u` by parallel edges that all have a length. */
  ghost predicate LengthsTo(g: Graph, u: Node, vs: seq<Node>) {
    forall i :: 0 <= i < |vs| ==> (u, vs[i]) in g.parallel && AllPresent(g.parallel[(u, vs[i])])
  }

  /** The neighbours `vs` of `u` taken in order, the parallel edges to each relaxed in order. */
  function ExpandOver(g: Graph, speed: SpeedOracle, u: Node, p: real, vs: seq<Node>, s: Labelling): Labelling
    requires LengthsTo(g, u, vs)
    decreases |vs|
  {
    if vs == [] then s
    else
      var v := vs[|vs| - 1];
      RelaxEdgesUpTo(g, speed, u, p, v, |g.parallel[(u, v)]|, ExpandOver(g, speed, u, p, vs[..|vs| - 1], s))
  }

  lemma RelaxEdgeStepIs(g: Graph, speed: SpeedOracle, u: Node, p: real, v: Node, j: nat, s: Labelling, c: real)
    requires (u, v) in g.parallel && AllPresent(g.parallel[(u, v)]) && j < |g.parallel[(u, v)]|
    requires c == EdgeTime(g, speed, u, v, j) + p
    ensures v !in s.cost || s.cost[v] > c ==>
      RelaxEdgeStep(g, speed, u, p, v, j, s) == Labelling(s.cost[v := c], s.pred[v := Some(u)], s.queue + [Entry(c, v)])
    ensures !(v !in s.cost || s.cost[v] > c) ==> RelaxEdgeStep(g, speed, u, p, v, j, s) == s
  {
  }

  /**
   * What relaxing the first `n` parallel edges `u -> v` from `s` achieves:
   * `v` then costs no more than `p` plus the travel time of any of them and
   * no other node is relabelled. When the cost of `v` changed it went down,
   * to `p` plus the travel time of one of those edges, `u` became its
   * predecessor and the new cost was pushed; when it did not, nothing changed.
   */
  lemma {:induction false} RelaxEdgesUpToFacts(g: Graph, speed: SpeedOracle, u: Node, p: real, v: Node, n: nat,
                                               s: Labelling, r: Labelling)
    requires (u, v) in g.parallel && AllPresent(g.parallel[(u, v)]) && NonNegative(g.parallel[(u, v)])
    requires n <= |g.parallel[(u, v)]| && r == RelaxEdgesUpTo(g, speed, u, p, v, n, s)
    ensures forall k :: 0 <= k < n ==> v in r.cost && r.cost[v] <= p + EdgeTime(g, speed, u, v, k)
    ensures forall w :: w != v ==> (w in r.cost <==> w in s.cost) && (w in s.cost ==> r.cost[w] == s.cost[w])
    ensures Decreased(s.cost, r.cost) && Pushed(s.queue, r.queue)
    ensures forall x :: x in r.queue[|s.queue|..] ==> x.node == v && x.priority >= p && v in r.cost && r.cost[v] <= x.priority
    ensures !Relabelled(s.cost, r.cost, v) ==> r == s
    ensures Relabelled(s.cost, r.cost, v) ==>
      && r.pred == s.pred[v := Some(u)] && r.cost[v] >= p && Entry(r.cost[v], v) in r.queue
      && exists k :: 0 <= k < n && r.cost[v] == p + EdgeTime(g, speed, u, v, k)
    decreases n
  {
    if n > 0 {
      var r0 := RelaxEdgesUpTo(g, speed, u, p, v, n - 1, s);
      RelaxEdgesUpToFacts(g, speed, u, p, v, n - 1, s, r0);
      var c := EdgeTime(g, speed, u, v, n - 1) + p;
      assert g.parallel[(u, v)][n - 1].value >= 0.0;
      RelaxEdgeStepIs(g, speed, u, p, v, n - 1, r0, c);
      if v !in r0.cost || r0.cost[v] > c {
        RelaxEdgeStepFacts(s, r0, r, u, v, c, p, n - 1);
      }
    }
  }

  /** The bookkeeping of `RelaxEdgesUpToFacts` across one improving edge. */
  lemma RelaxEdgeStepFacts(s: Labelling, r0: Labelling, r: Labelling, u: Node, v: Node, c: real, p: real, j: nat)
    requires c >= p && (v !in r0.cost || r0.cost[v] > c)
    requires r == Labelling(r0.cost[v := c], r0.pred[v := Some(u)], r0.queue + [Entry(c, v)])
    requires forall w :: w != v ==> (w in r0.cost <==> w in s.cost) && (w in s.cost ==> r0.cost[w] == s.cost[w])
    requires Decreased(s.cost, r0.cost) && Pushed(s.queue, r0.queue)
    requires forall x :: x in r0.queue[|s.queue|..] ==> x.node == v && x.priority >= p && v in r0.cost && r0.cost[v] <= x.priority
    requires !Relabelled(s.cost, r0.cost, v) ==> r0 == s
    requires Relabelled(s.cost, r0.cost, v) ==> r0.pred == s.pred[v := Some(u)]
    ensures Decreased(s.cost, r.cost) && Pushed(s.queue, r.queue)
    ensures forall x :: x in r.queue[|s.queue|..] ==> x.node == v && x.priority >= p && v in r.cost && r.cost[v] <= x.priority
    ensures Relabelled(s.cost, r.cost, v) && r.pred == s.pred[v := Some(u)] && Entry(r.cost[v], v) in r.queue
  {
    assert r.queue[..|s.queue|] == r0.queue[..|s.queue|];
    forall x | x in r.queue[|s.queue|..]
      ensures x.node == v && x.priority >= p && v in r.cost && r.cost[v] <= x.priority
    {
      var k :| |s.queue| <= k < |r.queue| && r.queue[k] == x;
      if k < |r0.queue| {
        assert x in r0.queue[|s.queue|..];
      }
    }
    assert r.queue[|r0.queue|] == Entry(c, v);
  }

  /**
   * The inner loop over the parallel edges `u -> v` (lines 57-70), entered
   * with the popped cost `p`: it leaves the labelling those edges produce one
   * after the other. Each edge whose travel time plus `p` beats the current
   * cost of `v` sets that cost, makes `u` the predecessor of `v` and pushes
   * `v`; so afterwards `v` costs no more than `p` plus any of the travel
   * times, and if its cost changed it is `p` plus one of them.
   */
  method RelaxEdges(g: Graph, speed: SpeedOracle, start: Node, u: Node, p: real, v: Node,
                    dist: CostMap, pred: PredMap, q: seq<Entry>, ghost stamp: map<Node, nat>, ghost clock: nat)
    returns (dist': CostMap, pred': PredMap, q': seq<Entry>, ghost stamp': map<Node, nat>, ghost clock': nat)
    requires (u, v) in g.parallel && v in g.succ
    requires AllPresent(g.parallel[(u, v)]) && NonNegative(g.parallel[(u, v)])
    requires Labels(g, true, start, dist, pred, stamp, clock) && PredCost(g, speed, dist, pred)
    requires u in dist && dist[u] <= p
    ensures Labels(g, true, start, dist', pred', stamp', clock') && PredCost(g, speed, dist', pred')
    ensures Labelling(dist', pred', q') == RelaxEdgesUpTo(g, speed, u, p, v, |g.parallel[(u, v)]|, Labelling(dist, pred, q))
    ensures Decreased(dist, dist') && Pushed(q, q')
    ensures RelaxedTo(g, speed, dist', u, v, p)
    ensures forall w :: w != v ==> (w in dist' <==> w in dist) && (w in dist ==> dist'[w] == dist[w])
    ensures forall x :: x in q'[|q|..] ==> x.node == v && x.priority >= p && v in dist' && dist'[v] <= x.priority
    ensures Relabelled(dist, dist', v) ==>
      && pred' == pred[v := Some(u)] && dist'[v] >= p && Entry(dist'[v], v) in q'
      && exists j :: 0 <= j < |g.parallel[(u, v)]| && dist'[v] == p + EdgeTime(g, speed, u, v, j)
    ensures !Relabelled(dist, dist', v) ==> dist' == dist && pred' == pred && q' == q
    ensures RelaxedTo(g, speed, dist, u, v, p) ==> dist' == dist && pred' == pred && q' == q
  {
    dist', pred', q', stamp', clock' := dist, pred, q, stamp, clock;
    var j := 0;
    while j < |g.parallel[(u, v)]|
      invariant EdgesInv(g, speed, start, u, p, v, dist, pred, q, j, dist', pred', q', stamp', clock')
    {
      dist', pred', q', stamp', clock' := RelaxEdgeNext(g, speed, start, u, p, v, dist, pred, q, j, dist', pred', q', stamp', clock');
      j := j + 1;
    }
    RelaxEdgesOutcome(g, speed, u, p, v, dist, pred, q, dist', pred', q');
  }

  /** The state of the loop over the parallel edges to `v` after the first `j` of them. */
  ghost predicate EdgesInv(g: Graph, speed: SpeedOracle, start: Node, u: Node, p: real, v: Node,
                           dist: CostMap, pred: PredMap, q: seq<Entry>, j: nat,
                           dist': CostMap, pred': PredMap, q': seq<Entry>, stamp': map<Node, nat>, clock': nat)
  {
    && (u, v) in g.parallel && v in g.succ && AllPresent(g.parallel[(u, v)]) && NonNegative(g.parallel[(u, v)])
    && j <= |g.parallel[(u, v)]|
    && Labels(g, true, start, dist', pred', stamp', clock') && PredCost(g, speed, dist', pred')
    && Labelling(dist', pred', q') == RelaxEdgesUpTo(g, speed, u, p, v, j, Labelling(dist, pred, q))
    && u in dist' && dist'[u] <= p
  }

  /** One pass of the loop of lines 57-70: try the `j`-th parallel edge to `v`. */
  method RelaxEdgeNext(g: Graph, speed: SpeedOracle, start: Node, u: Node, p: real, v: Node,
                       dist: CostMap, pred: PredMap, q: seq<Entry>, j: nat,
                       dist0: CostMap, pred0: PredMap, q0: seq<Entry>, ghost stamp0: map<Node, nat>, ghost clock0: nat)
    returns (dist': CostMap, pred': PredMap, q': seq<Entry>, ghost stamp': map<Node, nat>, ghost clock': nat)
    requires EdgesInv(g, speed, start, u, p, v, dist, pred, q, j, dist0, pred0, q0, stamp0, clock0)
    requires j < |g.parallel[(u, v)]|
    ensures EdgesInv(g, speed, start, u, p, v, dist, pred, q, j + 1, dist', pred', q', stamp', clock')
  {
    dist', pred', q', stamp', clock' := dist0, pred0, q0, stamp0, clock0;
    var edges := g.parallel[(u, v)];
    var travelTime := CalculateTravelTime(edges[j].value, speed(u, v));
    var timeCost := travelTime + p;
    assert travelTime == EdgeTime(g, speed, u, v, j);
    RelaxEdgeStepIs(g, speed, u, p, v, j, Labelling(dist0, pred0, q0), timeCost);
    if v !in dist0 || dist0[v] > timeCost {
      assert edges[j].value >= 0.0;
      Improve(g, true, start, dist0, pred0, stamp0, clock0, u, v, timeCost);
      HopWithinEdge(g, speed, u, v, j);
      PredCostImprove(g, speed, dist0, pred0, u, v, timeCost);
      dist' := dist0[v := timeCost];
      pred' := pred0[v := Some(u)];
      q' := q0 + [Entry(timeCost, v)];
      stamp' := stamp0[v := clock0];
      clock' := clock0 + 1;
    }
    RelaxEdgesUpToNext(g, speed, u, p, v, j, Labelling(dist, pred, q), Labelling(dist0, pred0, q0), Labelling(dist', pred', q'));
  }

  lemma RelaxEdgesOutcome(g: Graph, speed: SpeedOracle, u: Node, p: real, v: Node,
                          dist: CostMap, pred: PredMap, q: seq<Entry>, dist': CostMap, pred': PredMap, q': seq<Entry>)
    requires (u, v) in g.parallel && AllPresent(g.parallel[(u, v)]) && NonNegative(g.parallel[(u, v)])
    requires Labelling(dist', pred', q') == RelaxEdgesUpTo(g, speed, u, p, v, |g.parallel[(u, v)]|, Labelling(dist, pred, q))
    ensures Decreased(dist, dist') && Pushed(q, q')
    ensures RelaxedTo(g, speed, dist', u, v, p)
    ensures forall w :: w != v ==> (w in dist' <==> w in dist) && (w in dist ==> dist'[w] == dist[w])
    ensures forall x :: x in q'[|q|..] ==> x.node == v && x.priority >= p && v in dist' && dist'[v] <= x.priority
    ensures Relabelled(dist, dist', v) ==>
      && pred' == pred[v := Some(u)] && dist'[v] >= p && Entry(dist'[v], v) in q'
      && exists j :: 0 <= j < |g.parallel[(u, v)]| && dist'[v] == p + EdgeTime(g, speed, u, v, j)
    ensures !Relabelled(dist, dist', v) ==> dist' == dist && pred' == pred && q' == q
    ensures RelaxedTo(g, speed, dist, u, v, p) ==> dist' == dist && pred' == pred && q' == q
  {
    var n := |g.parallel[(u, v)]|;
    RelaxEdgesUpToFacts(g, speed, u, p, v, n, Labelling(dist, pred, q), Labelling(dist', pred', q'));
  }

  /** The hop time of `u -> v` is the travel time of its shortest parallel edge, so no edge is quicker. */
  lemma HopWithinEdge(g: Graph, speed: SpeedOracle, u: Node, v: Node, j: nat)
    requires (u, v) in g.parallel && AllPresent(g.parallel[(u, v)]) && j < |g.parallel[(u, v)]|
    ensures HopTime(g, speed, u, v) <= EdgeTime(g, speed, u, v, j)
  {
    var ls := g.parallel[(u, v)];
    assert MinLength(ls) <= ls[j].GetOr(1.0) == ls[j].value;
    TravelTimeMonotone(MinLength(ls), ls[j].value, speed(u, v));
  }

  /** Some parallel edge `u -> v` takes exactly the hop time. */
  lemma HopAttained(g: Graph, speed: SpeedOracle, u: Node, v: Node) returns (j: nat)
    requires (u, v) in g.parallel && AllPresent(g.parallel[(u, v)]) && |g.parallel[(u, v)]| > 0
    ensures j < |g.parallel[(u, v)]| && EdgeTime(g, speed, u, v, j) == HopTime(g, speed, u, v)
  {
    var ls := g.parallel[(u, v)];
    j :| 0 <= j < |ls| && MinLength(ls) == ls[j].GetOr(1.0);
  }

  /**
   * Every predecessor link is paid for: a node with a predecessor costs at
   * least the cost of that predecessor plus the hop time between them.
   */
  ghost predicate PredCost(g: Graph, speed: SpeedOracle, dist: CostMap, pred: PredMap) {
    forall v :: HasPred(pred, v) ==>
      v in dist && pred[v].value in dist && dist[pred[v].value] + HopTime(g, speed, pred[v].value, v) <= dist[v]
  }

  /** Lowering the cost of `v` to `c`, paid for through `u`, keeps every link paid for. */
  lemma PredCostImprove(g: Graph, speed: SpeedOracle, dist: CostMap, pred: PredMap, u: Node, v: Node, c: real)
    requires PredCost(g, speed, dist, pred) && u in dist && u != v
    requires dist[u] + HopTime(g, speed, u, v) <= c && (v !in dist || c < dist[v])
    ensures PredCost(g, speed, dist[v := c], pred[v := Some(u)])
  {
    var dist', pred' := dist[v := c], pred[v := Some(u)];
    forall w | HasPred(pred', w)
      ensures w in dist' && pred'[w].value in dist'
      ensures dist'[pred'[w].value] + HopTime(g, speed, pred'[w].value, w) <= dist'[w]
    {
      if w != v {
        var x := pred[w].value;
        assert HasPred(pred, w);
      }
    }
  }

  /**
   * Following predecessors pays for the walk: along a chain of predecessor
   * links, the travel time of the walk is at most the cost of its last node
   * less the cost of its first.
   */
  lemma {:induction false} ChainCost(g: Graph, speed: SpeedOracle, dist: CostMap, pred: PredMap, path: seq<Node>)
    requires PredCost(g, speed, dist, pred)
    requires |path| > 0 && Linked(pred, path) && path[0] in dist
    ensures path[|path| - 1] in dist
    ensures dist[path[0]] + PathTime(g, speed, path) <= dist[path[|path| - 1]]
    decreases |path|
  {
    if |path| >= 2 {
      var init := path[..|path| - 1];
      assert Linked(pred, init) by {
        forall i | 1 <= i < |init|
          ensures PredOf(pred, init[i]) == Some(init[i - 1])
        {
          assert init[i] == path[i] && init[i - 1] == path[i - 1];
        }
      }
      ChainCost(g, speed, dist, pred, init);
      assert PredOf(pred, path[|path| - 1]) == Some(path[|path| - 2]);
      assert HasPred(pred, path[|path| - 1]);
    }
  }

  lemma RelaxedToMonotone(g: Graph, speed: SpeedOracle, dist: CostMap, dist': CostMap, u: Node, v: Node, base: real)
    requires (u, v) in g.parallel && AllPresent(g.parallel[(u, v)])
    requires RelaxedTo(g, speed, dist, u, v, base) && Decreased(dist, dist')
    ensures RelaxedTo(g, speed, dist', u, v, base)
  {
  }

  lemma RelaxedFromMonotone(g: Graph, speed: SpeedOracle, dist: CostMap, dist': CostMap, u: Node,
                            base: real, base': real)
    requires u in g.succ && OutEdgesValid(g, u) && OutLengths(g, u)
    requires RelaxedFrom(g, speed, dist, u, base) && Decreased(dist, dist') && base <= base'
    ensures RelaxedFrom(g, speed, dist', u, base')
  {
    forall v | v in g.succ[u]
      ensures RelaxedTo(g, speed, dist', u, v, base')
    {
      assert RelaxedTo(g, speed, dist, u, v, base);
    }
  }

  /** Once every edge out of `u` has been relaxed, every successor of `u` is labelled. */
  lemma RelaxedFromLabelsSuccs(g: Graph, speed: SpeedOracle, dist: CostMap, u: Node, base: real)
    requires u in g.succ && OutEdgesValid(g, u) && OutLengths(g, u)
    requires RelaxedFrom(g, speed, dist, u, base)
    ensures SuccsIn(g, u, dist.Keys)
  {
    forall v | v in g.succ[u]
      ensures v in dist
    {
      assert 0 < |g.parallel[(u, v)]|;
      var t := EdgeTime(g, speed, u, v, 0);
    }
  }

  /** The entries pushed since `q` are at priority `p` or above, and none is below its node's cost. */
  ghost predicate PushedAbove(q: seq<Entry>, q': seq<Entry>, dist': CostMap, p: real)
    requires |q| <= |q'|
  {
    forall x :: x in q'[|q|..] ==> x.priority >= p && x.node in dist' && dist'[x.node] <= x.priority
  }

  /** Every cost that changed since `dist` is at least `p` and was pushed. */
  ghost predicate ChangesPushed(dist: CostMap, dist': CostMap, q': seq<Entry>, p: real) {
    forall w :: w in dist' && (w !in dist || dist'[w] != dist[w]) ==> dist'[w] >= p && Entry(dist'[w], w) in q'
  }

  /** One neighbour's relaxation keeps the bookkeeping of the outer loop. */
  lemma ExpandStep(dist: CostMap, q: seq<Entry>, dist0: CostMap, q0: seq<Entry>,
                   dist': CostMap, q': seq<Entry>, v: Node, p: real)
    requires Pushed(q, q0) && Pushed(q0, q') && Decreased(dist0, dist')
    requires PushedAbove(q, q0, dist0, p) && ChangesPushed(dist, dist0, q0, p)
    requires forall w :: w != v ==> (w in dist' <==> w in dist0) && (w in dist0 ==> dist'[w] == dist0[w])
    requires forall x :: x in q'[|q0|..] ==> x.node == v && x.priority >= p && v in dist' && dist'[v] <= x.priority
    requires v in dist' && (v !in dist0 || dist'[v] != dist0[v]) ==> dist'[v] >= p && Entry(dist'[v], v) in q'
    ensures Pushed(q, q')
    ensures PushedAbove(q, q', dist', p) && ChangesPushed(dist, dist', q', p)
  {
    assert q'[..|q|] == q'[..|q0|][..|q|];
    forall x | x in q'[|q|..]
      ensures x.priority >= p && x.node in dist' && dist'[x.node] <= x.priority
    {
      var k :| |q| <= k < |q'| && q'[k] == x;
      if k >= |q0| {
        assert x in q'[|q0|..];
      } else {
        assert x == q0[k] && x in q0[|q|..];
      }
    }
    forall w | w in dist' && (w !in dist || dist'[w] != dist[w])
      ensures dist'[w] >= p && Entry(dist'[w], w) in q'
    {
      if w != v {
        PushedMember(q0, q', Entry(dist'[w], w));
      } else if v in dist0 && dist'[v] == dist0[v] {
        PushedMember(q0, q', Entry(dist'[w], w));
      }
    }
  }

  lemma ExpandOverNext(g: Graph, speed: SpeedOracle, u: Node, p: real, vs: seq<Node>, i: nat,
                       s: Labelling, r: Labelling, r': Labelling)
    requires i < |vs| && LengthsTo(g, u, vs)
    requires r == ExpandOver(g, speed, u, p, vs[..i], s)
    requires r' == RelaxEdgesUpTo(g, speed, u, p, vs[i], |g.parallel[(u, vs[i])]|, r)
    ensures r' == ExpandOver(g, speed, u, p, vs[..i + 1], s)
  {
    assert vs[..i + 1][..i] == vs[..i];
  }

  lemma OutLengthsTo(g: Graph, u: Node)
    requires u in g.succ && OutEdgesValid(g, u) && OutLengths(g, u)
    ensures LengthsTo(g, u, g.succ[u])
  {
    forall i | 0 <= i < |g.succ[u]|
      ensures (u, g.succ[u][i]) in g.parallel && AllPresent(g.parallel[(u, g.succ[u][i])])
    {
      assert g.succ[u][i] in g.succ[u];
    }
  }

  /**
   * The state of the neighbour loop after the first `i` neighbours of `u`:
   * the labelling is what relaxing the edges to those neighbours produced
   * from `(dist, pred, q)`, costs only went down, the queue only grew, no
   * edge to those neighbours can improve on `p`, every pushed entry is at `p`
   * or above and every changed cost was pushed.
   */
  ghost predicate ExpandInv(g: Graph, speed: SpeedOracle, start: Node, u: Node, p: real,
                            dist: CostMap, pred: PredMap, q: seq<Entry>, i: nat,
                            dist': CostMap, pred': PredMap, q': seq<Entry>, stamp': map<Node, nat>, clock': nat)
  {
    && u in g.succ && OutEdgesValid(g, u) && OutLengths(g, u) && LengthsTo(g, u, g.succ[u])
    && u in dist && dist[u] <= p && i <= |g.succ[u]|
    && Labels(g, true, start, dist', pred', stamp', clock') && PredCost(g, speed, dist', pred')
    && Labelling(dist', pred', q') == ExpandOver(g, speed, u, p, g.succ[u][..i], Labelling(dist, pred, q))
    && Decreased(dist, dist') && Pushed(q, q')
    && (forall k :: 0 <= k < i ==> RelaxedTo(g, speed, dist', u, g.succ[u][k], p))
    && PushedAbove(q, q', dist', p) && ChangesPushed(dist, dist', q', p)
    && (RelaxedFrom(g, speed, dist, u, p) ==> dist' == dist && pred' == pred && q' == q)
  }

  /** One pass of the neighbour loop: relax the edges to the `i`-th neighbour of `u`. */
  method ExpandNext(g: Graph, speed: SpeedOracle, start: Node, u: Node, p: real,
                    dist: CostMap, pred: PredMap, q: seq<Entry>, i: nat,
                    dist0: CostMap, pred0: PredMap, q0: seq<Entry>, ghost stamp0: map<Node, nat>, ghost clock0: nat)
    returns (dist': CostMap, pred': PredMap, q': seq<Entry>, ghost stamp': map<Node, nat>, ghost clock': nat)
    requires ExpandInv(g, speed, start, u, p, dist, pred, q, i, dist0, pred0, q0, stamp0, clock0)
    requires i < |g.succ[u]|
    ensures ExpandInv(g, speed, start, u, p, dist, pred, q, i + 1, dist', pred', q', stamp', clock')
  {
    var v := g.succ[u][i];
    assert v in g.succ[u];
    dist', pred', q', stamp', clock' := RelaxEdges(g, speed, start, u, p, v, dist0, pred0, q0, stamp0, clock0);
    ExpandOverNext(g, speed, u, p, g.succ[u], i, Labelling(dist, pred, q), Labelling(dist0, pred0, q0),
                   Labelling(dist', pred', q'));
    ExpandStep(dist, q, dist0, q0, dist', q', v, p);
    forall k | 0 <= k < i
      ensures RelaxedTo(g, speed, dist', u, g.succ[u][k], p)
    {
      RelaxedToMonotone(g, speed, dist0, dist', u, g.succ[u][k], p);
    }
  }

  /**
   * The outer loop over the neighbours of the popped node `u` (lines 56-70):
   * it leaves the labelling that relaxing the edges to each neighbour in turn
   * produces. Afterwards no edge out of `u` can improve on `p` plus its
   * travel time, and each cost that changed was pushed, at a priority no less
   * than `p`.
   */
  method Expand(g: Graph, speed: SpeedOracle, start: Node, u: Node, p: real,
                dist: CostMap, pred: PredMap, q: seq<Entry>, ghost stamp: map<Node, nat>, ghost clock: nat)
    returns (dist': CostMap, pred': PredMap, q': seq<Entry>, ghost stamp': map<Node, nat>, ghost clock': nat)
    requires u in g.succ && OutEdgesValid(g, u) && OutLengths(g, u)
    requires Labels(g, true, start, dist, pred, stamp, clock) && PredCost(g, speed, dist, pred)
    requires u in dist && dist[u] <= p
    ensures Labels(g, true, start, dist', pred', stamp', clock') && PredCost(g, speed, dist', pred')
    ensures LengthsTo(g, u, g.succ[u])
    ensures Labelling(dist', pred', q') == ExpandOver(g, speed, u, p, g.succ[u], Labelling(dist, pred, q))
    ensures Decreased(dist, dist') && Pushed(q, q')
    ensures RelaxedFrom(g, speed, dist', u, p)
    ensures PushedAbove(q, q', dist', p) && ChangesPushed(dist, dist', q', p)
    ensures RelaxedFrom(g, speed, dist, u, p) ==> dist' == dist && pred' == pred && q' == q
  {
    dist', pred', q', stamp', clock' := dist, pred, q, stamp, clock;
    var neighbours := g.succ[u];
    OutLengthsTo(g, u);
    var i := 0;
    while i < |neighbours|
      invariant i <= |neighbours|
      invariant ExpandInv(g, speed, start, u, p, dist, pred, q, i, dist', pred', q', stamp', clock')
    {
      dist', pred', q', stamp', clock' := ExpandNext(g, speed, start, u, p, dist, pred, q, i, dist', pred', q', stamp', clock');
      i := i + 1;
    }
    ExpandOutcome(g, speed, start, u, p, dist, pred, q, dist', pred', q', stamp', clock');
  }

  /** Once every neighbour is tried, the loop state is the one `Expand` promises. */
  lemma ExpandOutcome(g: Graph, speed: SpeedOracle, start: Node, u: Node, p: real,
                      dist: CostMap, pred: PredMap, q: seq<Entry>,
                      dist': CostMap, pred': PredMap, q': seq<Entry>, stamp': map<Node, nat>, clock': nat)
    requires u in g.succ && ExpandInv(g, speed, start, u, p, dist, pred, q, |g.succ[u]|, dist', pred', q', stamp', clock')
    ensures Labelling(dist', pred', q') == ExpandOver(g, speed, u, p, g.succ[u], Labelling(dist, pred, q))
    ensures RelaxedFrom(g, speed, dist', u, p)
  {
    var neighbours := g.succ[u];
    assert neighbours[..|neighbours|] == neighbours;
    forall v | v in g.succ[u]
      ensures RelaxedTo(g, speed, dist', u, v, p)
    {
      var k :| 0 <= k < |neighbours| && neighbours[k] == v;
    }
  }

  /** Every edge out of every node has a length, as line 63 demands. */
  lemma ValidOutLengths(g: Graph, u: Node)
    requires g.Valid() && g.HasLengths() && u in g.succ
    ensures OutEdgesValid(g, u) && OutLengths(g, u)
  {
    ValidOutEdges(g, u);
  }

  /** Every queued entry names a labelled node at no less than its cost, and no less than `last`. */
  ghost predicate QueueSound(q: seq<Entry>, dist: CostMap, last: real) {
    forall x :: x in q ==> x.node in dist && dist[x.node] <= x.priority && last <= x.priority
  }

  /**
   * A settled node was popped first at priority `settled[s]` (never above `last`)
   * and all edges out of it were relaxed from that cost.
   */
  ghost predicate SettledSound(g: Graph, speed: SpeedOracle, dist: CostMap, settled: map<Node, real>, last: real) {
    forall s :: s in settled ==>
      s in g.succ && OutEdgesValid(g, s) && OutLengths(g, s) && settled[s] <= last
      && RelaxedFrom(g, speed, dist, s, settled[s])
  }

  /** Every labelled node is queued at its current cost, or has been settled. */
  ghost predicate Covered(q: seq<Entry>, dist: CostMap, settled: map<Node, real>) {
    forall v :: v in dist ==> Entry(dist[v], v) in q || v in settled
  }

  /**
   * One iteration of the main loop keeps its invariants: `e` was popped from
   * `q` leaving `rest`, and expanding its node turned `dist` into `dist'` and
   * `rest` into `q'`; the node is settled from then on.
   */
  lemma PopStep(g: Graph, speed: SpeedOracle, q: seq<Entry>, e: Entry, rest: seq<Entry>,
                dist: CostMap, settled: map<Node, real>, last: real,
                dist': CostMap, q': seq<Entry>, settled': map<Node, real>)
    requires QueueSound(q, dist, last) && SettledSound(g, speed, dist, settled, last) && Covered(q, dist, settled)
    requires e in q && (forall x :: x in q ==> Le(e, x))
    requires (forall x :: x in rest ==> x in q) && (forall x :: x in q && x != e ==> x in rest)
    requires e.node in g.succ && OutEdgesValid(g, e.node) && OutLengths(g, e.node)
    requires Decreased(dist, dist') && Pushed(rest, q') && RelaxedFrom(g, speed, dist', e.node, e.priority)
    requires PushedAbove(rest, q', dist', e.priority) && ChangesPushed(dist, dist', q', e.priority)
    requires settled' == if e.node in settled then settled else settled[e.node := e.priority]
    ensures QueueSound(q', dist', e.priority)
    ensures SettledSound(g, speed, dist', settled', e.priority)
    ensures Covered(q', dist', settled')
  {
    var u, p := e.node, e.priority;
    assert last <= p;
    forall x | x in q'
      ensures x.node in dist' && dist'[x.node] <= x.priority && p <= x.priority
    {
      var k :| 0 <= k < |q'| && q'[k] == x;
      if k < |rest| {
        assert x == rest[k] && x in q && Le(e, x);
      } else {
        assert x in q'[|rest|..];
      }
    }
    forall s | s in settled'
      ensures s in g.succ && OutEdgesValid(g, s) && OutLengths(g, s) && settled'[s] <= p
      ensures RelaxedFrom(g, speed, dist', s, settled'[s])
    {
      if s in settled {
        RelaxedFromMonotone(g, speed, dist, dist', s, settled[s], settled[s]);
      }
    }
    forall v | v in dist'
      ensures Entry(dist'[v], v) in q' || v in settled'
    {
      if v !in dist || dist'[v] != dist[v] {
        assert Entry(dist'[v], v) in q';
      } else if v != u && v !in settled {
        assert Entry(dist[v], v) in rest;
        PushedMember(rest, q', Entry(dist[v], v));
      }
    }
  }

  lemma RemoveShrinks(s: set<Node>, u: Node)
    requires u in s
    ensures |s - {u}| < |s|
  {
    assert s == (s - {u}) + {u};
  }

  /** Validity and lengths at every node of the graph. */
  ghost predicate AllOutValid(g: Graph) {
    forall u :: u in g.succ ==> OutEdgesValid(g, u) && OutLengths(g, u)
  }

  /** Every bundle of parallel edges joins a node to one of its successors. */
  ghost predicate EdgesInSuccs(g: Graph) {
    forall e :: e in g.parallel ==> e.0 in g.succ && e.1 in g.succ[e.0]
  }

  /** No walk from `s` to `t` takes less than `d`. */
  ghost predicate NoFasterWalk(g: Graph, speed: SpeedOracle, s: Node, t: Node, d: real) {
    forall w :: IsWalkFrom(g, w, s, t) ==> d <= PathTime(g, speed, w)
  }

  /** A node is settled at a priority no walk from `start` to it beats. */
  ghost predicate SettledOptimal(g: Graph, speed: SpeedOracle, start: Node, settled: map<Node, real>) {
    forall s :: s in settled ==> NoFasterWalk(g, speed, start, s, settled[s])
  }

  /** The first node of `w` that is not settled, when its last one is not. */
  lemma FirstUnsettled(w: seq<Node>, settled: map<Node, real>) returns (i: nat)
    requires |w| > 0 && w[|w| - 1] !in settled
    ensures i < |w| && w[i] !in settled && forall k :: 0 <= k < i ==> w[k] in settled
  {
    i := 0;
    while w[i] in settled
      invariant i < |w| && forall k :: 0 <= k < i ==> w[k] in settled
      decreases |w| - i
    {
      i := i + 1;
    }
  }

  /** Along a walk, hop times are never negative. */
  lemma WalkHopsNonNegative(g: Graph, speed: SpeedOracle, w: seq<Node>)
    requires AllOutValid(g) && EdgesInSuccs(g) && IsWalk(g, w)
    ensures forall i :: 0 <= i < |w| - 1 ==> HopTime(g, speed, w[i], w[i + 1]) >= 0.0
  {
    forall i | 0 <= i < |w| - 1
      ensures HopTime(g, speed, w[i], w[i + 1]) >= 0.0
    {
      assert g.IsEdge(w[i], w[i + 1]);
      assert w[i + 1] in g.succ[w[i]];
      HopTimeNonNegative(g, speed, w[i], w[i + 1]);
    }
  }

  /** With hop times that are not negative, a walk takes no less time than any of its prefixes. */
  lemma {:induction false} PathTimePrefix(g: Graph, speed: SpeedOracle, w: seq<Node>, k: nat)
    requires 1 <= k <= |w|
    requires forall i :: 0 <= i < |w| - 1 ==> HopTime(g, speed, w[i], w[i + 1]) >= 0.0
    ensures PathTime(g, speed, w[..k]) <= PathTime(g, speed, w)
    decreases |w|
  {
    if k < |w| {
      var init := w[..|w| - 1];
      assert init[..k] == w[..k];
      PathTimePrefix(g, speed, init, k);
      assert w[..|w|] == w;
    } else {
      assert w[..k] == w;
    }
  }

  /**
   * The heart of Dijkstra's argument: a least entry popped for a node that is
   * not settled yet is no dearer than any walk from `start` to that node.
   * Such a walk leaves the settled nodes somewhere; the node where it does is
   * queued at its cost, which relaxing the settled node before it bounded by
   * the time of the walk so far.
   */
  lemma PopOptimal(g: Graph, speed: SpeedOracle, start: Node, dist: CostMap, settled: map<Node, real>,
                   last: real, q: seq<Entry>, e: Entry, w: seq<Node>)
    requires AllOutValid(g) && EdgesInSuccs(g)
    requires start in dist && dist[start] == 0.0
    requires QueueSound(q, dist, last) && SettledSound(g, speed, dist, settled, last) && Covered(q, dist, settled)
    requires SettledOptimal(g, speed, start, settled)
    requires e in q && (forall x :: x in q ==> Le(e, x))
    requires e.node !in settled && IsWalkFrom(g, w, start, e.node)
    ensures e.priority <= PathTime(g, speed, w)
  {
    assert forall s :: s in settled ==> s in g.succ && RelaxedFrom(g, speed, dist, s, settled[s]);
    var v := FrontierBound(g, speed, start, dist, settled, w);
    assert Entry(dist[v], v) in q;
    assert Le(e, Entry(dist[v], v));
  }

  /**
   * A walk from `start` to a node not yet settled passes a node that is not
   * settled but is labelled within the walk's travel time.
   */
  lemma FrontierBound(g: Graph, speed: SpeedOracle, start: Node, dist: CostMap, settled: map<Node, real>, w: seq<Node>)
    returns (v: Node)
    requires AllOutValid(g) && EdgesInSuccs(g)
    requires start in dist && dist[start] == 0.0
    requires forall s :: s in settled ==> s in g.succ && RelaxedFrom(g, speed, dist, s, settled[s])
    requires SettledOptimal(g, speed, start, settled)
    requires |w| > 0 && w[|w| - 1] !in settled && IsWalkFrom(g, w, start, w[|w| - 1])
    ensures v !in settled && v in dist && dist[v] <= PathTime(g, speed, w)
  {
    var i := FirstUnsettled(w, settled);
    v := w[i];
    if i == 0 {
      assert PathTime(g, speed, w[..1]) == 0.0;
    } else {
      assert IsWalkFrom(g, w[..i], start, w[i - 1]);
      SettledWithin(g, speed, start, settled, w[i - 1], w[..i]);
      CrossingBound(g, speed, dist, settled, w, i);
    }
    WalkHopsNonNegative(g, speed, w);
    PathTimePrefix(g, speed, w, i + 1);
  }

  lemma SettledWithin(g: Graph, speed: SpeedOracle, start: Node, settled: map<Node, real>, s: Node, w: seq<Node>)
    requires SettledOptimal(g, speed, start, settled) && s in settled && IsWalkFrom(g, w, start, s)
    ensures settled[s] <= PathTime(g, speed, w)
  {
    assert NoFasterWalk(g, speed, start, s, settled[s]);
  }

  /**
   * Where a walk steps from the settled node `w[i - 1]` to `w[i]`, relaxing
   * the edges out of `w[i - 1]` labelled `w[i]` within the time of the walk
   * up to it.
   */
  lemma CrossingBound(g: Graph, speed: SpeedOracle, dist: CostMap, settled: map<Node, real>, w: seq<Node>, i: nat)
    requires AllOutValid(g) && EdgesInSuccs(g)
    requires 0 < i < |w| && IsWalk(g, w) && w[i - 1] in settled
    requires settled[w[i - 1]] <= PathTime(g, speed, w[..i])
    requires forall s :: s in settled ==> s in g.succ && RelaxedFrom(g, speed, dist, s, settled[s])
    ensures w[i] in dist && dist[w[i]] <= PathTime(g, speed, w[..i + 1])
  {
    var s, v := w[i - 1], w[i];
    assert g.IsEdge(s, v);
    assert v in g.succ[s];
    assert RelaxedTo(g, speed, dist, s, v, settled[s]);
    var j := HopAttained(g, speed, s, v);
    assert dist[v] <= settled[s] + EdgeTime(g, speed, s, v, j);
    assert w[..i + 1][..i] == w[..i];
    assert PathTime(g, speed, w[..i + 1]) == PathTime(g, speed, w[..i]) + HopTime(g, speed, s, v);
  }

  /** Settling the node of a least popped entry at its priority keeps every settled node optimal. */
  lemma SettleOptimal(g: Graph, speed: SpeedOracle, start: Node, dist: CostMap, settled: map<Node, real>,
                      last: real, q: seq<Entry>, e: Entry)
    requires AllOutValid(g) && EdgesInSuccs(g)
    requires start in dist && dist[start] == 0.0
    requires QueueSound(q, dist, last) && SettledSound(g, speed, dist, settled, last) && Covered(q, dist, settled)
    requires SettledOptimal(g, speed, start, settled)
    requires e in q && (forall x :: x in q ==> Le(e, x)) && e.node !in settled
    ensures NoFasterWalk(g, speed, start, e.node, e.priority)
    ensures SettledOptimal(g, speed, start, settled[e.node := e.priority])
  {
    forall w | IsWalkFrom(g, w, start, e.node)
      ensures e.priority <= PathTime(g, speed, w)
    {
      PopOptimal(g, speed, start, dist, settled, last, q, e, w);
    }
  }

  /**
   * The invariant of the search loop, over the source's state (`distances`,
   * `predecessors`, `Queue`) and ghost bookkeeping: the labels, the priority
   * `last` of the latest pop, the nodes `settled` so far with their first
   * popped priority, and the nodes `todo` that are not settled yet. Every
   * predecessor link is paid for, and no walk beats a settled node's priority.
   */
  ghost predicate SearchInv(g: Graph, speed: SpeedOracle, start: Node, end: Node,
                            dist: CostMap, pred: PredMap, q: seq<Entry>, stamp: map<Node, nat>, clock: nat,
                            settled: map<Node, real>, last: real, todo: set<Node>)
  {
    && AllOutValid(g) && EdgesInSuccs(g)
    && Labels(g, true, start, dist, pred, stamp, clock)
    && PredCost(g, speed, dist, pred)
    && QueueSound(q, dist, last)
    && SettledSound(g, speed, dist, settled, last)
    && SettledOptimal(g, speed, start, settled)
    && Covered(q, dist, settled)
    && end !in settled
    && (forall v :: v in settled ==> v in g.succ && v !in todo)
    && (forall v :: v in g.succ && v !in settled ==> v in todo)
  }

  /**
   * One pass of `while Queue:` (lines 51-70): pop the least entry; stop when it
   * is `end`, whose cost then no walk from `start` beats; otherwise expand its
   * node. A pass that does not stop either settles a new node or shrinks the
   * queue.
   */
  method SearchStep(g: Graph, speed: SpeedOracle, start: Node, end: Node,
                    dist: CostMap, pred: PredMap, q: seq<Entry>, ghost stamp: map<Node, nat>, ghost clock: nat,
                    ghost settled: map<Node, real>, ghost last: real, ghost todo: set<Node>)
    returns (found: bool, dist': CostMap, pred': PredMap, q': seq<Entry>, ghost stamp': map<Node, nat>,
             ghost clock': nat, ghost settled': map<Node, real>, ghost last': real, ghost todo': set<Node>)
    requires q != []
    requires SearchInv(g, speed, start, end, dist, pred, q, stamp, clock, settled, last, todo)
    ensures found ==> end in dist' && Labels(g, true, start, dist', pred', stamp', clock')
    ensures found ==> PredCost(g, speed, dist', pred') && NoFasterWalk(g, speed, start, end, dist'[end])
    ensures !found ==> SearchInv(g, speed, start, end, dist', pred', q', stamp', clock', settled', last', todo')
    ensures !found ==> |todo'| < |todo| || (todo' == todo && |q'| < |q|)
  {
    var e, rest := PopMin(q);
    var u, p := e.node, e.priority;
    found, dist', pred', stamp', clock', settled', last', todo' := false, dist, pred, stamp, clock, settled, last, todo;
    assert u in dist && dist[u] <= p && last <= p;
    if u == end {
      SettleOptimal(g, speed, start, dist, settled, last, q, e);
      found, q' := true, rest;
      return;
    }
    if u in settled {
      RelaxedFromMonotone(g, speed, dist, dist, u, settled[u], p);
    } else {
      SettleOptimal(g, speed, start, dist, settled, last, q, e);
    }
    dist', pred', q', stamp', clock' := Expand(g, speed, start, u, p, dist, pred, rest, stamp, clock);
    if u !in settled {
      settled', todo' := settled[u := p], todo - {u};
      RemoveShrinks(todo, u);
    }
    PopStep(g, speed, q, e, rest, dist, settled, last, dist', q', settled');
    last' := p;
  }

  /**
   * The search loop of `Djikstra_with_traffic` (lines 45-70). It stops either
   * on popping `end`, which is then labelled at a cost no walk from `start`
   * beats, or with an empty queue, when the labelled nodes are closed under
   * successors and `end` is not among them. Every predecessor link it leaves
   * is paid for by the costs.
   */
  method Search(g: Graph, speed: SpeedOracle, start: Node, end: Node)
    returns (dist: CostMap, pred: PredMap, ghost stamp: map<Node, nat>, ghost clock: nat)
    requires AllOutValid(g) && EdgesInSuccs(g) && start in g.succ
    ensures Labels(g, true, start, dist, pred, stamp, clock) && PredCost(g, speed, dist, pred)
    ensures end in dist ==> NoFasterWalk(g, speed, start, end, dist[end])
    ensures end !in dist ==> forall v :: v in dist ==> SuccsIn(g, v, dist.Keys)
  {
    dist := map[start := 0.0];
    pred := map v | v in g.succ :: None;
    var q := [Entry(0.0, start)];
    stamp, clock := map[start := 0], 1;
    ghost var settled: map<Node, real> := map[];
    ghost var last: real := 0.0;
    ghost var todo: set<Node> := g.succ.Keys;
    InitialLabels(g, true, start, pred);
    assert Entry(dist[start], start) == q[0];
    var found := false;
    while q != []
      invariant SearchInv(g, speed, start, end, dist, pred, q, stamp, clock, settled, last, todo)
      decreases |todo|, |q|
    {
      found, dist, pred, q, stamp, clock, settled, last, todo :=
        SearchStep(g, speed, start, end, dist, pred, q, stamp, clock, settled, last, todo);
      if found {
        return;
      }
    }
    forall v | v in dist
      ensures SuccsIn(g, v, dist.Keys)
    {
      RelaxedFromLabelsSuccs(g, speed, dist, v, settled[v]);
    }
  }

  lemma AllOutValidFromValid(g: Graph)
    requires g.Valid() && g.HasLengths()
    ensures AllOutValid(g) && EdgesInSuccs(g)
  {
    forall u | u in g.succ
      ensures OutEdgesValid(g, u) && OutLengths(g, u)
    {
      ValidOutLengths(g, u);
    }
  }

  /**
   * `Djikstra_with_traffic(Start, End, graph)` (lines 43-72): the result is
   * empty exactly when `end` is `start` (the first pop stops the search before
   * any label is set) or `end` cannot be reached; otherwise it is a walk from
   * `start` to `end` that visits no node twice, and no walk from `start` to
   * `end` takes less time. The search always stops.
   */
  method DjikstraWithTraffic(g: Graph, speed: SpeedOracle, start: Node, end: Node) returns (path: seq<Node>)
    requires g.Valid() && g.HasLengths() && start in g.succ
    ensures path == [] <==> start == end || !Reachable(g, start, end)
    ensures path != [] ==> IsWalkFrom(g, path, start, end) && Distinct(path)
    ensures path != [] ==> forall w :: IsWalkFrom(g, w, start, end) ==> PathTime(g, speed, path) <= PathTime(g, speed, w)
  {
    AllOutValidFromValid(g);
    var dist, pred, stamp, clock := Search(g, speed, start, end);
    RankedWalkEnds(pred, dist, stamp, end);
    path := ReconstructPath(end, pred, start);
    SearchOutcome(g, start, end, dist, pred, stamp, clock, path);
    if path != [] {
      ChainCost(g, speed, dist, pred, path);
    }
  }
}
