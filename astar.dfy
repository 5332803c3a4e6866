/**
 * `A_Star_with_traffic`: a best-first search whose queue is ordered by the
 * cost so far plus a straight-line estimate of the remaining time. Each hop
 * costs the travel time over the shortest of its parallel edges. Like the
 * Dijkstra variant it has no closed set and stops when the target is popped
 * or the queue is empty.
 */
module AStar {
  import opened Wrappers
  import opened Graphs
  import opened Heaps
  import opened TravelTime
  import opened Predecessors
  import opened SearchState

  /**
   * `distance.euclidean((y1, x1), (y2, x2))` on the coordinates of two nodes:
   * the coordinates are not modelled, so the distance is a parameter.
   */
  type Euclid = (Node, Node) -> real

  /** The speed the estimate assumes, in km/h. */
  const MaxSpeedKmh: real := 80.0

  /**
   * The estimate from `v` to `end` (lines 101-103): the Euclidean distance of the
   * two nodes' coordinates divided by 80 km/h expressed in metres per
   * second. The coordinates are raw degrees of latitude and longitude, so
   * the estimate is in the units of that distance, not in seconds.
   */
  function Heuristic(euclid: Euclid, v: Node, end: Node): (h: real)
    ensures h * MetresPerSecond(MaxSpeedKmh) == euclid(v, end)
    ensures euclid(v, end) >= 0.0 ==> h >= 0.0
  {
    euclid(v, end) / MetresPerSecond(MaxSpeedKmh)
  }

  /** `v` is labelled no higher than `base` plus the hop from `u`. */
  ghost predicate HopBound(g: Graph, speed: SpeedOracle, G: CostMap, u: Node, v: Node, base: real) {
    v in G && G[v] <= base + HopTime(g, speed, u, v)
  }

  /**
   * What lines 88-107 do to the labelling for one neighbour `v` of `u`: a
   * strict improvement through `u` relabels `v` with it, makes `u` its
   * predecessor and pushes `v` at that cost plus the estimate.
   */
  function RelaxOne(g: Graph, speed: SpeedOracle, euclid: Euclid, end: Node, u: Node, v: Node, s: Labelling)
    : (r: Labelling)
    requires u in s.cost
    ensures s.cost.Keys <= r.cost.Keys
  {
    var c := s.cost[u] + HopTime(g, speed, u, v);
    if v !in s.cost || c < s.cost[v] then
      Labelling(s.cost[v := c], s.pred[v := Some(u)], s.queue + [Entry(c + Heuristic(euclid, v, end), v)])
    else
      s
  }

  lemma RelaxOneIs(g: Graph, speed: SpeedOracle, euclid: Euclid, end: Node, u: Node, v: Node, s: Labelling, c: real)
    requires u in s.cost && c == s.cost[u] + HopTime(g, speed, u, v)
    ensures v !in s.cost || c < s.cost[v] ==>
      RelaxOne(g, speed, euclid, end, u, v, s)
      == Labelling(s.cost[v := c], s.pred[v := Some(u)], s.queue + [Entry(c + Heuristic(euclid, v, end), v)])
    ensures !(v !in s.cost || c < s.cost[v]) ==> RelaxOne(g, speed, euclid, end, u, v, s) == s
  {
  }

  /** The neighbours `vs` of `u` relaxed one after the other, in order. */
  function RelaxAll(g: Graph, speed: SpeedOracle, euclid: Euclid, end: Node, u: Node, vs: seq<Node>, s: Labelling)
    : (r: Labelling)
    requires u in s.cost
    ensures s.cost.Keys <= r.cost.Keys
    decreases |vs|
  {
    if vs == [] then s
    else RelaxOne(g, speed, euclid, end, u, vs[|vs| - 1], RelaxAll(g, speed, euclid, end, u, vs[..|vs| - 1], s))
  }

  lemma RelaxAllNext(g: Graph, speed: SpeedOracle, euclid: Euclid, end: Node, u: Node, vs: seq<Node>, i: nat,
                     s: Labelling, r: Labelling, r': Labelling)
    requires u in s.cost && i < |vs|
    requires r == RelaxAll(g, speed, euclid, end, u, vs[..i], s)
    requires r' == RelaxOne(g, speed, euclid, end, u, vs[i], r)
    ensures r' == RelaxAll(g, speed, euclid, end, u, vs[..i + 1], s)
  {
    assert vs[..i + 1][..i] == vs[..i];
  }

  /**
   * One neighbour `v` of `current` (lines 88-107): when the cost through `u`
   * beats the known cost of `v`, `v` gets it and `u` as predecessor, and is
   * pushed at that cost plus the estimate; otherwise nothing changes.
   */
  method RelaxNeighbour(g: Graph, speed: SpeedOracle, euclid: Euclid, start: Node, end: Node, u: Node, v: Node,
                        G: CostMap, pred: PredMap, q: seq<Entry>, ghost stamp: map<Node, nat>, ghost clock: nat)
    returns (G': CostMap, pred': PredMap, q': seq<Entry>, ghost stamp': map<Node, nat>, ghost clock': nat)
    requires v in g.succ && g.IsEdge(u, v) && NonNegative(g.EdgeLengths(u, v))
    requires Labels(g, true, start, G, pred, stamp, clock) && u in G
    ensures Labels(g, true, start, G', pred', stamp', clock')
    ensures forall w :: w != v ==> (w in G' <==> w in G) && (w in G ==> G'[w] == G[w])
    ensures u in G' && G'[u] == G[u]
    ensures HopBound(g, speed, G', u, v, G[u])
    ensures forall w :: w in G ==> w in G' && G'[w] <= G[w]
    ensures v in G && G'[v] == G[v] ==> q' == q && pred' == pred
    ensures !(v in G && G'[v] == G[v]) ==>
      && G'[v] == G[u] + HopTime(g, speed, u, v) && pred' == pred[v := Some(u)]
      && q' == q + [Entry(G'[v] + Heuristic(euclid, v, end), v)]
    ensures Labelling(G', pred', q') == RelaxOne(g, speed, euclid, end, u, v, Labelling(G, pred, q))
  {
    G', pred', q', stamp', clock' := G, pred, q, stamp, clock;
    var travelTime := HopTime(g, speed, u, v);
    HopTimeNonNegative(g, speed, u, v);
    var tempG := G[u] + travelTime;
    if v !in G || tempG < G[v] {
      Improve(g, true, start, G, pred, stamp, clock, u, v, tempG);
      G' := G[v := tempG];
      q' := q + [Entry(tempG + Heuristic(euclid, v, end), v)];
      pred' := pred[v := Some(u)];
      stamp', clock' := stamp[v := clock], clock + 1;
    }
    RelaxOneIs(g, speed, euclid, end, u, v, Labelling(G, pred, q), tempG);
  }

  /**
   * The state of the neighbour loop after the first `i` successors of `u`:
   * the labelling is the one those relaxations produce from `(G, pred, q)`,
   * the labels are kept, the queue has only grown, by entries for labelled
   * nodes, every changed label is queued, and each successor seen so far is
   * labelled no higher than the cost of `u` plus the hop.
   */
  ghost predicate NeighboursInv(g: Graph, speed: SpeedOracle, euclid: Euclid, start: Node, end: Node, u: Node,
                                G: CostMap, pred: PredMap, q: seq<Entry>, i: nat,
                                G': CostMap, pred': PredMap, q': seq<Entry>, stamp': map<Node, nat>, clock': nat)
  {
    && u in g.succ && OutEdgesValid(g, u) && u in G && i <= |g.succ[u]|
    && Labels(g, true, start, G', pred', stamp', clock')
    && G.Keys <= G'.Keys && |q| <= |q'| && q'[..|q|] == q
    && u in G' && G'[u] == G[u]
    && (forall w :: w in G ==> G'[w] <= G[w])
    && EntriesLabelled(q'[|q|..], G')
    && (forall k :: 0 <= k < i ==> HopBound(g, speed, G', u, g.succ[u][k], G[u]))
    && (forall w :: w in G' && (w !in G || G'[w] != G[w]) ==> Queued(q', w))
    && Labelling(G', pred', q') == RelaxAll(g, speed, euclid, end, u, g.succ[u][..i], Labelling(G, pred, q))
  }

  /** One pass of the neighbour loop: relax the `i`-th successor of `u`. */
  method RelaxNext(g: Graph, speed: SpeedOracle, euclid: Euclid, start: Node, end: Node, u: Node,
                   G: CostMap, pred: PredMap, q: seq<Entry>, i: nat,
                   G0: CostMap, pred0: PredMap, q0: seq<Entry>, ghost stamp0: map<Node, nat>, ghost clock0: nat)
    returns (G': CostMap, pred': PredMap, q': seq<Entry>, ghost stamp': map<Node, nat>, ghost clock': nat)
    requires NeighboursInv(g, speed, euclid, start, end, u, G, pred, q, i, G0, pred0, q0, stamp0, clock0)
    requires i < |g.succ[u]|
    ensures NeighboursInv(g, speed, euclid, start, end, u, G, pred, q, i + 1, G', pred', q', stamp', clock')
  {
    var v := g.succ[u][i];
    assert v in g.succ[u];
    G', pred', q', stamp', clock' := RelaxNeighbour(g, speed, euclid, start, end, u, v, G0, pred0, q0, stamp0, clock0);
    RelaxAllNext(g, speed, euclid, end, u, g.succ[u], i, Labelling(G, pred, q), Labelling(G0, pred0, q0),
                 Labelling(G', pred', q'));
    NeighbourKeeps(g, speed, euclid, end, u, v, G, q, i, G0, q0, G', q');
  }

  /** The bookkeeping of the neighbour loop survives the relaxation of the `i`-th successor of `u`. */
  lemma NeighbourKeeps(g: Graph, speed: SpeedOracle, euclid: Euclid, end: Node, u: Node, v: Node,
                       G: CostMap, q: seq<Entry>, i: nat, G0: CostMap, q0: seq<Entry>, G': CostMap, q': seq<Entry>)
    requires u in g.succ && i < |g.succ[u]| && u in G
    requires G.Keys <= G0.Keys && |q| <= |q0| && q0[..|q|] == q
    requires u in G0 && G0[u] == G[u] && (forall w :: w in G ==> G0[w] <= G[w])
    requires EntriesLabelled(q0[|q|..], G0)
    requires forall k :: 0 <= k < i ==> HopBound(g, speed, G0, u, g.succ[u][k], G[u])
    requires forall w :: w in G0 && (w !in G || G0[w] != G[w]) ==> Queued(q0, w)
    requires v == g.succ[u][i]
    requires forall w :: w != v ==> (w in G' <==> w in G0) && (w in G0 ==> G'[w] == G0[w])
    requires u in G' && G'[u] == G0[u]
    requires HopBound(g, speed, G', u, v, G0[u])
    requires forall w :: w in G0 ==> w in G' && G'[w] <= G0[w]
    requires v in G0 && G'[v] == G0[v] ==> q' == q0
    requires !(v in G0 && G'[v] == G0[v]) ==> q' == q0 + [Entry(G'[v] + Heuristic(euclid, v, end), v)]
    ensures G.Keys <= G'.Keys && |q| <= |q'| && q'[..|q|] == q
    ensures u in G' && G'[u] == G[u] && (forall w :: w in G ==> G'[w] <= G[w])
    ensures EntriesLabelled(q'[|q|..], G')
    ensures forall k :: 0 <= k <= i ==> HopBound(g, speed, G', u, g.succ[u][k], G[u])
    ensures forall w :: w in G' && (w !in G || G'[w] != G[w]) ==> Queued(q', w)
  {
    if q' != q0 {
      PushKeeps(q, q0, q', G0, G', v);
    }
    forall k | 0 <= k <= i
      ensures HopBound(g, speed, G', u, g.succ[u][k], G[u])
    {
      if k < i {
        assert HopBound(g, speed, G0, u, g.succ[u][k], G[u]);
      }
    }
  }

  /**
   * The loop over `graph.neighbors(current)` (lines 87-107): the labelling it
   * leaves is the successors of `current` relaxed in order. Afterwards every
   * successor of `current` is labelled no higher than the cost of `current`
   * plus the hop, and every label that changed is queued.
   */
  method RelaxNeighbours(g: Graph, speed: SpeedOracle, euclid: Euclid, start: Node, end: Node, u: Node,
                         G: CostMap, pred: PredMap, q: seq<Entry>, ghost stamp: map<Node, nat>, ghost clock: nat)
    returns (G': CostMap, pred': PredMap, q': seq<Entry>, ghost stamp': map<Node, nat>, ghost clock': nat)
    requires u in g.succ && OutEdgesValid(g, u)
    requires Labels(g, true, start, G, pred, stamp, clock) && u in G
    ensures Labels(g, true, start, G', pred', stamp', clock')
    ensures G.Keys <= G'.Keys && |q| <= |q'| && q'[..|q|] == q
    ensures EntriesLabelled(q'[|q|..], G')
    ensures forall v :: v in g.succ[u] ==> HopBound(g, speed, G', u, v, G[u])
    ensures forall w :: w in G' && (w !in G || G'[w] != G[w]) ==> Queued(q', w)
    ensures Labelling(G', pred', q') == RelaxAll(g, speed, euclid, end, u, g.succ[u], Labelling(G, pred, q))
  {
    G', pred', q', stamp', clock' := G, pred, q, stamp, clock;
    var neighbours := g.succ[u];
    var i := 0;
    while i < |neighbours|
      invariant i <= |neighbours|
      invariant NeighboursInv(g, speed, euclid, start, end, u, G, pred, q, i, G', pred', q', stamp', clock')
    {
      G', pred', q', stamp', clock' := RelaxNext(g, speed, euclid, start, end, u, G, pred, q, i, G', pred', q', stamp', clock');
      i := i + 1;
    }
    assert neighbours[..i] == neighbours;
    forall v | v in g.succ[u]
      ensures HopBound(g, speed, G', u, v, G[u])
    {
      var k :| 0 <= k < |neighbours| && neighbours[k] == v;
    }
  }

  /** Every labelled node is still queued or had all its successors labelled when it was expanded. */
  ghost predicate Expanded(g: Graph, q: seq<Entry>, G: CostMap) {
    forall v :: v in G ==> Queued(q, v) || (v in g.succ && SuccsIn(g, v, G.Keys))
  }

  /** The invariant of the A* loop. */
  ghost predicate AStarInv(g: Graph, start: Node, end: Node, G: CostMap, pred: PredMap, q: seq<Entry>,
                           stamp: map<Node, nat>, clock: nat)
  {
    && (forall u :: u in g.succ ==> OutEdgesValid(g, u))
    && Labels(g, true, start, G, pred, stamp, clock)
    && EntriesLabelled(q, G)
    && Expanded(g, q, G)
    && (end in G ==> Queued(q, end))
  }

  /** Popping `e` and expanding its node keeps the queue bookkeeping. */
  lemma AStarPopKeeps(g: Graph, end: Node, q: seq<Entry>, e: Entry, rest: seq<Entry>,
                      G: CostMap, G': CostMap, q': seq<Entry>)
    requires EntriesLabelled(q, G) && Expanded(g, q, G) && (end in G ==> Queued(q, end))
    requires e in q && e.node != end && e.node in g.succ
    requires (forall x :: x in rest ==> x in q) && (forall x :: x in q && x != e ==> x in rest)
    requires G.Keys <= G'.Keys && |rest| <= |q'| && q'[..|rest|] == rest
    requires EntriesLabelled(q'[|rest|..], G')
    requires SuccsIn(g, e.node, G'.Keys)
    requires forall w :: w in G' && (w !in G || G'[w] != G[w]) ==> Queued(q', w)
    ensures EntriesLabelled(q', G') && Expanded(g, q', G') && (end in G' ==> Queued(q', end))
  {
    forall x | x in q'
      ensures x.node in G'
    {
      var k :| 0 <= k < |q'| && q'[k] == x;
      if k < |rest| {
        assert x == rest[k] && x in q;
      } else {
        assert x in q'[|rest|..];
      }
    }
    forall v | v in G'
      ensures Queued(q', v) || (v in g.succ && SuccsIn(g, v, G'.Keys))
    {
      if v in G && G'[v] == G[v] && v != e.node && Queued(q, v) {
        QueuedAfterPop(q, rest, e, v);
        QueuedGrow(rest, q', v);
      }
    }
  }

  /**
   * One pass of `while queue:` (lines 82-107): pop the least entry; stop when
   * it is `end`, otherwise relax the neighbours of its node.
   */
  method AStarStep(g: Graph, speed: SpeedOracle, euclid: Euclid, start: Node, end: Node,
                   G: CostMap, pred: PredMap, q: seq<Entry>, ghost stamp: map<Node, nat>, ghost clock: nat)
    returns (found: bool, G': CostMap, pred': PredMap, q': seq<Entry>, ghost stamp': map<Node, nat>, ghost clock': nat)
    requires q != [] && AStarInv(g, start, end, G, pred, q, stamp, clock)
    ensures found ==> end in G' && Labels(g, true, start, G', pred', stamp', clock')
    ensures !found ==> AStarInv(g, start, end, G', pred', q', stamp', clock')
  {
    var e, rest := PopMin(q);
    var u := e.node;
    if u == end {
      return true, G, pred, rest, stamp, clock;
    }
    found := false;
    G', pred', q', stamp', clock' := RelaxNeighbours(g, speed, euclid, start, end, u, G, pred, rest, stamp, clock);
    forall v | v in g.succ[u]
      ensures v in G'
    {
      assert HopBound(g, speed, G', u, v, G[u]);
    }
    AStarPopKeeps(g, end, q, e, rest, G, G', q');
  }

  /**
   * `A_Star_with_traffic(Start, End, graph)` (lines 74-109), run for at most
   * `fuel` pops; None when the fuel runs out first. Otherwise the result is
   * empty exactly when `end` is `start` or cannot be reached, and a walk from
   * `start` to `end` without repeated nodes when it is not.
   */
  method AStarWithTraffic(g: Graph, speed: SpeedOracle, euclid: Euclid, start: Node, end: Node, fuel: nat)
    returns (r: Option<seq<Node>>)
    requires g.Valid() && start in g.succ && end in g.succ
    ensures r.Some? ==> (r.value == [] <==> start == end || !Reachable(g, start, end))
    ensures r.Some? && r.value != [] ==> IsWalkFrom(g, r.value, start, end) && Distinct(r.value)
  {
    var q := [Entry(0.0, start)];
    var pred: PredMap := map[start := None];
    var G: CostMap := map[start := 0.0];
    ghost var stamp: map<Node, nat> := map[start := 0];
    ghost var clock: nat := 1;
    InitialLabels(g, true, start, pred);
    ValidAllEdges(g);
    assert q[0] in q;
    var steps := fuel;
    while q != []
      invariant AStarInv(g, start, end, G, pred, q, stamp, clock)
      decreases steps
    {
      if steps == 0 {
        return None;
      }
      steps := steps - 1;
      var found;
      found, G, pred, q, stamp, clock := AStarStep(g, speed, euclid, start, end, G, pred, q, stamp, clock);
      if found {
        break;
      }
    }
    RankedWalkEnds(pred, G, stamp, end);
    var path := ReconstructPath(end, pred, start);
    SearchOutcome(g, start, end, G, pred, stamp, clock, path);
    r := Some(path);
  }
}
