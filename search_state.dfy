/**
 * The state every planner keeps in dictionaries: a best-known cost per node
 * (`distances`, `G`, `f_g`, `b_g`; a node absent from the map stands for the
 * source's `float('inf')`), a predecessor per node, and — in ghost form only —
 * a stamp recording when each cost was last improved. The planners improve a
 * label only on a strict decrease, and that is what keeps their predecessor
 * chains finite.
 */
module SearchState {
  import opened Wrappers
  import opened Graphs
  import opened Predecessors
  import opened Heaps

  type CostMap = map<Node, real>

  /** The three things a neighbour loop updates: the costs, the predecessors and the queue. */
  datatype Labelling = Labelling(cost: CostMap, pred: PredMap, queue: seq<Entry>)

  /** The entries of `q` all name labelled nodes. */
  ghost predicate EntriesLabelled(q: seq<Entry>, G: CostMap) {
    forall x :: x in q ==> x.node in G
  }

  /** Pushing an entry for the improved node `v` keeps the bookkeeping of a neighbour loop. */
  lemma PushKeeps(q: seq<Entry>, q0: seq<Entry>, q': seq<Entry>, G0: CostMap, G': CostMap, v: Node)
    requires |q| <= |q0| && q0[..|q|] == q && EntriesLabelled(q0[|q|..], G0)
    requires |q'| == |q0| + 1 && q'[..|q0|] == q0 && q'[|q0|].node == v
    requires G0.Keys <= G'.Keys && v in G'
    ensures q'[..|q|] == q && EntriesLabelled(q'[|q|..], G')
    ensures Queued(q', v) && forall w :: Queued(q0, w) ==> Queued(q', w)
  {
    assert q'[..|q|] == q0[..|q|];
    forall x | x in q'[|q|..]
      ensures x.node in G'
    {
      var k :| |q| <= k < |q'| && q'[k] == x;
      if k < |q0| {
        assert x in q0[|q|..];
      }
    }
    assert q'[|q0|] in q';
    forall w | Queued(q0, w)
      ensures Queued(q', w)
    {
      QueuedGrow(q0, q', w);
    }
  }

  /** `v`'s predecessor `u` is joined to it by an edge: `u -> v` going forward, `v -> u` going backward. */
  predicate LinkEdge(g: Graph, forward: bool, u: Node, v: Node) {
    if forward then g.IsEdge(u, v) else g.IsEdge(v, u)
  }

  /**
   * The labels of a search rooted at `root`: the root costs 0 and has no
   * predecessor, every other labelled node has one, costs are non-negative,
   * predecessor links are edges and go down in the (cost, stamp) order.
   */
  ghost predicate Labels(g: Graph, forward: bool, root: Node, cost: CostMap, pred: PredMap,
                         stamp: map<Node, nat>, clock: nat)
  {
    && root in cost && cost[root] == 0.0 && !HasPred(pred, root)
    && (forall v :: v in cost ==> v in g.succ && cost[v] >= 0.0 && v in stamp && stamp[v] < clock)
    && (forall v :: v in cost && v != root ==> HasPred(pred, v))
    && RankedBy(pred, cost, stamp)
    && (forall v :: HasPred(pred, v) ==> LinkEdge(g, forward, pred[v].value, v))
  }

  /** The labels at the start of a search: only the root, at cost 0. */
  lemma InitialLabels(g: Graph, forward: bool, root: Node, pred: PredMap)
    requires root in g.succ
    requires forall v :: v in pred ==> pred[v].None?
    ensures Labels(g, forward, root, map[root := 0.0], pred, map[root := 0], 1)
  {
  }

  /**
   * One relaxation: `cost[v] = c; pred[v] = u` for a node `u` whose cost is at
   * most `c`, along an edge, when `c` is a strict improvement.
   */
  lemma Improve(g: Graph, forward: bool, root: Node, cost: CostMap, pred: PredMap,
                stamp: map<Node, nat>, clock: nat, u: Node, v: Node, c: real)
    requires Labels(g, forward, root, cost, pred, stamp, clock)
    requires u in cost && cost[u] <= c
    requires v in g.succ && LinkEdge(g, forward, u, v)
    requires v !in cost || c < cost[v]
    ensures v != root && v != u
    ensures Labels(g, forward, root, cost[v := c], pred[v := Some(u)], stamp[v := clock], clock + 1)
  {
    assert cost[u] >= 0.0;
    var cost', pred', stamp' := cost[v := c], pred[v := Some(u)], stamp[v := clock];
    assert root in cost' && cost'[root] == 0.0 && !HasPred(pred', root);
    forall w | w in cost'
      ensures w in g.succ && cost'[w] >= 0.0 && w in stamp' && stamp'[w] < clock + 1
    {
    }
    forall w | w in cost' && w != root
      ensures HasPred(pred', w)
    {
    }
    forall w | HasPred(pred', w)
      ensures Below(cost', stamp', pred'[w].value, w)
    {
      if w != v {
        var x := pred[w].value;
        assert Below(cost, stamp, x, w);
      }
    }
    forall w | HasPred(pred', w)
      ensures LinkEdge(g, forward, pred'[w].value, w)
    {
    }
  }

  /** Each labelled node other than the root has a predecessor that is itself labelled. */
  lemma LabelledPredecessor(g: Graph, forward: bool, root: Node, cost: CostMap, pred: PredMap,
                            stamp: map<Node, nat>, clock: nat, v: Node)
    requires Labels(g, forward, root, cost, pred, stamp, clock)
    requires HasPred(pred, v)
    ensures pred[v].value in cost && v in cost
    ensures pred[v].value == root || HasPred(pred, pred[v].value)
  {
    assert Below(cost, stamp, pred[v].value, v);
  }

  /**
   * The chain that `reconstruct_path` builds from such labels begins at the
   * root and, read forward, follows edges (backward searches: edges reversed).
   */
  lemma ChainFromRoot(g: Graph, forward: bool, root: Node, cost: CostMap, pred: PredMap,
                      stamp: map<Node, nat>, clock: nat, path: seq<Node>)
    requires Labels(g, forward, root, cost, pred, stamp, clock)
    requires |path| >= 2 && !HasPred(pred, path[0]) && Linked(pred, path)
    ensures path[0] == root
    ensures forall i :: 0 <= i < |path| - 1 ==> LinkEdge(g, forward, path[i], path[i + 1])
  {
    assert PredOf(pred, path[1]) == Some(path[0]);
    LabelledPredecessor(g, forward, root, cost, pred, stamp, clock, path[1]);
    forall i | 0 <= i < |path| - 1
      ensures LinkEdge(g, forward, path[i], path[i + 1])
    {
      assert PredOf(pred, path[i + 1]) == Some(path[i]);
    }
  }

  /**
   * A predecessor chain from a labelled node, read newest first, ends at the
   * root, and each step of it goes back along a link (forward searches: each
   * node is reached from the next by an edge; backward ones: it reaches it).
   */
  lemma ChainToRoot(g: Graph, forward: bool, root: Node, cost: CostMap, pred: PredMap,
                    stamp: map<Node, nat>, clock: nat, c: seq<Node>)
    requires Labels(g, forward, root, cost, pred, stamp, clock)
    requires |c| > 0 && c[0] in cost && !HasPred(pred, c[|c| - 1]) && FollowsPreds(pred, c)
    ensures c[|c| - 1] == root
    ensures forall i :: 0 <= i < |c| - 1 ==> LinkEdge(g, forward, c[i + 1], c[i])
  {
    var i := 0;
    while i < |c| - 1
      invariant 0 <= i < |c|
      invariant c[i] in cost
    {
      assert Below(cost, stamp, pred[c[i]].value, c[i]);
      i := i + 1;
    }
    forall i | 0 <= i < |c| - 1
      ensures LinkEdge(g, forward, c[i + 1], c[i])
    {
      assert HasPred(pred, c[i]) && pred[c[i]] == Some(c[i + 1]);
    }
  }

  /**
   * What the labels left by a search say about the path `reconstruct_path`
   * builds from them, when the search either labelled `end` or stopped with
   * the labelled nodes closed under successors.
   */
  lemma SearchOutcome(g: Graph, start: Node, end: Node, dist: CostMap, pred: PredMap,
                      stamp: map<Node, nat>, clock: nat, path: seq<Node>)
    requires g.Valid()
    requires Labels(g, true, start, dist, pred, stamp, clock)
    requires end !in dist ==> forall v :: v in dist ==> SuccsIn(g, v, dist.Keys)
    requires path == [] <==> !HasPred(pred, end)
    requires path != [] ==> |path| >= 2 && path[|path| - 1] == end
    requires path != [] ==> !HasPred(pred, path[0]) && Linked(pred, path) && Distinct(path)
    ensures path == [] <==> start == end || !Reachable(g, start, end)
    ensures path != [] ==> IsWalkFrom(g, path, start, end) && Distinct(path)
  {
    if path != [] {
      ChainFromRoot(g, true, start, dist, pred, stamp, clock, path);
      assert IsWalkFrom(g, path, start, end);
      assert end != start;
    } else if end !in dist {
      assert start in dist;
      if Reachable(g, start, end) {
        ClosedSetHoldsReachable(g, dist.Keys, start, end);
      }
    } else {
      assert end == start;
    }
  }
}
