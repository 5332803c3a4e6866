/**
 * Predecessor maps and the walk back along them: `reconstruct_path` and the
 * path-building loops of the bidirectional planner, plus the argument that
 * the walk stops when the map was built by strict improvements of a cost.
 */
module Predecessors {
  import opened Wrappers
  import opened Graphs

  /** `predecessors`: a node that is absent or maps to None has no predecessor. */
  type PredMap = map<Node, Option<Node>>

  predicate HasPred(pred: PredMap, v: Node) {
    v in pred && pred[v].Some?
  }

  /** The predecessor of `v`, None when there is none. */
  function PredOf(pred: PredMap, v: Node): Option<Node> {
    if v in pred then pred[v] else None
  }

  /** Following predecessors from `v` reaches a node without one within `n` steps. */
  ghost predicate ReachesNone(pred: PredMap, v: Node, n: nat)
    decreases n
  {
    !HasPred(pred, v) || (n > 0 && ReachesNone(pred, pred[v].value, n - 1))
  }

  /** The walk back from `v` stops: a map in which it does not would make the source loop forever. */
  ghost predicate WalkEnds(pred: PredMap, v: Node) {
    exists n :: ReachesNone(pred, v, n)
  }

  /** Each node of `path` after the first has the node before it as its predecessor. */
  ghost predicate Linked(pred: PredMap, path: seq<Node>) {
    forall i :: 1 <= i < |path| ==> PredOf(pred, path[i]) == Some(path[i - 1])
  }

  function Reverse(s: seq<Node>): (r: seq<Node>)
    ensures |r| == |s|
    ensures forall i :: 0 <= i < |s| ==> r[i] == s[|s| - 1 - i]
  {
    if s == [] then [] else Reverse(s[1..]) + [s[0]]
  }

  lemma {:induction false} ReachesNoneMore(pred: PredMap, v: Node, m: nat, n: nat)
    requires m <= n && ReachesNone(pred, v, m)
    ensures ReachesNone(pred, v, n)
    decreases m
  {
    if HasPred(pred, v) {
      ReachesNoneMore(pred, pred[v].value, m - 1, n - 1);
    }
  }

  /** Each node of `back` but the last has the next one as its predecessor. */
  ghost predicate FollowsPreds(pred: PredMap, back: seq<Node>) {
    forall i :: 0 <= i < |back| - 1 ==> HasPred(pred, back[i]) && pred[back[i]] == Some(back[i + 1])
  }

  /**
   * The predecessor chain from `v`: `v`, its predecessor, that one's
   * predecessor, and so on up to a node without one.
   */
  ghost function PredChain(pred: PredMap, v: Node, n: nat): (c: seq<Node>)
    requires ReachesNone(pred, v, n)
    ensures |c| > 0 && c[0] == v && !HasPred(pred, c[|c| - 1])
    ensures FollowsPreds(pred, c)
    decreases n
  {
    if !HasPred(pred, v) then [v] else [v] + PredChain(pred, pred[v].value, n - 1)
  }

  /**
   * The loop of lines 119-121, appending each node and moving to its predecessor:
   * the predecessor chain from `from`, newest node first. It never repeats a
   * node.
   */
  method CollectChain(pred: PredMap, from: Node, ghost n: nat) returns (back: seq<Node>)
    requires ReachesNone(pred, from, n)
    ensures back == PredChain(pred, from, n)
    ensures Distinct(back)
  {
    back := [];
    var node: Option<Node> := Some(from);
    ghost var m := n;
    while node.Some?
      invariant node.Some? ==> ReachesNone(pred, node.value, m) && back + PredChain(pred, node.value, m) == PredChain(pred, from, n)
      invariant node.None? ==> back == PredChain(pred, from, n)
      decreases if node.Some? then m + 1 else 0
    {
      var v := node.value;
      back := back + [v];
      node := PredOf(pred, v);
      if node.Some? {
        m := m - 1;
        assert PredChain(pred, v, m + 1) == [v] + PredChain(pred, node.value, m);
      }
    }
    BackChainDistinct(pred, back);
  }

  /**
   * The same loop followed by the reversal of line 123: the predecessor chain ending at
   * `from`, oldest node first.
   */
  method WalkBack(pred: PredMap, from: Node) returns (path: seq<Node>)
    requires WalkEnds(pred, from)
    ensures |path| > 0 && path[|path| - 1] == from
    ensures !HasPred(pred, path[0])
    ensures Linked(pred, path)
    ensures Distinct(path)
  {
    ghost var n :| ReachesNone(pred, from, n);
    var back := CollectChain(pred, from, n);
    path := Reverse(back);
    assert forall i :: 0 <= i < |path| ==> path[i] == back[|back| - 1 - i];
  }

  /**
   * A chain built by following predecessors that ends at a node without one
   * cannot repeat a node: a repeat would make it go round forever.
   */
  lemma BackChainDistinct(pred: PredMap, back: seq<Node>)
    requires |back| > 0 && !HasPred(pred, back[|back| - 1])
    requires forall i :: 0 <= i < |back| - 1 ==> HasPred(pred, back[i]) && pred[back[i]] == Some(back[i + 1])
    ensures Distinct(back)
  {
    forall i, j | 0 <= i < j < |back|
      ensures back[i] != back[j]
    {
      if back[i] == back[j] {
        // Both positions continue identically, so position i + (|back| - 1 - j) < |back| - 1
        // would repeat the last node, which has no predecessor.
        var m := 0;
        while m < |back| - 1 - j
          invariant 0 <= m <= |back| - 1 - j
          invariant back[i + m] == back[j + m]
        {
          m := m + 1;
        }
        assert false;
      }
    }
  }

  /**
   * `u` comes before `v` when ordered by cost, and among equal costs by the
   * time (stamp) of their last improvement.
   */
  ghost predicate Below(cost: map<Node, real>, stamp: map<Node, nat>, u: Node, v: Node) {
    && u in cost && v in cost && u in stamp && v in stamp
    && (cost[u] < cost[v] || (cost[u] == cost[v] && stamp[u] < stamp[v]))
  }

  /** Every predecessor link goes down in the (cost, stamp) order. */
  ghost predicate RankedBy(pred: PredMap, cost: map<Node, real>, stamp: map<Node, nat>) {
    forall v :: HasPred(pred, v) ==> Below(cost, stamp, pred[v].value, v)
  }

  ghost function BelowSet(cost: map<Node, real>, stamp: map<Node, nat>, v: Node): set<Node> {
    set u | u in cost.Keys && Below(cost, stamp, u, v)
  }

  /**
   * When every link goes down in the (cost, stamp) order, the walk back from
   * `v` stops within as many steps as there are nodes below `v`.
   */
  lemma {:induction false} RankedReachesNone(pred: PredMap, cost: map<Node, real>, stamp: map<Node, nat>, v: Node)
    requires RankedBy(pred, cost, stamp)
    ensures ReachesNone(pred, v, |BelowSet(cost, stamp, v)|)
    decreases |BelowSet(cost, stamp, v)|
  {
    if HasPred(pred, v) {
      var u := pred[v].value;
      var bu, bv := BelowSet(cost, stamp, u), BelowSet(cost, stamp, v);
      assert Below(cost, stamp, u, v);
      assert bu <= bv;
      assert u in bv && u !in bu;
      assert |bu| < |bv| by {
        var d := bv - bu;
        assert u in d;
        assert bv == bu + d && bu * d == {};
      }
      RankedReachesNone(pred, cost, stamp, u);
      ReachesNoneMore(pred, u, |bu|, |bv| - 1);
    }
  }

  lemma RankedWalkEnds(pred: PredMap, cost: map<Node, real>, stamp: map<Node, nat>, v: Node)
    requires RankedBy(pred, cost, stamp)
    ensures WalkEnds(pred, v)
  {
    RankedReachesNone(pred, cost, stamp, v);
  }

  /**
   * `reconstruct_path(End, predecessors, Start)`: no path when `end` has no
   * predecessor; otherwise the chain from a node without predecessor to `end`.
   * `start` is never consulted.
   */
  method ReconstructPath(end: Node, pred: PredMap, start: Node) returns (path: seq<Node>)
    requires WalkEnds(pred, end)
    ensures path == [] <==> !HasPred(pred, end)
    ensures path != [] ==> |path| >= 2 && path[|path| - 1] == end
    ensures path != [] ==> !HasPred(pred, path[0]) && Linked(pred, path) && Distinct(path)
  {
    if end !in pred || pred[end].None? {
      return [];
    }
    path := WalkBack(pred, end);
  }
}
