/**
 * The road network as the planners see it: a finite directed multigraph whose
 * nodes are integer identifiers and whose parallel edges each carry an
 * optional "length" attribute in metres.
 */
module Graphs {
  import opened Wrappers

  /** Node identifiers of the road network. */
  type Node = nat

  /** The "length" attribute of one edge, in metres; None when the edge has none. */
  type Length = Option<real>

  /**
   * `succ[u]` lists the successors of `u` in adjacency order (`graph.neighbors(u)`),
   * `pred[v]` the predecessors of `v` (the neighbours of `v` in the reversed view),
   * and `parallel[(u, v)]` the lengths of the parallel edges from `u` to `v`, in
   * key order. The nodes of the graph are the keys of `succ`.
   */
  datatype Graph = Graph(
    succ: map<Node, seq<Node>>,
    pred: map<Node, seq<Node>>,
    parallel: map<(Node, Node), seq<Length>>)
  {
    /** The invariants of a road network: the three views agree, and lengths are non-negative. */
    ghost predicate Valid() {
      && succ.Keys == pred.Keys
      && (forall u, v :: u in succ && v in succ[u] ==> v in succ && (u, v) in parallel)
      && (forall u, v :: v in pred && u in pred[v] ==> u in succ && v in succ[u])
      && (forall u, v :: u in succ && v in succ[u] ==> u in pred[v])
      && (forall e :: e in parallel ==> e.0 in succ && e.1 in succ[e.0] && |parallel[e]| > 0)
      && (forall e :: e in parallel ==> NonNegative(parallel[e]))
      && (forall u, i, j :: u in succ && 0 <= i < j < |succ[u]| ==> succ[u][i] != succ[u][j])
      && (forall v, i, j :: v in pred && 0 <= i < j < |pred[v]| ==> pred[v][i] != pred[v][j])
    }

    /** Every parallel edge carries a length attribute. */
    ghost predicate HasLengths() {
      forall e :: e in parallel ==> AllPresent(parallel[e])
    }

    /** There is at least one directed edge from `u` to `v`. */
    predicate IsEdge(u: Node, v: Node) {
      (u, v) in parallel
    }

    /** The lengths of the parallel edges from `u` to `v`, none when there is no edge. */
    function EdgeLengths(u: Node, v: Node): seq<Length> {
      if (u, v) in parallel then parallel[(u, v)] else []
    }
  }

  /** The lengths that are present are not negative. */
  predicate NonNegative(ls: seq<Length>) {
    forall i :: 0 <= i < |ls| && ls[i].Some? ==> ls[i].value >= 0.0
  }

  /** Every edge of the bundle has a length. */
  predicate AllPresent(ls: seq<Length>) {
    forall i :: 0 <= i < |ls| ==> ls[i].Some?
  }

  /**
   * What the planners use of validity at one node `u`: each successor is a
   * node, reached by a non-empty bundle of parallel edges with non-negative
   * lengths.
   */
  ghost predicate OutEdgesValid(g: Graph, u: Node)
    requires u in g.succ
  {
    forall v :: v in g.succ[u] ==>
      v in g.succ && (u, v) in g.parallel && |g.parallel[(u, v)]| > 0 && NonNegative(g.parallel[(u, v)])
  }

  lemma ValidOutEdges(g: Graph, u: Node)
    requires g.Valid() && u in g.succ
    ensures OutEdgesValid(g, u)
  {
  }

  /** Consecutive nodes of `p` are joined by at least one directed edge. */
  ghost predicate IsWalk(g: Graph, p: seq<Node>) {
    forall i :: 0 <= i < |p| - 1 ==> g.IsEdge(p[i], p[i + 1])
  }

  /** No node occurs twice in `p`. */
  ghost predicate Distinct(p: seq<Node>) {
    forall i, j :: 0 <= i < j < |p| ==> p[i] != p[j]
  }

  /** A non-empty walk from `s` to `t`. */
  ghost predicate IsWalkFrom(g: Graph, p: seq<Node>, s: Node, t: Node) {
    |p| > 0 && p[0] == s && p[|p| - 1] == t && IsWalk(g, p)
  }

  /** `t` can be reached from `s` by following directed edges. */
  ghost predicate Reachable(g: Graph, s: Node, t: Node) {
    exists p :: IsWalkFrom(g, p, s, t)
  }

  /** Every successor of `v` is in `keys`. */
  ghost predicate SuccsIn(g: Graph, v: Node, keys: set<Node>)
    requires v in g.succ
  {
    forall w :: w in g.succ[v] ==> w in keys
  }

  /**
   * A set of nodes that holds `s` and every successor of each of its members
   * holds every node reachable from `s`.
   */
  lemma {:induction false} ClosedSetHoldsReachable(g: Graph, keys: set<Node>, s: Node, t: Node)
    requires g.Valid()
    requires s in keys
    requires forall v :: v in keys ==> v in g.succ && SuccsIn(g, v, keys)
    requires Reachable(g, s, t)
    ensures t in keys
  {
    var p :| IsWalkFrom(g, p, s, t);
    var i := 0;
    while i < |p| - 1
      invariant 0 <= i < |p|
      invariant p[i] in keys
    {
      assert g.IsEdge(p[i], p[i + 1]);
      assert p[i + 1] in g.succ[p[i]];
      i := i + 1;
    }
  }

  /** Every predecessor of `v` is in `keys`. */
  ghost predicate PredsIn(g: Graph, v: Node, keys: set<Node>)
    requires v in g.pred
  {
    forall u :: u in g.pred[v] ==> u in keys
  }

  /**
   * A set of nodes that holds `t` and every predecessor of each of its members
   * holds every node from which `t` can be reached.
   */
  lemma {:induction false} ClosedSetHoldsReaching(g: Graph, keys: set<Node>, s: Node, t: Node)
    requires g.Valid()
    requires t in keys
    requires forall v :: v in keys ==> v in g.pred && PredsIn(g, v, keys)
    requires Reachable(g, s, t)
    ensures s in keys
  {
    var p :| IsWalkFrom(g, p, s, t);
    var i := |p| - 1;
    while i > 0
      invariant 0 <= i < |p|
      invariant p[i] in keys
    {
      assert g.IsEdge(p[i - 1], p[i]);
      assert p[i - 1] in g.pred[p[i]];
      i := i - 1;
    }
  }

  /** A walk ending where another begins joins it into a walk. */
  lemma WalkJoin(g: Graph, a: seq<Node>, b: seq<Node>)
    requires |a| > 0 && |b| > 0 && a[|a| - 1] == b[0]
    requires IsWalk(g, a) && IsWalk(g, b)
    ensures IsWalk(g, a + b[1..])
  {
    var c := a + b[1..];
    forall i | 0 <= i < |c| - 1
      ensures g.IsEdge(c[i], c[i + 1])
    {
      if i >= |a| - 1 {
        assert c[i] == b[i - |a| + 1] && c[i + 1] == b[i - |a| + 2];
      } else {
        assert c[i] == a[i] && c[i + 1] == a[i + 1];
      }
    }
  }

  /**
   * What the planners use of validity at one node `v`, looking backward: each
   * predecessor is a node, joined to `v` by a non-empty bundle of parallel
   * edges with non-negative lengths.
   */
  ghost predicate InEdgesValid(g: Graph, v: Node)
    requires v in g.pred
  {
    forall u :: u in g.pred[v] ==>
      u in g.succ && (u, v) in g.parallel && |g.parallel[(u, v)]| > 0 && NonNegative(g.parallel[(u, v)])
  }

  lemma ValidInEdges(g: Graph, v: Node)
    requires g.Valid() && v in g.pred
    ensures InEdgesValid(g, v)
  {
  }

  /** Validity at every node, forward and backward. */
  ghost predicate AllEdgesValid(g: Graph) {
    && (forall u :: u in g.succ ==> u in g.pred && OutEdgesValid(g, u))
    && (forall v :: v in g.pred ==> InEdgesValid(g, v))
  }

  lemma ValidAllEdges(g: Graph)
    requires g.Valid()
    ensures AllEdgesValid(g)
    ensures forall u :: u in g.succ ==> OutEdgesValid(g, u)
  {
    forall u | u in g.succ
      ensures u in g.pred && OutEdgesValid(g, u)
    {
      ValidOutEdges(g, u);
    }
    forall v | v in g.pred
      ensures InEdgesValid(g, v)
    {
      ValidInEdges(g, v);
    }
  }
}
