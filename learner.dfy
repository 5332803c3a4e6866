/**
 * `reinforcement_learning_top_k`: episodic Q-learning over the road network,
 * recording the node sequence and total reward of every episode that reaches
 * `End`, then ranking the recorded routes by reward and keeping the first `k`
 * distinct ones.
 *
 * Randomness is a parameter: `roll(d)` is the value `random.random()` returns
 * at the `d`-th decision, and `pick(d)` the index `random.choice` draws at
 * that decision, taken modulo the length of the list it chooses from.
 */
module Learner {
  import opened Wrappers
  import opened Graphs
  import opened TravelTime

  /** `q_table`: the learned value of moving from a state (node) to a neighbour. */
  type QTable = map<(Node, Node), real>

  /** `get_q_value`: an entry never written reads as 0. */
  function GetQValue(q: QTable, state: Node, action: Node): (v: real)
    ensures (state, action) !in q ==> v == 0.0
    ensures (state, action) in q ==> v == q[(state, action)]
  {
    if (state, action) in q then q[(state, action)] else 0.0
  }

  /** `max(q_values.values())`: the greatest value of an action of `actions` from `state`. */
  function MaxQ(q: QTable, state: Node, actions: seq<Node>): (m: real)
    requires |actions| > 0
    ensures forall i :: 0 <= i < |actions| ==> GetQValue(q, state, actions[i]) <= m
    ensures exists i :: 0 <= i < |actions| && GetQValue(q, state, actions[i]) == m
  {
    if |actions| == 1 then GetQValue(q, state, actions[0])
    else
      var rest := MaxQ(q, state, actions[1..]);
      assert forall i :: 1 <= i < |actions| ==> actions[i] == actions[1..][i - 1];
      if GetQValue(q, state, actions[0]) >= rest then GetQValue(q, state, actions[0]) else rest
  }

  /** `best_actions`: the actions of `actions`, in order, whose value from `state` is `best`. */
  function BestActions(q: QTable, state: Node, actions: seq<Node>, best: real): (b: seq<Node>)
    ensures forall a :: a in b <==> a in actions && GetQValue(q, state, a) == best
  {
    if actions == [] then []
    else if GetQValue(q, state, actions[0]) == best then [actions[0]] + BestActions(q, state, actions[1..], best)
    else BestActions(q, state, actions[1..], best)
  }

  /**
   * `choose_action`: with probability `epsilon` (the roll falls below it) a
   * uniformly drawn action; otherwise a drawn action among those of greatest
   * value. The action is always one of `actions`, and a greedy choice has the
   * greatest value among them. The fallback of line 140 is never taken, since
   * some action always attains the maximum.
   */
  function ChooseAction(q: QTable, state: Node, actions: seq<Node>, epsilon: real, roll: real, pick: nat): (a: Node)
    requires |actions| > 0
    ensures a in actions
    ensures roll < epsilon ==> a == actions[pick % |actions|]
    ensures roll >= epsilon ==> forall b :: b in actions ==> GetQValue(q, state, b) <= GetQValue(q, state, a)
  {
    if roll < epsilon then actions[pick % |actions|]
    else
      var best := BestActions(q, state, actions, MaxQ(q, state, actions));
      assert actions[0] in actions;
      assert |best| > 0;
      best[pick % |best|]
  }

  /** `get_reward`: the negated travel time of the hop, over its shortest parallel edge. */
  function GetReward(g: Graph, speed: SpeedOracle, u: Node, v: Node): (r: real)
    ensures r + HopTime(g, speed, u, v) == 0.0
    ensures NonNegative(g.EdgeLengths(u, v)) ==> r <= 0.0
  {
    HopTimeNonNegativeWhen(g, speed, u, v);
    -HopTime(g, speed, u, v)
  }

  lemma HopTimeNonNegativeWhen(g: Graph, speed: SpeedOracle, u: Node, v: Node)
    ensures NonNegative(g.EdgeLengths(u, v)) ==> HopTime(g, speed, u, v) >= 0.0
  {
    if NonNegative(g.EdgeLengths(u, v)) {
      HopTimeNonNegative(g, speed, u, v);
    }
  }

  /** `next_max_q` (line 172): the best value out of `v`, or 0 at a dead end. */
  function NextMaxQ(g: Graph, q: QTable, v: Node): (m: real)
    requires v in g.succ
    ensures g.succ[v] == [] ==> m == 0.0
    ensures g.succ[v] != [] ==> m == MaxQ(q, v, g.succ[v])
  {
    if g.succ[v] == [] then 0.0 else MaxQ(q, v, g.succ[v])
  }

  /** The temporal-difference update of line 173. */
  function TdUpdate(prev: real, reward: real, nextMax: real, alpha: real, gamma: real): real {
    prev + alpha * (reward + gamma * nextMax - prev)
  }

  /**
   * The update moves the old value a fraction `alpha` of the way towards the
   * target `reward + gamma * nextMax`: with `0 <= alpha <= 1` the new value
   * lies between the two, `alpha = 0` keeps the old value and `alpha = 1`
   * replaces it by the target.
   */
  lemma TdUpdateBetween(prev: real, reward: real, nextMax: real, alpha: real, gamma: real)
    requires 0.0 <= alpha <= 1.0
    ensures var target, n := reward + gamma * nextMax, TdUpdate(prev, reward, nextMax, alpha, gamma);
      && n - target == (1.0 - alpha) * (prev - target)
      && (prev <= target ==> prev <= n <= target)
      && (target <= prev ==> target <= n <= prev)
      && (alpha == 0.0 ==> n == prev)
      && (alpha == 1.0 ==> n == target)
  {
    var target := reward + gamma * nextMax;
    var n := TdUpdate(prev, reward, nextMax, alpha, gamma);
    assert n - target == (1.0 - alpha) * (prev - target);
    assert n - prev == alpha * (target - prev);
    ProductSign(alpha, target - prev);
    ProductSign(1.0 - alpha, prev - target);
  }

  lemma ProductSign(a: real, b: real)
    requires a >= 0.0
    ensures b >= 0.0 ==> a * b >= 0.0
    ensures b <= 0.0 ==> a * b <= 0.0
  {
  }

  /** `(u, v)` is a hop of `path`. */
  ghost predicate IsHop(path: seq<Node>, e: (Node, Node)) {
    exists i :: 0 <= i < |path| - 1 && path[i] == e.0 && path[i + 1] == e.1
  }

  /** Every successor of every node is a node, joined to it by an edge. */
  ghost predicate SuccsAreEdges(g: Graph) {
    forall u :: u in g.succ ==> forall v :: v in g.succ[u] ==> v in g.succ && g.IsEdge(u, v)
  }

  lemma ValidSuccsAreEdges(g: Graph)
    requires g.Valid()
    ensures SuccsAreEdges(g)
  {
  }

  lemma DistinctSnoc(s: seq<Node>, x: Node)
    requires Distinct(s) && x !in s
    ensures Distinct(s + [x])
  {
  }

  /** Extending a walk by one hop adds that hop's time. */
  lemma PathTimeSnoc(g: Graph, speed: SpeedOracle, p: seq<Node>, v: Node)
    requires |p| > 0
    ensures PathTime(g, speed, p + [v]) == PathTime(g, speed, p) + HopTime(g, speed, p[|p| - 1], v)
  {
    assert (p + [v])[..|p|] == p;
  }

  /** A loop-free walk ending in a node not seen before, extended by one edge. */
  lemma ExtendWalk(g: Graph, speed: SpeedOracle, path: seq<Node>, next: Node)
    requires |path| > 0 && IsWalk(g, path) && g.IsEdge(path[|path| - 1], next)
    requires Distinct(path[..|path| - 1]) && path[|path| - 1] !in path[..|path| - 1]
    ensures IsWalk(g, path + [next]) && Distinct(path) && (path + [next])[..|path|] == path
    ensures PathTime(g, speed, path + [next]) == PathTime(g, speed, path) + HopTime(g, speed, path[|path| - 1], next)
  {
    var current := path[|path| - 1];
    PathTimeSnoc(g, speed, path, next);
    assert path == path[..|path| - 1] + [current];
    DistinctSnoc(path[..|path| - 1], current);
    WalkJoin(g, path, [current, next]);
    assert [current, next][1..] == [next];
  }

  /** Recording the Q-value of the last hop keeps every new Q entry a hop of the path. */
  lemma ExtendHops(path: seq<Node>, next: Node, q: QTable, q0: QTable, value: real)
    requires |path| > 0 && forall e :: e in q && e !in q0 ==> IsHop(path, e)
    ensures forall e :: e in q[(path[|path| - 1], next) := value] && e !in q0 ==> IsHop(path + [next], e)
  {
    var path' := path + [next];
    forall e | e in q[(path[|path| - 1], next) := value] && e !in q0
      ensures IsHop(path', e)
    {
      if e == (path[|path| - 1], next) {
        assert path'[|path'| - 2] == e.0 && path'[|path'| - 1] == e.1;
      } else {
        var i :| 0 <= i < |path| - 1 && path[i] == e.0 && path[i + 1] == e.1;
        assert path'[i] == e.0 && path'[i + 1] == e.1;
      }
    }
  }

  /** The state of an episode between two moves. */
  ghost predicate EpisodeInv(g: Graph, speed: SpeedOracle, start: Node, end: Node, q0: QTable, draw0: nat,
                             current: Node, path: seq<Node>, totalReward: real, visited: set<Node>, q: QTable, draw: nat)
  {
    && SuccsAreEdges(g)
    && |path| > 0 && path[0] == start && path[|path| - 1] == current && current in g.succ
    && IsWalk(g, path)
    && totalReward == -PathTime(g, speed, path)
    && (forall v :: v in visited <==> v in path[..|path| - 1])
    && Distinct(path[..|path| - 1]) && end !in visited
    && visited <= g.succ.Keys
    && q0.Keys <= q.Keys && (forall e :: e in q && e !in q0 ==> IsHop(path, e))
    && draw0 <= draw
  }

  /**
   * Where an episode stops: whether it reached `End`, its path, and the
   * Q-table and draw count after it. Its total reward is not kept: it is
   * minus the travel time of the path (see `RunEpisode`).
   */
  datatype Episode = Episode(reached: bool, path: seq<Node>, q: QTable, draw: nat)

  /**
   * The rest of an episode (lines 158-178) standing at `current` after
   * `path`: stop at `End` or at a node visited before, stop at a node
   * without successors, and otherwise move to the neighbour chosen at draw
   * `draw` and update the Q-value of the hop. The path only grows and the
   * draws are only used up.
   */
  function PlayFrom(g: Graph, speed: SpeedOracle, end: Node, alpha: real, gamma: real, epsilon: real,
                    roll: nat -> real, pick: nat -> nat,
                    current: Node, path: seq<Node>, visited: set<Node>, q: QTable, draw: nat): (e: Episode)
    requires SuccsAreEdges(g) && current in g.succ && visited <= g.succ.Keys
    ensures path <= e.path && draw <= e.draw
    decreases g.succ.Keys - visited
  {
    if current == end || current in visited then Episode(current == end, path, q, draw)
    else if g.succ[current] == [] then Episode(false, path, q, draw)
    else
      var next := ChooseAction(q, current, g.succ[current], epsilon, roll(draw), pick(draw));
      assert path <= path + [next];
      PlayFrom(g, speed, end, alpha, gamma, epsilon, roll, pick, next, path + [next],
               visited + {current}, LearnHop(g, speed, alpha, gamma, q, current, next), draw + 1)
  }

  /**
   * Lines 171-174: the Q-table after the hop from `current` to `next`, whose
   * entry moves towards the reward of the hop plus the discounted best value
   * out of `next`; every other entry is kept.
   */
  function LearnHop(g: Graph, speed: SpeedOracle, alpha: real, gamma: real, q: QTable, current: Node, next: Node): (q': QTable)
    requires next in g.succ
    ensures q'.Keys == q.Keys + {(current, next)}
    ensures forall e :: e in q && e != (current, next) ==> q'[e] == q[e]
    ensures q'[(current, next)] ==
      TdUpdate(GetQValue(q, current, next), GetReward(g, speed, current, next), NextMaxQ(g, q, next), alpha, gamma)
  {
    q[(current, next) := TdUpdate(GetQValue(q, current, next), GetReward(g, speed, current, next), NextMaxQ(g, q, next), alpha, gamma)]
  }

  /** At a node without successors the episode stops where it stands, whether or not that node is marked visited. */
  lemma PlayFromDeadEnd(g: Graph, speed: SpeedOracle, end: Node, alpha: real, gamma: real, epsilon: real,
                        roll: nat -> real, pick: nat -> nat,
                        current: Node, path: seq<Node>, visited: set<Node>, q: QTable, draw: nat)
    requires SuccsAreEdges(g) && current in g.succ && visited <= g.succ.Keys
    requires current != end && current !in visited && g.succ[current] == []
    ensures PlayFrom(g, speed, end, alpha, gamma, epsilon, roll, pick, current, path, visited + {current}, q, draw)
         == PlayFrom(g, speed, end, alpha, gamma, epsilon, roll, pick, current, path, visited, q, draw)
  {
  }

  /** Elsewhere the episode goes on from the chosen neighbour, one draw later, with the hop learned. */
  lemma PlayFromMoves(g: Graph, speed: SpeedOracle, end: Node, alpha: real, gamma: real, epsilon: real,
                      roll: nat -> real, pick: nat -> nat,
                      current: Node, path: seq<Node>, visited: set<Node>, q: QTable, draw: nat, next: Node)
    requires SuccsAreEdges(g) && current in g.succ && visited <= g.succ.Keys
    requires current != end && current !in visited && g.succ[current] != []
    requires next == ChooseAction(q, current, g.succ[current], epsilon, roll(draw), pick(draw))
    ensures next in g.succ
    ensures PlayFrom(g, speed, end, alpha, gamma, epsilon, roll, pick, next, path + [next],
                     visited + {current}, LearnHop(g, speed, alpha, gamma, q, current, next), draw + 1)
         == PlayFrom(g, speed, end, alpha, gamma, epsilon, roll, pick, current, path, visited, q, draw)
  {
  }

  /** One pass of the episode loop, as `EpisodeStep` describes it, leaves the rest of the episode unchanged. */
  lemma PlayFromStep(g: Graph, speed: SpeedOracle, end: Node, alpha: real, gamma: real, epsilon: real,
                     roll: nat -> real, pick: nat -> nat,
                     current: Node, path: seq<Node>, visited: set<Node>, q: QTable, draw: nat,
                     deadEnd: bool, current': Node, path': seq<Node>, visited': set<Node>, q': QTable, draw': nat)
    requires SuccsAreEdges(g) && current in g.succ && visited <= g.succ.Keys
    requires current != end && current !in visited
    requires visited' == visited + {current}
    requires deadEnd <==> g.succ[current] == []
    requires deadEnd ==> current' == current && path' == path && q' == q && draw' == draw
    requires !deadEnd ==>
      && current' == ChooseAction(q, current, g.succ[current], epsilon, roll(draw), pick(draw))
      && current' in g.succ
      && draw' == draw + 1
      && path' == path + [current']
      && q' == LearnHop(g, speed, alpha, gamma, q, current, current')
    ensures current' in g.succ && visited' <= g.succ.Keys
    ensures PlayFrom(g, speed, end, alpha, gamma, epsilon, roll, pick, current', path', visited', q', draw')
         == PlayFrom(g, speed, end, alpha, gamma, epsilon, roll, pick, current, path, visited, q, draw)
  {
    if deadEnd {
      PlayFromDeadEnd(g, speed, end, alpha, gamma, epsilon, roll, pick, current, path, visited, q, draw);
    } else {
      PlayFromMoves(g, speed, end, alpha, gamma, epsilon, roll, pick, current, path, visited, q, draw, current');
    }
  }

  /**
   * One pass of the episode loop (lines 159-175): mark the current node
   * visited; stop at a dead end, otherwise move to the neighbour chosen at
   * draw `draw`, collecting its reward and setting the Q-value of the hop to
   * the temporal-difference update of its old value.
   */
  method EpisodeStep(g: Graph, speed: SpeedOracle, start: Node, end: Node, q0: QTable, draw0: nat,
                     alpha: real, gamma: real, epsilon: real, roll: nat -> real, pick: nat -> nat,
                     current: Node, path: seq<Node>, totalReward: real, visited: set<Node>, q: QTable, draw: nat)
    returns (deadEnd: bool, current': Node, path': seq<Node>, totalReward': real, visited': set<Node>, q': QTable, draw': nat)
    requires EpisodeInv(g, speed, start, end, q0, draw0, current, path, totalReward, visited, q, draw)
    requires current != end && current !in visited
    ensures visited' == visited + {current}
    ensures deadEnd <==> g.succ[current] == []
    ensures deadEnd ==> current' == current && path' == path && totalReward' == totalReward && q' == q && draw' == draw
    ensures !deadEnd ==> EpisodeInv(g, speed, start, end, q0, draw0, current', path', totalReward', visited', q', draw')
    ensures !deadEnd ==>
      && current' == ChooseAction(q, current, g.succ[current], epsilon, roll(draw), pick(draw))
      && draw' == draw + 1
      && path' == path + [current']
      && totalReward' == totalReward + GetReward(g, speed, current, current')
      && q' == q[(current, current') := TdUpdate(GetQValue(q, current, current'), GetReward(g, speed, current, current'),
                                                 NextMaxQ(g, q, current'), alpha, gamma)]
  {
    visited' := visited + {current};
    var neighbours := g.succ[current];
    if |neighbours| == 0 {
      return true, current, path, totalReward, visited', q, draw;
    }
    deadEnd := false;
    var next := ChooseAction(q, current, neighbours, epsilon, roll(draw), pick(draw));
    draw' := draw + 1;
    var reward := GetReward(g, speed, current, next);
    totalReward' := totalReward + reward;
    path' := path + [next];
    ExtendWalk(g, speed, path, next);
    var prevQ := GetQValue(q, current, next);
    var nextMax := NextMaxQ(g, q, next);
    q' := q[(current, next) := TdUpdate(prevQ, reward, nextMax, alpha, gamma)];
    ExtendHops(path, next, q, q0, TdUpdate(prevQ, reward, nextMax, alpha, gamma));
    current' := next;
  }

  /**
   * `EpisodeStep` seen through `PlayFrom`: the episode still ahead is the
   * same before and after the step.
   */
  method EpisodeAdvance(g: Graph, speed: SpeedOracle, start: Node, end: Node, q0: QTable, draw0: nat,
                        alpha: real, gamma: real, epsilon: real, roll: nat -> real, pick: nat -> nat,
                        current: Node, path: seq<Node>, totalReward: real, visited: set<Node>, q: QTable, draw: nat)
    returns (deadEnd: bool, current': Node, path': seq<Node>, totalReward': real, visited': set<Node>, q': QTable, draw': nat)
    requires EpisodeInv(g, speed, start, end, q0, draw0, current, path, totalReward, visited, q, draw)
    requires current != end && current !in visited
    ensures visited' == visited + {current}
    ensures deadEnd <==> g.succ[current] == []
    ensures deadEnd ==> current' == current && path' == path && totalReward' == totalReward && q' == q && draw' == draw
    ensures !deadEnd ==> EpisodeInv(g, speed, start, end, q0, draw0, current', path', totalReward', visited', q', draw')
    ensures PlayFrom(g, speed, end, alpha, gamma, epsilon, roll, pick, current', path', visited', q', draw')
         == PlayFrom(g, speed, end, alpha, gamma, epsilon, roll, pick, current, path, visited, q, draw)
  {
    deadEnd, current', path', totalReward', visited', q', draw' :=
      EpisodeStep(g, speed, start, end, q0, draw0, alpha, gamma, epsilon, roll, pick, current, path, totalReward, visited, q, draw);
    PlayFromStep(g, speed, end, alpha, gamma, epsilon, roll, pick, current, path, visited, q, draw,
                 deadEnd, current', path', visited', q', draw');
  }

  /**
   * The loop of one episode (lines 153-175): from `start`, repeatedly mark
   * the current node visited, choose a neighbour, add its reward, append it
   * to the path and update the Q-value of the hop, until the walk reaches
   * `end`, comes back to a visited node, or stands at a node without
   * successors. It stops as `Stopped` says, and what `PlayFrom` predicts
   * from where it stops is what it predicted from `start`.
   */
  method PlayOut(g: Graph, speed: SpeedOracle, start: Node, end: Node, q: QTable,
                 alpha: real, gamma: real, epsilon: real, roll: nat -> real, pick: nat -> nat, draw: nat)
    returns (current: Node, path: seq<Node>, totalReward: real, visited: set<Node>, ghost visited0: set<Node>,
             q': QTable, draw': nat)
    requires SuccsAreEdges(g) && start in g.succ
    ensures Stopped(g, speed, start, end, q, draw, current, path, totalReward, visited, visited0, q', draw')
    ensures PlayFrom(g, speed, end, alpha, gamma, epsilon, roll, pick, current, path, visited, q', draw')
         == PlayFrom(g, speed, end, alpha, gamma, epsilon, roll, pick, start, [start], {}, q, draw)
  {
    current := start;
    path := [current];
    totalReward := 0.0;
    visited := {};
    q', draw' := q, draw;
    visited0 := visited;
    while current != end && current !in visited
      invariant EpisodeInv(g, speed, start, end, q, draw, current, path, totalReward, visited, q', draw')
      invariant PlayFrom(g, speed, end, alpha, gamma, epsilon, roll, pick, current, path, visited, q', draw')
             == PlayFrom(g, speed, end, alpha, gamma, epsilon, roll, pick, start, [start], {}, q, draw)
      decreases g.succ.Keys - visited
    {
      var deadEnd;
      visited0 := visited;
      deadEnd, current, path, totalReward, visited, q', draw' :=
        EpisodeAdvance(g, speed, start, end, q, draw, alpha, gamma, epsilon, roll, pick, current, path, totalReward, visited, q', draw');
      if deadEnd {
        break;
      }
    }
  }

  /**
   * One episode (lines 153-178). The outcome is the one `PlayFrom`
   * describes; the path is a walk from `start`, its reward is minus its
   * travel time, only the hops it took gain Q entries, and it has no
   * repeated node when it reaches `end`.
   */
  method RunEpisode(g: Graph, speed: SpeedOracle, start: Node, end: Node, q: QTable,
                    alpha: real, gamma: real, epsilon: real, roll: nat -> real, pick: nat -> nat, draw: nat)
    returns (reached: bool, path: seq<Node>, totalReward: real, q': QTable, draw': nat)
    requires SuccsAreEdges(g) && start in g.succ
    ensures Episode(reached, path, q', draw') == PlayFrom(g, speed, end, alpha, gamma, epsilon, roll, pick, start, [start], {}, q, draw)
    ensures |path| > 0 && path[0] == start && IsWalk(g, path)
    ensures totalReward == -PathTime(g, speed, path)
    ensures reached <==> path[|path| - 1] == end
    ensures reached ==> Distinct(path)
    ensures !reached ==> path[|path| - 1] in path[..|path| - 1] || (path[|path| - 1] in g.succ && g.succ[path[|path| - 1]] == [])
    ensures q.Keys <= q'.Keys && forall e :: e in q' && e !in q ==> IsHop(path, e)
  {
    var current, visited;
    ghost var visited0;
    current, path, totalReward, visited, visited0, q', draw' := PlayOut(g, speed, start, end, q, alpha, gamma, epsilon, roll, pick, draw);
    reached := current == end;
    EpisodeEnds(g, speed, start, end, q, draw, alpha, gamma, epsilon, roll, pick, current, path, totalReward, visited, visited0, q', draw');
  }

  /**
   * Where the episode loop stops: at `End` or a node visited before, with
   * the loop state intact, or at a dead end, just after marking it visited.
   */
  ghost predicate Stopped(g: Graph, speed: SpeedOracle, start: Node, end: Node, q: QTable, draw: nat,
                          current: Node, path: seq<Node>, totalReward: real, visited: set<Node>, visited0: set<Node>,
                          q': QTable, draw': nat)
  {
    || (EpisodeInv(g, speed, start, end, q, draw, current, path, totalReward, visited, q', draw')
        && (current == end || current in visited))
    || (EpisodeInv(g, speed, start, end, q, draw, current, path, totalReward, visited0, q', draw')
        && current != end && current !in visited0 && visited == visited0 + {current} && g.succ[current] == [])
  }

  /**
   * Wherever the episode loop stops, the outcome is the one `PlayFrom`
   * describes from there, and the episode means what `RunEpisode` says.
   */
  lemma EpisodeEnds(g: Graph, speed: SpeedOracle, start: Node, end: Node, q: QTable, draw: nat,
                    alpha: real, gamma: real, epsilon: real, roll: nat -> real, pick: nat -> nat,
                    current: Node, path: seq<Node>, totalReward: real, visited: set<Node>, visited0: set<Node>,
                    q': QTable, draw': nat)
    requires Stopped(g, speed, start, end, q, draw, current, path, totalReward, visited, visited0, q', draw')
    ensures SuccsAreEdges(g) && current in g.succ && visited <= g.succ.Keys
    ensures PlayFrom(g, speed, end, alpha, gamma, epsilon, roll, pick, current, path, visited, q', draw')
         == Episode(current == end, path, q', draw')
    ensures |path| > 0 && path[0] == start && IsWalk(g, path)
    ensures totalReward == -PathTime(g, speed, path)
    ensures current == end <==> path[|path| - 1] == end
    ensures current == end ==> Distinct(path)
    ensures current != end ==> path[|path| - 1] in path[..|path| - 1] || (path[|path| - 1] in g.succ && g.succ[path[|path| - 1]] == [])
    ensures q.Keys <= q'.Keys && forall e :: e in q' && e !in q ==> IsHop(path, e)
  {
    if EpisodeInv(g, speed, start, end, q, draw, current, path, totalReward, visited, q', draw')
       && (current == end || current in visited) {
      StopMeaning(g, speed, start, end, q, draw, current, path, totalReward, visited, q', draw');
    } else {
      StopMeaning(g, speed, start, end, q, draw, current, path, totalReward, visited0, q', draw');
    }
  }

  /** A walk of the episode that stops at `End`, at a visited node or at a dead end means what `RunEpisode` says. */
  lemma StopMeaning(g: Graph, speed: SpeedOracle, start: Node, end: Node, q: QTable, draw: nat,
                    current: Node, path: seq<Node>, totalReward: real, visited: set<Node>, q': QTable, draw': nat)
    requires EpisodeInv(g, speed, start, end, q, draw, current, path, totalReward, visited, q', draw')
    requires current == end || current in visited || g.succ[current] == []
    ensures |path| > 0 && path[0] == start && IsWalk(g, path)
    ensures totalReward == -PathTime(g, speed, path)
    ensures current == end <==> path[|path| - 1] == end
    ensures current == end ==> Distinct(path)
    ensures current != end ==> path[|path| - 1] in path[..|path| - 1] || (path[|path| - 1] in g.succ && g.succ[path[|path| - 1]] == [])
    ensures q.Keys <= q'.Keys && forall e :: e in q' && e !in q ==> IsHop(path, e)
  {
    if current == end {
      assert path == path[..|path| - 1] + [end];
      DistinctSnoc(path[..|path| - 1], end);
    }
  }

  /** `(total_reward, tuple(path))`: one episode that reached `End`. */
  datatype Run = Run(reward: real, path: seq<Node>)

  /** `(-reward, list(path))`: one ranked route with its travel time as cost. */
  datatype Route = Route(cost: real, path: seq<Node>)

  /** The defaults of the keyword parameters. */
  const DefaultK: int := 3
  const DefaultEpisodes: int := 100
  const DefaultAlpha: real := 0.1
  const DefaultGamma: real := 0.9
  const DefaultEpsilon: real := 0.2

  /** A recorded run: a walk from `start` to `end` without repeated nodes whose reward is minus its travel time. */
  ghost predicate Recorded(g: Graph, speed: SpeedOracle, start: Node, end: Node, r: Run) {
    IsWalkFrom(g, r.path, start, end) && Distinct(r.path) && r.reward == -PathTime(g, speed, r.path)
  }

  /** What the episode loop leaves behind: the Q-table, the draws used and the paths of the episodes that reached `End`. */
  datatype Learning = Learning(q: QTable, draw: nat, routes: seq<seq<Node>>)

  /**
   * The first `n` episodes (lines 152-178): each starts from `start` with
   * the Q-table and the draws the previous one left, and the paths of those
   * that reached `end` are recorded in episode order, at most one per
   * episode.
   */
  function Episodes(g: Graph, speed: SpeedOracle, start: Node, end: Node, n: nat,
                    alpha: real, gamma: real, epsilon: real, roll: nat -> real, pick: nat -> nat): (l: Learning)
    requires SuccsAreEdges(g) && start in g.succ
    ensures |l.routes| <= n
  {
    if n == 0 then Learning(map[], 0, [])
    else
      var before := Episodes(g, speed, start, end, n - 1, alpha, gamma, epsilon, roll, pick);
      var e := PlayFrom(g, speed, end, alpha, gamma, epsilon, roll, pick, start, [start], {}, before.q, before.draw);
      Learning(e.q, e.draw, if e.reached then before.routes + [e.path] else before.routes)
  }

  /** One more episode continues from what the previous ones left. */
  lemma EpisodesNext(g: Graph, speed: SpeedOracle, start: Node, end: Node, n: nat,
                     alpha: real, gamma: real, epsilon: real, roll: nat -> real, pick: nat -> nat, before: Learning, e: Episode)
    requires SuccsAreEdges(g) && start in g.succ
    requires before == Episodes(g, speed, start, end, n, alpha, gamma, epsilon, roll, pick)
    requires e == PlayFrom(g, speed, end, alpha, gamma, epsilon, roll, pick, start, [start], {}, before.q, before.draw)
    ensures Episodes(g, speed, start, end, n + 1, alpha, gamma, epsilon, roll, pick)
         == Learning(e.q, e.draw, if e.reached then before.routes + [e.path] else before.routes)
  {
  }

  /** The runs of `history` follow the paths `routes`, one for one. */
  ghost predicate Follows(history: seq<Run>, routes: seq<seq<Node>>) {
    |history| == |routes| && forall i :: 0 <= i < |history| ==> history[i].path == routes[i]
  }

  /** `range(episodes)`: a negative count runs no episode. */
  function EpisodeCount(episodes: int): (n: nat)
    ensures episodes >= 0 ==> n == episodes
    ensures episodes < 0 ==> n == 0
  {
    if episodes < 0 then 0 else episodes
  }

  /**
   * The episode loop (lines 152-178): `episodes` episodes sharing one
   * Q-table and one stream of random draws. The history follows exactly the
   * paths of the episodes that ended at `end`, in episode order, and each run
   * is a loop-free walk from `start` to `end` rewarded with minus its travel
   * time.
   */
  method Learn(g: Graph, speed: SpeedOracle, start: Node, end: Node, episodes: int,
               alpha: real, gamma: real, epsilon: real, roll: nat -> real, pick: nat -> nat)
    returns (q: QTable, history: seq<Run>)
    requires SuccsAreEdges(g) && start in g.succ
    ensures var l := Episodes(g, speed, start, end, EpisodeCount(episodes), alpha, gamma, epsilon, roll, pick);
      q == l.q && Follows(history, l.routes)
    ensures forall r :: r in history ==> Recorded(g, speed, start, end, r)
  {
    q, history := map[], [];
    var draw: nat := 0;
    var episode: nat := 0;
    while episode < episodes
      invariant episode <= EpisodeCount(episodes)
      invariant LearnInv(g, speed, start, end, episode, alpha, gamma, epsilon, roll, pick, q, draw, history)
    {
      q, draw, history := LearnEpisode(g, speed, start, end, episode, alpha, gamma, epsilon, roll, pick, q, draw, history);
      episode := episode + 1;
    }
  }

  /** After `episode` episodes the loop of `Learn` holds what `Episodes` predicts, and only recorded runs. */
  ghost predicate LearnInv(g: Graph, speed: SpeedOracle, start: Node, end: Node, episode: nat,
                           alpha: real, gamma: real, epsilon: real, roll: nat -> real, pick: nat -> nat,
                           q: QTable, draw: nat, history: seq<Run>)
    requires SuccsAreEdges(g) && start in g.succ
  {
    && (var l := Episodes(g, speed, start, end, episode, alpha, gamma, epsilon, roll, pick);
        q == l.q && draw == l.draw && Follows(history, l.routes))
    && (forall r :: r in history ==> Recorded(g, speed, start, end, r))
  }

  /** One pass of the loop of `Learn` (lines 153-177): an episode, and its run appended when it reached `End`. */
  method LearnEpisode(g: Graph, speed: SpeedOracle, start: Node, end: Node, episode: nat,
                      alpha: real, gamma: real, epsilon: real, roll: nat -> real, pick: nat -> nat,
                      q: QTable, draw: nat, history: seq<Run>)
    returns (q': QTable, draw': nat, history': seq<Run>)
    requires SuccsAreEdges(g) && start in g.succ
    requires LearnInv(g, speed, start, end, episode, alpha, gamma, epsilon, roll, pick, q, draw, history)
    ensures LearnInv(g, speed, start, end, episode + 1, alpha, gamma, epsilon, roll, pick, q', draw', history')
  {
    ghost var before := Episodes(g, speed, start, end, episode, alpha, gamma, epsilon, roll, pick);
    var reached, path, totalReward;
    reached, path, totalReward, q', draw' := RunEpisode(g, speed, start, end, q, alpha, gamma, epsilon, roll, pick, draw);
    EpisodesNext(g, speed, start, end, episode, alpha, gamma, epsilon, roll, pick, before, Episode(reached, path, q', draw'));
    history' := history;
    if reached {
      history' := history + [Run(totalReward, path)];
    }
  }

  /** Rewards never increase along `s`. */
  ghost predicate SortedDesc(s: seq<Run>) {
    forall i, j :: 0 <= i < j < |s| ==> s[i].reward >= s[j].reward
  }

  /** Insert `x` before the first entry whose reward is not above its own. */
  function InsertDesc(x: Run, s: seq<Run>): (r: seq<Run>)
    ensures multiset(r) == multiset(s) + multiset{x}
  {
    if s == [] || s[0].reward <= x.reward then
      [x] + s
    else
      assert s == [s[0]] + s[1..];
      [s[0]] + InsertDesc(x, s[1..])
  }

  /** Inserting into runs sorted by non-increasing reward keeps them sorted. */
  lemma {:induction false} InsertDescSorted(x: Run, s: seq<Run>)
    requires SortedDesc(s)
    ensures SortedDesc(InsertDesc(x, s))
    decreases |s|
  {
    if s != [] && s[0].reward > x.reward {
      var rest := InsertDesc(x, s[1..]);
      InsertDescSorted(x, s[1..]);
      InsertDescBelow(x, s, rest);
      var r := [s[0]] + rest;
      forall i, j | 0 <= i < j < |r|
        ensures r[i].reward >= r[j].reward
      {
        if i == 0 {
          assert r[j] == rest[j - 1];
        } else {
          assert r[i] == rest[i - 1] && r[j] == rest[j - 1];
        }
      }
    }
  }

  /** Every run of `rest`, which holds `x` and the tail of `s`, has no more reward than the head of `s`. */
  lemma InsertDescBelow(x: Run, s: seq<Run>, rest: seq<Run>)
    requires SortedDesc(s) && s != [] && s[0].reward > x.reward
    requires multiset(rest) == multiset(s[1..]) + multiset{x}
    ensures forall j :: 0 <= j < |rest| ==> rest[j].reward <= s[0].reward
  {
    forall j | 0 <= j < |rest|
      ensures rest[j].reward <= s[0].reward
    {
      var y := rest[j];
      assert y in multiset(rest);
      if y != x {
        assert y in multiset(s[1..]);
        var k :| 0 <= k < |s[1..]| && s[1..][k] == y;
        assert y == s[k + 1];
      }
    }
  }

  /**
   * The ranking of line 181: the same runs, by non-increasing reward
   * (an insertion sort).
   */
  function SortDesc(h: seq<Run>): (r: seq<Run>)
    ensures multiset(r) == multiset(h)
    ensures SortedDesc(r)
  {
    if h == [] then []
    else
      assert h == [h[0]] + h[1..];
      InsertDescSorted(h[0], SortDesc(h[1..]));
      InsertDesc(h[0], SortDesc(h[1..]))
  }

  /** The runs of `s` whose reward is `w`, in their order in `s`. */
  function WithReward(s: seq<Run>, w: real): (r: seq<Run>)
    ensures forall x :: x in r <==> x in s && x.reward == w
  {
    if s == [] then []
    else if s[0].reward == w then [s[0]] + WithReward(s[1..], w)
    else WithReward(s[1..], w)
  }

  /** `x` goes in front of every run of `s` with its reward, and leaves the other rewards' runs as they were. */
  lemma {:induction false} InsertDescWithReward(x: Run, s: seq<Run>, w: real)
    requires SortedDesc(s)
    ensures WithReward(InsertDesc(x, s), w) == (if x.reward == w then [x] + WithReward(s, w) else WithReward(s, w))
    decreases |s|
  {
    if s == [] || s[0].reward <= x.reward {
      assert InsertDesc(x, s) == [x] + s;
      assert ([x] + s)[1..] == s;
    } else {
      assert InsertDesc(x, s) == [s[0]] + InsertDesc(x, s[1..]);
      assert ([s[0]] + InsertDesc(x, s[1..]))[1..] == InsertDesc(x, s[1..]);
      InsertDescWithReward(x, s[1..], w);
      if x.reward == w {
        assert s[0].reward != w;
      }
    }
  }

  /**
   * The ranking is stable, as `sorted` is: the runs with any one reward
   * keep the order they had in the history.
   */
  lemma {:induction false} SortDescStable(h: seq<Run>, w: real)
    ensures WithReward(SortDesc(h), w) == WithReward(h, w)
    decreases |h|
  {
    if h != [] {
      SortDescStable(h[1..], w);
      InsertDescWithReward(h[0], SortDesc(h[1..]), w);
    }
  }

  /** `max(k, 1)`: the loop appends before it compares the count with `k`. */
  function AtMost(k: int): (n: nat)
    ensures n >= 1 && n >= k
    ensures k >= 1 ==> n == k
  {
    if k < 1 then 1 else k
  }

  /** No earlier run of `ranked` has the same path as the `m`-th. */
  ghost predicate FirstOf(ranked: seq<Run>, m: nat)
    requires m < |ranked|
  {
    forall m' :: 0 <= m' < m ==> ranked[m'].path != ranked[m].path
  }

  /** Some route of `top` follows `p`. */
  ghost predicate Listed(top: seq<Route>, p: seq<Node>) {
    exists j :: 0 <= j < |top| && top[j].path == p
  }

  /** Each route of `top` is the first run of `ranked` with its path, costed at minus that run's reward. */
  ghost predicate FirstOccurrences(ranked: seq<Run>, top: seq<Route>) {
    forall j :: 0 <= j < |top| ==>
      exists m :: 0 <= m < |ranked| && FirstOf(ranked, m) && top[j] == Route(-ranked[m].reward, ranked[m].path)
  }

  /**
   * Lines 182-191: walk the ranked runs, keep each path the first time it
   * appears, as a route whose cost is minus its reward, and stop once `k`
   * routes are kept. At most `max(k, 1)` routes come out, each the first
   * occurrence of its path, with no path twice; when fewer than `max(k, 1)`
   * come out every path is there. On runs ranked by non-increasing reward
   * the costs do not decrease, and no path left out is cheaper than a kept
   * one.
   */
  method TopK(ranked: seq<Run>, k: int) returns (top: seq<Route>)
    ensures |top| <= AtMost(k) && |top| <= |ranked|
    ensures FirstOccurrences(ranked, top)
    ensures forall i, j :: 0 <= i < j < |top| ==> top[i].path != top[j].path
    ensures |top| < AtMost(k) ==> forall m :: 0 <= m < |ranked| ==> Listed(top, ranked[m].path)
    ensures SortedDesc(ranked) ==> forall i, j :: 0 <= i < j < |top| ==> top[i].cost <= top[j].cost
    ensures SortedDesc(ranked) ==> forall m, j :: 0 <= m < |ranked| && !Listed(top, ranked[m].path) && 0 <= j < |top| ==>
      top[j].cost <= -ranked[m].reward
  {
    ghost var idx, seen, i;
    top, idx, seen, i := KeepFirst(ranked, k);
    TopKOutcome(ranked, k, top, idx, seen, i);
  }

  /** The loop of lines 184-189, ending in the state its invariant describes. */
  method KeepFirst(ranked: seq<Run>, k: int) returns (top: seq<Route>, ghost idx: seq<nat>, ghost seen: set<seq<Node>>, ghost i: nat)
    ensures TopKInv(ranked, top, idx, seen, i) && |top| <= AtMost(k)
    ensures i == |ranked| || (|top| == AtMost(k) && 0 < i && idx[|top| - 1] == i - 1)
  {
    top := [];
    var kept: set<seq<Node>> := {};
    idx := [];
    var n: nat := 0;
    var full := false;
    while n < |ranked| && !full
      invariant TopKInv(ranked, top, idx, kept, n)
      invariant full ==> |top| == AtMost(k) && 0 < n && idx[|top| - 1] == n - 1
      invariant !full ==> |top| < AtMost(k)
    {
      top, idx, kept, full := KeepNext(ranked, k, top, idx, kept, n);
      n := n + 1;
    }
    seen, i := kept, n;
  }

  /** One pass of the loop of lines 184-189: keep run `n` unless its path was seen, and say whether `k` are kept. */
  method KeepNext(ranked: seq<Run>, k: int, top: seq<Route>, ghost idx: seq<nat>, kept: set<seq<Node>>, n: nat)
    returns (top': seq<Route>, ghost idx': seq<nat>, kept': set<seq<Node>>, full: bool)
    requires TopKInv(ranked, top, idx, kept, n) && n < |ranked| && |top| < AtMost(k)
    ensures TopKInv(ranked, top', idx', kept', n + 1)
    ensures full ==> |top'| == AtMost(k) && idx'[|top'| - 1] == n
    ensures !full ==> |top'| < AtMost(k)
  {
    TopKAdvance(ranked, top, idx, kept, n);
    var run := ranked[n];
    if run.path !in kept {
      top', idx', kept' := top + [Route(-run.reward, run.path)], idx + [n], kept + {run.path};
      full := |top'| >= k;
    } else {
      top', idx', kept', full := top, idx, kept, false;
    }
  }

  /**
   * The state of the loop of lines 184-189 after looking at the first `i`
   * runs: `top` holds, in order, the first occurrences among them (at
   * positions `idx`), and `seen` holds exactly their paths.
   */
  ghost predicate TopKInv(ranked: seq<Run>, top: seq<Route>, idx: seq<nat>, seen: set<seq<Node>>, i: nat) {
    i <= |ranked| && |idx| == |top| && |top| <= i
    && (forall j :: 0 <= j < |top| ==>
          idx[j] < i && FirstOf(ranked, idx[j]) && top[j] == Route(-ranked[idx[j]].reward, ranked[idx[j]].path))
    && (forall a, b :: 0 <= a < b < |top| ==> idx[a] < idx[b])
    && (forall p :: p in seen <==> Listed(top, p))
    && (forall m :: 0 <= m < i ==> ranked[m].path in seen)
  }

  /** Looking at run `i` keeps the loop state: skipped when seen, appended otherwise. */
  lemma TopKAdvance(ranked: seq<Run>, top: seq<Route>, idx: seq<nat>, seen: set<seq<Node>>, i: nat)
    requires TopKInv(ranked, top, idx, seen, i) && i < |ranked|
    ensures ranked[i].path in seen ==> TopKInv(ranked, top, idx, seen, i + 1)
    ensures ranked[i].path !in seen ==>
      TopKInv(ranked, top + [Route(-ranked[i].reward, ranked[i].path)], idx + [i], seen + {ranked[i].path}, i + 1)
  {
    var run := ranked[i];
    if run.path !in seen {
      var top', idx', seen' := top + [Route(-run.reward, run.path)], idx + [i], seen + {run.path};
      assert FirstOf(ranked, i) by {
        forall m' | 0 <= m' < i ensures ranked[m'].path != run.path {
          assert ranked[m'].path in seen;
        }
      }
      forall p ensures p in seen' <==> Listed(top', p) {
        ListedSnoc(top, Route(-run.reward, run.path), p);
      }
    }
  }

  /** Appending a route lists exactly its path in addition. */
  lemma ListedSnoc(top: seq<Route>, r: Route, p: seq<Node>)
    ensures Listed(top + [r], p) <==> Listed(top, p) || p == r.path
  {
    var top' := top + [r];
    if Listed(top, p) {
      var j :| 0 <= j < |top| && top[j].path == p;
      assert top'[j].path == p;
    }
    if p == r.path {
      assert top'[|top|].path == p;
    }
    if Listed(top', p) {
      var j :| 0 <= j < |top'| && top'[j].path == p;
      if j < |top| {
        assert top[j].path == p;
      }
    }
  }

  /** What the kept routes satisfy once the loop stops after looking at the first `i` runs. */
  lemma TopKOutcome(ranked: seq<Run>, k: int, top: seq<Route>, idx: seq<nat>, seen: set<seq<Node>>, i: nat)
    requires TopKInv(ranked, top, idx, seen, i) && |top| <= AtMost(k)
    requires i == |ranked| || (|top| == AtMost(k) && 0 < i && idx[|top| - 1] == i - 1)
    ensures FirstOccurrences(ranked, top)
    ensures forall a, b :: 0 <= a < b < |top| ==> top[a].path != top[b].path
    ensures |top| < AtMost(k) ==> forall m :: 0 <= m < |ranked| ==> Listed(top, ranked[m].path)
    ensures SortedDesc(ranked) ==> forall a, b :: 0 <= a < b < |top| ==> top[a].cost <= top[b].cost
    ensures SortedDesc(ranked) ==> forall m, j :: 0 <= m < |ranked| && !Listed(top, ranked[m].path) && 0 <= j < |top| ==>
      top[j].cost <= -ranked[m].reward
  {
    forall j | 0 <= j < |top|
      ensures exists m :: 0 <= m < |ranked| && FirstOf(ranked, m) && top[j] == Route(-ranked[m].reward, ranked[m].path)
    {
      var m := idx[j];
    }
    forall a, b | 0 <= a < b < |top|
      ensures top[a].path != top[b].path
    {
      assert FirstOf(ranked, idx[b]) && idx[a] < idx[b];
    }
    if |top| < AtMost(k) {
      forall m | 0 <= m < |ranked| ensures Listed(top, ranked[m].path) {
        assert ranked[m].path in seen;
      }
    }
    if SortedDesc(ranked) {
      forall a, b | 0 <= a < b < |top|
        ensures top[a].cost <= top[b].cost
      {
        assert ranked[idx[a]].reward >= ranked[idx[b]].reward;
      }
      forall m, j | 0 <= m < |ranked| && !Listed(top, ranked[m].path) && 0 <= j < |top|
        ensures top[j].cost <= -ranked[m].reward
      {
        assert idx[j] < m;
        assert ranked[idx[j]].reward >= ranked[m].reward;
      }
    }
  }

  /**
   * Lines 125-191: learn for `episodes` episodes, rank the recorded runs by
   * non-increasing reward and keep the best `k` distinct paths. Every route
   * returned is one of the paths the episodes recorded, a loop-free walk
   * from `start` to `end` whose cost is its travel time; no path appears
   * twice; costs do not decrease along the list; there are at most
   * `max(k, 1)` of them and no more than episodes; when fewer than
   * `max(k, 1)` come out every recorded path is listed, and no recorded path
   * left out is faster than a listed one.
   */
  method ReinforcementLearningTopK(g: Graph, speed: SpeedOracle, start: Node, end: Node, k: int, episodes: int,
                                   alpha: real, gamma: real, epsilon: real, roll: nat -> real, pick: nat -> nat)
    returns (top: seq<Route>)
    requires g.Valid() && start in g.succ
    ensures |top| <= AtMost(k) && |top| <= EpisodeCount(episodes)
    ensures forall j :: 0 <= j < |top| ==>
      IsWalkFrom(g, top[j].path, start, end) && Distinct(top[j].path) && top[j].cost == PathTime(g, speed, top[j].path)
    ensures forall i, j :: 0 <= i < j < |top| ==> top[i].path != top[j].path && top[i].cost <= top[j].cost
    ensures SuccsAreEdges(g) && var routes := Episodes(g, speed, start, end, EpisodeCount(episodes), alpha, gamma, epsilon, roll, pick).routes;
      && (forall j :: 0 <= j < |top| ==> top[j].path in routes)
      && (|top| < AtMost(k) ==> forall p :: p in routes ==> Listed(top, p))
      && (forall p, j :: p in routes && !Listed(top, p) && 0 <= j < |top| ==> top[j].cost <= PathTime(g, speed, p))
  {
    ValidSuccsAreEdges(g);
    top := LearnTopK(g, speed, start, end, k, episodes, alpha, gamma, epsilon, roll, pick);
  }

  /** The body of lines 125-191, on a graph whose successor lists are edges. */
  method LearnTopK(g: Graph, speed: SpeedOracle, start: Node, end: Node, k: int, episodes: int,
                   alpha: real, gamma: real, epsilon: real, roll: nat -> real, pick: nat -> nat)
    returns (top: seq<Route>)
    requires SuccsAreEdges(g) && start in g.succ
    ensures |top| <= AtMost(k) && |top| <= EpisodeCount(episodes)
    ensures forall j :: 0 <= j < |top| ==>
      IsWalkFrom(g, top[j].path, start, end) && Distinct(top[j].path) && top[j].cost == PathTime(g, speed, top[j].path)
    ensures forall i, j :: 0 <= i < j < |top| ==> top[i].path != top[j].path && top[i].cost <= top[j].cost
    ensures var routes := Episodes(g, speed, start, end, EpisodeCount(episodes), alpha, gamma, epsilon, roll, pick).routes;
      && (forall j :: 0 <= j < |top| ==> top[j].path in routes)
      && (|top| < AtMost(k) ==> forall p :: p in routes ==> Listed(top, p))
      && (forall p, j :: p in routes && !Listed(top, p) && 0 <= j < |top| ==> top[j].cost <= PathTime(g, speed, p))
  {
    var q, history := Learn(g, speed, start, end, episodes, alpha, gamma, epsilon, roll, pick);
    var ranked := SortDesc(history);
    assert |ranked| == |multiset(ranked)| == |multiset(history)| == |history|;
    top := TopK(ranked, k);
    KeptAreRecorded(g, speed, start, end, history, ranked, top);
    ghost var routes := Episodes(g, speed, start, end, EpisodeCount(episodes), alpha, gamma, epsilon, roll, pick).routes;
    KeptAreRoutes(g, speed, start, end, k, history, ranked, routes, top);
  }

  /** The routes kept from a ranking of recorded runs are recorded runs, with cost for reward. */
  lemma KeptAreRecorded(g: Graph, speed: SpeedOracle, start: Node, end: Node, history: seq<Run>, ranked: seq<Run>, top: seq<Route>)
    requires forall r :: r in history ==> Recorded(g, speed, start, end, r)
    requires multiset(ranked) == multiset(history)
    requires FirstOccurrences(ranked, top)
    ensures forall j :: 0 <= j < |top| ==>
      IsWalkFrom(g, top[j].path, start, end) && Distinct(top[j].path) && top[j].cost == PathTime(g, speed, top[j].path)
  {
    forall j | 0 <= j < |top|
      ensures IsWalkFrom(g, top[j].path, start, end) && Distinct(top[j].path) && top[j].cost == PathTime(g, speed, top[j].path)
    {
      var m :| 0 <= m < |ranked| && FirstOf(ranked, m) && top[j] == Route(-ranked[m].reward, ranked[m].path);
      assert ranked[m] in multiset(history);
      assert Recorded(g, speed, start, end, ranked[m]);
    }
  }

  /**
   * The same guarantees seen from the recorded paths: each kept route is one
   * of them; when fewer than `max(k, 1)` are kept every one is listed; and
   * none left out is faster than a kept one.
   */
  lemma KeptAreRoutes(g: Graph, speed: SpeedOracle, start: Node, end: Node, k: int,
                      history: seq<Run>, ranked: seq<Run>, routes: seq<seq<Node>>, top: seq<Route>)
    requires forall r :: r in history ==> Recorded(g, speed, start, end, r)
    requires Follows(history, routes)
    requires multiset(ranked) == multiset(history) && SortedDesc(ranked)
    requires FirstOccurrences(ranked, top)
    requires |top| < AtMost(k) ==> forall m :: 0 <= m < |ranked| ==> Listed(top, ranked[m].path)
    requires forall m, j :: 0 <= m < |ranked| && !Listed(top, ranked[m].path) && 0 <= j < |top| ==> top[j].cost <= -ranked[m].reward
    ensures forall j :: 0 <= j < |top| ==> top[j].path in routes
    ensures |top| < AtMost(k) ==> forall p :: p in routes ==> Listed(top, p)
    ensures forall p, j :: p in routes && !Listed(top, p) && 0 <= j < |top| ==> top[j].cost <= PathTime(g, speed, p)
  {
    forall j | 0 <= j < |top|
      ensures top[j].path in routes
    {
      var m :| 0 <= m < |ranked| && FirstOf(ranked, m) && top[j] == Route(-ranked[m].reward, ranked[m].path);
      assert ranked[m] in multiset(history);
      var i :| 0 <= i < |history| && history[i] == ranked[m];
      assert routes[i] == top[j].path;
    }
    forall p | p in routes
      ensures (|top| < AtMost(k) ==> Listed(top, p))
      ensures forall j :: !Listed(top, p) && 0 <= j < |top| ==> top[j].cost <= PathTime(g, speed, p)
    {
      var m := RankedRoute(g, speed, start, end, history, ranked, routes, p);
    }
  }

  /** A recorded path is the path of some ranked run, rewarded with minus its travel time. */
  lemma RankedRoute(g: Graph, speed: SpeedOracle, start: Node, end: Node,
                    history: seq<Run>, ranked: seq<Run>, routes: seq<seq<Node>>, p: seq<Node>) returns (m: nat)
    requires forall r :: r in history ==> Recorded(g, speed, start, end, r)
    requires Follows(history, routes) && multiset(ranked) == multiset(history)
    requires p in routes
    ensures m < |ranked| && ranked[m].path == p && ranked[m].reward == -PathTime(g, speed, p)
  {
    var i :| 0 <= i < |routes| && routes[i] == p;
    assert history[i] in multiset(ranked);
    m :| 0 <= m < |ranked| && ranked[m] == history[i];
    assert Recorded(g, speed, start, end, history[i]);
  }
}
