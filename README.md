# Traffic-aware route planners, modelled in Dafny

This project models the route-search engine of a small route planner for
road networks. The network is a directed multigraph of road segments, and
travel times come from a live traffic speed per segment. The engine has
four planners:

- Dijkstra's algorithm over every parallel edge (`Djikstra_with_traffic`);
- A* over the shortest parallel edge, with an estimate that divides the
  Euclidean distance between node coordinates by 80 km/h
  (`A_Star_with_traffic`);
- a bidirectional A* that searches from both ends until one node has been
  popped by both sides (`Bidirectional_A_Star`);
- a Q-learning walker that records the routes its episodes find and
  returns the `k` fastest distinct ones (`reinforcement_learning_top_k`).

They share the cost rule `calculate_travel_time` and the predecessor walk
`reconstruct_path`.

Modules, in dependency order:

- `Wrappers`: `Option`, the missing value of a speed, a length or a
  predecessor.
- `Graphs`: the road network. Nodes are `nat`. Successor and predecessor
  lists and the bundles of parallel edges are kept as three maps. The
  module defines walks, reachability, and the closed-set arguments that
  turn an exhausted search into "unreachable".
- `Heaps`: the binary heap as a sequence of `(priority, node)` entries. A
  pop takes a least entry in tuple order.
- `TravelTime`: the cost rule, the shortest-parallel-edge hop time, and
  the travel time of a whole walk.
- `Predecessors`: predecessor maps, the chain-walking loop, and
  `reconstruct_path`. The walk back stops because every predecessor link
  goes down in a (cost, time of last improvement) order.
- `SearchState`: the labels shared by the searches. The root costs 0,
  every other labelled node has a labelled predecessor joined to it by an
  edge, and costs only go down. The module also shows what these labels
  say about the path read back from them.
- `Dijkstra`, `AStar`, `Bidirectional`, `Learner`: the four planners, each
  an imperative loop over its own state (cost and predecessor maps, heap,
  visited sets, Q-table, history), proved against the specifications
  above.

A dictionary initialised to infinity for every node is a map in which an
absent key means infinity. The traffic lookup is a function from a road
segment to an optional speed. The Euclidean and haversine estimates are
given functions. The random draws of the learner are two functions indexed
by a draw counter.

## Model

| member | source | states |
|---|---|---|
| TravelTime.CalculateTravelTime | AlgoFile.py:36-41 | travelling for the result at the speed in use (the reported speed if positive, else 50 km/h) covers exactly `length` metres, so the divisor is never zero; a non-negative length takes non-negative time |
| TravelTime.EffectiveSpeed | AlgoFile.py:38-41 | the speed used is positive, is the reported one when that is present and positive, and 50 km/h otherwise |
| TravelTime.DefaultSpeedKilometre | AlgoFile.py:40-41 | with no usable speed, a 1000 m edge costs exactly 72 s |
| TravelTime.TravelTimeMonotone | AlgoFile.py:36-41 | at one speed, a longer edge never takes less time |
| TravelTime.MinLength | AlgoFile.py:89 | the length used is at most every parallel edge's length (a missing length counts as 1), is one of them, and is 1 when there is no edge |
| TravelTime.HopTimeNonNegative | AlgoFile.py:89-95 | a hop over edges with non-negative lengths takes non-negative time |
| Heaps.PopMin | AlgoFile.py:51 | the popped entry is in the heap and is at most every entry in tuple order; the rest is the heap minus one occurrence of it |
| Heaps.QueuedAfterPop | AlgoFile.py:51 | a pop keeps every other node queued |
| Predecessors.CollectChain | AlgoFile.py:117-121 | the collected nodes are the predecessor chain from the start node, newest first, and repeat no node |
| Predecessors.WalkBack | AlgoFile.py:117-123 | the reversed chain ends at the given node, starts at a node without predecessor, links each node to its predecessor, and repeats no node |
| Predecessors.BackChainDistinct | AlgoFile.py:119-121 | a predecessor chain that stops at a node without predecessor cannot repeat a node |
| Predecessors.RankedReachesNone | AlgoFile.py:119-121 | when every link goes down in the (cost, stamp) order, the walk back stops within as many steps as there are nodes below the start |
| Predecessors.RankedWalkEnds | AlgoFile.py:119-121 | under the same ordering, the walk back from any node stops |
| Predecessors.ReconstructPath | AlgoFile.py:111-123 | the result is empty exactly when `End` is absent or has no predecessor; otherwise it has at least two nodes, ends at `End`, starts at a node without predecessor, follows predecessor links, and repeats no node; `Start` is never read |
| SearchState.InitialLabels | AlgoFile.py:45-48 | a search starts with only its root labelled, at cost 0 |
| SearchState.Improve | AlgoFile.py:67-70 | a strict improvement along an edge, from a node labelled no higher, keeps the labels, and never relabels the root |
| SearchState.LabelledPredecessor | AlgoFile.py:69 | a labelled node's predecessor is labelled and is the root or has a predecessor itself |
| SearchState.ChainFromRoot | AlgoFile.py:117-123 | the chain read back from the labels starts at the root and follows edges (reversed edges for a backward search) |
| SearchState.ChainToRoot | sample.py:81-85 | a predecessor chain from a labelled node, newest first, ends at the root, each step going back along an edge |
| SearchState.SearchOutcome | AlgoFile.py:72 | when the search labelled `End` or stopped with the labelled nodes closed under successors, the path read back is empty exactly when `End` is `Start` or unreachable, and otherwise is a walk from `Start` to `End` without repeats |
| Dijkstra.RelaxEdges | AlgoFile.py:57-70 | the new costs, predecessors and heap are those of trying the parallel edges to one neighbour in order; afterwards no edge improves the neighbour from the popped cost; when its cost changed, the predecessor is the popped node, the cost is the popped cost plus the time of one of those edges, and it is pushed; other nodes keep their costs; nothing changes when no edge improves; every labelled cost stays at least its predecessor's plus the hop time |
| Dijkstra.RelaxEdgesUpToFacts | AlgoFile.py:57-70 | after the first `n` parallel edges the neighbour is labelled within each of their times; other nodes are untouched; a changed label is the popped cost plus one of their times, with the popped node as predecessor, and is pushed at or above the popped cost |
| Dijkstra.HopWithinEdge | AlgoFile.py:57-63 | the hop time over the shortest parallel edge is at most the time over any one of them |
| Dijkstra.HopAttained | AlgoFile.py:57-63 | some parallel edge takes exactly the hop time |
| Dijkstra.PredCostImprove | AlgoFile.py:67-70 | an improvement through a labelled node keeps every labelled cost at least its predecessor's cost plus the hop time |
| Dijkstra.ChainCost | AlgoFile.py:117-123 | along predecessor links the travel time of the chain is at most the difference of the costs at its two ends |
| Dijkstra.Expand | AlgoFile.py:56-70 | the new costs, predecessors and heap are those of trying every neighbour in order; afterwards no edge out of the popped node improves on the popped cost plus its time; every changed cost is pushed, at or above the popped cost; every labelled cost stays at least its predecessor's plus the hop time |
| Dijkstra.RelaxedFromLabelsSuccs | AlgoFile.py:56-70 | once all edges out of a node are relaxed, all its successors are labelled |
| Dijkstra.RelaxedFromMonotone | AlgoFile.py:67 | lowering costs and raising the base keeps "no edge improves" true |
| Dijkstra.PopStep | AlgoFile.py:50-70 | one pop-and-expand keeps the queue sound (entries above their node's cost and above the last pop), keeps settled nodes relaxed, and keeps every label queued or settled |
| Dijkstra.SearchStep | AlgoFile.py:51-70 | one pass either pops `End`, which is then labelled at a cost no walk from `Start` beats, or keeps the loop invariant and settles a new node or shrinks the heap |
| Dijkstra.WalkHopsNonNegative | AlgoFile.py:63 | on a graph whose lengths are present and non-negative every hop of a walk takes non-negative time |
| Dijkstra.PathTimePrefix | AlgoFile.py:63-65 | over non-negative hop times a prefix of a walk takes no longer than the whole walk |
| Dijkstra.SettledWithin | AlgoFile.py:51 | a settled cost is at most the travel time of any walk from `Start` to that node |
| Dijkstra.CrossingBound | AlgoFile.py:56-70 | where a walk first leaves the settled nodes, the node it enters is labelled within the walk's time to it |
| Dijkstra.PopOptimal | AlgoFile.py:51 | a least heap entry for a node not yet settled is at most the travel time of any walk from `Start` to that node |
| Dijkstra.FrontierBound | AlgoFile.py:51-70 | a walk from `Start` to a node not yet settled passes a node not yet settled whose label is at most the walk's travel time |
| Dijkstra.SettleOptimal | AlgoFile.py:51-54 | settling the node of a least entry gives it a cost no walk beats, and keeps every settled cost optimal |
| Dijkstra.Search | AlgoFile.py:45-70 | the loop terminates; it leaves valid labels; a labelled `End` costs no more than any walk from `Start` to it; when `End` is unlabelled the labelled nodes are closed under successors |
| Dijkstra.DjikstraWithTraffic | AlgoFile.py:43-72 | the result is empty exactly when `End` is `Start` or cannot be reached; otherwise it is a walk from `Start` to `End` without repeated nodes, and no walk from `Start` to `End` takes less time |
| AStar.Heuristic | AlgoFile.py:101-103 | the estimate times 80 km/h in metres per second is the given Euclidean distance; non-negative for a non-negative distance |
| AStar.RelaxNeighbour | AlgoFile.py:88-107 | the new costs, predecessors and heap are one relaxation of the neighbour: a strict improvement sets its cost to the popped cost plus the hop time and its predecessor to the popped node, and pushes cost plus estimate; otherwise nothing changes; other nodes keep their costs; costs only go down |
| AStar.RelaxNeighbours | AlgoFile.py:87-107 | the new costs, predecessors and heap are those of relaxing the successors in order; afterwards every successor is labelled no higher than the popped cost plus its hop time; the heap only grows, by labelled entries; every changed label is queued |
| AStar.AStarPopKeeps | AlgoFile.py:82-107 | a pop and expansion keep every label queued or expanded, and `End` queued once labelled |
| AStar.AStarStep | AlgoFile.py:82-107 | one pass either pops `End`, which is then labelled, or keeps the loop invariant |
| AStar.AStarWithTraffic | AlgoFile.py:74-109 | unless the fuel runs out, the result is empty exactly when `End` is `Start` or cannot be reached, and otherwise is a walk from `Start` to `End` without repeats |
| Bidirectional.FirstLength | sample.py:55-56 | the length used is the first parallel edge's, or 1 when it has none; non-negative for non-negative lengths |
| Bidirectional.RelaxSide | sample.py:57-61 | the new costs, predecessors and heap are one relaxation of the neighbour: a strict improvement sets its cost to the popped cost plus the first edge's length and its predecessor to the popped node, and pushes cost plus estimate; otherwise nothing changes; other nodes keep their costs; costs only go down |
| Bidirectional.ExpandSide | sample.py:54-61 | the new costs, predecessors and heap are those of relaxing the neighbours (successors forward, predecessors backward) in order; each neighbour is labelled no higher than the popped cost plus its first edge; the heap only grows; changed labels are queued |
| Bidirectional.HalfStep | sample.py:49-61 | a half pass marks the popped node visited; the sides meet exactly when the other side visited it; otherwise the side's invariant holds; the first pop is the root |
| Bidirectional.EmptySideExhausted | sample.py:48 | a side whose heap empties before a meeting has labelled every neighbour of its labelled nodes, and never labelled the other root |
| Bidirectional.Round | sample.py:48-75 | a pass keeps both sides' labels, and a meeting node is labelled by both sides |
| Bidirectional.BidirSearch | sample.py:34-78 | the main loop leaves valid labels on both sides; a meeting node is labelled by both; with no meeting, one side is exhausted |
| Bidirectional.ExhaustedUnreachable | sample.py:77-78 | when one side is exhausted, `end` cannot be reached from `start` |
| Bidirectional.ForwardSegment | sample.py:80-85 | the forward reconstruction from a forward-labelled node is a walk from `start` to it without repeats |
| Bidirectional.BackwardSegment | sample.py:87-93 | the backward predecessor chain from a backward-labelled node is a walk from it to `end` |
| Bidirectional.JoinedRoute | sample.py:97 | forward reconstruction to the meeting node, joined with the backward chain after it, is a walk from `start` to `end` |
| Bidirectional.MeetingFacts | sample.py:80-97 | at a meeting node the forward reconstruction is a walk from `start` to it without repeats, and `end` is reachable from it |
| Bidirectional.CollectUntil | sample.py:88-93 | the collected nodes are the backward chain from `end`, cut after the meeting node or at a node without predecessor |
| Bidirectional.BackwardAsWritten | sample.py:88-95 | the backward segment is the reversed chain without its first node; it is empty exactly when `end` is the meeting node or has no backward predecessor |
| Bidirectional.ValidateRoute | sample.py:99-103 | the joined route is returned when every consecutive pair is an edge, and the empty route otherwise |
| Bidirectional.JoinAsWritten | sample.py:80-103 | the route as written is a walk from `start` to the meeting node without repeats |
| Bidirectional.BidirectionalAStar | sample.py:22-103 | with the backward segment taken from the meeting node, and unless the fuel runs out: the result is empty exactly when `end` is unreachable, and otherwise is a walk from `start` to `end` |
| Bidirectional.BidirectionalAStarAsWritten | sample.py:22-103 | as written, and unless the fuel runs out: empty exactly when `end` is unreachable; otherwise a walk from `start` to the meeting node without repeats, from which `end` is reachable, and it ends at `end` only when the meeting node is `end` |
| Bidirectional.AsWrittenStopsShort | sample.py:88-95 | on the road 0 -> 1 -> 2, with the searches meeting at 1 and the labels of `LineLabels`, the route as written is [0, 1], which is not a walk to 2, while the corrected route [0, 1, 2] is; that the searches meet at 1 is a hand trace, not proved |
| Learner.GetQValue | AlgoFile.py:130-131 | an unseen (state, action) pair reads as 0.0, a seen one as its stored value |
| Learner.MaxQ | AlgoFile.py:136-137 | the value is at least every action's Q-value and is attained by one of them |
| Learner.BestActions | AlgoFile.py:138 | an action is kept exactly when it is possible and its Q-value equals the maximum |
| Learner.ChooseAction | AlgoFile.py:133-140 | the action chosen is one of the possible ones; when the roll is below epsilon it is the picked one; otherwise it has the highest Q-value |
| Learner.GetReward | AlgoFile.py:142-150 | the reward is minus the hop time over the shortest parallel edge; it is never positive over non-negative lengths |
| Learner.NextMaxQ | AlgoFile.py:172 | the best Q-value from the next node, or 0 at a dead end |
| Learner.TdUpdateBetween | AlgoFile.py:173 | for alpha in [0, 1] the new Q-value lies between the old value and the target; alpha 0 keeps the old value, alpha 1 gives the target |
| Learner.LearnHop | AlgoFile.py:170-174 | the table gains or replaces exactly the entry of the hop, set to the temporal-difference update of its old value with the hop's reward and the best value out of the next node; every other entry is kept |
| Learner.PlayFrom | AlgoFile.py:158-178 | the rest of an episode only extends the path and only uses up draws |
| Learner.ExtendWalk | AlgoFile.py:164-167 | extending a walk by a chosen edge yields a walk whose travel time grows by that hop's time |
| Learner.ExtendHops | AlgoFile.py:174 | storing the new Q-value adds only the hop just taken to the table |
| Learner.EpisodeStep | AlgoFile.py:158-175 | a step marks the node visited; it stops exactly at a dead end, changing nothing else; otherwise it moves to the action chosen at this draw, uses one draw, appends the node, adds its reward and sets the hop's Q-value to the update of its old value; the path stays a walk from `Start` whose reward is minus its travel time, with no repeats before its last node |
| Learner.PlayFromStep | AlgoFile.py:159-175 | a step as `EpisodeStep` describes it leaves the outcome of the rest of the episode unchanged |
| Learner.EpisodeAdvance | AlgoFile.py:158-175 | a step as `EpisodeStep` describes it, after which the rest of the episode plays out as it would have before it |
| Learner.PlayOut | AlgoFile.py:153-175 | the episode loop stops at `End`, at a revisited node or just after marking a dead end visited, with the path a walk from `Start` whose reward is minus its travel time, and what is left to play from there is the whole episode from `Start` |
| Learner.StopMeaning | AlgoFile.py:158-177 | a walk that stops at `End` has no repeated node; one that stops elsewhere ends on a revisit or a dead end |
| Learner.RunEpisode | AlgoFile.py:153-178 | the outcome (reached, path, Q-table, draws) is the episode `PlayFrom` plays from `Start`; the path is a walk from `Start` whose total reward is minus its travel time; it reached `End` exactly when it ends there, then without repeats; otherwise it stopped on a revisit or a dead end; only hops it took gain Q entries |
| Learner.Episodes | AlgoFile.py:152-178 | the episodes record at most one path each |
| Learner.EpisodesNext | AlgoFile.py:152-178 | one more episode starts from the Q-table and draws the earlier ones left, and records its path exactly when it reached `End` |
| Learner.LearnEpisode | AlgoFile.py:153-177 | one more episode keeps the Q-table and draws equal to those `Episodes` predicts for one episode more, the history following its recorded paths, and every run recorded |
| Learner.EpisodeCount | AlgoFile.py:152 | a negative count runs no episode, any other runs that many |
| Learner.Learn | AlgoFile.py:152-178 | the Q-table is the one the episodes leave, and the history follows, one for one and in episode order, the paths of the episodes that reached `End`; each run is a walk from `Start` to `End` without repeats, with reward minus its travel time |
| Learner.InsertDescSorted | AlgoFile.py:181 | inserting into a ranking by non-increasing reward keeps it ranked |
| Learner.SortDesc | AlgoFile.py:181 | the ranking holds the same runs, by non-increasing reward |
| Learner.WithReward | AlgoFile.py:181 | picks exactly the runs with the given reward |
| Learner.InsertDescWithReward | AlgoFile.py:181 | an inserted run goes before every run with its reward and leaves the order of each reward's runs otherwise unchanged |
| Learner.SortDescStable | AlgoFile.py:181 | the ranking is stable: the runs with any one reward keep their order in the history |
| Learner.AtMost | AlgoFile.py:186-189 | the bound is `k`, or 1 when `k` is below 1 (the append precedes the comparison) |
| Learner.KeepNext | AlgoFile.py:184-189 | one pass keeps the first-occurrence bookkeeping and reports when `k` routes are kept |
| Learner.TopKAdvance | AlgoFile.py:184-189 | looking at one more run either skips a seen path or appends it as a first occurrence |
| Learner.TopKOutcome | AlgoFile.py:182-191 | when the loop ends, the routes are first occurrences with distinct paths; with fewer than the bound every path is listed; over a ranking, costs ascend and no unlisted run is cheaper than a kept route |
| Learner.TopK | AlgoFile.py:182-191 | at most `max(k, 1)` routes, each the first run with its path costed at minus its reward, with no repeated path; fewer means every path is listed; over a ranking, costs ascend and nothing dropped is cheaper than a kept route |
| Learner.KeptAreRecorded | AlgoFile.py:177-186 | every route kept from a ranking of recorded runs is a walk from `Start` to `End` without repeats, costed at its travel time |
| Learner.RankedRoute | AlgoFile.py:177-181 | every recorded path is the path of a ranked run whose reward is minus its travel time |
| Learner.KeptAreRoutes | AlgoFile.py:177-191 | every kept route is a recorded path; with fewer than the bound every recorded path is listed; no recorded path left out is faster than a kept route |
| Learner.LearnTopK | AlgoFile.py:152-191 | on a graph whose successor lists are edges: at most `max(k, 1)` routes and at most `episodes`; each a recorded path, a walk from `Start` to `End` without repeats, costed at its travel time; no path twice; costs ascend; with fewer than `max(k, 1)` every recorded path is listed; no recorded path left out is faster than a listed one |
| Learner.ReinforcementLearningTopK | AlgoFile.py:125-191 | at most `max(k, 1)` routes and at most `episodes`; each a path the episodes recorded, a walk from `Start` to `End` without repeats, costed at its travel time; no path twice; costs ascend; with fewer than `max(k, 1)` every recorded path is listed; no recorded path left out is faster than a listed one |

## Left out

- The traffic lookup (`get_traffic_data`) and the environment file: these are an HTTP call to a traffic service and environment I/O. The model uses a function from a road segment to an optional speed in km/h.
- The midpoint coordinates passed to the traffic lookup, the Euclidean estimate and the haversine estimate: floating-point geometry in library calls. The estimates are given functions, and the traffic lookup is keyed by segment instead of midpoint.
- Units of the estimates: A* divides a Euclidean distance between raw latitude/longitude pairs (degrees) by a speed in metres per second, and the bidirectional search adds a haversine distance in kilometres to costs in metres. The model keeps both sums as written and does not pretend the estimate is in the cost's unit.
- Floating-point arithmetic is modelled as exact `real` arithmetic. Rounding in sums, ties and comparisons is not modelled.
- `random.random` and `random.choice`: the learner takes a roll and a pick for each draw, indexed by a counter shared by all episodes. A pick is mapped onto the list by `%`.
- AStar.AStarWithTraffic, Bidirectional.BidirectionalAStar, Bidirectional.BidirectionalAStarAsWritten: these run for at most `fuel` heap pops or passes and return None when it runs out. Their termination is not proved. Dijkstra's is proved.
- Dijkstra.DjikstraWithTraffic: requires every edge to carry a length, because the source reads it without a default and fails otherwise.
- Dijkstra.DjikstraWithTraffic: requires `Start` to be a node. When `Start` is missing and is not `End`, the source raises on the first neighbour lookup; when it is `End`, the source returns []. Neither case is modelled.
- AStar.AStarWithTraffic: requires `Start` to be a node, for the same reason as Dijkstra's.
- AStar.AStarWithTraffic: requires `End` to be a node. The source reads `End`'s coordinates (line 102) at the first improvement and raises when `End` is missing. The run that never improves a label and returns [] is not modelled.
- AStar.AStarWithTraffic: does not promise a fastest route. The estimate is a given function, and nothing is assumed about it (such as never overestimating the remaining time), so a popped `End` need not carry its least cost.
- Bidirectional.BidirectionalAStar: does not promise a fastest route. The search stops at the first node popped by both sides, which need not lie on a fastest route.
- Bidirectional.BidirectionalAStar, Bidirectional.BidirectionalAStarAsWritten: require `start` and `end` to be nodes. The source raises when asked for the neighbours of a missing node.
- Learner.ReinforcementLearningTopK: requires `Start` to be a node. The source raises on a missing `Start` unless it equals `End`.
- The heap's tree layout: a pop takes a least entry, as the heap does. The order of the remaining entries is not tracked.
- `main.py`, `Obtain_Coordinates`, `Graphing`, `Mapping`, console prompts, timing and plotting: user interface and I/O with no behaviour to state.
- The second copy of the planners in `sample.py` sits inside a string literal and never runs.

## Findings

| source | as written | input that shows it | evidently intended | confidence | as-written member | corrected member |
|---|---|---|---|---|---|---|
| sample.py:88-95 | The backward reconstruction starts at `end`, whose backward predecessor stays None, so it collects `[end]`; the `[1:]` slice empties it and the route stops at the meeting node | the road 0 -> 1 -> 2 with 1 m edges and equal coordinates, start 0, end 2: the searches meet at 1 and the result is [0, 1] | walk the backward predecessors from the meeting node to `end`, giving [0, 1, 2] | not executed | Bidirectional.BidirectionalAStarAsWritten, Bidirectional.AsWrittenStopsShort | Bidirectional.BidirectionalAStar |
