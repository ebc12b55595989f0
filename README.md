# A* route planner, modelled in Dafny

This project models the search engine of a small OpenStreetMap route planner
(`RoutePlanner`). The planner resolves two points, given as percentages of the
map, to their closest map nodes. It marks the start node visited and puts it on
the open list. It then pops the open node with the smallest `g + h` until that
node is the goal. Each popped node that is not the goal is expanded. Expanding
gives every unvisited neighbour the popped node as parent, sets its `h` to the
straight-line distance to the goal and its `g` to the parent's `g` plus the
edge, marks it visited and pushes it. When the goal is popped, the planner
walks the parent links back to the start. It stores that node sequence as the
map's path and the summed link lengths, scaled to meters, as `distance`.

The model has five modules:

- `Graph` (`route_model.dfy`): the map as the search sees it. The class
  `RouteModel` holds a fixed neighbour list per node, a symmetric non-negative
  distance, the metric scale and a closest-node lookup. It also holds the
  per-node search fields as arrays (`visited`, `parent` with -1 for a null
  parent, `g`, `h`) and the found `path`.
- `PathSpec` (`path_spec.dfy`): what walking the parent links means.
  - `PathTo` is the chain of links ending in a node, in root-first order.
  - `ChainCost` is the length summed while walking up; `PathSum` is the length
    of a node sequence.
  - A ghost rank `depth` grows strictly from parent to child; it is what makes
    the walk finite.
- `OpenList` (`open_list.dfy`): what one expansion pushes (`Discovered`),
  removal of one open-list entry (`RemoveAt`), and the set of unvisited nodes.
  That set bounds the number of search iterations.
- `SearchState` (`search_state.dfy`): the invariants of a search in progress,
  over plain sequences.
  - `SearchTree`: the parent links form a tree rooted at the start over the
    visited nodes, and g and h are consistent along every link.
  - `PushHistory`: each node is pushed at most once, the pushed nodes are
    exactly the visited ones, and the open list holds visited nodes, once each.
  - `Explored`: every visited node that is no longer open has had all its
    neighbours visited, and a visited goal is still open.
  - The lemmas for one expansion step, one pop and one round of the search.
    Also lemmas for the two ways a search ends: the tree path to a reached node,
    and no route when the visited nodes are closed under edges without the goal.
- `Planner` (`route_planner.dfy`): the class `RoutePlanner` with the
  constructor, `CalculateHValue`, `AddNeighbors`, `NextNode`,
  `ConstructFinalPath`, `AStarSearch` (one round of it is `SearchStep`) and
  `GetDistance`. Every method keeps
  `Valid()`, which is `SearchTree` plus `PushHistory` over the map's arrays.

## Model

| member | source | states |
|---|---|---|
| Planner.RoutePlanner.constructor | src/route_planner.cpp:4-16 | start and goal are the closest nodes to the coordinates times 0.01; the open list is exactly `[start]`; the start is the only visited node (so the goal is neither marked nor pushed unless it is the start); `distance` is 0; the search invariant and `Explored` hold |
| Planner.RoutePlanner.CalculateHValue | src/route_planner.cpp:25-28 | h of a node is the distance from the goal to it, which equals the distance from it to the goal and is non-negative; it reads no search state |
| Planner.RoutePlanner.AddNeighbors | src/route_planner.cpp:37-49 | the open list grows by exactly the neighbours that were unvisited, in neighbour order, each once. A node is visited afterwards iff it was before or is a neighbour. Pushed nodes get the current node as parent, their goal distance as h and the current g plus the edge as g. Every other node keeps parent, g and h. The unvisited count drops by as much as the open list grows. `distance` is untouched and the search invariant is kept |
| Planner.RoutePlanner.Consider | src/route_planner.cpp:40-48 | one loop iteration: a visited neighbour is skipped with nothing changed, an unvisited one is reached and pushed; the expansion state advances by one neighbour |
| Planner.RoutePlanner.Push | src/route_planner.cpp:43-47 | parent, h, g and visited of the neighbour are set as the source sets them and no other entry changes; the neighbour is appended to the open list; the search invariant is kept |
| OpenList.Discovered | src/route_planner.cpp:40-47 | the pushed nodes are exactly the neighbours that were not visited before the expansion, and none is pushed twice |
| OpenList.DiscoveredStep | src/route_planner.cpp:40-47 | looking at one more neighbour adds it to the pushed nodes iff it was unvisited and not met earlier in the list |
| SearchState.SkipVisited | src/route_planner.cpp:41-42 | a neighbour already visited changes nothing and keeps the expansion state valid for one more neighbour |
| SearchState.ReachUnvisited | src/route_planner.cpp:43-47 | reaching and pushing an unvisited neighbour keeps the expansion state valid for one more neighbour |
| SearchState.ReachExpands | src/route_planner.cpp:43-45 | reaching one more node from the expanded node gives it that node as parent, its goal distance as h and the parent's g plus the edge as g, and leaves the others as they were |
| SearchState.ReachKeepsTree | src/route_planner.cpp:43-46 | setting parent, g and h of an unvisited neighbour of a visited node and marking it visited keeps the parent links a ranked tree rooted at the start with consistent g and h |
| SearchState.PushKeepsHistory | src/route_planner.cpp:46-47 | marking an unvisited node visited and pushing it keeps every node pushed at most once and the open list made of visited nodes |
| OpenList.MarkShrinks | src/route_planner.cpp:46 | marking an unvisited node visited removes exactly that node from the unvisited set, so its size drops by one |
| Planner.RoutePlanner.LowestF | src/route_planner.cpp:58-61 | returns a position in the open list whose g + h is no larger than that of any entry |
| Planner.RoutePlanner.NextNode | src/route_planner.cpp:56-64 | on a non-empty open list, returns an entry with the smallest g + h over the list before the call and removes exactly one occurrence of it (the remaining multiset is the old one minus that node); the search invariant is kept |
| OpenList.RemoveAt | src/route_planner.cpp:61-62 | removing one entry shortens the list by one and leaves the multiset minus that entry |
| SearchState.PopKeepsHistory | src/route_planner.cpp:62 | removing any open-list entry keeps the open list free of repeats and made of visited nodes |
| Planner.RoutePlanner.ConstructFinalPath | src/route_planner.cpp:73-92 | for a null node, the path is empty and `distance` is 0. Otherwise the path is the chain of parent links from the root to the node, and `distance` is the link lengths summed child to parent, times the metric scale |
| PathSpec.PathTo | src/route_planner.cpp:80-87 | the chain of parent links to a node is non-empty, starts at a node with no parent, ends at the node, and each element is the parent of the next |
| PathSpec.Reverse | src/route_planner.cpp:87 | the reversed sequence has the same length and holds the elements back to front |
| PathSpec.ReverseSnoc | src/route_planner.cpp:86-87 | reversing a sequence with one more element at the back puts that element at the front |
| PathSpec.WalkStep | src/route_planner.cpp:80-84 | one step of the walk keeps "path to the current node + reversed walked nodes = path to the target" |
| PathSpec.WalkEnd | src/route_planner.cpp:86-87 | once the root is reached, the walked nodes plus the root, reversed, are the path to the target |
| PathSpec.ChainCostIsPathSum | src/route_planner.cpp:80-81 | the length summed while walking up equals the length of the path, link by link |
| PathSpec.PathIsSimple | src/route_planner.cpp:80-84 | ranks grow strictly along the path to any node, so the walk visits no node twice |
| PathSpec.PathStartsAt | src/route_planner.cpp:67-71 | when the start is the only parentless reached node and parents are reached, the path to any reached node starts at the start node |
| PathSpec.GIsChainCost | src/route_planner.cpp:45 | when each g is its parent's g plus the link, a node's g is its root's g plus the length of its chain |
| SearchState.TreePath | src/route_planner.cpp:104-105 | the path to any visited node starts at the start node and ends at the node. Each node on it is a neighbour of the one before, and no node repeats. Its length equals both the summed chain and the node's g |
| SearchState.ExpandKeepsExplored | src/route_planner.cpp:103-108 | popping a node other than the goal and expanding it keeps `Explored`: every visited node that is off the open list has all its neighbours visited, and a visited goal is on the open list |
| SearchState.HistoryKeepsVisited | src/route_planner.cpp:41-47 | while the push history only grows, no visited node is unmarked |
| SearchState.WalkStaysVisited | src/route_planner.cpp:102-109 | a walk along edges that starts at a visited node stays among visited nodes when the visited nodes are closed under edges |
| SearchState.NoRoute | src/route_planner.cpp:102-109 | when the visited nodes are closed under edges and hold the start but not the goal, no walk along edges leads from the start to the goal |
| Planner.RoutePlanner.SearchStep | src/route_planner.cpp:103-108 | one round: if the popped node is the goal, the map's path is the chain from the start to the goal and `distance` is its length in meters. Otherwise `Explored`, the map's path and `distance` are kept, and the unvisited count plus the open-list length strictly drops. The push history only grows and the search invariant is kept |
| Planner.RoutePlanner.AStarSearch | src/route_planner.cpp:101-110 | the search terminates (each node is pushed at most once and each iteration pops one entry). It ends in one of two ways. Either the open list is exhausted, the map's path and `distance` are unchanged, the goal was never reached, and every neighbour of a reached node is reached, so by `NoRoute` there is no route. Or the goal is visited, the map's path is the chain of links from the start to the goal, and `distance` is its length in meters, which is the goal's g times the scale. Over the whole search no visited node is unmarked, the push history only grows and the search invariant holds |
| Planner.RoutePlanner.GetDistance | src/route_planner.h:22 | returns `distance` and changes nothing |

## Left out

- Console input, program arguments, file reading and rendering (`src/main.cpp`) are not modelled. Only its check that all four coordinates lie in [0, 100] (`src/main.cpp:31-51`) is kept, as the constructor's precondition.
- Map loading and the map's own algorithms are not part of this model:
  - `FindClosestNode` is a given function `closest` that lands on a node for points of the unit square;
  - `Node::distance` is a given symmetric, non-negative `dist`;
  - `MetricScale` is a given `scale`;
  - `FindNeighbors` is a fixed neighbour list `adj[n]` per node. `AddNeighbors` calls it once per expansion (`src/route_planner.cpp:39`), and each node is popped and expanded at most once. So one run of the source is one run of the model, with `adj[n]` being the list discovered at the single expansion of `n`. "Neighbour" and "edge" in the contracts (`NoRoute`, `TreePath`) mean that list.
- Floating point: g, h, distances and the 0.01 coordinate scaling use exact `real` arithmetic, with no rounding and no single precision.
- Planner.RoutePlanner.NextNode: `std::sort` (`src/route_planner.cpp:58-60`) is called with the comparator `>=`, which is not a strict weak ordering. With it, the sort has undefined behaviour when two entries have equal g + h. The model assumes the last entry after the sort still has the smallest g + h. It does not model the order of the remaining entries: the contract states them as a multiset. Which of several minimal entries is taken is not fixed.
- Planner.RoutePlanner.AddNeighbors: requires the expanded node to be visited. The source does not check this; its only caller passes nodes popped from the open list, which are always visited.
- Planner.RoutePlanner.constructor: requires a map whose search fields are still in their loaded state: nothing visited, no parents, g 0. The source relies on this for the start node's g and null parent.
- The start node's h is never set by the source. The model leaves it at the map's value.
- Path optimality is not claimed. Marking nodes visited when they are pushed, with no re-opening or relaxation, does not guarantee a shortest path.
- `ConstructFinalPath` copies `Node` objects into the result. The model returns node indices, and the map's `path` holds indices.
- A null node pointer is the index -1. The only pointer comparison the search makes, `current_node == end_node`, is an index comparison.
- The ghost fields `depth` (rank in the parent tree) and `pushed` (push history) have no counterpart in the source. They exist only to state and prove termination and the at-most-once push.
