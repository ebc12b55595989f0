/** The A* search engine (RoutePlanner). One planner runs one search over the
    search fields of a map: it seeds the open list with the start node, then
    repeatedly pops the open node with the smallest g + h, stops when that is
    the goal, and otherwise pushes every neighbour not yet visited. A node is
    marked visited when it is first pushed and is never reopened or relaxed. */
module Planner {
  import opened Graph
  import opened PathSpec
  import opened OpenList
  import opened SearchState

  class RoutePlanner {
    const model: RouteModel
    const startNode: nat
    const endNode: nat
    /** Nodes pushed and not yet popped. */
    var openList: seq<nat>
    /** Length of the found path in meters; 0 until a path is reconstructed. */
    var distance: real

    /** Rank of each reached node in the tree of parent links. */
    ghost var depth: seq<nat>
    /** Every node ever pushed onto the open list, in push order. */
    ghost var pushed: seq<nat>

    ghost predicate Valid()
      reads this`openList, this`depth, this`pushed, model.visited, model.parent, model.g, model.h
    {
      model.Valid() && startNode < model.size && endNode < model.size &&
      SearchTree(model.parent[..], model.visited[..], model.g[..], model.h[..], depth,
                 model.adj, model.dist, startNode, endNode) &&
      PushHistory(pushed, openList, model.visited[..])
    }

    /** The search fields of the map, the open list and the push history. */
    ghost function State(): Snapshot
      reads this`openList, this`pushed, model.visited, model.parent, model.g, model.h
    {
      Snapshot(model.visited[..], model.parent[..], model.g[..], model.h[..], openList, pushed)
    }

    /** f = g + h of node `i`. */
    ghost function F(i: nat): real
      reads model.g, model.h
      requires model.Valid() && i < model.size
    {
      model.g[i] + model.h[i]
    }

    /** Resolves the two points (percentages of the map) to nodes, marks the start
        visited and makes it the only open node. The goal is neither marked nor pushed. */
    constructor (model: RouteModel, startX: real, startY: real, endX: real, endY: real)
      requires model.Valid() && model.Unsearched()
      requires 0.0 <= startX <= 100.0 && 0.0 <= startY <= 100.0
      requires 0.0 <= endX <= 100.0 && 0.0 <= endY <= 100.0
      modifies model.visited
      ensures Valid() && this.model == model
      ensures startNode == model.closest(startX * 0.01, startY * 0.01)
      ensures endNode == model.closest(endX * 0.01, endY * 0.01)
      ensures openList == [startNode] && distance == 0.0
      ensures forall i :: 0 <= i < model.size ==> (model.visited[i] <==> i == startNode)
      ensures Explored(model.visited[..], openList, model.adj, endNode)
    {
      this.model := model;
      startNode := model.closest(startX * 0.01, startY * 0.01);
      endNode := model.closest(endX * 0.01, endY * 0.01);
      openList := [startNode];
      distance := 0.0;
      depth := seq(model.size, _ => 0);
      pushed := [startNode];
      new;
      model.visited[startNode] := true;
    }

    /** The goal's straight-line distance to `node`, which changes nothing. */
    function CalculateHValue(node: nat): (r: real)
      requires model.Valid() && endNode < model.size && node < model.size
      ensures r >= 0.0
      ensures r == model.dist(endNode, node) && r == model.dist(node, endNode)
    {
      model.dist(endNode, node)
    }

    /** Pushes, in neighbour order, every neighbour of `current` not yet visited,
        after making `current` its parent, setting its h and g and marking it visited.
        Visited neighbours and nodes that are not neighbours keep all their fields. */
    method AddNeighbors(current: nat)
      requires Valid() && current < model.size && model.visited[current]
      modifies this, model.visited, model.parent, model.g, model.h
      ensures Valid()
      ensures distance == old(distance)
      ensures openList == old(openList) + Discovered(model.adj[current], old(model.visited[..]))
      ensures pushed == old(pushed) + Discovered(model.adj[current], old(model.visited[..]))
      ensures forall m :: 0 <= m < model.size ==>
        model.visited[m] == (old(model.visited[m]) || m in model.adj[current])
      ensures ExpandedFrom(model.parent[..], model.g[..], model.h[..],
                           old(model.parent[..]), old(model.g[..]), old(model.h[..]),
                           Discovered(model.adj[current], old(model.visited[..])),
                           current, model.dist, endNode)
      ensures |Unvisited(model.visited[..])| + |openList| ==
              old(|Unvisited(model.visited[..])| + |openList|)
    {
      var neighbors := model.adj[current];
      ghost var s0 := State();
      var i := 0;
      while i < |neighbors|
        invariant Valid() && distance == old(distance)
        invariant Expanding(State(), s0, neighbors, i, current, model.dist, endNode)
      {
        Consider(current, neighbors, i, s0);
        i := i + 1;
      }
      assert neighbors[..i] == neighbors;
    }

    /** One iteration of AddNeighbors: the neighbour `ns[i]` of `current` is pushed
        when it is not visited and skipped otherwise, which carries the expansion
        from the first `i` neighbours to the first `i + 1`. */
    method Consider(current: nat, ns: seq<nat>, i: nat, ghost s0: Snapshot)
      requires Valid() && current < model.size && ns == model.adj[current] && i < |ns|
      requires Expanding(State(), s0, ns, i, current, model.dist, endNode)
      modifies this, model.visited, model.parent, model.g, model.h
      ensures Valid() && distance == old(distance)
      ensures Expanding(State(), s0, ns, i + 1, current, model.dist, endNode)
    {
      var neighbor := ns[i];
      ghost var s := State();
      if !model.visited[neighbor] {
        Push(current, neighbor);
        ReachUnvisited(s, State(), s0, ns, i, current, model.dist, endNode, model.g[neighbor]);
      } else {
        SkipVisited(s, s0, ns, i, current, model.dist, endNode);
      }
    }

    /** One step of AddNeighbors: `neighbor` is reached from `current` and pushed. */
    method Push(current: nat, neighbor: nat)
      requires Valid() && current < model.size && model.visited[current]
      requires neighbor < model.size && !model.visited[neighbor] && neighbor in model.adj[current]
      modifies this, model.visited, model.parent, model.g, model.h
      ensures Valid()
      ensures distance == old(distance)
      ensures openList == old(openList) + [neighbor] && pushed == old(pushed) + [neighbor]
      ensures model.visited[..] == old(model.visited[..])[neighbor := true]
      ensures model.parent[..] == old(model.parent[..])[neighbor := current]
      ensures model.h[..] == old(model.h[..])[neighbor := model.dist(endNode, neighbor)]
      ensures model.g[..] == old(model.g[..])[neighbor := model.g[neighbor]]
      ensures model.g[neighbor] == old(model.g[current]) + model.dist(current, neighbor)
    {
      ghost var parent, visited, g, h := model.parent[..], model.visited[..], model.g[..], model.h[..];
      ReachKeepsTree(parent, visited, g, h, depth, model.adj, model.dist, startNode, endNode,
                     current, neighbor);
      PushKeepsHistory(pushed, openList, visited, neighbor);
      model.parent[neighbor] := current;
      model.h[neighbor] := CalculateHValue(neighbor);
      model.g[neighbor] := model.g[current] + model.dist(current, neighbor);
      model.visited[neighbor] := true;
      openList := openList + [neighbor];
      depth := depth[neighbor := depth[current] + 1];
      pushed := pushed + [neighbor];
      assert model.parent[..] == parent[neighbor := current];
      assert model.visited[..] == visited[neighbor := true];
      assert model.g[..] == g[neighbor := model.g[neighbor]];
      assert model.h[..] == h[neighbor := model.dist(endNode, neighbor)];
    }

    /** Position in the open list of a node whose g + h is smallest. */
    method LowestF() returns (k: nat)
      requires Valid() && openList != []
      ensures k < |openList|
      ensures forall j :: 0 <= j < |openList| ==> F(openList[k]) <= F(openList[j])
    {
      k := 0;
      var i := 1;
      while i < |openList|
        invariant 1 <= i <= |openList| && k < i
        invariant forall j :: 0 <= j < i ==> F(openList[k]) <= F(openList[j])
      {
        if model.g[openList[i]] + model.h[openList[i]] < model.g[openList[k]] + model.h[openList[k]] {
          k := i;
        }
        i := i + 1;
      }
    }

    /** Pops an open node whose g + h is smallest over the open list. */
    method NextNode() returns (current: nat)
      requires Valid() && openList != []
      modifies this`openList
      ensures Valid()
      ensures current in old(openList) && current < model.size
      ensures forall x :: x in old(openList) ==> F(current) <= F(x)
      ensures multiset(openList) == multiset(old(openList)) - multiset{current}
      ensures |openList| == |old(openList)| - 1
    {
      var k := LowestF();
      current := openList[k];
      PopKeepsHistory(pushed, openList, model.visited[..], k);
      openList := RemoveAt(openList, k);
    }

    /** Walks the parent links from `current` up to the root, adding up the native
        distance of each link, and returns the nodes in root-to-`current` order;
        the distance is then scaled to meters. A null node (-1) gives an empty
        path and distance 0. */
    method ConstructFinalPath(current: int) returns (path: seq<nat>)
      requires Valid() && -1 <= current < model.size
      modifies this`distance
      ensures current == -1 ==> path == [] && distance == 0.0
      ensures current != -1 ==>
        path == PathTo(model.parent[..], depth, current) &&
        distance == model.Meters(ChainCost(model.parent[..], depth, model.dist, current))
    {
      distance := 0.0;
      path := [];
      if current == -1 {
        return;
      }
      ghost var parent := model.parent[..];
      var node: nat := current;
      while model.parent[node] != -1
        invariant node < model.size && Ranked(parent, depth)
        invariant PathTo(parent, depth, node) + Reverse(path) == PathTo(parent, depth, current)
        invariant distance + ChainCost(parent, depth, model.dist, node) ==
                  ChainCost(parent, depth, model.dist, current)
        decreases depth[node]
      {
        distance := distance + model.dist(node, model.parent[node]);
        WalkStep(parent, depth, current, node, path);
        path := path + [node];
        node := model.parent[node];
      }
      WalkEnd(parent, depth, current, node, path);
      path := Reverse(path + [node]);
      assert parent == model.parent[..];
      distance := model.Meters(distance);
    }

    /** One round of the search: pops an open node with the smallest g + h; if it is the
        goal, stores its path in the map and reports `found`, otherwise expands it. */
    method SearchStep() returns (found: bool)
      requires Valid() && Explored(model.visited[..], openList, model.adj, endNode) && openList != []
      modifies this, model, model.visited, model.parent, model.g, model.h
      ensures Valid() && old(pushed) <= pushed
      ensures !found ==>
        Explored(model.visited[..], openList, model.adj, endNode) &&
        model.path == old(model.path) && distance == old(distance) &&
        |Unvisited(model.visited[..])| + |openList| < old(|Unvisited(model.visited[..])| + |openList|)
      ensures found ==>
        model.visited[endNode] &&
        model.path == PathTo(model.parent[..], depth, endNode) &&
        model.path[0] == startNode && model.path[|model.path| - 1] == endNode &&
        distance == model.Meters(ChainCost(model.parent[..], depth, model.dist, endNode)) &&
        distance == model.Meters(model.g[endNode])
    {
      ghost var visited, open := model.visited[..], openList;
      var current := NextNode();
      if current == endNode {
        var path := ConstructFinalPath(current);
        model.path := path;
        TreePath(model.parent[..], model.visited[..], model.g[..], model.h[..], depth,
                 model.adj, model.dist, startNode, endNode, current);
        return true;
      }
      ghost var mid := openList;
      AddNeighbors(current);
      ExpandKeepsExplored(visited, open, mid, model.visited[..], openList, model.adj, endNode, current);
      return false;
    }

    /** Runs the search. It ends either with the goal's path stored in the map and
        its length in `distance`, or with the open list exhausted, the map's path and
        `distance` untouched, the goal never reached and every neighbour of a reached
        node reached (so, by NoRoute, no route leads from the start to the goal). Over
        the whole search no node is unmarked and the push history only grows. */
    method AStarSearch()
      requires Valid() && Explored(model.visited[..], openList, model.adj, endNode)
      modifies this, model, model.visited, model.parent, model.g, model.h
      ensures Valid()
      ensures forall i :: 0 <= i < model.size && old(model.visited[i]) ==> model.visited[i]
      ensures old(pushed) <= pushed
      ensures
        (openList == [] && model.path == old(model.path) && distance == old(distance) &&
         !model.visited[endNode] && Closed(model.visited[..], model.adj)) ||
        (model.visited[endNode] &&
         model.path == PathTo(model.parent[..], depth, endNode) &&
         model.path[0] == startNode && model.path[|model.path| - 1] == endNode &&
         distance == model.Meters(ChainCost(model.parent[..], depth, model.dist, endNode)) &&
         distance == model.Meters(model.g[endNode]))
    {
      ghost var visited0, open0, pushed0 := model.visited[..], openList, pushed;
      while openList != []
        invariant Valid() && Explored(model.visited[..], openList, model.adj, endNode)
        invariant model.path == old(model.path) && distance == old(distance)
        invariant pushed0 <= pushed
        decreases |Unvisited(model.visited[..])| + |openList|
      {
        var found := SearchStep();
        if found {
          HistoryKeepsVisited(pushed0, open0, visited0, pushed, openList, model.visited[..]);
          return;
        }
      }
      HistoryKeepsVisited(pushed0, open0, visited0, pushed, openList, model.visited[..]);
    }

    /** The length of the found path in meters (0 before any path was found). */
    function GetDistance(): (d: real)
      reads this
      ensures d == distance
    {
      distance
    }
  }
}
