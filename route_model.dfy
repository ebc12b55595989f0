/** The map side of a route search (RouteModel and its Node objects).
    The map itself is loaded elsewhere; the search only relies on the narrow
    contract stated here: a fixed adjacency, a symmetric non-negative distance,
    a scale to meters and a closest-node lookup on the unit square. Nodes are
    indices 0 .. size-1; the per-node search fields (visited, parent, g, h)
    are arrays indexed by node, and -1 in `parent` stands for a null parent. */
module Graph {

  /** The static graph the search relies on. */
  ghost predicate WellFormedGraph(size: nat, adj: seq<seq<nat>>, dist: (nat, nat) -> real,
                                  closest: (real, real) -> nat)
  {
    |adj| == size &&
    (forall i, k :: 0 <= i < size && 0 <= k < |adj[i]| ==> adj[i][k] < size) &&
    (forall i, j :: 0 <= i < size && 0 <= j < size ==> dist(i, j) >= 0.0) &&
    (forall i, j :: 0 <= i < size && 0 <= j < size ==> dist(i, j) == dist(j, i)) &&
    (forall x: real, y: real :: 0.0 <= x <= 1.0 && 0.0 <= y <= 1.0 ==> closest(x, y) < size)
  }

  class RouteModel {
    const size: nat
    /** Node::FindNeighbors, as the list of nodes adjacent to each node. */
    const adj: seq<seq<nat>>
    /** Node::distance, in the map's native units. */
    const dist: (nat, nat) -> real
    /** MetricScale: native units to meters. */
    const scale: real
    /** FindClosestNode on coordinates already scaled to [0, 1]. */
    const closest: (real, real) -> nat

    /** Per-node search fields, written by the planner. */
    const visited: array<bool>
    const parent: array<int>
    const g: array<real>
    const h: array<real>

    /** The path found by the last search, as node indices. */
    var path: seq<nat>

    /** A native length in meters (the length times MetricScale). */
    function Meters(native: real): real
    {
      native * scale
    }

    ghost predicate Valid()
    {
      WellFormedGraph(size, adj, dist, closest) &&
      visited.Length == size && parent.Length == size &&
      g.Length == size && h.Length == size && g != h
    }

    /** No node has been reached by a search yet (the state a freshly loaded map is in). */
    ghost predicate Unsearched()
      reads visited, parent, g
      requires Valid()
    {
      forall i :: 0 <= i < size ==> !visited[i] && parent[i] == -1 && g[i] == 0.0
    }

    /** Stands in for loading a map: the graph is given, the search fields are reset. */
    constructor (adj: seq<seq<nat>>, dist: (nat, nat) -> real, scale: real,
                 closest: (real, real) -> nat)
      requires WellFormedGraph(|adj|, adj, dist, closest)
      ensures Valid() && Unsearched() && path == []
      ensures this.adj == adj && this.dist == dist && this.scale == scale && this.closest == closest
      ensures fresh(visited) && fresh(parent) && fresh(g) && fresh(h)
    {
      size := |adj|;
      this.adj := adj;
      this.dist := dist;
      this.scale := scale;
      this.closest := closest;
      visited := new bool[|adj|](_ => false);
      parent := new int[|adj|](_ => -1);
      g := new real[|adj|](_ => 0.0);
      h := new real[|adj|](_ => 0.0);
      path := [];
    }
  }
}
