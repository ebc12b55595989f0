/** What reconstructing a path from parent links means, stated over plain
    sequences: `parent[i]` is the node `i` was reached from (-1 for none) and
    `depth` is a ranking that strictly grows from a parent to its child, which
    is what makes every walk up the parent links finite. */
module PathSpec {

  /** Every parent link points at an existing node of strictly smaller depth. */
  ghost predicate Ranked(parent: seq<int>, depth: seq<nat>)
  {
    |parent| == |depth| &&
    forall i :: 0 <= i < |parent| && parent[i] != -1 ==>
      0 <= parent[i] < |parent| && depth[parent[i]] < depth[i]
  }

  /** The chain of parent links ending in `n`, in root-to-`n` order. */
  ghost function PathTo(parent: seq<int>, depth: seq<nat>, n: nat): (p: seq<nat>)
    requires Ranked(parent, depth) && n < |parent|
    ensures |p| >= 1 && p[|p| - 1] == n
    ensures forall k :: 0 <= k < |p| ==> p[k] < |parent|
    ensures parent[p[0]] == -1
    ensures forall j, k :: 0 <= j < |p| && 0 <= k < |p| && k == j + 1 ==> parent[p[k]] == p[j]
    decreases depth[n]
  {
    if parent[n] == -1 then [n] else PathTo(parent, depth, parent[n]) + [n]
  }

  /** The native length of the chain from `n` up to its root, summed child to parent. */
  ghost function ChainCost(parent: seq<int>, depth: seq<nat>, dist: (nat, nat) -> real, n: nat): real
    requires Ranked(parent, depth) && n < |parent|
    decreases depth[n]
  {
    if parent[n] == -1 then 0.0 else dist(n, parent[n]) + ChainCost(parent, depth, dist, parent[n])
  }

  /** The native length of a path: the distance from each element to the one before it. */
  ghost function PathSum(p: seq<nat>, dist: (nat, nat) -> real): real
    decreases |p|
  {
    if |p| <= 1 then 0.0 else PathSum(p[..|p| - 1], dist) + dist(p[|p| - 1], p[|p| - 2])
  }

  /** `s` read back to front. */
  function Reverse(s: seq<nat>): (r: seq<nat>)
    ensures |r| == |s|
    ensures forall k :: 0 <= k < |s| ==> r[k] == s[|s| - 1 - k]
  {
    if s == [] then [] else [s[|s| - 1]] + Reverse(s[..|s| - 1])
  }

  lemma ReverseSnoc(s: seq<nat>, x: nat)
    ensures Reverse(s + [x]) == [x] + Reverse(s)
  {
    assert (s + [x])[..|s|] == s;
  }

  /** One step of walking up from `node` while collecting the walked nodes, in walk
      order, in `walked`: the path to `target` is the path to `node` followed by
      the walked nodes reversed, before and after the step. */
  lemma WalkStep(parent: seq<int>, depth: seq<nat>, target: nat, node: nat, walked: seq<nat>)
    requires Ranked(parent, depth) && target < |parent| && node < |parent| && parent[node] != -1
    requires PathTo(parent, depth, node) + Reverse(walked) == PathTo(parent, depth, target)
    ensures PathTo(parent, depth, parent[node]) + Reverse(walked + [node]) ==
            PathTo(parent, depth, target)
  {
    var up := PathTo(parent, depth, parent[node]);
    ReverseSnoc(walked, node);
    assert PathTo(parent, depth, node) == up + [node];
    assert up + ([node] + Reverse(walked)) == (up + [node]) + Reverse(walked);
  }

  /** The last step of the walk: `node` is the root, so the walked nodes and `node`,
      reversed, are the path to `target`. */
  lemma WalkEnd(parent: seq<int>, depth: seq<nat>, target: nat, node: nat, walked: seq<nat>)
    requires Ranked(parent, depth) && target < |parent| && node < |parent| && parent[node] == -1
    requires PathTo(parent, depth, node) + Reverse(walked) == PathTo(parent, depth, target)
    ensures Reverse(walked + [node]) == PathTo(parent, depth, target)
  {
    ReverseSnoc(walked, node);
  }

  /** The cost accumulated by walking up the parent links is the length of the path. */
  lemma {:induction false} ChainCostIsPathSum(parent: seq<int>, depth: seq<nat>,
                                              dist: (nat, nat) -> real, n: nat)
    requires Ranked(parent, depth) && n < |parent|
    ensures ChainCost(parent, depth, dist, n) == PathSum(PathTo(parent, depth, n), dist)
    decreases depth[n]
  {
    if parent[n] != -1 {
      var q := PathTo(parent, depth, parent[n]);
      ChainCostIsPathSum(parent, depth, dist, parent[n]);
      assert (q + [n])[..|q + [n]| - 1] == q;
    }
  }

  /** Depths strictly grow along `p`, so no node occurs on it twice. */
  ghost predicate Deepening(p: seq<nat>, depth: seq<nat>)
  {
    forall k, l :: 0 <= k < l < |p| ==> p[k] < |depth| && p[l] < |depth| && depth[p[k]] < depth[p[l]]
  }

  /** The path up the parent links to any node has no repeated node. */
  lemma {:induction false} PathIsSimple(parent: seq<int>, depth: seq<nat>, n: nat)
    requires Ranked(parent, depth) && n < |parent|
    ensures Deepening(PathTo(parent, depth, n), depth)
    decreases depth[n]
  {
    if parent[n] != -1 {
      var q := PathTo(parent, depth, parent[n]);
      var p := q + [n];
      PathIsSimple(parent, depth, parent[n]);
      forall k, l | 0 <= k < l < |p| ensures depth[p[k]] < depth[p[l]] {
        assert p[k] == q[k];
        if l < |q| {
          assert p[l] == q[l];
        } else if k < |q| - 1 {
          assert depth[q[k]] < depth[q[|q| - 1]];
        }
      }
    }
  }

  /** When the only parentless reached node is `start` and parents are reached nodes,
      the path to any reached node begins at `start`. */
  lemma {:induction false} PathStartsAt(parent: seq<int>, depth: seq<nat>, visited: seq<bool>,
                                        start: nat, n: nat)
    requires Ranked(parent, depth) && |visited| == |parent| && n < |parent|
    requires forall i :: 0 <= i < |parent| && visited[i] && i != start ==> parent[i] != -1
    requires forall i :: 0 <= i < |parent| && parent[i] != -1 ==> visited[parent[i]]
    requires visited[n]
    ensures PathTo(parent, depth, n)[0] == start
    decreases depth[n]
  {
    if parent[n] != -1 {
      PathStartsAt(parent, depth, visited, start, parent[n]);
    }
  }

  /** When every g value is its parent's plus the edge to it, the g value of `n`
      is the g value of its root plus the length of the chain. */
  lemma {:induction false} GIsChainCost(parent: seq<int>, depth: seq<nat>,
                                        dist: (nat, nat) -> real, g: seq<real>, n: nat)
    requires Ranked(parent, depth) && |g| == |parent| && n < |parent|
    requires forall i :: 0 <= i < |parent| && parent[i] != -1 ==>
      g[i] == g[parent[i]] + dist(parent[i], i)
    requires forall i, j :: 0 <= i < |parent| && 0 <= j < |parent| ==> dist(i, j) == dist(j, i)
    ensures g[n] == g[PathTo(parent, depth, n)[0]] + ChainCost(parent, depth, dist, n)
    decreases depth[n]
  {
    if parent[n] != -1 {
      GIsChainCost(parent, depth, dist, g, parent[n]);
    }
  }
}
