/** The invariants of a search in progress, stated over plain sequences indexed
    by node, and the two steps that change them: reaching a node from an
    expanded one, and popping a node off the open list. */
module SearchState {
  import opened PathSpec
  import opened OpenList

  /** The parent links form a tree rooted at `start` over the visited nodes:
      the start is the only visited node without a parent, every parent is
      visited, and each node with a parent was reached over an edge from it,
      with g its parent's g plus that edge and h its distance to `goal`. */
  ghost predicate SearchTree(parent: seq<int>, visited: seq<bool>, g: seq<real>, h: seq<real>,
                             depth: seq<nat>, adj: seq<seq<nat>>, dist: (nat, nat) -> real,
                             start: nat, goal: nat)
  {
    |visited| == |parent| && |g| == |parent| && |h| == |parent| && |adj| == |parent| &&
    Ranked(parent, depth) && start < |parent| &&
    visited[start] && parent[start] == -1 && g[start] == 0.0 &&
    (forall i {:trigger parent[i]} :: 0 <= i < |parent| && visited[i] && i != start ==> parent[i] != -1) &&
    (forall i :: 0 <= i < |parent| && parent[i] != -1 ==>
       visited[i] && visited[parent[i]] && i in adj[parent[i]] &&
       g[i] == g[parent[i]] + dist(parent[i], i) && h[i] == dist(goal, i))
  }

  /** `pushed` holds every node ever pushed, once each, and those are exactly the
      visited nodes; the open list holds visited nodes, once each. */
  ghost predicate PushHistory(pushed: seq<nat>, open: seq<nat>, visited: seq<bool>)
  {
    NoDups(pushed) && NoDups(open) &&
    (forall x :: x in pushed ==> x < |visited|) &&
    (forall i :: 0 <= i < |visited| ==> (visited[i] <==> i in pushed)) &&
    (forall k :: 0 <= k < |open| ==> open[k] < |visited| && visited[open[k]])
  }

  /** Every visited node that is no longer open has been expanded: all its neighbours
      are visited. A visited goal is still open (it is only ever popped to end the search). */
  ghost predicate Explored(visited: seq<bool>, open: seq<nat>, adj: seq<seq<nat>>, goal: nat)
  {
    |adj| == |visited| && goal < |visited| && (visited[goal] ==> goal in open) &&
    forall i, k :: 0 <= i < |visited| && visited[i] && i !in open && 0 <= k < |adj[i]| ==>
      adj[i][k] < |visited| && visited[adj[i][k]]
  }

  /** Popping `cur` (not the goal) from `open`, leaving `mid`, and then expanding it, which
      visits its neighbours and appends the newly discovered ones to `mid`, keeps `Explored`. */
  lemma ExpandKeepsExplored(visited: seq<bool>, open: seq<nat>, mid: seq<nat>,
                            visited': seq<bool>, open': seq<nat>,
                            adj: seq<seq<nat>>, goal: nat, cur: nat)
    requires Explored(visited, open, adj, goal) && NoDups(open)
    requires forall i, k :: 0 <= i < |adj| && 0 <= k < |adj[i]| ==> adj[i][k] < |adj|
    requires cur < |visited| && visited[cur] && cur != goal && cur in open
    requires multiset(mid) == multiset(open) - multiset{cur}
    requires open' == mid + Discovered(adj[cur], visited)
    requires |visited'| == |visited|
    requires forall m :: 0 <= m < |visited| ==> visited'[m] == (visited[m] || m in adj[cur])
    ensures Explored(visited', open', adj, goal)
  {
    assert forall x :: x in mid <==> x in open && x != cur by {
      forall x ensures x in mid <==> x in open && x != cur {
        assert x in mid <==> multiset(mid)[x] > 0;
        assert x in open <==> multiset(open)[x] > 0;
      }
    }
    forall i, k | 0 <= i < |visited'| && visited'[i] && i !in open' && 0 <= k < |adj[i]|
      ensures adj[i][k] < |visited'| && visited'[adj[i][k]]
    {
      if i != cur {
        assert visited[i] && i !in open;
      }
    }
  }

  /** While the push history only grows, no node is ever unmarked. */
  lemma HistoryKeepsVisited(pushed0: seq<nat>, open0: seq<nat>, visited0: seq<bool>,
                            pushed: seq<nat>, open: seq<nat>, visited: seq<bool>)
    requires PushHistory(pushed0, open0, visited0) && PushHistory(pushed, open, visited)
    requires |visited0| == |visited| && pushed0 <= pushed
    ensures forall i :: 0 <= i < |visited0| && visited0[i] ==> visited[i]
  {
    forall i | 0 <= i < |visited0| && visited0[i] ensures visited[i] {
      var j :| 0 <= j < |pushed0| && pushed0[j] == i;
      assert pushed[j] == i;
    }
  }

  /** Every neighbour of a visited node is visited. */
  ghost predicate Closed(visited: seq<bool>, adj: seq<seq<nat>>)
  {
    |adj| == |visited| &&
    forall i, k :: 0 <= i < |visited| && visited[i] && 0 <= k < |adj[i]| ==>
      adj[i][k] < |visited| && visited[adj[i][k]]
  }

  /** `p` steps along edges: each element is a neighbour of the one before it. */
  ghost predicate Walk(p: seq<nat>, adj: seq<seq<nat>>)
  {
    forall j :: 0 <= j < |p| - 1 ==> p[j] < |adj| && p[j + 1] in adj[p[j]]
  }

  /** A walk that starts in a set of visited nodes closed under edges never leaves it. */
  lemma {:induction false} WalkStaysVisited(visited: seq<bool>, adj: seq<seq<nat>>, p: seq<nat>)
    requires Closed(visited, adj) && Walk(p, adj)
    requires |p| >= 1 && p[0] < |visited| && visited[p[0]]
    ensures forall j :: 0 <= j < |p| ==> p[j] < |visited| && visited[p[j]]
    decreases |p|
  {
    if |p| > 1 {
      var q := p[..|p| - 1];
      assert Walk(q, adj) by {
        forall j | 0 <= j < |q| - 1 ensures q[j] < |adj| && q[j + 1] in adj[q[j]] {
          assert q[j] == p[j] && q[j + 1] == p[j + 1];
        }
      }
      WalkStaysVisited(visited, adj, q);
      var x, y := p[|p| - 2], p[|p| - 1];
      assert x == q[|q| - 1] && y in adj[x];
      var k :| 0 <= k < |adj[x]| && adj[x][k] == y;
      forall j | 0 <= j < |p| ensures p[j] < |visited| && visited[p[j]] {
        if j < |q| {
          assert p[j] == q[j];
        }
      }
    }
  }

  /** When the visited nodes are closed under edges, contain `start` and not `goal`,
      no walk from `start` reaches `goal`: there is no route. */
  lemma NoRoute(visited: seq<bool>, adj: seq<seq<nat>>, start: nat, goal: nat, p: seq<nat>)
    requires Closed(visited, adj) && start < |visited| && visited[start]
    requires goal < |visited| && !visited[goal]
    requires Walk(p, adj) && |p| >= 1 && p[0] == start
    ensures p[|p| - 1] != goal
  {
    WalkStaysVisited(visited, adj, p);
  }

  /** The node fields after expanding `cur` has reached the nodes `added`, compared with
      the fields before (`parent0`, `g0`, `h0`): each reached node has `cur` as parent,
      its distance to `goal` as h and the g of `cur` plus the edge as g; every other
      node keeps all three fields. */
  ghost predicate ExpandedFrom(parent: seq<int>, g: seq<real>, h: seq<real>,
                               parent0: seq<int>, g0: seq<real>, h0: seq<real>,
                               added: seq<nat>, cur: nat, dist: (nat, nat) -> real, goal: nat)
  {
    |g| == |h| == |parent| == |parent0| == |g0| == |h0| && cur < |g0| &&
    forall m :: 0 <= m < |parent| ==>
      if m in added then
        parent[m] == cur && h[m] == dist(goal, m) && g[m] == g0[cur] + dist(cur, m)
      else
        parent[m] == parent0[m] && g[m] == g0[m] && h[m] == h0[m]
  }

  /** The search fields of all nodes, the open list and the push history at one moment. */
  datatype Snapshot = Snapshot(visited: seq<bool>, parent: seq<int>, g: seq<real>, h: seq<real>,
                               open: seq<nat>, pushed: seq<nat>)

  /** The state `s` of expanding `cur` after its first `i` neighbours `ns[..i]`, compared
      with the state `s0` before the expansion. */
  ghost predicate Expanding(s: Snapshot, s0: Snapshot, ns: seq<nat>, i: nat, cur: nat,
                            dist: (nat, nat) -> real, goal: nat)
  {
    i <= |ns| && (forall k :: 0 <= k < |ns| ==> ns[k] < |s0.visited|) &&
    |s.visited| == |s0.visited| == |s0.parent| && cur < |s0.visited| && s0.visited[cur] &&
    s.open == s0.open + Discovered(ns[..i], s0.visited) &&
    s.pushed == s0.pushed + Discovered(ns[..i], s0.visited) &&
    (forall m :: 0 <= m < |s0.visited| ==> s.visited[m] == (s0.visited[m] || m in ns[..i])) &&
    ExpandedFrom(s.parent, s.g, s.h, s0.parent, s0.g, s0.h, Discovered(ns[..i], s0.visited),
                 cur, dist, goal) &&
    |Unvisited(s.visited)| + |s.open| == |Unvisited(s0.visited)| + |s0.open|
  }

  /** A neighbour that is already visited is skipped: nothing changes. */
  lemma SkipVisited(s: Snapshot, s0: Snapshot, ns: seq<nat>, i: nat, cur: nat,
                    dist: (nat, nat) -> real, goal: nat)
    requires Expanding(s, s0, ns, i, cur, dist, goal)
    requires i < |ns| && s.visited[ns[i]]
    ensures Expanding(s, s0, ns, i + 1, cur, dist, goal)
  {
    DiscoveredStep(ns, s0.visited, i);
    assert ns[..i + 1] == ns[..i] + [ns[i]];
  }

  /** A neighbour `m` that is not visited is reached from `cur` and pushed: the state
      after, `s'`, differs from the state before, `s`, in `m` only, and `gm` is the
      g value `m` gets. */
  lemma ReachUnvisited(s: Snapshot, s': Snapshot, s0: Snapshot, ns: seq<nat>, i: nat, cur: nat,
                       dist: (nat, nat) -> real, goal: nat, gm: real)
    requires Expanding(s, s0, ns, i, cur, dist, goal)
    requires i < |ns| && !s.visited[ns[i]]
    requires s'.visited == s.visited[ns[i] := true] && s'.parent == s.parent[ns[i] := cur]
    requires gm == s.g[cur] + dist(cur, ns[i]) && s'.g == s.g[ns[i] := gm]
    requires s'.h == s.h[ns[i] := dist(goal, ns[i])]
    requires s'.open == s.open + [ns[i]] && s'.pushed == s.pushed + [ns[i]]
    ensures Expanding(s', s0, ns, i + 1, cur, dist, goal)
  {
    var m, added := ns[i], Discovered(ns[..i], s0.visited);
    DiscoveredStep(ns, s0.visited, i);
    assert ns[..i + 1] == ns[..i] + [m];
    assert Discovered(ns[..i + 1], s0.visited) == added + [m];
    ReachExpands(s.parent, s.g, s.h, s0.parent, s0.g, s0.h, added, cur, m, gm, dist, goal);
    MarkShrinks(s.visited, m);
  }

  /** Reaching `m` from `cur` adds `m` to the nodes the expansion has reached. */
  lemma ReachExpands(parent: seq<int>, g: seq<real>, h: seq<real>,
                     parent0: seq<int>, g0: seq<real>, h0: seq<real>,
                     added: seq<nat>, cur: nat, m: nat, gm: real, dist: (nat, nat) -> real, goal: nat)
    requires ExpandedFrom(parent, g, h, parent0, g0, h0, added, cur, dist, goal)
    requires m < |parent| && m !in added && cur !in added && gm == g[cur] + dist(cur, m)
    ensures ExpandedFrom(parent[m := cur], g[m := gm], h[m := dist(goal, m)],
                         parent0, g0, h0, added + [m], cur, dist, goal)
  {
  }

  /** Facts about the path up the tree to any reached node `n`: it starts at `start`,
      ends at `n`, steps along edges, has no repeated node, and its native length is
      both the summed chain of links and the g value of `n`. */
  lemma TreePath(parent: seq<int>, visited: seq<bool>, g: seq<real>, h: seq<real>,
                 depth: seq<nat>, adj: seq<seq<nat>>, dist: (nat, nat) -> real,
                 start: nat, goal: nat, n: nat)
    requires SearchTree(parent, visited, g, h, depth, adj, dist, start, goal)
    requires forall i, j :: 0 <= i < |parent| && 0 <= j < |parent| ==> dist(i, j) == dist(j, i)
    requires n < |parent| && visited[n]
    ensures var p := PathTo(parent, depth, n);
      p[0] == start && p[|p| - 1] == n && Walk(p, adj) && Deepening(p, depth) &&
      ChainCost(parent, depth, dist, n) == PathSum(p, dist) &&
      ChainCost(parent, depth, dist, n) == g[n]
  {
    var p := PathTo(parent, depth, n);
    PathStartsAt(parent, depth, visited, start, n);
    PathIsSimple(parent, depth, n);
    ChainCostIsPathSum(parent, depth, dist, n);
    GIsChainCost(parent, depth, dist, g, n);
    forall j | 0 <= j < |p| - 1 ensures p[j] < |adj| && p[j + 1] in adj[p[j]] {
      assert parent[p[j + 1]] == p[j];
    }
  }

  /** Reaching the unvisited neighbour `m` of the visited node `cur` keeps the tree. */
  lemma ReachKeepsTree(parent: seq<int>, visited: seq<bool>, g: seq<real>, h: seq<real>,
                       depth: seq<nat>, adj: seq<seq<nat>>, dist: (nat, nat) -> real,
                       start: nat, goal: nat, cur: nat, m: nat)
    requires SearchTree(parent, visited, g, h, depth, adj, dist, start, goal)
    requires cur < |parent| && visited[cur] && m < |parent| && !visited[m] && m in adj[cur]
    ensures SearchTree(parent[m := cur], visited[m := true], g[m := g[cur] + dist(cur, m)],
                       h[m := dist(goal, m)], depth[m := depth[cur] + 1], adj, dist, start, goal)
  {
    var parent', visited' := parent[m := cur], visited[m := true];
    var g', depth' := g[m := g[cur] + dist(cur, m)], depth[m := depth[cur] + 1];
    forall i | 0 <= i < |parent'| && parent'[i] != -1
      ensures 0 <= parent'[i] < |parent'| && depth'[parent'[i]] < depth'[i]
      ensures g'[i] == g'[parent'[i]] + dist(parent'[i], i)
    {
      if i != m {
        // no node hangs below the unvisited `m`
        assert parent'[i] == parent[i] && parent[i] != m;
      }
    }
  }

  /** Pushing the unvisited node `m` keeps the push history. */
  lemma PushKeepsHistory(pushed: seq<nat>, open: seq<nat>, visited: seq<bool>, m: nat)
    requires PushHistory(pushed, open, visited) && m < |visited| && !visited[m]
    ensures PushHistory(pushed + [m], open + [m], visited[m := true])
  {
    assert m !in pushed;
    assert forall k :: 0 <= k < |open| ==> open[k] != m;
  }

  /** Popping any entry of the open list keeps the push history. */
  lemma PopKeepsHistory(pushed: seq<nat>, open: seq<nat>, visited: seq<bool>, k: nat)
    requires PushHistory(pushed, open, visited) && k < |open|
    ensures PushHistory(pushed, RemoveAt(open, k), visited)
  {
    var rest := RemoveAt(open, k);
    forall j | 0 <= j < |rest| ensures rest[j] < |visited| && visited[rest[j]] {
      assert rest[j] == if j < k then open[j] else open[j + 1];
    }
  }
}
