/** What happens to the open list, stated over plain sequences. */
module OpenList {

  /** No node occurs twice in `s`. */
  ghost predicate NoDups(s: seq<nat>)
  {
    forall x :: multiset(s)[x] <= 1
  }

  /** The nodes expanding a node with neighbour list `ns` pushes, in order, when
      `v` tells which nodes were visited before: each neighbour that was not
      visited then and has not been met earlier in `ns`. */
  function Discovered(ns: seq<nat>, v: seq<bool>): (r: seq<nat>)
    requires forall k :: 0 <= k < |ns| ==> ns[k] < |v|
    ensures forall x :: x in r <==> x in ns && !v[x]
    ensures NoDups(r)
    decreases |ns|
  {
    if ns == [] then []
    else
      var before := ns[..|ns| - 1];
      var x := ns[|ns| - 1];
      var r0 := Discovered(before, v);
      if v[x] || x in before then r0 else r0 + [x]
  }

  /** Discovered over one more neighbour: that neighbour is added exactly when it was
      neither visited before nor met earlier. */
  lemma DiscoveredStep(ns: seq<nat>, v: seq<bool>, i: nat)
    requires i < |ns| && forall k :: 0 <= k < |ns| ==> ns[k] < |v|
    ensures Discovered(ns[..i + 1], v) ==
            Discovered(ns[..i], v) + (if v[ns[i]] || ns[i] in ns[..i] then [] else [ns[i]])
  {
    assert ns[..i + 1][..i] == ns[..i];
  }

  /** `s` without its element at `k`. */
  function RemoveAt(s: seq<nat>, k: nat): (r: seq<nat>)
    requires k < |s|
    ensures |r| == |s| - 1
    ensures multiset(r) == multiset(s) - multiset{s[k]}
  {
    assert s == s[..k] + [s[k]] + s[k + 1..];
    s[..k] + s[k + 1..]
  }

  /** The nodes not yet visited. */
  ghost function Unvisited(v: seq<bool>): set<nat>
  {
    set i: nat | i < |v| && !v[i]
  }

  /** Marking an unvisited node visited removes exactly that node from the unvisited ones. */
  lemma MarkShrinks(v: seq<bool>, m: nat)
    requires m < |v| && !v[m]
    ensures Unvisited(v[m := true]) == Unvisited(v) - {m}
    ensures |Unvisited(v[m := true])| == |Unvisited(v)| - 1
  {
    assert m in Unvisited(v);
  }
}
