/**
 * Parent maps of the solvers and `reconstructPath`, which follows parent
 * links back from the exit and reverses what it collected.
 */
module ParentChains {
  import opened Options
  import opened Grids
  import opened Paths

  /**
   * Every parent link leads to a cell of strictly smaller rank, compared
   * first by `major` and then by `minor`; so following links stops.
   */
  ghost predicate Ranked(parent: map<nat, nat>, major: seq<nat>, minor: seq<nat>)
  {
    && |minor| == |major|
    && forall v :: v in parent ==>
         v < |major| && parent[v] < |major| &&
         (major[parent[v]] < major[v] || (major[parent[v]] == major[v] && minor[parent[v]] < minor[v]))
  }

  /** A rank of 0 for every cell, for parent maps ranked by one measure alone. */
  function Zeros(n: nat): (r: seq<nat>)
    ensures |r| == n && forall i :: 0 <= i < n ==> r[i] == 0
  {
    seq(n, i => 0)
  }

  /** The cells the loop of `reconstructPath` collects: v, its parent, its parent's parent, ... */
  function Chain(parent: map<nat, nat>, ghost major: seq<nat>, ghost minor: seq<nat>, v: nat): (c: seq<nat>)
    requires Ranked(parent, major, minor) && v < |major|
    ensures |c| > 0 && c[0] == v && c[|c| - 1] !in parent
    ensures forall k :: 0 <= k < |c| - 1 ==> c[k] in parent && parent[c[k]] == c[k + 1]
    decreases major[v], minor[v]
  {
    if v in parent then [v] + Chain(parent, major, minor, parent[v]) else [v]
  }

  /**
   * `reconstructPath`: the chain from v reversed, so it starts at a cell
   * without a parent, ends at v, and each cell is the parent of the next.
   */
  function ReconstructPath(parent: map<nat, nat>, ghost major: seq<nat>, ghost minor: seq<nat>, v: nat): (p: seq<nat>)
    requires Ranked(parent, major, minor) && v < |major|
    ensures |p| > 0 && p[|p| - 1] == v && p[0] !in parent
    ensures forall k :: 0 < k < |p| ==> p[k] in parent && parent[p[k]] == p[k - 1]
  {
    var c := Chain(parent, major, minor, v);
    var p := Reverse(c);
    forall k | 0 < k < |p| ensures p[k] in parent && parent[p[k]] == p[k - 1] {
      assert p[k] == c[|c| - 1 - k] && p[k - 1] == c[|c| - 1 - k + 1];
    }
    p
  }

  /** Following a link first and then reconstructing gives the parent's path plus v. */
  lemma ReconstructLink(parent: map<nat, nat>, major: seq<nat>, minor: seq<nat>, v: nat)
    requires Ranked(parent, major, minor) && v < |major| && v in parent
    ensures ReconstructPath(parent, major, minor, v) == ReconstructPath(parent, major, minor, parent[v]) + [v]
  {
    var c := Chain(parent, major, minor, v);
    assert c == [v] + Chain(parent, major, minor, parent[v]);
    assert c[1..] == Chain(parent, major, minor, parent[v]);
  }

  /**
   * A set closed under parent links whose only parentless member is root,
   * where each member is accessible from its parent: the reconstructed path
   * to any member is an open path from root.
   */
  lemma {:induction false} PathFromParents(g: Grid, parent: map<nat, nat>, major: seq<nat>, minor: seq<nat>, s: set<nat>, root: nat, v: nat)
    requires WellFormed(g) && Ranked(parent, major, minor) && |major| == |g.cells|
    requires v in s && v < |major|
    requires forall u :: u in s && u in parent ==> parent[u] in s && Accessible(g, parent[u], u)
    requires forall u :: u in s && u !in parent ==> u == root
    ensures PathFromTo(g, ReconstructPath(parent, major, minor, v), root, v)
    decreases major[v], minor[v]
  {
    if v in parent {
      var u := parent[v];
      PathFromParents(g, parent, major, minor, s, root, u);
      ReconstructLink(parent, major, minor, v);
      Extend(g, ReconstructPath(parent, major, minor, u), root, u, v);
    } else {
      assert ReconstructPath(parent, major, minor, v) == [v];
    }
  }

  lemma {:induction false} ChainInside(parent: map<nat, nat>, major: seq<nat>, minor: seq<nat>, s: set<nat>, v: nat)
    requires Ranked(parent, major, minor) && v in s && v < |major|
    requires forall u :: u in s && u in parent ==> parent[u] in s
    ensures forall k :: 0 <= k < |Chain(parent, major, minor, v)| ==> Chain(parent, major, minor, v)[k] in s
    decreases major[v], minor[v]
  {
    if v in parent {
      ChainInside(parent, major, minor, s, parent[v]);
      var c := Chain(parent, major, minor, v);
      assert c == [v] + Chain(parent, major, minor, parent[v]);
    }
  }

  /** When each link lowers the major rank by exactly one and the chain ends at rank 0, it has major[v] + 1 cells. */
  lemma {:induction false} ChainLength(parent: map<nat, nat>, major: seq<nat>, minor: seq<nat>, s: set<nat>, v: nat)
    requires Ranked(parent, major, minor) && v in s && v < |major|
    requires forall u :: u in s && u in parent ==> parent[u] in s && major[u] == major[parent[u]] + 1
    requires forall u :: u in s && u !in parent ==> u < |major| && major[u] == 0
    ensures |Chain(parent, major, minor, v)| == major[v] + 1
    decreases major[v], minor[v]
  {
    if v in parent {
      ChainLength(parent, major, minor, s, parent[v]);
    }
  }
}
