/**
 * Walks through the maze: sequences of cell indices in which each cell is
 * an accessible neighbour of the one before it.
 */
module Paths {
  import opened Options
  import opened Cells
  import opened Grids

  /** Every cell is in the grid and each step goes through an open side. */
  predicate OpenPath(g: Grid, p: seq<nat>)
  {
    && WellFormed(g) && |p| > 0
    && (forall k :: 0 <= k < |p| ==> p[k] < |g.cells|)
    && (forall k :: 0 <= k < |p| - 1 ==> Accessible(g, p[k], p[k + 1]))
  }

  /** An open path from a to b. */
  predicate PathFromTo(g: Grid, p: seq<nat>, a: nat, b: nat)
  {
    OpenPath(g, p) && p[0] == a && p[|p| - 1] == b
  }

  /** b can be reached from a through open sides. */
  ghost predicate Connected(g: Grid, a: nat, b: nat)
  {
    exists p :: PathFromTo(g, p, a, b)
  }

  /** `Collections.reverse`. */
  function Reverse<T>(s: seq<T>): (r: seq<T>)
    ensures |r| == |s|
    ensures forall k :: 0 <= k < |s| ==> r[k] == s[|s| - 1 - k]
  {
    if |s| == 0 then [] else Reverse(s[1..]) + [s[0]]
  }

  lemma ReverseTwice<T>(s: seq<T>)
    ensures Reverse(Reverse(s)) == s
  {
  }

  /** With symmetric walls a path can be walked backwards. */
  lemma ReversedPath(g: Grid, p: seq<nat>, a: nat, b: nat)
    requires Symmetric(g) && PathFromTo(g, p, a, b)
    ensures PathFromTo(g, Reverse(p), b, a)
  {
    var r := Reverse(p);
    forall k | 0 <= k < |r| - 1 ensures Accessible(g, r[k], r[k + 1]) {
      var j := |p| - 2 - k;
      assert r[k] == p[j + 1] && r[k + 1] == p[j];
      AccessibleBothWays(g, p[j], p[j + 1]);
    }
  }

  /** A path to a followed by a path from a, sharing the cell a once. */
  function Join(p: seq<nat>, q: seq<nat>): (r: seq<nat>)
    requires |p| > 0 && |q| > 0
  {
    p + q[1..]
  }

  lemma JoinedPath(g: Grid, p: seq<nat>, q: seq<nat>, a: nat, b: nat, c: nat)
    requires PathFromTo(g, p, a, b) && PathFromTo(g, q, b, c)
    ensures PathFromTo(g, Join(p, q), a, c)
    ensures |Join(p, q)| == |p| + |q| - 1
  {
    var r := Join(p, q);
    forall k | 0 <= k < |r| - 1 ensures Accessible(g, r[k], r[k + 1]) {
      if k < |p| - 1 {
        assert r[k] == p[k] && r[k + 1] == p[k + 1];
      } else {
        assert r[k] == q[k - |p| + 1] && r[k + 1] == q[k - |p| + 2];
      }
    }
  }

  /** One more step through an open side extends a path. */
  lemma Extend(g: Grid, p: seq<nat>, a: nat, b: nat, c: nat)
    requires PathFromTo(g, p, a, b) && Accessible(g, b, c)
    ensures PathFromTo(g, p + [c], a, c)
  {
    var r := p + [c];
    forall k | 0 <= k < |r| - 1 ensures Accessible(g, r[k], r[k + 1]) {
      if k < |p| - 1 {
        assert r[k] == p[k] && r[k + 1] == p[k + 1];
      }
    }
  }

  /** Opening more walls keeps every open path open. */
  lemma WiderPath(g: Grid, g': Grid, p: seq<nat>, a: nat, b: nat)
    requires WellFormed(g) && SameLayout(g, g') && PathFromTo(g, p, a, b)
    requires forall i, d :: 0 <= i < |g.cells| && !HasWallAt(g, i, d) ==> !HasWallAt(g', i, d)
    ensures PathFromTo(g', p, a, b)
  {
    SameLayoutSameNeighbors(g, g');
    forall k | 0 <= k < |p| - 1 ensures Accessible(g', p[k], p[k + 1]) {
      assert Accessible(g, p[k], p[k + 1]);
    }
  }

  /** A single cell, and a single step through an open side. */
  lemma Trivial(g: Grid, a: nat)
    requires WellFormed(g) && a < |g.cells|
    ensures PathFromTo(g, [a], a, a)
  {
  }

  /** An open side leading to a cell makes that cell accessible. */
  lemma OpenStep(g: Grid, i: nat, d: Direction, n: nat)
    requires WellFormed(g) && i < |g.cells| && Through(g, i, d, n)
    ensures Accessible(g, i, n)
  {
    match d
    case Top =>
    case Right =>
    case Bottom =>
    case Left =>
  }

  lemma Step(g: Grid, a: nat, b: nat)
    requires WellFormed(g) && a < |g.cells| && Accessible(g, a, b)
    ensures PathFromTo(g, [a, b], a, b)
  {
  }
}
