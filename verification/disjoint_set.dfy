/**
 * The union-find structure Kruskal's generator keeps over cell indices:
 * a parent array, `find` with path compression and `union` that hangs the
 * first root under the second.
 *
 * The parent links carry no rank in the source. Termination of `find` is
 * witnessed here by a ghost `depth`: every non-root's parent has a
 * strictly smaller depth.
 */
module DisjointSets {
  import opened Indices

  datatype DisjointSet = DisjointSet(parent: seq<nat>)

  /** Parent links stay inside the array and strictly decrease `depth`. */
  ghost predicate Valid(p: seq<nat>, depth: seq<nat>)
  {
    && |depth| == |p|
    && (forall i :: 0 <= i < |p| ==> p[i] < |p|)
    && (forall i :: 0 <= i < |p| && p[i] != i ==> depth[p[i]] < depth[i])
  }

  /** The root reached by following parent links from i. */
  ghost function Root(p: seq<nat>, depth: seq<nat>, i: nat): (r: nat)
    requires Valid(p, depth) && i < |p|
    ensures r < |p| && p[r] == r
    ensures depth[r] <= depth[i]
    ensures p[i] != i ==> depth[r] < depth[i] && r == Root(p, depth, p[i])
    decreases depth[i]
  {
    if p[i] == i then i else Root(p, depth, p[i])
  }

  /** The elements that are their own parent: one per set of the partition. */
  ghost function Roots(p: seq<nat>): set<nat>
  {
    set i | 0 <= i < |p| && p[i] == i
  }

  /** The root does not depend on which depth witness is used. */
  lemma {:induction false} RootWitnessIrrelevant(p: seq<nat>, d1: seq<nat>, d2: seq<nat>, i: nat)
    requires Valid(p, d1) && Valid(p, d2) && i < |p|
    ensures Root(p, d1, i) == Root(p, d2, i)
    decreases d1[i]
  {
    if p[i] != i {
      RootWitnessIrrelevant(p, d1, d2, p[i]);
    }
  }

  /** Depth witness of a forest in which every element is a root. */
  ghost function Flat(n: nat): (d: seq<nat>)
    ensures |d| == n
  {
    seq(n, _ => 0)
  }

  /** The constructor: every element is its own parent. */
  function Init(n: nat): (ds: DisjointSet)
    ensures |ds.parent| == n
    ensures forall i :: 0 <= i < n ==> ds.parent[i] == i
    ensures Valid(ds.parent, Flat(n))
    ensures forall i :: 0 <= i < n ==> Root(ds.parent, Flat(n), i) == i
    ensures Roots(ds.parent) == AllIndices(n)
  {
    DisjointSet(seq(n, i => i))
  }

  /**
   * `find(i)`: the root of i's set, together with the array after path
   * compression has pointed every element on the way directly at that root.
   * Compression changes no element's root and makes no new roots.
   */
  function Find(ds: DisjointSet, ghost depth: seq<nat>, i: nat): (res: (nat, DisjointSet))
    requires Valid(ds.parent, depth) && i < |ds.parent|
    ensures Valid(res.1.parent, depth)
    ensures res.0 == Root(ds.parent, depth, i)
    ensures res.1.parent[res.0] == res.0
    ensures forall k :: 0 <= k < |ds.parent| ==> Root(res.1.parent, depth, k) == Root(ds.parent, depth, k)
    ensures forall k :: 0 <= k < |ds.parent| ==> (res.1.parent[k] == k <==> ds.parent[k] == k)
    decreases depth[i]
  {
    if ds.parent[i] == i then (i, ds)
    else
      var (r, ds1) := Find(ds, depth, ds.parent[i]);
      Compress(ds1.parent, depth, i, r);
      (r, DisjointSet(ds1.parent[i := r]))
  }

  /** Pointing a non-root directly at its own root keeps every root. */
  lemma Compress(p: seq<nat>, depth: seq<nat>, i: nat, r: nat)
    requires Valid(p, depth) && i < |p| && p[i] != i && r == Root(p, depth, i)
    ensures Valid(p[i := r], depth)
    ensures forall k :: 0 <= k < |p| ==> Root(p[i := r], depth, k) == Root(p, depth, k)
  {
    forall k | 0 <= k < |p| ensures Root(p[i := r], depth, k) == Root(p, depth, k) {
      CompressOne(p, depth, i, r, k);
    }
  }

  lemma {:induction false} CompressOne(p: seq<nat>, depth: seq<nat>, i: nat, r: nat, k: nat)
    requires Valid(p, depth) && i < |p| && p[i] != i && r == Root(p, depth, i)
    requires Valid(p[i := r], depth) && k < |p|
    ensures Root(p[i := r], depth, k) == Root(p, depth, k)
    decreases depth[k]
  {
    var q := p[i := r];
    if k == i {
      assert q[r] == r;
    } else if p[k] != k {
      CompressOne(p, depth, i, r, p[k]);
    }
  }

  /** Depth witness after hanging root ra under root rb: ra's whole set sinks. */
  ghost function Shifted(p: seq<nat>, depth: seq<nat>, ra: nat, rb: nat): (d: seq<nat>)
    requires Valid(p, depth) && rb < |p|
    ensures |d| == |p|
  {
    seq(|p|, k requires 0 <= k < |p| => if Root(p, depth, k) == ra then depth[k] + depth[rb] + 1 else depth[k])
  }

  /** Depth witness for the array `Union(ds, depth, i, j)` returns. */
  ghost function UnionDepth(p: seq<nat>, depth: seq<nat>, i: nat, j: nat): (d: seq<nat>)
    requires Valid(p, depth) && i < |p| && j < |p|
    ensures |d| == |p|
  {
    var ra := Root(p, depth, i);
    var rb := Root(p, depth, j);
    if ra == rb then depth else Shifted(p, depth, ra, rb)
  }

  /**
   * `union(i, j)`: find both roots (compressing both paths) and, when they
   * differ, make the root of j the parent of the root of i. Afterwards the
   * set of i and the set of j are one set whose root is j's old root; every
   * other element keeps its root, and exactly one root disappears.
   */
  function Union(ds: DisjointSet, ghost depth: seq<nat>, i: nat, j: nat): (r: DisjointSet)
    requires Valid(ds.parent, depth) && i < |ds.parent| && j < |ds.parent|
    ensures Valid(r.parent, UnionDepth(ds.parent, depth, i, j))
    ensures forall k :: 0 <= k < |ds.parent| ==>
      Root(r.parent, UnionDepth(ds.parent, depth, i, j), k) ==
        (if Root(ds.parent, depth, k) == Root(ds.parent, depth, i) then Root(ds.parent, depth, j) else Root(ds.parent, depth, k))
    ensures Root(ds.parent, depth, i) != Root(ds.parent, depth, j) ==>
      Roots(r.parent) == Roots(ds.parent) - {Root(ds.parent, depth, i)}
    ensures Root(ds.parent, depth, i) == Root(ds.parent, depth, j) ==> Roots(r.parent) == Roots(ds.parent)
  {
    var (rootA, ds1) := Find(ds, depth, i);
    var (rootB, ds2) := Find(ds1, depth, j);
    var q := ds2.parent;
    var r := if rootA != rootB then q[rootA := rootB] else q;
    LinkedCorrectly(ds.parent, q, depth, i, j, r);
    DisjointSet(r)
  }

  /** The facts `Union` promises, for the array its two finds and the link produce. */
  lemma LinkedCorrectly(p: seq<nat>, q: seq<nat>, depth: seq<nat>, i: nat, j: nat, r: seq<nat>)
    requires Valid(p, depth) && Valid(q, depth) && i < |p| && j < |p|
    requires forall k :: 0 <= k < |p| ==> Root(q, depth, k) == Root(p, depth, k)
    requires forall k :: 0 <= k < |p| ==> (q[k] == k <==> p[k] == k)
    requires r == (if Root(p, depth, i) != Root(p, depth, j) then q[Root(p, depth, i) := Root(p, depth, j)] else q)
    ensures Valid(r, UnionDepth(p, depth, i, j))
    ensures forall k :: 0 <= k < |p| ==>
      Root(r, UnionDepth(p, depth, i, j), k) ==
        (if Root(p, depth, k) == Root(p, depth, i) then Root(p, depth, j) else Root(p, depth, k))
    ensures Root(p, depth, i) != Root(p, depth, j) ==> Roots(r) == Roots(p) - {Root(p, depth, i)}
    ensures Root(p, depth, i) == Root(p, depth, j) ==> Roots(r) == Roots(p)
  {
    var ra := Root(p, depth, i);
    var rb := Root(p, depth, j);
    assert Roots(q) == Roots(p);
    if ra != rb {
      assert q[ra] == ra && q[rb] == rb;
      SameRootsSameShift(p, q, depth, ra, rb);
      Link(q, depth, ra, rb);
    }
  }

  lemma SameRootsSameShift(p: seq<nat>, q: seq<nat>, depth: seq<nat>, ra: nat, rb: nat)
    requires Valid(p, depth) && Valid(q, depth) && rb < |p| && |q| == |p|
    requires forall k :: 0 <= k < |p| ==> Root(q, depth, k) == Root(p, depth, k)
    ensures Shifted(p, depth, ra, rb) == Shifted(q, depth, ra, rb)
  {
  }

  /** Hanging root ra under a different root rb merges exactly their two sets. */
  lemma Link(p: seq<nat>, depth: seq<nat>, ra: nat, rb: nat)
    requires Valid(p, depth) && ra < |p| && rb < |p| && p[ra] == ra && p[rb] == rb && ra != rb
    ensures Valid(p[ra := rb], Shifted(p, depth, ra, rb))
    ensures forall k :: 0 <= k < |p| ==>
      Root(p[ra := rb], Shifted(p, depth, ra, rb), k) == (if Root(p, depth, k) == ra then rb else Root(p, depth, k))
    ensures Roots(p[ra := rb]) == Roots(p) - {ra}
  {
    var q := p[ra := rb];
    var d := Shifted(p, depth, ra, rb);
    forall k | 0 <= k < |p| && q[k] != k ensures d[q[k]] < d[k] {
      if k != ra {
        assert Root(p, depth, p[k]) == Root(p, depth, k);
      }
    }
    assert Valid(q, d);
    forall k | 0 <= k < |p|
      ensures Root(q, d, k) == (if Root(p, depth, k) == ra then rb else Root(p, depth, k))
    {
      LinkOne(p, depth, ra, rb, k);
    }
  }

  lemma {:induction false} LinkOne(p: seq<nat>, depth: seq<nat>, ra: nat, rb: nat, k: nat)
    requires Valid(p, depth) && ra < |p| && rb < |p| && p[ra] == ra && p[rb] == rb && ra != rb
    requires Valid(p[ra := rb], Shifted(p, depth, ra, rb)) && k < |p|
    ensures Root(p[ra := rb], Shifted(p, depth, ra, rb), k) == (if Root(p, depth, k) == ra then rb else Root(p, depth, k))
    decreases depth[k]
  {
    var q := p[ra := rb];
    var d := Shifted(p, depth, ra, rb);
    if k == ra {
      assert q[rb] == rb;
      assert Root(q, d, rb) == rb;
    } else if p[k] != k {
      LinkOne(p, depth, ra, rb, p[k]);
    }
  }

  /** When every element has the root of element 0, there is a single set. */
  lemma SingleSet(p: seq<nat>, depth: seq<nat>)
    requires Valid(p, depth) && |p| > 0
    requires forall k :: 0 <= k < |p| ==> Root(p, depth, k) == Root(p, depth, 0)
    ensures Roots(p) == {Root(p, depth, 0)}
  {
    forall k | k in Roots(p) ensures k == Root(p, depth, 0) {
      assert Root(p, depth, k) == k;
    }
  }
}
