/**
 * Randomized Kruskal's generator: shuffle every wall-edge of the grid and
 * open an edge exactly when its two cells are in different sets of the
 * union-find, merging the sets. The openings form a spanning tree.
 */
module KruskalGenerator {
  import opened Options
  import opened Cells
  import opened Grids
  import opened Randoms
  import opened DisjointSets
  import opened EdgeLists
  import opened Paths

  /** Only wall flags change, they stay symmetric, and exactly the recorded openings are open. */
  ghost predicate Carved(g0: Grid, g: Grid, openings: seq<Wall>)
  {
    && Symmetric(g0) && SameLayout(g0, g) && Symmetric(g)
    && (forall i :: 0 <= i < |g.cells| ==> SameButWalls(g.cells[i], g0.cells[i]))
    && OpenedExactly(g0, g, openings)
  }

  /**
   * The union-find covers the cells; each opening joined two sets, so the
   * sets plus the openings number the cells; openings edges are distinct and
   * lie inside one set.
   */
  ghost predicate Forest(g0: Grid, p: seq<nat>, depth: seq<nat>, openings: seq<Wall>)
  {
    && WellFormed(g0) && |p| == |g0.cells| && Valid(p, depth)
    && |Roots(p)| + |openings| == |g0.cells|
    && (forall m :: 0 <= m < |openings| ==> Spans(g0, openings[m]))
    && (forall m :: 0 <= m < |openings| ==> Root(p, depth, openings[m].cell1) == Root(p, depth, openings[m].cell2))
    && (forall a, b :: 0 <= a < b < |openings| ==> openings[a] != openings[b])
  }

  /** The first k edges are handled: their cells share a set, and every opening is one of them. */
  ghost predicate Processed(g0: Grid, edges: seq<Wall>, k: nat, p: seq<nat>, depth: seq<nat>, openings: seq<Wall>)
  {
    && WellFormed(g0) && |p| == |g0.cells| && Valid(p, depth) && k <= |edges|
    && (forall j :: 0 <= j < |edges| ==> Spans(g0, edges[j]))
    && (forall j :: 0 <= j < k ==> Root(p, depth, edges[j].cell1) == Root(p, depth, edges[j].cell2))
    && (forall m :: 0 <= m < |openings| ==> openings[m] in edges[..k])
  }

  /** Ghost witnesses of connectivity: routes[i] is an open path from i to its set's root. */
  ghost predicate Routed(g: Grid, p: seq<nat>, depth: seq<nat>, routes: seq<seq<nat>>)
  {
    && |p| == |g.cells| && Valid(p, depth) && |routes| == |g.cells|
    && forall i :: 0 <= i < |g.cells| ==> PathFromTo(g, routes[i], i, Root(p, depth, i))
  }

  ghost predicate KruskalInvariant(g0: Grid, edges: seq<Wall>, k: nat, g: Grid, ds: DisjointSet, depth: seq<nat>,
                                   openings: seq<Wall>, routes: seq<seq<nat>>)
  {
    && Carved(g0, g, openings)
    && Forest(g0, ds.parent, depth, openings)
    && Processed(g0, edges, k, ds.parent, depth, openings)
    && Routed(g, ds.parent, depth, routes)
  }

  /** q has the same sets, with the same roots, as p. */
  ghost predicate SameSets(p: seq<nat>, q: seq<nat>, depth: seq<nat>)
    requires Valid(p, depth)
  {
    && |q| == |p| && Valid(q, depth) && Roots(q) == Roots(p)
    && forall k :: 0 <= k < |p| ==> Root(q, depth, k) == Root(p, depth, k)
  }

  /** q is p with the set of a merged into the set of b, whose root stays the root. */
  ghost predicate Merged(p: seq<nat>, depth: seq<nat>, q: seq<nat>, depth': seq<nat>, a: nat, b: nat)
    requires Valid(p, depth) && a < |p| && b < |p|
  {
    && |q| == |p| && Valid(q, depth') && Roots(q) == Roots(p) - {Root(p, depth, a)}
    && forall k :: 0 <= k < |p| ==>
         Root(q, depth', k) == (if Root(p, depth, k) == Root(p, depth, a) then Root(p, depth, b) else Root(p, depth, k))
  }

  /**
   * `runKruskalAnimation`. Draws rnd(0), rnd(1), ... drive the shuffle.
   * Only walls change and they stay symmetric; the openings walls are
   * distinct edges of the grid, exactly the walls now open, and there are
   * |cells| - 1 of them; every cell can reach every other through them.
   */
  method Kruskal(g0: Grid, rnd: nat -> nat) returns (g: Grid, openings: seq<Wall>)
    requires Symmetric(g0)
    ensures SameLayout(g0, g) && Symmetric(g)
    ensures forall i :: 0 <= i < |g.cells| ==> SameButWalls(g.cells[i], g0.cells[i])
    ensures OpenedExactly(g0, g, openings)
    ensures forall w :: w in openings ==> w in AllWalls(g0)
    ensures forall a, b :: 0 <= a < b < |openings| ==> openings[a] != openings[b]
    ensures |g0.cells| > 0 ==> |openings| == |g0.cells| - 1
    ensures forall a, b :: 0 <= a < |g.cells| && 0 <= b < |g.cells| ==> Connected(g, a, b)
  {
    var all := AllWalls(g0);
    var edges := Shuffle(all, rnd, 0);
    ShuffleKeepsElements(all, rnd, 0);
    assert forall w :: w in edges <==> w in AllWalls(g0);
    var ds;
    ghost var depth, routes;
    g, ds, depth, openings, routes := KruskalLoop(g0, edges);
    KruskalResult(g0, edges, g, ds, depth, openings, routes);
  }

  /** The loop over the shuffled edges, from a fresh union-find to the last edge. */
  method KruskalLoop(g0: Grid, edges: seq<Wall>)
    returns (g: Grid, ds: DisjointSet, ghost depth: seq<nat>, openings: seq<Wall>, ghost routes: seq<seq<nat>>)
    requires Symmetric(g0) && forall w :: w in edges ==> Edge(g0, w)
    ensures KruskalInvariant(g0, edges, |edges|, g, ds, depth, openings, routes)
    ensures SameLayout(g0, g) && Symmetric(g) && OpenedExactly(g0, g, openings)
    ensures forall m :: 0 <= m < |openings| ==> openings[m] in edges
  {
    ds := Init(g0.cols * g0.rows);
    depth := Flat(|g0.cells|);
    routes := Alone(|g0.cells|);
    g, openings := g0, [];
    KruskalStart(g0, edges, ds, depth, routes);
    for k := 0 to |edges|
      invariant KruskalInvariant(g0, edges, k, g, ds, depth, openings, routes)
    {
      g, ds, depth, openings, routes := KruskalStep(g0, edges, k, g, ds, depth, openings, routes);
    }
    assert edges[..|edges|] == edges;
  }

  /** What the finished loop promises, as `Kruskal` states it. */
  lemma KruskalResult(g0: Grid, edges: seq<Wall>, g: Grid, ds: DisjointSet, depth: seq<nat>,
                      openings: seq<Wall>, routes: seq<seq<nat>>)
    requires KruskalInvariant(g0, edges, |edges|, g, ds, depth, openings, routes)
    requires forall w :: w in edges <==> w in AllWalls(g0)
    ensures SameLayout(g0, g) && Symmetric(g)
    ensures forall i :: 0 <= i < |g.cells| ==> SameButWalls(g.cells[i], g0.cells[i])
    ensures OpenedExactly(g0, g, openings)
    ensures forall w :: w in openings ==> w in AllWalls(g0)
    ensures forall a, b :: 0 <= a < b < |openings| ==> openings[a] != openings[b]
    ensures |g0.cells| > 0 ==> |openings| == |g0.cells| - 1
    ensures forall a, b :: 0 <= a < |g.cells| && 0 <= b < |g.cells| ==> Connected(g, a, b)
  {
    KruskalFinished(g0, edges, g, ds, depth, openings, routes);
    forall w | w in openings ensures w in AllWalls(g0) {
      var m :| 0 <= m < |openings| && openings[m] == w;
      assert edges[..|edges|] == edges;
    }
  }

  lemma KruskalStart(g0: Grid, edges: seq<Wall>, ds: DisjointSet, depth: seq<nat>, routes: seq<seq<nat>>)
    requires Symmetric(g0) && ds == Init(|g0.cells|) && depth == Flat(|g0.cells|)
    requires routes == Alone(|g0.cells|)
    requires forall w :: w in edges ==> Edge(g0, w)
    ensures KruskalInvariant(g0, edges, 0, g0, ds, depth, [], routes)
  {
    OpenedNothing(g0);
    forall j | 0 <= j < |edges| ensures Spans(g0, edges[j]) {
      assert edges[j] in edges;
    }
    forall i | 0 <= i < |g0.cells| ensures PathFromTo(g0, routes[i], i, Root(ds.parent, depth, i)) {
      Trivial(g0, i);
    }
  }

  /** Every cell is its own route to itself. */
  ghost function Alone(n: nat): (r: seq<seq<nat>>)
    ensures |r| == n && forall i :: 0 <= i < n ==> r[i] == [i]
  {
    seq(n, i requires 0 <= i < n => [i])
  }

  /**
   * One iteration over the shuffled list: `find` both cells (compressing
   * paths) and, exactly when the roots differ, open the wall and `union`
   * the two sets.
   */
  method KruskalStep(g0: Grid, edges: seq<Wall>, k: nat, g: Grid, ds: DisjointSet, ghost depth: seq<nat>,
                     openings: seq<Wall>, ghost routes: seq<seq<nat>>)
    returns (g': Grid, ds': DisjointSet, ghost depth': seq<nat>, openings': seq<Wall>, ghost routes': seq<seq<nat>>)
    requires KruskalInvariant(g0, edges, k, g, ds, depth, openings, routes) && k < |edges|
    ensures KruskalInvariant(g0, edges, k + 1, g', ds', depth', openings', routes')
    ensures Root(ds.parent, depth, edges[k].cell1) != Root(ds.parent, depth, edges[k].cell2) ==>
      openings' == openings + [edges[k]] && g' == RemoveWall(g, edges[k].cell1, edges[k].cell2, edges[k].direction)
    ensures Root(ds.parent, depth, edges[k].cell1) == Root(ds.parent, depth, edges[k].cell2) ==>
      openings' == openings && g' == g
  {
    var w := edges[k];
    assert Spans(g0, w);
    var id1 := Index(g, g.cells[w.cell1].x, g.cells[w.cell1].y);
    var id2 := Index(g, g.cells[w.cell2].x, g.cells[w.cell2].y);
    assert id1 == w.cell1 && id2 == w.cell2;
    var (root1, ds1) := Find(ds, depth, id1);
    var (root2, ds2) := Find(ds1, depth, id2);
    SameSetsAfterFind(ds.parent, ds1.parent, depth);
    SameSetsAfterFind(ds1.parent, ds2.parent, depth);
    FindKeepsInvariant(g0, edges, k, g, ds.parent, ds2.parent, depth, openings, routes);
    if root1 != root2 {
      g' := RemoveWall(g, w.cell1, w.cell2, w.direction);
      ds' := Union(ds2, depth, id1, id2);
      depth' := UnionDepth(ds2.parent, depth, id1, id2);
      openings' := openings + [w];
      routes' := Relinked(routes, ds2.parent, depth, w);
      assert Merged(ds2.parent, depth, ds'.parent, depth', w.cell1, w.cell2) by {
        RootOfRoot(ds2.parent, depth, w.cell1);
      }
      LinkKeepsInvariant(g0, edges, k, g, ds2.parent, depth, ds'.parent, depth', openings, routes);
    } else {
      g', ds', depth', openings', routes' := g, ds2, depth, openings, routes;
    }
  }

  /** Opening wall k between two different sets and merging them keeps the invariant. */
  lemma LinkKeepsInvariant(g0: Grid, edges: seq<Wall>, k: nat, g: Grid, p: seq<nat>, depth: seq<nat>, q: seq<nat>,
                           depth': seq<nat>, openings: seq<Wall>, routes: seq<seq<nat>>)
    requires KruskalInvariant(g0, edges, k, g, DisjointSet(p), depth, openings, routes) && k < |edges|
    requires Spans(g0, edges[k]) && Root(p, depth, edges[k].cell1) != Root(p, depth, edges[k].cell2)
    requires Merged(p, depth, q, depth', edges[k].cell1, edges[k].cell2)
    ensures KruskalInvariant(g0, edges, k + 1, RemoveWall(g, edges[k].cell1, edges[k].cell2, edges[k].direction),
                             DisjointSet(q), depth', openings + [edges[k]], Relinked(routes, p, depth, edges[k]))
  {
    var w := edges[k];
    LinkCarved(g0, g, openings, w);
    LinkForest(g0, p, depth, q, depth', openings, w);
    LinkProcessed(g0, edges, k, p, depth, q, depth', openings);
    LinkRouted(g0, g, RemoveWall(g, w.cell1, w.cell2, w.direction), p, depth, q, depth', routes, w);
  }

  /** `find` leaves the sets, their roots and the set of roots as they were. */
  lemma SameSetsAfterFind(p: seq<nat>, q: seq<nat>, depth: seq<nat>)
    requires Valid(p, depth) && |q| == |p| && Valid(q, depth)
    requires forall k :: 0 <= k < |p| ==> Root(q, depth, k) == Root(p, depth, k)
    requires forall k :: 0 <= k < |p| ==> (q[k] == k <==> p[k] == k)
    ensures SameSets(p, q, depth)
  {
    assert Roots(q) == Roots(p);
  }

  lemma FindKeepsInvariant(g0: Grid, edges: seq<Wall>, k: nat, g: Grid, p: seq<nat>, q: seq<nat>, depth: seq<nat>,
                           openings: seq<Wall>, routes: seq<seq<nat>>)
    requires KruskalInvariant(g0, edges, k, g, DisjointSet(p), depth, openings, routes)
    requires SameSets(p, q, depth)
    ensures KruskalInvariant(g0, edges, k, g, DisjointSet(q), depth, openings, routes)
  {
  }

  /** The root of a cell's root is that root. */
  lemma RootOfRoot(p: seq<nat>, depth: seq<nat>, i: nat)
    requires Valid(p, depth) && i < |p|
    ensures Root(p, depth, i) in Roots(p)
  {
  }

  /** The new routes after merging the set of w.cell1 into the set of w.cell2 across w. */
  ghost function Relinked(routes: seq<seq<nat>>, p: seq<nat>, depth: seq<nat>, w: Wall): (r: seq<seq<nat>>)
    requires Valid(p, depth) && |routes| == |p| && w.cell1 < |p| && w.cell2 < |p|
    requires forall i :: 0 <= i < |routes| ==> |routes[i]| > 0
    ensures |r| == |routes|
  {
    seq(|routes|, i requires 0 <= i < |routes| =>
      if Root(p, depth, i) == Root(p, depth, w.cell1) then
        Join(Join(Join(routes[i], Reverse(routes[w.cell1])), [w.cell1, w.cell2]), routes[w.cell2])
      else routes[i])
  }

  lemma LinkCarved(g0: Grid, g: Grid, openings: seq<Wall>, w: Wall)
    requires Carved(g0, g, openings) && Spans(g0, w)
    ensures Carved(g0, RemoveWall(g, w.cell1, w.cell2, w.direction), openings + [w])
  {
    SameLayoutSameNeighbors(g0, g);
    var r := RemoveWall(g, w.cell1, w.cell2, w.direction);
    RemoveWallKeepsSymmetry(g, w.cell1, w.direction);
    OpenedOneMore(g0, g, openings, w);
    forall i | 0 <= i < |r.cells| ensures SameButWalls(r.cells[i], g0.cells[i]) {
      assert SameButWalls(r.cells[i], g.cells[i]);
    }
  }

  lemma LinkForest(g0: Grid, p: seq<nat>, depth: seq<nat>, q: seq<nat>, depth': seq<nat>, openings: seq<Wall>, w: Wall)
    requires Forest(g0, p, depth, openings) && Spans(g0, w)
    requires Root(p, depth, w.cell1) != Root(p, depth, w.cell2)
    requires Merged(p, depth, q, depth', w.cell1, w.cell2)
    ensures Forest(g0, q, depth', openings + [w])
  {
    var ra := Root(p, depth, w.cell1);
    RootOfRoot(p, depth, w.cell1);
    assert |Roots(q)| + 1 == |Roots(p)|;
    var openings' := openings + [w];
    forall m | 0 <= m < |openings'| ensures Root(q, depth', openings'[m].cell1) == Root(q, depth', openings'[m].cell2) {
      if m < |openings| {
        assert openings'[m] == openings[m];
      }
    }
    forall a, b | 0 <= a < b < |openings'| ensures openings'[a] != openings'[b] {
      if b == |openings| {
        assert openings'[a] == openings[a];
      } else {
        assert openings'[a] == openings[a] && openings'[b] == openings[b];
      }
    }
  }

  lemma LinkProcessed(g0: Grid, edges: seq<Wall>, k: nat, p: seq<nat>, depth: seq<nat>, q: seq<nat>, depth': seq<nat>,
                      openings: seq<Wall>)
    requires Processed(g0, edges, k, p, depth, openings) && k < |edges|
    requires Spans(g0, edges[k]) && Merged(p, depth, q, depth', edges[k].cell1, edges[k].cell2)
    ensures Processed(g0, edges, k + 1, q, depth', openings + [edges[k]])
  {
    MergedJoins(edges, k, p, depth, q, depth');
    OpeningsGrow(edges, k, openings);
  }

  /** Merging the sets of the k-th wall's cells leaves walls 0..k inside one set each. */
  lemma MergedJoins(edges: seq<Wall>, k: nat, p: seq<nat>, depth: seq<nat>, q: seq<nat>, depth': seq<nat>)
    requires Valid(p, depth) && k < |edges|
    requires forall j :: 0 <= j <= k ==> edges[j].cell1 < |p| && edges[j].cell2 < |p|
    requires forall j :: 0 <= j < k ==> Root(p, depth, edges[j].cell1) == Root(p, depth, edges[j].cell2)
    requires Merged(p, depth, q, depth', edges[k].cell1, edges[k].cell2)
    ensures forall j :: 0 <= j < k + 1 ==> Root(q, depth', edges[j].cell1) == Root(q, depth', edges[j].cell2)
  {
    var a, b := edges[k].cell1, edges[k].cell2;
    forall j | 0 <= j < k ensures Root(q, depth', edges[j].cell1) == Root(q, depth', edges[j].cell2) {
      MergedKeepsTogether(p, depth, q, depth', a, b, edges[j].cell1, edges[j].cell2);
    }
    MergedJoinsEnds(p, depth, q, depth', a, b);
  }

  /** Cells in one set before a merge are in one set after it. */
  lemma MergedKeepsTogether(p: seq<nat>, depth: seq<nat>, q: seq<nat>, depth': seq<nat>, a: nat, b: nat, x: nat, y: nat)
    requires Valid(p, depth) && a < |p| && b < |p| && x < |p| && y < |p|
    requires Merged(p, depth, q, depth', a, b) && Root(p, depth, x) == Root(p, depth, y)
    ensures Root(q, depth', x) == Root(q, depth', y)
  {
  }

  /** After merging the sets of a and b, a and b are in one set. */
  lemma MergedJoinsEnds(p: seq<nat>, depth: seq<nat>, q: seq<nat>, depth': seq<nat>, a: nat, b: nat)
    requires Valid(p, depth) && a < |p| && b < |p| && Merged(p, depth, q, depth', a, b)
    ensures Root(q, depth', a) == Root(q, depth', b)
  {
  }

  /** Openings drawn from the first k walls, with wall k appended, are drawn from the first k + 1. */
  lemma OpeningsGrow(edges: seq<Wall>, k: nat, openings: seq<Wall>)
    requires k < |edges| && forall m :: 0 <= m < |openings| ==> openings[m] in edges[..k]
    ensures forall m :: 0 <= m < |openings| + 1 ==> (openings + [edges[k]])[m] in edges[..k + 1]
  {
    var openings' := openings + [edges[k]];
    forall m | 0 <= m < |openings'| ensures openings'[m] in edges[..k + 1] {
      if m < |openings| {
        assert openings'[m] == openings[m];
        assert edges[..k] <= edges[..k + 1];
      } else {
        assert openings'[m] == edges[..k + 1][k];
      }
    }
  }

  lemma LinkRouted(g0: Grid, g: Grid, g': Grid, p: seq<nat>, depth: seq<nat>, q: seq<nat>, depth': seq<nat>,
                   routes: seq<seq<nat>>, w: Wall)
    requires Symmetric(g) && SameLayout(g0, g) && WellFormed(g0) && Spans(g0, w)
    requires g' == RemoveWall(g, w.cell1, w.cell2, w.direction)
    requires Routed(g, p, depth, routes)
    requires Root(p, depth, w.cell1) != Root(p, depth, w.cell2)
    requires Merged(p, depth, q, depth', w.cell1, w.cell2)
    ensures Routed(g', q, depth', Relinked(routes, p, depth, w))
  {
    SameLayoutSameNeighbors(g0, g);
    RemoveWallKeepsSymmetry(g, w.cell1, w.direction);
    SameLayoutSameNeighbors(g, g');
    var c1, c2 := w.cell1, w.cell2;
    assert Through(g', c1, w.direction, c2);
    OpenStep(g', c1, w.direction, c2);
    Step(g', c1, c2);
    var r := Relinked(routes, p, depth, w);
    var ra, rb := Root(p, depth, c1), Root(p, depth, c2);
    WiderPath(g, g', routes[c1], c1, ra);
    WiderPath(g, g', routes[c2], c2, rb);
    ReversedPath(g', routes[c1], c1, ra);
    forall i | 0 <= i < |g'.cells| ensures PathFromTo(g', r[i], i, Root(q, depth', i)) {
      WiderPath(g, g', routes[i], i, Root(p, depth, i));
      if Root(p, depth, i) == ra {
        var toC1 := Join(routes[i], Reverse(routes[c1]));
        JoinedPath(g', routes[i], Reverse(routes[c1]), i, ra, c1);
        JoinedPath(g', toC1, [c1, c2], i, c1, c2);
        JoinedPath(g', Join(toC1, [c1, c2]), routes[c2], i, c2, rb);
      }
    }
  }

  /** Kruskal's loop has handled every edge of the grid. */
  lemma KruskalFinished(g0: Grid, edges: seq<Wall>, g: Grid, ds: DisjointSet, depth: seq<nat>,
                        openings: seq<Wall>, routes: seq<seq<nat>>)
    requires KruskalInvariant(g0, edges, |edges|, g, ds, depth, openings, routes)
    requires forall w :: w in AllWalls(g0) ==> w in edges
    ensures |g0.cells| > 0 ==> |openings| == |g0.cells| - 1
    ensures forall a, b :: 0 <= a < |g.cells| && 0 <= b < |g.cells| ==> Connected(g, a, b)
  {
    var n := |g0.cells|;
    var p := ds.parent;
    if n > 0 {
      var r0 := Root(p, depth, 0);
      var s := set i: nat | i < n && Root(p, depth, i) == r0;
      forall i, d | 0 <= i < n && i in s && Neighbor(g0, i, d).Some?
        ensures Neighbor(g0, i, d).value in s
      {
        var j := Neighbor(g0, i, d).value;
        PairListed(g0, i, d);
        if Wall(i, j, d) in AllWalls(g0) {
          var x :| 0 <= x < |edges| && edges[x] == Wall(i, j, d);
        } else {
          var x :| 0 <= x < |edges| && edges[x] == Wall(j, i, Opposite(d));
        }
      }
      GridConnected(g0, s);
      forall i | 0 <= i < n ensures Root(p, depth, i) == r0 {
        assert i in s;
      }
      SingleSet(p, depth);
      forall a, b | 0 <= a < n && 0 <= b < n ensures Connected(g, a, b) {
        ReversedPath(g, routes[b], b, r0);
        JoinedPath(g, routes[a], Reverse(routes[b]), a, r0, b);
      }
    }
  }
}
