/**
 * Randomized Prim's generator: grow the maze from the corner cell, keeping
 * a frontier list of wall-edges from maze cells to their neighbours, and
 * open a drawn wall whenever its far cell is not yet in the maze.
 */
module PrimGenerator {
  import opened Options
  import opened Cells
  import opened Grids
  import opened Paths
  import opened Indices
  import opened Randoms

  /**
   * `addWalls(c, walls)`: appends a wall from c towards each in-bounds
   * neighbour, in the order Top, Right, Bottom, Left.
   */
  function AddWalls(g: Grid, c: nat, walls: seq<Wall>): (r: seq<Wall>)
    requires WellFormed(g) && c < |g.cells|
    ensures |walls| <= |r| <= |walls| + 4
    ensures r[..|walls|] == walls
    ensures forall w :: w in r[|walls|..] ==> Spans(g, w) && w.cell1 == c
    ensures forall d :: Neighbor(g, c, d).Some? ==> Wall(c, Neighbor(g, c, d).value, d) in r[|walls|..]
  {
    var around := WallsFrom(g, c, 0);
    var r := walls + around;
    assert r[|walls|..] == around;
    r
  }

  /** The walls from c towards each in-bounds neighbour among `Directions[k..]`, in that order. */
  function WallsFrom(g: Grid, c: nat, k: nat): (r: seq<Wall>)
    requires WellFormed(g) && c < |g.cells| && k <= 4
    ensures |r| <= 4 - k
    ensures forall w :: w in r ==> Spans(g, w) && w.cell1 == c
    ensures forall d :: k <= Slot(d) && Neighbor(g, c, d).Some? ==> Wall(c, Neighbor(g, c, d).value, d) in r
    decreases 4 - k
  {
    if k == 4 then []
    else
      var d := Directions[k];
      var rest := WallsFrom(g, c, k + 1);
      if Neighbor(g, c, d).Some? then [Wall(c, Neighbor(g, c, d).value, d)] + rest else rest
  }

  /** The far cells of a sequence of carved walls. */
  function Targets(carved: seq<Wall>): set<nat>
  {
    set k | 0 <= k < |carved| :: carved[k].cell2
  }

  /** Walls and visited flags change; layout, floors and labels do not. */
  ghost predicate Framed(g0: Grid, g: Grid)
  {
    && WellFormed(g0) && SameLayout(g0, g) && Symmetric(g)
    && forall i :: 0 <= i < |g.cells| ==> g.cells[i].terrain == g0.cells[i].terrain && g.cells[i].tag == g0.cells[i].tag
  }

  /** The maze is the corner cell plus the far cell of every opening; it is what `visited` marks. */
  ghost predicate MazeCells(g: Grid, inMaze: set<nat>, carved: seq<Wall>)
  {
    && inMaze == {0} + Targets(carved)
    && (forall i :: i in inMaze ==> i < |g.cells|)
    && (forall i :: 0 <= i < |g.cells| ==> (g.cells[i].visited <==> i in inMaze))
    && |carved| + 1 == |inMaze|
  }

  /**
   * Every frontier wall starts in the maze, and every neighbour of a maze
   * cell is in the maze or still behind a frontier wall.
   */
  ghost predicate FrontierCovers(g0: Grid, inMaze: set<nat>, walls: seq<Wall>)
    requires WellFormed(g0)
  {
    && (forall w :: w in walls ==> Spans(g0, w) && w.cell1 in inMaze)
    && (forall i, d :: 0 <= i < |g0.cells| && i in inMaze && Neighbor(g0, i, d).Some? ==>
          Neighbor(g0, i, d).value in inMaze || Wall(i, Neighbor(g0, i, d).value, d) in walls)
  }

  /** Each opening is open in g and attached a new cell to an earlier maze cell. */
  ghost predicate CarvedTree(g0: Grid, g: Grid, carved: seq<Wall>)
    requires WellFormed(g0) && SameLayout(g0, g)
  {
    && (forall k :: 0 <= k < |carved| ==> Spans(g0, carved[k]) && !HasWallAt(g, carved[k].cell1, carved[k].direction))
    && (forall k :: 0 <= k < |carved| ==> carved[k].cell2 != 0 && carved[k].cell2 !in Targets(carved[..k]))
    && (forall k :: 0 <= k < |carved| ==> carved[k].cell1 == 0 || carved[k].cell1 in Targets(carved[..k]))
  }

  ghost predicate PrimInvariant(g0: Grid, g: Grid, inMaze: set<nat>, walls: seq<Wall>, carved: seq<Wall>)
  {
    && Framed(g0, g)
    && MazeCells(g, inMaze, carved)
    && FrontierCovers(g0, inMaze, walls)
    && CarvedTree(g0, g, carved)
    && OpenedExactly(g0, g, carved)
  }

  /** A spanning wall of g0 spans the same cells in any grid with g0's layout. */
  lemma SpansTransfer(g0: Grid, g: Grid, w: Wall)
    requires WellFormed(g0) && SameLayout(g0, g) && Spans(g0, w)
    ensures Spans(g, w) && Neighbor(g, w.cell1, w.direction) == Some(w.cell2)
  {
    SameLayoutSameNeighbors(g0, g);
  }

  /**
   * `runPrimAnimation`. Draw number k picks the frontier position of the
   * k-th iteration. Every cell ends up in the maze (visited), exactly
   * |cells| - 1 walls are opened and no other wall is, and each opening
   * attaches a cell not yet in the maze to one that already is, so the
   * openings form a spanning tree.
   */
  method Prim(g0: Grid, rnd: nat -> nat) returns (g: Grid, carved: seq<Wall>)
    requires Symmetric(g0) && |g0.cells| > 0
    requires forall i :: 0 <= i < |g0.cells| ==> !g0.cells[i].visited
    ensures SameLayout(g0, g) && Symmetric(g)
    ensures forall i :: 0 <= i < |g.cells| ==> g.cells[i].visited
    ensures |carved| == |g.cells| - 1
    ensures forall k :: 0 <= k < |carved| ==> Spans(g, carved[k]) && !HasWallAt(g, carved[k].cell1, carved[k].direction)
    ensures forall k :: 0 <= k < |carved| ==> carved[k].cell2 != 0 && carved[k].cell2 !in Targets(carved[..k])
    ensures forall k :: 0 <= k < |carved| ==> carved[k].cell1 == 0 || carved[k].cell1 in Targets(carved[..k])
    ensures forall i :: 0 <= i < |g.cells| ==> i == 0 || i in Targets(carved)
    ensures forall i :: 0 <= i < |g.cells| ==> g.cells[i].terrain == g0.cells[i].terrain && g.cells[i].tag == g0.cells[i].tag
    ensures OpenedExactly(g0, g, carved)
  {
    g := SetVisited(g0, 0, true);
    var walls := AddWalls(g, 0, []);
    PrimStart(g0);
    ghost var inMaze;
    g, carved, inMaze := PrimLoop(g0, g, walls, {0}, rnd);
    PrimFinished(g0, g, inMaze, carved);
  }

  /** Each opening attaches a different cell, so no wall is opened twice. */
  lemma PrimCarvedDistinct(carved: seq<Wall>)
    requires forall k :: 0 <= k < |carved| ==> carved[k].cell2 !in Targets(carved[..k])
    ensures forall a, b :: 0 <= a < b < |carved| ==> carved[a] != carved[b]
  {
    forall a, b | 0 <= a < b < |carved| ensures carved[a] != carved[b] {
      assert carved[..b][a] == carved[a];
      assert carved[a].cell2 in Targets(carved[..b]);
    }
  }

  /** Before the loop: the corner alone is in the maze and its walls are the frontier. */
  lemma PrimStart(g0: Grid)
    requires Symmetric(g0) && |g0.cells| > 0
    requires forall i :: 0 <= i < |g0.cells| ==> !g0.cells[i].visited
    ensures PrimInvariant(g0, SetVisited(g0, 0, true), {0}, AddWalls(SetVisited(g0, 0, true), 0, []), [])
  {
    var g := SetVisited(g0, 0, true);
    var carved: seq<Wall> := [];
    SameWallsKeepsSymmetry(g0, g);
    SameLayoutSameNeighbors(g0, g);
    OpenedNothing(g0);
    OpenedSameWalls(g0, g0, g, carved);
    assert Targets(carved) == {} by {
      assert |carved| == 0;
    }
  }

  /** The frontier loop, drawing rnd(0), rnd(1), ... until the frontier is empty. */
  method PrimLoop(g0: Grid, g: Grid, walls: seq<Wall>, ghost inMaze: set<nat>, rnd: nat -> nat)
    returns (g': Grid, carved: seq<Wall>, ghost inMaze': set<nat>)
    requires PrimInvariant(g0, g, inMaze, walls, [])
    ensures PrimInvariant(g0, g', inMaze', [], carved)
    ensures SameLayout(g0, g') && Symmetric(g') && OpenedExactly(g0, g', carved)
  {
    var n := |g0.cells|;
    var frontier := walls;
    g', carved, inMaze' := g, [], inMaze;
    var step := 0;
    while |frontier| > 0
      invariant PrimInvariant(g0, g', inMaze', frontier, carved)
      decreases 4 * |AllIndices(n) - inMaze'| + |frontier|
    {
      g', frontier, carved, inMaze' := PrimStep(g0, g', frontier, carved, inMaze', rnd(step));
      step := step + 1;
    }
  }

  /**
   * One iteration of the frontier loop: remove the drawn wall and, when its
   * far cell is not in the maze, open it, mark the cell and add its walls.
   */
  method PrimStep(g0: Grid, g: Grid, walls: seq<Wall>, carved: seq<Wall>, ghost inMaze: set<nat>, draw: nat)
    returns (g': Grid, walls': seq<Wall>, carved': seq<Wall>, ghost inMaze': set<nat>)
    requires PrimInvariant(g0, g, inMaze, walls, carved) && |walls| > 0
    ensures PrimInvariant(g0, g', inMaze', walls', carved')
    ensures 4 * |AllIndices(|g0.cells|) - inMaze'| + |walls'| < 4 * |AllIndices(|g0.cells|) - inMaze| + |walls|
    ensures SameLayout(g0, g') && OpenedExactly(g0, g', carved')
    ensures carved' == carved || carved' == carved + [walls[NextInt(draw, |walls|)]]
  {
    var index := NextInt(draw, |walls|);
    var wall := walls[index];
    var rest := walls[..index] + walls[index + 1..];
    RemoveAt(walls, index, rest);
    SpansTransfer(g0, g, wall);
    if !g.cells[wall.cell2].visited {
      g' := Carve(g, wall);
      walls' := AddWalls(g', wall.cell2, rest);
      JoinKeepsInvariant(g0, g, inMaze, walls, walls', rest, carved, wall);
      carved' := carved + [wall];
      AllIndicesShrink(|g0.cells|, inMaze, wall.cell2);
      inMaze' := inMaze + {wall.cell2};
    } else {
      SkipKeepsInvariant(g0, g, inMaze, walls, rest, carved, wall);
      g', walls', carved', inMaze' := g, rest, carved, inMaze;
    }
  }

  /** Removing the element at position index leaves exactly the others. */
  lemma RemoveAt(walls: seq<Wall>, index: nat, rest: seq<Wall>)
    requires index < |walls| && rest == walls[..index] + walls[index + 1..]
    ensures |rest| + 1 == |walls|
    ensures forall w :: w in walls <==> w == walls[index] || w in rest
  {
    assert walls == walls[..index] + [walls[index]] + walls[index + 1..];
  }

  /** `removeWall` on the drawn wall followed by marking its far cell as in the maze. */
  function Carve(g: Grid, wall: Wall): (r: Grid)
    requires Spans(g, wall)
    ensures SameLayout(g, r)
    ensures Symmetric(g) ==> Symmetric(r)
    ensures r.cells[wall.cell2].visited
    ensures forall i :: 0 <= i < |g.cells| && i != wall.cell2 ==> r.cells[i].visited == g.cells[i].visited
    ensures forall i :: 0 <= i < |g.cells| ==> r.cells[i].terrain == g.cells[i].terrain && r.cells[i].tag == g.cells[i].tag
    ensures forall i, d :: 0 <= i < |g.cells| ==>
      HasWallAt(r, i, d) == (HasWallAt(g, i, d) && !Opens(wall, i, d))
  {
    var removed := RemoveWall(g, wall.cell1, wall.cell2, wall.direction);
    var r := SetVisited(removed, wall.cell2, true);
    CarveKeepsSymmetry(g, wall);
    assert forall i, d :: 0 <= i < |g.cells| ==> HasWallAt(r, i, d) == HasWallAt(removed, i, d);
    r
  }

  lemma CarveKeepsSymmetry(g: Grid, wall: Wall)
    requires Spans(g, wall)
    ensures Symmetric(g) ==> Symmetric(SetVisited(RemoveWall(g, wall.cell1, wall.cell2, wall.direction), wall.cell2, true))
  {
    if Symmetric(g) {
      var removed := RemoveWall(g, wall.cell1, wall.cell2, wall.direction);
      RemoveWallKeepsSymmetry(g, wall.cell1, wall.direction);
      SameWallsKeepsSymmetry(removed, SetVisited(removed, wall.cell2, true));
    }
  }

  /** When the far cell is already in the maze, dropping the wall keeps the invariant. */
  lemma SkipKeepsInvariant(g0: Grid, g: Grid, inMaze: set<nat>, walls: seq<Wall>, rest: seq<Wall>,
                           carved: seq<Wall>, wall: Wall)
    requires PrimInvariant(g0, g, inMaze, walls, carved)
    requires wall in walls && forall w :: w in walls <==> w == wall || w in rest
    requires wall.cell2 < |g.cells| && g.cells[wall.cell2].visited
    ensures PrimInvariant(g0, g, inMaze, rest, carved)
  {
    forall i, d | 0 <= i < |g0.cells| && i in inMaze && Neighbor(g0, i, d).Some?
      ensures Neighbor(g0, i, d).value in inMaze || Wall(i, Neighbor(g0, i, d).value, d) in rest
    {
      if Wall(i, Neighbor(g0, i, d).value, d) == wall {
        assert wall.cell2 in inMaze;
      }
    }
  }

  /** Opening the drawn wall to a new cell and adding that cell's walls keeps the invariant. */
  lemma JoinKeepsInvariant(g0: Grid, g: Grid, inMaze: set<nat>, walls: seq<Wall>, walls': seq<Wall>,
                           rest: seq<Wall>, carved: seq<Wall>, wall: Wall)
    requires PrimInvariant(g0, g, inMaze, walls, carved)
    requires wall in walls && forall w :: w in walls <==> w == wall || w in rest
    requires wall.cell2 < |g.cells| && !g.cells[wall.cell2].visited
    requires Spans(g, wall) && walls' == AddWalls(Carve(g, wall), wall.cell2, rest)
    ensures wall.cell2 !in inMaze
    ensures PrimInvariant(g0, Carve(g, wall), inMaze + {wall.cell2}, walls', carved + [wall])
  {
    JoinFramed(g0, g, wall);
    JoinMazeCells(g, inMaze, carved, wall);
    JoinCarvedTree(g0, g, inMaze, carved, wall);
    JoinFrontier(g0, g, inMaze, walls, walls', rest, wall);
    JoinOpened(g0, g, carved, wall);
  }

  /** The carved wall joins the record of opened walls. */
  lemma JoinOpened(g0: Grid, g: Grid, carved: seq<Wall>, wall: Wall)
    requires SameLayout(g0, g) && OpenedExactly(g0, g, carved) && Spans(g, wall)
    ensures SameLayout(g0, Carve(g, wall)) && OpenedExactly(g0, Carve(g, wall), carved + [wall])
  {
    var removed := RemoveWall(g, wall.cell1, wall.cell2, wall.direction);
    OpenedOneMore(g0, g, carved, wall);
    OpenedSameWalls(g0, removed, Carve(g, wall), carved + [wall]);
  }

  lemma JoinFramed(g0: Grid, g: Grid, wall: Wall)
    requires Framed(g0, g) && Spans(g, wall)
    ensures Framed(g0, Carve(g, wall))
  {
    SameLayoutSameNeighbors(g0, Carve(g, wall));
  }

  lemma JoinMazeCells(g: Grid, inMaze: set<nat>, carved: seq<Wall>, wall: Wall)
    requires MazeCells(g, inMaze, carved) && Spans(g, wall)
    requires wall.cell2 < |g.cells| && !g.cells[wall.cell2].visited
    ensures wall.cell2 !in inMaze
    ensures MazeCells(Carve(g, wall), inMaze + {wall.cell2}, carved + [wall])
  {
    TargetsAppend(carved, wall);
    var g' := Carve(g, wall);
    var inMaze' := inMaze + {wall.cell2};
    assert wall.cell2 !in inMaze;
    assert |inMaze'| == |inMaze| + 1;
    forall i | 0 <= i < |g'.cells| ensures g'.cells[i].visited <==> i in inMaze' {
      if i != wall.cell2 {
        assert g'.cells[i].visited == g.cells[i].visited;
      }
    }
  }

  lemma JoinCarvedTree(g0: Grid, g: Grid, inMaze: set<nat>, carved: seq<Wall>, wall: Wall)
    requires WellFormed(g0) && SameLayout(g0, g) && Spans(g, wall)
    requires MazeCells(g, inMaze, carved) && CarvedTree(g0, g, carved)
    requires wall.cell1 in inMaze && wall.cell2 < |g.cells| && !g.cells[wall.cell2].visited
    ensures CarvedTree(g0, Carve(g, wall), carved + [wall])
  {
    CarvedStayOpen(g0, g, carved, wall);
    assert wall.cell2 !in inMaze;
    forall k | 0 <= k < |carved| + 1
      ensures (carved + [wall])[k].cell2 != 0 && (carved + [wall])[k].cell2 !in Targets((carved + [wall])[..k])
      ensures (carved + [wall])[k].cell1 == 0 || (carved + [wall])[k].cell1 in Targets((carved + [wall])[..k])
    {
      AttachedInOrder(inMaze, carved, wall, k);
    }
  }

  /** Appending a wall from a maze cell to a cell outside the maze keeps each opening attached in order. */
  lemma AttachedInOrder(inMaze: set<nat>, carved: seq<Wall>, wall: Wall, k: nat)
    requires inMaze == {0} + Targets(carved)
    requires wall.cell1 in inMaze && wall.cell2 !in inMaze && k < |carved| + 1
    requires forall k :: 0 <= k < |carved| ==> carved[k].cell2 != 0 && carved[k].cell2 !in Targets(carved[..k])
    requires forall k :: 0 <= k < |carved| ==> carved[k].cell1 == 0 || carved[k].cell1 in Targets(carved[..k])
    ensures (carved + [wall])[k].cell2 != 0 && (carved + [wall])[k].cell2 !in Targets((carved + [wall])[..k])
    ensures (carved + [wall])[k].cell1 == 0 || (carved + [wall])[k].cell1 in Targets((carved + [wall])[..k])
  {
    var carved' := carved + [wall];
    if k < |carved| {
      assert carved'[k] == carved[k] && carved'[..k] == carved[..k];
    } else {
      assert carved'[k] == wall && carved'[..k] == carved;
    }
  }

  lemma JoinFrontier(g0: Grid, g: Grid, inMaze: set<nat>, walls: seq<Wall>, walls': seq<Wall>, rest: seq<Wall>, wall: Wall)
    requires WellFormed(g0) && SameLayout(g0, g) && Spans(g, wall)
    requires FrontierCovers(g0, inMaze, walls)
    requires wall in walls && forall w :: w in walls <==> w == wall || w in rest
    requires walls' == AddWalls(Carve(g, wall), wall.cell2, rest)
    ensures FrontierCovers(g0, inMaze + {wall.cell2}, walls')
  {
    var g' := Carve(g, wall);
    var inMaze' := inMaze + {wall.cell2};
    SameLayoutSameNeighbors(g0, g');
    SameLayoutSameNeighbors(g0, g);
    forall w | w in walls' ensures Spans(g0, w) && w.cell1 in inMaze' {
      if w !in rest {
        assert w in walls'[|rest|..] by {
          assert walls' == rest + walls'[|rest|..];
        }
        assert Spans(g', w) && w.cell1 == wall.cell2;
      }
    }
    forall i, d | 0 <= i < |g0.cells| && i in inMaze' && Neighbor(g0, i, d).Some?
      ensures Neighbor(g0, i, d).value in inMaze' || Wall(i, Neighbor(g0, i, d).value, d) in walls'
    {
      var nb := Neighbor(g0, i, d).value;
      if i == wall.cell2 {
        assert Neighbor(g', i, d) == Neighbor(g0, i, d);
        assert Wall(i, nb, d) in walls'[|rest|..];
      } else if nb !in inMaze' {
        assert Wall(i, nb, d) in walls;
        assert Wall(i, nb, d) != wall;
        assert Wall(i, nb, d) in walls'[..|rest|];
      }
    }
  }

  /** Earlier openings stay open and the new one is open after carving. */
  lemma CarvedStayOpen(g0: Grid, g: Grid, carved: seq<Wall>, wall: Wall)
    requires WellFormed(g0) && SameLayout(g0, g) && Spans(g, wall)
    requires forall k :: 0 <= k < |carved| ==> Spans(g0, carved[k]) && !HasWallAt(g, carved[k].cell1, carved[k].direction)
    ensures forall k :: 0 <= k < |carved + [wall]| ==>
      Spans(g0, (carved + [wall])[k]) && !HasWallAt(Carve(g, wall), (carved + [wall])[k].cell1, (carved + [wall])[k].direction)
  {
    var g' := Carve(g, wall);
    var carved' := carved + [wall];
    SameLayoutSameNeighbors(g0, g);
    forall k | 0 <= k < |carved'|
      ensures Spans(g0, carved'[k]) && !HasWallAt(g', carved'[k].cell1, carved'[k].direction)
    {
      if k < |carved| {
        assert carved'[k] == carved[k];
      }
    }
  }

  /** With the frontier empty, the maze holds every cell. */
  lemma PrimFinished(g0: Grid, g: Grid, inMaze: set<nat>, carved: seq<Wall>)
    requires PrimInvariant(g0, g, inMaze, [], carved) && |g0.cells| > 0
    ensures SameLayout(g0, g) && Symmetric(g)
    ensures forall i :: 0 <= i < |g.cells| ==> g.cells[i].visited
    ensures |carved| == |g.cells| - 1
    ensures forall k :: 0 <= k < |carved| ==> Spans(g, carved[k]) && !HasWallAt(g, carved[k].cell1, carved[k].direction)
    ensures forall i :: 0 <= i < |g.cells| ==> i == 0 || i in Targets(carved)
  {
    SameLayoutSameNeighbors(g0, g);
    forall k | 0 <= k < |carved| ensures Spans(g, carved[k]) {
      SpansTransfer(g0, g, carved[k]);
    }
    GridConnected(g0, inMaze);
    assert inMaze == AllIndices(|g.cells|);
  }

  lemma TargetsAppend(s: seq<Wall>, w: Wall)
    ensures Targets(s + [w]) == Targets(s) + {w.cell2}
  {
    var t := s + [w];
    forall x | x in Targets(t) ensures x in Targets(s) + {w.cell2} {
      var k :| 0 <= k < |t| && t[k].cell2 == x;
      if k < |s| { assert s[k] == t[k]; }
    }
    forall x | x in Targets(s) ensures x in Targets(t) {
      var k :| 0 <= k < |s| && s[k].cell2 == x;
      assert t[k] == s[k];
    }
    assert t[|s|] == w;
  }

  lemma AllIndicesShrink(n: nat, s: set<nat>, x: nat)
    requires x < n && x !in s
    ensures |AllIndices(n) - (s + {x})| + 1 == |AllIndices(n) - s|
  {
    assert AllIndices(n) - s == (AllIndices(n) - (s + {x})) + {x};
  }

  /**
   * Every cell is reached from the corner through the opened walls, so the
   * maze Prim's generator leaves is connected.
   */
  lemma PrimConnects(g: Grid, carved: seq<Wall>)
    requires WellFormed(g) && |g.cells| > 0
    requires forall k :: 0 <= k < |carved| ==> Spans(g, carved[k]) && !HasWallAt(g, carved[k].cell1, carved[k].direction)
    requires forall k :: 0 <= k < |carved| ==> carved[k].cell1 == 0 || carved[k].cell1 in Targets(carved[..k])
    requires forall i :: 0 <= i < |g.cells| ==> i == 0 || i in Targets(carved)
    ensures forall i :: 0 <= i < |g.cells| ==> Connected(g, 0, i)
  {
    forall i | 0 <= i < |g.cells| ensures Connected(g, 0, i) {
      assert i == 0 || i in Targets(carved);
      if i == 0 {
        Trivial(g, 0);
      } else {
        assert i in Targets(carved);
        var k :| 0 <= k < |carved| && carved[k].cell2 == i;
        TargetReached(g, carved, k);
      }
    }
  }

  /** The far cell of the k-th opening is reached from the corner. */
  lemma {:induction false} TargetReached(g: Grid, carved: seq<Wall>, k: nat)
    requires WellFormed(g) && |g.cells| > 0 && k < |carved|
    requires forall k :: 0 <= k < |carved| ==> Spans(g, carved[k]) && !HasWallAt(g, carved[k].cell1, carved[k].direction)
    requires forall k :: 0 <= k < |carved| ==> carved[k].cell1 == 0 || carved[k].cell1 in Targets(carved[..k])
    ensures Connected(g, 0, carved[k].cell2)
    decreases k
  {
    var w := carved[k];
    OpenStep(g, w.cell1, w.direction, w.cell2);
    if w.cell1 == 0 {
      Step(g, 0, w.cell2);
    } else {
      var j :| 0 <= j < k && carved[..k][j].cell2 == w.cell1;
      assert carved[j] == carved[..k][j];
      TargetReached(g, carved, j);
      var p :| PathFromTo(g, p, 0, w.cell1);
      Extend(g, p, 0, w.cell1, w.cell2);
    }
  }
}
