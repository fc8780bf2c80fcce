/**
 * The maze grid: `rows` rows of `cols` cells, stored row by row so that the
 * cell at column x and row y sits at index y * cols + x. Each cell also
 * records its own coordinates, as the source's cells do.
 */
module Grids {
  import opened Options
  import opened Terrains
  import opened Cells
  import opened Indices

  datatype Grid = Grid(cols: nat, rows: nat, cells: seq<Cell>)

  /** The bounds check on coordinates. */
  predicate IsValid(g: Grid, x: int, y: int)
  {
    0 <= x < g.cols && 0 <= y < g.rows
  }

  /** Row-major index of column x, row y (also the union-find id). */
  function Index(g: Grid, x: int, y: int): int
  {
    y * g.cols + x
  }

  /** Every in-bounds coordinate pair has an index inside the grid. */
  lemma IndexInRange(g: Grid, x: int, y: int)
    requires IsValid(g, x, y)
    ensures 0 <= Index(g, x, y) < g.cols * g.rows
  {
    assert y * g.cols <= (g.rows - 1) * g.cols by {
      MulMonotone(y, g.rows - 1, g.cols);
    }
    assert (g.rows - 1) * g.cols + g.cols == g.rows * g.cols;
  }

  lemma MulMonotone(a: nat, b: nat, c: nat)
    requires a <= b
    ensures a * c <= b * c
  {
  }

  /** Different in-bounds coordinates have different indices. */
  lemma IndexInjective(g: Grid, x1: int, y1: int, x2: int, y2: int)
    requires IsValid(g, x1, y1) && IsValid(g, x2, y2)
    requires Index(g, x1, y1) == Index(g, x2, y2)
    ensures x1 == x2 && y1 == y2
  {
    if y1 < y2 {
      MulMonotone(y1 + 1, y2, g.cols);
      assert false;
    } else if y2 < y1 {
      MulMonotone(y2 + 1, y1, g.cols);
      assert false;
    }
  }

  /**
   * The grid holds cols * rows cells and each cell's recorded coordinates
   * are in bounds and lead back to its own slot.
   */
  predicate WellFormed(g: Grid)
  {
    && |g.cells| == g.cols * g.rows
    && forall i :: 0 <= i < |g.cells| ==>
         IsValid(g, g.cells[i].x, g.cells[i].y) && Index(g, g.cells[i].x, g.cells[i].y) == i
  }

  /** The cell stored for in-bounds (x, y) records exactly (x, y). */
  lemma CellAt(g: Grid, x: int, y: int)
    requires WellFormed(g) && IsValid(g, x, y)
    ensures 0 <= Index(g, x, y) < |g.cells|
    ensures g.cells[Index(g, x, y)].x == x && g.cells[Index(g, x, y)].y == y
  {
    IndexInRange(g, x, y);
    var i := Index(g, x, y);
    IndexInjective(g, x, y, g.cells[i].x, g.cells[i].y);
  }

  /** Two grids with the same shape whose cells record the same coordinates. */
  predicate SameLayout(a: Grid, b: Grid)
  {
    && a.cols == b.cols && a.rows == b.rows && |a.cells| == |b.cells|
    && forall i :: 0 <= i < |a.cells| ==> a.cells[i].x == b.cells[i].x && a.cells[i].y == b.cells[i].y
  }

  /**
   * The in-bounds neighbour of cell i in direction d: what `isValid` guards
   * and `grid[y'][x']` then reads.
   */
  function Neighbor(g: Grid, i: nat, d: Direction): (r: Option<nat>)
    requires WellFormed(g) && i < |g.cells|
    ensures r.Some? <==> IsValid(g, g.cells[i].x + DeltaX(d), g.cells[i].y + DeltaY(d))
    ensures r.Some? ==> r.value < |g.cells| && r.value != i
    ensures r.Some? ==> g.cells[r.value].x == g.cells[i].x + DeltaX(d)
    ensures r.Some? ==> g.cells[r.value].y == g.cells[i].y + DeltaY(d)
  {
    var nx := g.cells[i].x + DeltaX(d);
    var ny := g.cells[i].y + DeltaY(d);
    if IsValid(g, nx, ny) then
      CellAt(g, nx, ny);
      OppositeUndoesStep(d);
      Some(Index(g, nx, ny))
    else
      None
  }

  /** Grids with the same layout have the same neighbour relation. */
  lemma SameLayoutSameNeighbors(a: Grid, b: Grid)
    requires WellFormed(a) && SameLayout(a, b)
    ensures WellFormed(b)
    ensures forall i, d :: 0 <= i < |a.cells| ==> Neighbor(a, i, d) == Neighbor(b, i, d)
  {
  }

  /** If n is the neighbour of i in direction d, i is n's neighbour the opposite way. */
  lemma NeighborBack(g: Grid, i: nat, d: Direction)
    requires WellFormed(g) && i < |g.cells| && Neighbor(g, i, d).Some?
    ensures Neighbor(g, Neighbor(g, i, d).value, Opposite(d)) == Some(i)
  {
    OppositeUndoesStep(d);
    var n := Neighbor(g, i, d).value;
    var back := Neighbor(g, n, Opposite(d));
    assert back.Some?;
    IndexInjective(g, g.cells[back.value].x, g.cells[back.value].y, g.cells[i].x, g.cells[i].y);
  }

  /** Neighbours in two different directions are two different cells. */
  lemma NeighborsDistinct(g: Grid, i: nat, d1: Direction, d2: Direction)
    requires WellFormed(g) && i < |g.cells| && d1 != d2
    requires Neighbor(g, i, d1).Some? && Neighbor(g, i, d2).Some?
    ensures Neighbor(g, i, d1).value != Neighbor(g, i, d2).value
  {
  }

  /** The wall flag of cell i on side d. */
  predicate HasWallAt(g: Grid, i: nat, d: Direction)
    requires i < |g.cells|
  {
    HasWall(g.cells[i], d)
  }

  /** Cell i's side d is open and leads to the in-bounds cell n. */
  predicate Through(g: Grid, i: nat, d: Direction, n: nat)
    requires WellFormed(g) && i < |g.cells|
  {
    !HasWallAt(g, i, d) && Neighbor(g, i, d) == Some(n)
  }

  /** n can be entered from i: some side of i is open and leads to n. */
  predicate Accessible(g: Grid, i: nat, n: nat)
    requires WellFormed(g) && i < |g.cells|
  {
    Through(g, i, Top, n) || Through(g, i, Right, n) || Through(g, i, Bottom, n) || Through(g, i, Left, n)
  }

  /** Wall flags agree across every shared boundary. */
  predicate Symmetric(g: Grid)
  {
    && WellFormed(g)
    && forall i, d :: 0 <= i < |g.cells| && Neighbor(g, i, d).Some? ==>
         HasWallAt(g, i, d) == HasWallAt(g, Neighbor(g, i, d).value, Opposite(d))
  }

  /** Going through an open side and back through the matching side. */
  lemma ThroughBack(g: Grid, i: nat, d: Direction, n: nat)
    requires Symmetric(g) && i < |g.cells| && Through(g, i, d, n)
    ensures n < |g.cells| && Through(g, n, Opposite(d), i)
  {
    NeighborBack(g, i, d);
  }

  /** In a symmetric grid, accessibility goes both ways. */
  lemma AccessibleBothWays(g: Grid, i: nat, n: nat)
    requires Symmetric(g) && i < |g.cells| && Accessible(g, i, n)
    ensures n < |g.cells| && Accessible(g, n, i)
  {
    if Through(g, i, Top, n) {
      ThroughBack(g, i, Top, n);
    } else if Through(g, i, Right, n) {
      ThroughBack(g, i, Right, n);
    } else if Through(g, i, Bottom, n) {
      ThroughBack(g, i, Bottom, n);
    } else {
      ThroughBack(g, i, Left, n);
    }
  }

  /**
   * The sides of cell i that are open and lead to an in-bounds cell, in the
   * order Top, Right, Bottom, Left.
   */
  function OpenDirections(g: Grid, i: nat): (r: seq<Direction>)
    requires WellFormed(g) && i < |g.cells|
    ensures forall d :: d in r <==> !HasWallAt(g, i, d) && Neighbor(g, i, d).Some?
    ensures forall a, b :: 0 <= a < b < |r| ==> Slot(r[a]) < Slot(r[b])
  {
    OpenFrom(g, i, 0)
  }

  /** The open, in-bounds sides of cell i among `Directions[k..]`, in storage order. */
  function OpenFrom(g: Grid, i: nat, k: nat): (r: seq<Direction>)
    requires WellFormed(g) && i < |g.cells| && k <= 4
    ensures forall d :: d in r <==> k <= Slot(d) && !HasWallAt(g, i, d) && Neighbor(g, i, d).Some?
    ensures forall a :: 0 <= a < |r| ==> k <= Slot(r[a])
    ensures forall a, b :: 0 <= a < b < |r| ==> Slot(r[a]) < Slot(r[b])
    decreases 4 - k
  {
    if k == 4 then []
    else
      var d := Directions[k];
      var rest := OpenFrom(g, i, k + 1);
      if !HasWallAt(g, i, d) && Neighbor(g, i, d).Some? then [d] + rest else rest
  }

  /**
   * `getAccessibleNeighbors`: the cells reachable through an open side of
   * cell i, one per open side, listed in the order of `OpenDirections`.
   */
  function AccessibleNeighbors(g: Grid, i: nat): (r: seq<nat>)
    requires WellFormed(g) && i < |g.cells|
    ensures |r| == |OpenDirections(g, i)|
    ensures forall k :: 0 <= k < |r| ==> Through(g, i, OpenDirections(g, i)[k], r[k])
    ensures forall n :: n in r <==> Accessible(g, i, n)
    ensures forall a, b :: 0 <= a < b < |r| ==> r[a] != r[b]
    ensures forall k :: 0 <= k < |r| ==> r[k] < |g.cells|
  {
    var dirs := OpenDirections(g, i);
    var r := seq(|dirs|, k requires 0 <= k < |dirs| => Neighbor(g, i, dirs[k]).value);
    ListedExactlyTheAccessible(g, i, dirs, r);
    ListedOnce(g, i, dirs, r);
    r
  }

  lemma ListedExactlyTheAccessible(g: Grid, i: nat, dirs: seq<Direction>, r: seq<nat>)
    requires WellFormed(g) && i < |g.cells| && dirs == OpenDirections(g, i)
    requires |r| == |dirs| && forall k :: 0 <= k < |r| ==> Neighbor(g, i, dirs[k]) == Some(r[k])
    ensures forall n :: n in r <==> Accessible(g, i, n)
  {
    forall n | n in r ensures Accessible(g, i, n) {
      ListedIsAccessible(g, i, dirs, r, n);
    }
    forall n | Accessible(g, i, n) ensures n in r {
      AccessibleIsListed(g, i, dirs, r, n);
    }
  }

  lemma ListedIsAccessible(g: Grid, i: nat, dirs: seq<Direction>, r: seq<nat>, n: nat)
    requires WellFormed(g) && i < |g.cells| && dirs == OpenDirections(g, i)
    requires |r| == |dirs| && forall k :: 0 <= k < |r| ==> Neighbor(g, i, dirs[k]) == Some(r[k])
    requires n in r
    ensures Accessible(g, i, n)
  {
    var k :| 0 <= k < |r| && r[k] == n;
    var d := dirs[k];
    assert d in dirs;
    assert Through(g, i, d, n);
    match d
    case Top =>
    case Right =>
    case Bottom =>
    case Left =>
  }

  lemma AccessibleIsListed(g: Grid, i: nat, dirs: seq<Direction>, r: seq<nat>, n: nat)
    requires WellFormed(g) && i < |g.cells| && dirs == OpenDirections(g, i)
    requires |r| == |dirs| && forall k :: 0 <= k < |r| ==> Neighbor(g, i, dirs[k]) == Some(r[k])
    requires Accessible(g, i, n)
    ensures n in r
  {
    var d: Direction;
    if Through(g, i, Top, n) { d := Top; }
    else if Through(g, i, Right, n) { d := Right; }
    else if Through(g, i, Bottom, n) { d := Bottom; }
    else { d := Left; }
    assert d in dirs;
    var k :| 0 <= k < |dirs| && dirs[k] == d;
    assert r[k] == n;
  }

  lemma ListedOnce(g: Grid, i: nat, dirs: seq<Direction>, r: seq<nat>)
    requires WellFormed(g) && i < |g.cells| && dirs == OpenDirections(g, i)
    requires |r| == |dirs| && forall k :: 0 <= k < |r| ==> Neighbor(g, i, dirs[k]) == Some(r[k])
    ensures forall a, b :: 0 <= a < b < |r| ==> r[a] != r[b]
  {
    forall a, b | 0 <= a < b < |r| ensures r[a] != r[b] {
      assert Slot(dirs[a]) < Slot(dirs[b]);
      NeighborsDistinct(g, i, dirs[a], dirs[b]);
    }
  }

  /**
   * The grid is connected through its geometric neighbour relation: a set
   * containing the corner cell that is closed under neighbours holds every
   * cell.
   */
  lemma GridConnected(g: Grid, s: set<nat>)
    requires WellFormed(g) && |g.cells| > 0 && 0 in s
    requires forall i, d :: 0 <= i < |g.cells| && i in s && Neighbor(g, i, d).Some? ==> Neighbor(g, i, d).value in s
    ensures forall i :: 0 <= i < |g.cells| ==> i in s
  {
    forall i | 0 <= i < |g.cells| ensures i in s {
      CoordinateReached(g, s, g.cells[i].x, g.cells[i].y);
    }
  }

  lemma {:induction false} CoordinateReached(g: Grid, s: set<nat>, x: int, y: int)
    requires WellFormed(g) && |g.cells| > 0 && 0 in s
    requires forall i, d :: 0 <= i < |g.cells| && i in s && Neighbor(g, i, d).Some? ==> Neighbor(g, i, d).value in s
    requires IsValid(g, x, y)
    ensures Index(g, x, y) in s
    decreases y, x
  {
    CellAt(g, x, y);
    if x > 0 {
      CoordinateReached(g, s, x - 1, y);
      CellAt(g, x - 1, y);
      var prev := Index(g, x - 1, y);
      assert Neighbor(g, prev, Right) == Some(Index(g, x, y));
    } else if y > 0 {
      CoordinateReached(g, s, x, y - 1);
      CellAt(g, x, y - 1);
      var prev := Index(g, x, y - 1);
      assert Neighbor(g, prev, Bottom) == Some(Index(g, x, y));
    }
  }

  /** The fields of two cells other than their wall flags agree. */
  predicate SameButWalls(a: Cell, b: Cell)
  {
    a.x == b.x && a.y == b.y && a.visited == b.visited && a.terrain == b.terrain && a.tag == b.tag
  }

  /**
   * `removeWall(c, n, dir)`: clears c's wall on side dir and n's wall on the
   * opposite side. No other flag or field changes.
   */
  function RemoveWall(g: Grid, c: nat, n: nat, dir: Direction): (r: Grid)
    requires c < |g.cells| && n < |g.cells|
    ensures SameLayout(g, r)
    ensures forall i, d :: 0 <= i < |g.cells| ==>
      HasWallAt(r, i, d) == (HasWallAt(g, i, d) && !(i == c && d == dir) && !(i == n && d == Opposite(dir)))
    ensures forall i :: 0 <= i < |g.cells| ==> SameButWalls(r.cells[i], g.cells[i])
  {
    var g1 := g.(cells := g.cells[c := OpenSide(g.cells[c], dir)]);
    g1.(cells := g1.cells[n := OpenSide(g1.cells[n], Opposite(dir))])
  }

  /**
   * Opening the wall between a cell and its geometric neighbour in that
   * direction keeps the wall flags symmetric.
   */
  lemma RemoveWallKeepsSymmetry(g: Grid, c: nat, dir: Direction)
    requires Symmetric(g) && c < |g.cells| && Neighbor(g, c, dir).Some?
    ensures Symmetric(RemoveWall(g, c, Neighbor(g, c, dir).value, dir))
  {
    var n := Neighbor(g, c, dir).value;
    var r := RemoveWall(g, c, n, dir);
    SameLayoutSameNeighbors(g, r);
    NeighborBack(g, c, dir);
    forall i, d | 0 <= i < |r.cells| && Neighbor(r, i, d).Some?
      ensures HasWallAt(r, i, d) == HasWallAt(r, Neighbor(r, i, d).value, Opposite(d))
    {
      var m := Neighbor(g, i, d).value;
      NeighborBack(g, i, d);
      OppositeInvolution(d);
      OppositeInvolution(dir);
    }
  }

  /** Every cell is exactly as the `Cell` constructor leaves it. */
  predicate Fresh(g: Grid)
  {
    forall i :: 0 <= i < |g.cells| ==> g.cells[i] == NewCell(g.cells[i].x, g.cells[i].y)
  }

  /** `initGrid`: a rows-by-cols grid of new cells, cell (x, y) at index y*cols+x. */
  function InitGrid(cols: nat, rows: nat): (g: Grid)
    ensures g.cols == cols && g.rows == rows
    ensures WellFormed(g) && Fresh(g)
  {
    var g := Grid(cols, rows, seq(cols * rows, i requires 0 <= i < cols * rows => NewCell(i % cols, i / cols)));
    forall i | 0 <= i < cols * rows
      ensures IsValid(g, i % cols, i / cols) && Index(g, i % cols, i / cols) == i
    {
      RowMajorSplit(i, cols, rows);
    }
    g
  }

  lemma RowMajorSplit(i: nat, cols: nat, rows: nat)
    requires i < cols * rows
    ensures cols > 0
    ensures 0 <= i % cols < cols && 0 <= i / cols < rows
    ensures (i / cols) * cols + i % cols == i
  {
    assert cols * (i / cols) + i % cols == i;
    if i / cols >= rows {
      MulMonotone(rows, i / cols, cols);
      assert false;
    }
  }

  /** A grid with every wall present is symmetric. */
  lemma AllWallsSymmetric(g: Grid)
    requires WellFormed(g) && Fresh(g)
    ensures Symmetric(g)
  {
  }

  /** Sets the visited flag of cell i; nothing else changes. */
  function SetVisited(g: Grid, i: nat, v: bool): (r: Grid)
    requires i < |g.cells|
    ensures SameLayout(g, r)
    ensures r.cells[i].visited == v
    ensures forall k :: 0 <= k < |g.cells| && k != i ==> r.cells[k] == g.cells[k]
    ensures r.cells[i].walls == g.cells[i].walls && r.cells[i].terrain == g.cells[i].terrain
    ensures r.cells[i].tag == g.cells[i].tag
  {
    g.(cells := g.cells[i := g.cells[i].(visited := v)])
  }

  /** `resetVisited`: clears every visited flag and keeps everything else. */
  function ResetVisited(g: Grid): (r: Grid)
    ensures SameLayout(g, r)
    ensures forall k :: 0 <= k < |r.cells| ==> !r.cells[k].visited
    ensures forall k :: 0 <= k < |r.cells| ==> r.cells[k].walls == g.cells[k].walls
    ensures forall k :: 0 <= k < |r.cells| ==> r.cells[k].terrain == g.cells[k].terrain && r.cells[k].tag == g.cells[k].tag
  {
    g.(cells := seq(|g.cells|, k requires 0 <= k < |g.cells| => g.cells[k].(visited := false)))
  }

  /** Replaces the floor kind of cell i (`setTerrain`); nothing else changes. */
  function SetCellTerrain(g: Grid, i: nat, t: Terrain): (r: Grid)
    requires i < |g.cells|
    ensures SameLayout(g, r)
    ensures r.cells[i].terrain == t
    ensures forall k :: 0 <= k < |g.cells| && k != i ==> r.cells[k] == g.cells[k]
    ensures r.cells[i].walls == g.cells[i].walls && r.cells[i].visited == g.cells[i].visited
    ensures r.cells[i].tag == g.cells[i].tag
  {
    g.(cells := g.cells[i := SetTerrain(g.cells[i], t)])
  }

  /** Sets the role label of cell i; nothing else changes. */
  function SetTag(g: Grid, i: nat, tag: string): (r: Grid)
    requires i < |g.cells|
    ensures SameLayout(g, r)
    ensures r.cells[i].tag == Some(tag)
    ensures forall k :: 0 <= k < |g.cells| && k != i ==> r.cells[k] == g.cells[k]
    ensures r.cells[i].walls == g.cells[i].walls && r.cells[i].visited == g.cells[i].visited
    ensures r.cells[i].terrain == g.cells[i].terrain
  {
    g.(cells := g.cells[i := g.cells[i].(tag := Some(tag))])
  }

  /** Changing no wall flag of a symmetric grid (same layout) keeps it symmetric. */
  lemma SameWallsKeepsSymmetry(g: Grid, r: Grid)
    requires Symmetric(g) && SameLayout(g, r)
    requires forall i :: 0 <= i < |g.cells| ==> r.cells[i].walls == g.cells[i].walls
    ensures Symmetric(r)
  {
    SameLayoutSameNeighbors(g, r);
    forall i, d | 0 <= i < |r.cells| && Neighbor(r, i, d).Some?
      ensures HasWallAt(r, i, d) == HasWallAt(r, Neighbor(r, i, d).value, Opposite(d))
    {
      assert HasWallAt(g, i, d) == HasWallAt(g, Neighbor(g, i, d).value, Opposite(d));
    }
  }

  /**
   * A wall-edge of the generators (the source's `Wall`): `cell2` is the
   * neighbour of `cell1` in `direction`.
   */
  datatype Wall = Wall(cell1: nat, cell2: nat, direction: Direction)

  /** w joins two adjacent cells of g in the direction it names. */
  predicate Spans(g: Grid, w: Wall)
  {
    WellFormed(g) && w.cell1 < |g.cells| && Neighbor(g, w.cell1, w.direction) == Some(w.cell2)
  }

  /** Opening w clears side d of cell i: w's own side of cell1 or the matching side of cell2. */
  predicate Opens(w: Wall, i: nat, d: Direction)
  {
    (w.cell1 == i && w.direction == d) || (w.cell2 == i && Opposite(w.direction) == d)
  }

  /** The open sides of g are exactly those open in g0 plus those the walls in ws cleared. */
  ghost predicate OpenedExactly(g0: Grid, g: Grid, ws: seq<Wall>)
    requires SameLayout(g0, g)
  {
    forall i, d :: 0 <= i < |g.cells| ==>
      (!HasWallAt(g, i, d) <==> !HasWallAt(g0, i, d) || exists k :: 0 <= k < |ws| && Opens(ws[k], i, d))
  }

  lemma OpenedNothing(g: Grid)
    ensures SameLayout(g, g) && OpenedExactly(g, g, [])
  {
  }

  /** `removeWall` on w extends the record of opened walls by w. */
  lemma OpenedOneMore(g0: Grid, g: Grid, ws: seq<Wall>, w: Wall)
    requires SameLayout(g0, g) && OpenedExactly(g0, g, ws)
    requires w.cell1 < |g.cells| && w.cell2 < |g.cells|
    ensures SameLayout(g0, RemoveWall(g, w.cell1, w.cell2, w.direction))
    ensures OpenedExactly(g0, RemoveWall(g, w.cell1, w.cell2, w.direction), ws + [w])
  {
    var r := RemoveWall(g, w.cell1, w.cell2, w.direction);
    var ws' := ws + [w];
    forall i, d | 0 <= i < |r.cells|
      ensures !HasWallAt(r, i, d) <==> !HasWallAt(g0, i, d) || exists k :: 0 <= k < |ws'| && Opens(ws'[k], i, d)
    {
      if exists k :: 0 <= k < |ws| && Opens(ws[k], i, d) {
        var k :| 0 <= k < |ws| && Opens(ws[k], i, d);
        assert ws'[k] == ws[k];
      }
      if exists k :: 0 <= k < |ws'| && Opens(ws'[k], i, d) {
        var k :| 0 <= k < |ws'| && Opens(ws'[k], i, d);
        if k < |ws| {
          assert ws'[k] == ws[k];
        }
      }
      assert ws'[|ws|] == w;
    }
  }

  /** Changing anything but wall flags keeps the record of opened walls. */
  lemma OpenedSameWalls(g0: Grid, g: Grid, r: Grid, ws: seq<Wall>)
    requires SameLayout(g0, g) && SameLayout(g, r) && OpenedExactly(g0, g, ws)
    requires forall i :: 0 <= i < |g.cells| ==> r.cells[i].walls == g.cells[i].walls
    ensures SameLayout(g0, r) && OpenedExactly(g0, r, ws)
  {
    forall i, d | 0 <= i < |r.cells|
      ensures !HasWallAt(r, i, d) <==> !HasWallAt(g0, i, d) || exists k :: 0 <= k < |ws| && Opens(ws[k], i, d)
    {
      assert HasWallAt(r, i, d) == HasWallAt(g, i, d);
    }
  }
}
