/**
 * The wall-edge list Kruskal's generator starts from. The nested loops
 * visit the cells row by row and add, for each cell, the edge to its right
 * neighbour and then the edge to the neighbour below, when those exist.
 */
module EdgeLists {
  import opened Options
  import opened Cells
  import opened Grids

  /** A wall-edge from a cell to its right or lower neighbour. */
  predicate Edge(g: Grid, w: Wall)
  {
    Spans(g, w) && (w.direction == Right || w.direction == Bottom)
  }

  /** The edges added for the cell at column x, row y. */
  function CellEdges(g: Grid, x: nat, y: nat): (r: seq<Wall>)
    requires WellFormed(g) && IsValid(g, x, y)
    ensures |r| == (if x < g.cols - 1 then 1 else 0) + (if y < g.rows - 1 then 1 else 0)
  {
    CellAt(g, x, y);
    (if x < g.cols - 1 then CellAt(g, x + 1, y); [Wall(Index(g, x, y), Index(g, x + 1, y), Right)] else [])
    + (if y < g.rows - 1 then CellAt(g, x, y + 1); [Wall(Index(g, x, y), Index(g, x, y + 1), Bottom)] else [])
  }

  /** The edges of row y from column x onwards. */
  function RowEdges(g: Grid, x: nat, y: nat): seq<Wall>
    requires WellFormed(g) && x <= g.cols && y < g.rows
    decreases g.cols - x
  {
    if x == g.cols then [] else CellEdges(g, x, y) + RowEdges(g, x + 1, y)
  }

  /** The edges of rows y onwards. */
  function EdgesFrom(g: Grid, y: nat): seq<Wall>
    requires WellFormed(g) && y <= g.rows
    decreases g.rows - y
  {
    if y == g.rows then [] else RowEdges(g, 0, y) + EdgesFrom(g, y + 1)
  }

  /**
   * The list `runKruskalAnimation` builds before shuffling: it holds exactly
   * the edges to right and lower neighbours, each once.
   */
  function AllWalls(g: Grid): (r: seq<Wall>)
    requires WellFormed(g)
    ensures forall w :: w in r <==> Edge(g, w)
    ensures forall a, b :: 0 <= a < b < |r| ==> r[a] != r[b]
  {
    var r := EdgesFrom(g, 0);
    FromSound(g, 0);
    forall w | Edge(g, w) ensures w in r {
      EdgeListed(g, w);
    }
    FromAscending(g, 0);
    r
  }

  /** Every listed edge is an edge, starting at the cell it was listed for. */
  lemma CellSound(g: Grid, x: nat, y: nat)
    requires WellFormed(g) && IsValid(g, x, y)
    ensures forall w :: w in CellEdges(g, x, y) ==> Edge(g, w) && w.cell1 == Index(g, x, y)
  {
    CellAt(g, x, y);
    if x < g.cols - 1 {
      CellAt(g, x + 1, y);
    }
    if y < g.rows - 1 {
      CellAt(g, x, y + 1);
    }
  }

  lemma {:induction false} RowSound(g: Grid, x: nat, y: nat)
    requires WellFormed(g) && x <= g.cols && y < g.rows
    ensures forall w :: w in RowEdges(g, x, y) ==> Edge(g, w)
    decreases g.cols - x
  {
    if x < g.cols {
      CellSound(g, x, y);
      RowSound(g, x + 1, y);
    }
  }

  lemma {:induction false} FromSound(g: Grid, y: nat)
    requires WellFormed(g) && y <= g.rows
    ensures forall w :: w in EdgesFrom(g, y) ==> Edge(g, w)
    decreases g.rows - y
  {
    if y < g.rows {
      RowSound(g, 0, y);
      FromSound(g, y + 1);
    }
  }

  /** The edges listed for column x appear in the row from any earlier column. */
  lemma {:induction false} RowComplete(g: Grid, x0: nat, x: nat, y: nat)
    requires WellFormed(g) && x0 <= x < g.cols && y < g.rows
    ensures forall w :: w in CellEdges(g, x, y) ==> w in RowEdges(g, x0, y)
    decreases x - x0
  {
    if x0 < x {
      RowComplete(g, x0 + 1, x, y);
    }
  }

  lemma {:induction false} FromComplete(g: Grid, y0: nat, x: nat, y: nat)
    requires WellFormed(g) && y0 <= y < g.rows && x < g.cols
    ensures forall w :: w in CellEdges(g, x, y) ==> w in EdgesFrom(g, y0)
    decreases y - y0
  {
    if y0 < y {
      FromComplete(g, y0 + 1, x, y);
    } else {
      RowComplete(g, 0, x, y);
    }
  }

  /** Every edge of the grid is listed. */
  lemma EdgeListed(g: Grid, w: Wall)
    requires WellFormed(g) && Edge(g, w)
    ensures w in EdgesFrom(g, 0)
  {
    var x, y := g.cells[w.cell1].x, g.cells[w.cell1].y;
    CellAt(g, x, y);
    FromComplete(g, 0, x, y);
    if w.direction == Right {
      CellAt(g, x + 1, y);
      assert w == CellEdges(g, x, y)[0];
    } else {
      CellAt(g, x, y + 1);
      assert w == CellEdges(g, x, y)[|CellEdges(g, x, y)| - 1];
    }
  }

  /** Position of an edge in row-major order: twice its first cell, plus one when it goes down. */
  function Key(w: Wall): nat
  {
    2 * w.cell1 + (if w.direction == Right then 0 else 1)
  }

  predicate Ascending(s: seq<Wall>)
  {
    forall a, b :: 0 <= a < b < |s| ==> Key(s[a]) < Key(s[b])
  }

  predicate Within(s: seq<Wall>, lo: int, hi: int)
  {
    forall k :: 0 <= k < |s| ==> lo <= Key(s[k]) < hi
  }

  lemma AscendingJoin(s: seq<Wall>, t: seq<Wall>, lo: int, mid: int, hi: int)
    requires Ascending(s) && Within(s, lo, mid) && Ascending(t) && Within(t, mid, hi) && lo <= mid <= hi
    ensures Ascending(s + t) && Within(s + t, lo, hi)
  {
    var u := s + t;
    forall a, b | 0 <= a < b < |u| ensures Key(u[a]) < Key(u[b]) {
      if b < |s| {
        assert u[a] == s[a] && u[b] == s[b];
      } else if a >= |s| {
        assert u[a] == t[a - |s|] && u[b] == t[b - |s|];
      } else {
        assert u[a] == s[a] && u[b] == t[b - |s|];
      }
    }
    forall k | 0 <= k < |u| ensures lo <= Key(u[k]) < hi {
      if k < |s| {
        assert u[k] == s[k];
      } else {
        assert u[k] == t[k - |s|];
      }
    }
  }

  lemma {:induction false} RowAscending(g: Grid, x: nat, y: nat)
    requires WellFormed(g) && x <= g.cols && y < g.rows
    ensures Ascending(RowEdges(g, x, y)) && Within(RowEdges(g, x, y), 2 * Index(g, x, y), 2 * Index(g, g.cols, y))
    decreases g.cols - x
  {
    if x < g.cols {
      CellSound(g, x, y);
      var c := CellEdges(g, x, y);
      assert Ascending(c) && Within(c, 2 * Index(g, x, y), 2 * Index(g, x + 1, y));
      RowAscending(g, x + 1, y);
      AscendingJoin(c, RowEdges(g, x + 1, y), 2 * Index(g, x, y), 2 * Index(g, x + 1, y), 2 * Index(g, g.cols, y));
    }
  }

  lemma {:induction false} FromAscending(g: Grid, y: nat)
    requires WellFormed(g) && y <= g.rows
    ensures Ascending(EdgesFrom(g, y)) && Within(EdgesFrom(g, y), 2 * Index(g, 0, y), 2 * Index(g, 0, g.rows))
    decreases g.rows - y
  {
    if y < g.rows {
      RowAscending(g, 0, y);
      FromAscending(g, y + 1);
      assert Index(g, g.cols, y) == Index(g, 0, y + 1);
      assert Index(g, 0, y + 1) <= Index(g, 0, g.rows) by {
        MulMonotone(y + 1, g.rows, g.cols);
      }
      AscendingJoin(RowEdges(g, 0, y), EdgesFrom(g, y + 1), 2 * Index(g, 0, y), 2 * Index(g, 0, y + 1), 2 * Index(g, 0, g.rows));
    }
  }

  lemma {:induction false} RowCount(g: Grid, x: nat, y: nat)
    requires WellFormed(g) && x <= g.cols && y < g.rows
    ensures |RowEdges(g, x, y)| + (if x < g.cols then 1 else 0) == (g.cols - x) + (if y < g.rows - 1 then g.cols - x else 0)
    decreases g.cols - x
  {
    if x < g.cols {
      RowCount(g, x + 1, y);
    }
  }

  lemma {:induction false} FromCount(g: Grid, y: nat)
    requires WellFormed(g) && y <= g.rows && g.cols > 0
    ensures |EdgesFrom(g, y)| == (g.rows - y) * (g.cols - 1) + (if y < g.rows then (g.rows - y - 1) * g.cols else 0)
    decreases g.rows - y
  {
    if y < g.rows {
      RowCount(g, 0, y);
      FromCount(g, y + 1);
      var m := g.rows - y - 1;
      assert (m + 1) * (g.cols - 1) == m * (g.cols - 1) + (g.cols - 1);
      if m > 0 {
        assert m * g.cols == (m - 1) * g.cols + g.cols;
      }
    }
  }

  lemma {:induction false} NoColumnsNoEdges(g: Grid, y: nat)
    requires WellFormed(g) && y <= g.rows && g.cols == 0
    ensures |EdgesFrom(g, y)| == 0
    decreases g.rows - y
  {
    if y < g.rows {
      NoColumnsNoEdges(g, y + 1);
    }
  }

  /** The list holds ROWS*(COLS-1) horizontal and (ROWS-1)*COLS vertical edges. */
  lemma AllWallsCount(g: Grid)
    requires WellFormed(g)
    ensures g.rows > 0 && g.cols > 0 ==> |AllWalls(g)| == g.rows * (g.cols - 1) + (g.rows - 1) * g.cols
    ensures g.rows == 0 || g.cols == 0 ==> |AllWalls(g)| == 0
  {
    if g.cols == 0 {
      NoColumnsNoEdges(g, 0);
    } else {
      FromCount(g, 0);
    }
  }

  /** An edge leads to a cell further right or further down. */
  lemma EdgeForward(g: Grid, w: Wall)
    requires WellFormed(g) && Edge(g, w)
    ensures w.cell2 < |g.cells|
    ensures g.cells[w.cell1].x + g.cells[w.cell1].y + 1 == g.cells[w.cell2].x + g.cells[w.cell2].y
  {
  }

  /** Two listed edges joining the same two cells are the same edge. */
  lemma PairListedOnce(g: Grid, a: Wall, b: Wall)
    requires WellFormed(g) && a in AllWalls(g) && b in AllWalls(g)
    requires (a.cell1 == b.cell1 && a.cell2 == b.cell2) || (a.cell1 == b.cell2 && a.cell2 == b.cell1)
    ensures a == b
  {
    EdgeForward(g, a);
    EdgeForward(g, b);
    if a.direction != b.direction {
      NeighborsDistinct(g, a.cell1, a.direction, b.direction);
    }
  }

  /** Every pair of adjacent cells is joined by a listed edge, one way or the other. */
  lemma PairListed(g: Grid, i: nat, d: Direction)
    requires WellFormed(g) && i < |g.cells| && Neighbor(g, i, d).Some?
    ensures Wall(i, Neighbor(g, i, d).value, d) in AllWalls(g) ||
            Wall(Neighbor(g, i, d).value, i, Opposite(d)) in AllWalls(g)
  {
    if d == Top || d == Left {
      NeighborBack(g, i, d);
    }
  }
}
