/**
 * What the generator does after carving: paint a floor on every cell and
 * place the start in the top-left corner and the exit in the rightmost
 * third of the grid.
 */
module Placement {
  import opened Options
  import opened Terrains
  import opened Cells
  import opened Grids
  import opened Randoms

  /**
   * The floor `generateTerrainOnly` gives a cell for a draw in [0, 1): dirt
   * below 0.50, grass below 0.75, mud below 0.90, water above.
   */
  function TerrainFor(chance: real): Terrain
  {
    if chance < 0.50 then Dirt
    else if chance < 0.75 then Grass
    else if chance < 0.90 then Mud
    else Water
  }

  /** The lower end of the band of draws giving each kind. */
  function BandStart(t: Terrain): real
  {
    match t
    case Dirt => 0.0
    case Grass => 0.50
    case Mud => 0.75
    case Water => 0.90
  }

  /** The upper end of the band of draws giving each kind. */
  function BandEnd(t: Terrain): real
  {
    match t
    case Dirt => 0.50
    case Grass => 0.75
    case Mud => 0.90
    case Water => 1.0
  }

  /**
   * The bands tile [0, 1) in declaration order, so a kind is chosen with
   * probability 0.50, 0.25, 0.15 and 0.10, and exactly the draws in its
   * band choose it.
   */
  lemma TerrainBands(chance: real, t: Terrain)
    requires 0.0 <= chance < 1.0
    ensures TerrainFor(chance) == t <==> BandStart(t) <= chance < BandEnd(t)
    ensures BandStart(Dirt) == 0.0 && BandEnd(Water) == 1.0
    ensures Ordinal(t) < 3 ==> BandEnd(t) == BandStart(Kinds[Ordinal(t) + 1])
    ensures BandEnd(Dirt) - BandStart(Dirt) == 0.50 && BandEnd(Grass) - BandStart(Grass) == 0.25
    ensures BandEnd(Mud) - BandStart(Mud) == 0.15 && BandEnd(Water) - BandStart(Water) == 0.10
  {
  }

  /** A larger draw never gives a cheaper floor. */
  lemma TerrainMonotone(a: real, b: real)
    requires a <= b
    ensures Ordinal(TerrainFor(a)) <= Ordinal(TerrainFor(b))
    ensures Cost(TerrainFor(a)) <= Cost(TerrainFor(b))
  {
  }

  /**
   * `generateTerrainOnly`: the loops visit cells in row-major order, so the
   * k-th draw paints cell k. Only floors change.
   */
  function PaintTerrain(g: Grid, chance: nat -> real): (r: Grid)
    ensures SameLayout(g, r)
    ensures forall i :: 0 <= i < |g.cells| ==> r.cells[i].terrain == TerrainFor(chance(i))
    ensures forall i :: 0 <= i < |g.cells| ==>
      r.cells[i].walls == g.cells[i].walls && r.cells[i].visited == g.cells[i].visited && r.cells[i].tag == g.cells[i].tag
  {
    var r := g.(cells := seq(|g.cells|, i requires 0 <= i < |g.cells| => SetTerrain(g.cells[i], TerrainFor(chance(i)))));
    forall i | 0 <= i < |g.cells| ensures r.cells[i].x == g.cells[i].x && r.cells[i].y == g.cells[i].y {
      assert r.cells[i] == SetTerrain(g.cells[i], TerrainFor(chance(i)));
    }
    r
  }

  /** The grid with its start and exit, as `setupStartAndExit` leaves them. */
  datatype Placed = Placed(g: Grid, start: nat, exit: nat)

  /** For at least three columns the exit band [2c/3, 2c/3 + c/3) lies inside the grid, right of column 1. */
  lemma ExitBand(cols: nat)
    requires cols >= 3
    ensures 2 <= cols * 2 / 3 && cols * 2 / 3 + cols / 3 <= cols && cols / 3 > 0
  {
    var q, m := cols / 3, cols % 3;
    assert cols == 3 * q + m;
    assert cols * 2 == 3 * (2 * q) + 2 * m;
    if m == 2 {
      assert cols * 2 / 3 == 2 * q + 1;
    } else {
      assert cols * 2 / 3 == 2 * q;
    }
  }

  /**
   * `setupStartAndExit`, with draws drawX and drawY for the two `nextInt`
   * calls. With no rows or no columns `grid[0][0]` fails; with fewer than
   * three columns `nextInt(COLS / 3)` fails; both are None. Otherwise the
   * start is the corner cell, labelled "Start"; the exit is labelled "EXIT",
   * gets a dirt floor, sits in the rightmost third and is not the start;
   * no other cell and no wall or visited flag changes.
   */
  function SetupStartAndExit(g: Grid, drawX: nat, drawY: nat): (r: Option<Placed>)
    requires WellFormed(g)
    ensures r.None? <==> g.rows == 0 || g.cols < 3
    ensures r.Some? ==> SameLayout(g, r.value.g)
    ensures r.Some? ==> r.value.start == 0 && g.cells[0].x == 0 && g.cells[0].y == 0
    ensures r.Some? ==> r.value.exit < |g.cells| && r.value.exit != r.value.start
    ensures r.Some? ==>
      g.cols * 2 / 3 <= g.cells[r.value.exit].x < g.cols * 2 / 3 + g.cols / 3 <= g.cols
      && 0 <= g.cells[r.value.exit].y < g.rows
    ensures r.Some? ==> drawX < g.cols / 3 && drawY < g.rows ==>
      g.cells[r.value.exit].x == g.cols * 2 / 3 + drawX && g.cells[r.value.exit].y == drawY
    ensures r.Some? ==> r.value.g.cells[0].tag == Some(StartLabel) && r.value.g.cells[0].terrain == g.cells[0].terrain
    ensures r.Some? ==> r.value.g.cells[r.value.exit].tag == Some(ExitLabel) && r.value.g.cells[r.value.exit].terrain == Dirt
    ensures r.Some? ==> forall k :: 0 <= k < |g.cells| && k != r.value.start && k != r.value.exit ==> r.value.g.cells[k] == g.cells[k]
    ensures r.Some? ==> forall k :: 0 <= k < |g.cells| ==>
      r.value.g.cells[k].walls == g.cells[k].walls && r.value.g.cells[k].visited == g.cells[k].visited
  {
    if g.rows == 0 || g.cols == 0 then None
    else
      CellAt(g, 0, 0);
      var start := Index(g, 0, 0);
      var s := SetTag(g, start, StartLabel);
      if g.cols / 3 == 0 then None
      else
        ExitBand(g.cols);
        var ex := NextInt(drawX, g.cols / 3) + g.cols * 2 / 3;
        var ey := NextInt(drawY, g.rows);
        CellAt(g, ex, ey);
        var exit := Index(g, ex, ey);
        Some(Placed(SetCellTerrain(SetTag(s, exit, ExitLabel), exit, Dirt), start, exit))
  }

  /** Every cell of the exit band is the exit for some pair of draws. */
  lemma EveryExitCellReachable(g: Grid, x: int, y: int)
    requires WellFormed(g) && g.cols >= 3 && 0 <= y < g.rows
    requires g.cols * 2 / 3 <= x < g.cols * 2 / 3 + g.cols / 3
    ensures SetupStartAndExit(g, x - g.cols * 2 / 3, y).Some?
    ensures var r := SetupStartAndExit(g, x - g.cols * 2 / 3, y).value;
      g.cells[r.exit].x == x && g.cells[r.exit].y == y
  {
  }
}
