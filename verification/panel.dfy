/**
 * The panel that drives everything: `initGrid`, `generateMaze` (carve with
 * Prim's or Kruskal's generator, paint floors, place start and exit, clear
 * the visited flags) and the four `solve*` entry points, all behind the
 * shared `isWorking` guard. A worker thread is modelled as running to its
 * end at once; one that throws leaves `isWorking` set.
 */
module Panels {
  import opened Options
  import opened Terrains
  import opened Cells
  import opened Grids
  import opened Paths
  import opened Placement
  import opened PrimGenerator
  import opened KruskalGenerator
  import opened EdgeLists
  import opened BreadthFirst
  import opened DepthFirst
  import opened Costs
  import opened WeightedSearch

  /** The panel's state: the grid, `startCell`, `endCell`, `isWorking` and `currentPath`. */
  datatype Panel = Panel(g: Grid, start: Option<nat>, exit: Option<nat>, working: bool, path: seq<nat>)

  /** The random draws one generation consumes. */
  datatype Draws = Draws(rnd: nat -> nat, chance: nat -> real, exitX: nat, exitY: nat)

  /** The four solvers behind the panel's buttons. */
  datatype Solver = BfsSolver | DfsSolver | DijkstraSolver | AStarSolver

  /**
   * What holds of every panel: a well-formed grid, start and exit inside it,
   * and, when idle with a start, an exit as well and a symmetric grid.
   */
  ghost predicate Consistent(p: Panel)
  {
    && WellFormed(p.g)
    && (p.start.Some? ==> p.start.value < |p.g.cells|)
    && (p.exit.Some? ==> p.exit.value < |p.g.cells|)
    && (!p.working && p.start.Some? ==> p.exit.Some? && Symmetric(p.g))
  }

  /** The constructor: a fresh grid, no start or exit, idle. */
  function NewPanel(cols: nat, rows: nat): (p: Panel)
    ensures Consistent(p) && !p.working && p.start.None? && p.exit.None? && p.path == []
    ensures p.g.cols == cols && p.g.rows == rows && Fresh(p.g)
  {
    Panel(InitGrid(cols, rows), None, None, false, [])
  }

  /** part appears in s starting at position i. */
  predicate OccursAt(s: string, part: string, i: nat)
  {
    i + |part| <= |s| && s[i..i + |part|] == part
  }

  /** `String.contains`: a contained string is never longer, and it is found where it occurs. */
  predicate Contains(s: string, part: string): (r: bool)
    ensures r ==> |part| <= |s|
    ensures forall i: nat :: OccursAt(s, part, i) ==> r
  {
    exists i: nat | i <= |s| :: OccursAt(s, part, i)
  }

  /** The empty string is in every string, and every string contains itself. */
  lemma ContainsTrivial(s: string)
    ensures Contains(s, []) && Contains(s, s)
  {
    assert OccursAt(s, [], 0) && OccursAt(s, s, 0);
  }

  /** The button labels choose as intended: "Kruskal's" selects Kruskal, "Prim's" does not. */
  lemma LabelsSelect()
    ensures Contains("Kruskal's", "Kruskal")
    ensures !Contains("Prim's", "Kruskal")
  {
    assert OccursAt("Kruskal's", "Kruskal", 0);
  }

  /** Grids with the same layout and the same walls connect the same cells. */
  lemma SameWallsConnect(g: Grid, r: Grid, a: nat, b: nat)
    requires WellFormed(g) && SameLayout(g, r) && Connected(g, a, b)
    requires forall i :: 0 <= i < |g.cells| ==> r.cells[i].walls == g.cells[i].walls
    ensures Connected(r, a, b)
  {
    var p :| PathFromTo(g, p, a, b);
    WiderPath(g, r, p, a, b);
  }

  /**
   * The cells reachable from the corner, and the walls, are the same in
   * both grids.
   */
  lemma SameWallsFromCorner(g: Grid, r: Grid)
    requires WellFormed(g) && SameLayout(g, r) && |g.cells| > 0
    requires forall i :: 0 <= i < |g.cells| ==> r.cells[i].walls == g.cells[i].walls
    requires forall i :: 0 <= i < |g.cells| ==> Connected(g, 0, i)
    ensures forall i :: 0 <= i < |r.cells| ==> Connected(r, 0, i)
  {
    forall i | 0 <= i < |r.cells| ensures Connected(r, 0, i) {
      SameWallsConnect(g, r, 0, i);
    }
  }

  /**
   * The carving step of `generateMaze`: Kruskal's generator when the
   * algorithm name contains "Kruskal", Prim's otherwise; None when Prim's
   * generator reads `grid[0][0]` of an empty grid and throws. The result is
   * a symmetric grid of the same layout, floors and labels, with one opening
   * fewer than cells and every cell reached from the corner.
   */
  method CarveMaze(g0: Grid, algorithm: string, rnd: nat -> nat) returns (r: Option<Grid>, carved: seq<Wall>)
    requires WellFormed(g0) && Fresh(g0)
    ensures r.None? <==> |g0.cells| == 0 && !Contains(algorithm, "Kruskal")
    ensures r.Some? ==> SameLayout(g0, r.value) && Symmetric(r.value)
    ensures r.Some? ==> forall i :: 0 <= i < |g0.cells| ==>
      r.value.cells[i].terrain == g0.cells[i].terrain && r.value.cells[i].tag == g0.cells[i].tag
    ensures r.Some? && |g0.cells| > 0 ==> |carved| == |g0.cells| - 1
    ensures r.Some? ==> forall i :: 0 <= i < |g0.cells| ==> Connected(r.value, 0, i)
    ensures r.Some? ==> OpenedExactly(g0, r.value, carved)
    ensures r.Some? ==> forall a, b :: 0 <= a < b < |carved| ==> carved[a] != carved[b]
    ensures Contains(algorithm, "Kruskal") ==> forall w :: w in carved ==> w in AllWalls(g0)
  {
    AllWallsSymmetric(g0);
    if Contains(algorithm, "Kruskal") {
      var g;
      g, carved := Kruskal(g0, rnd);
      r := Some(g);
    } else if |g0.cells| == 0 {
      r, carved := None, [];
    } else {
      var g;
      g, carved := Prim(g0, rnd);
      PrimConnects(g, carved);
      PrimCarvedDistinct(carved);
      r := Some(g);
    }
  }

  /**
   * `generateMaze`. A busy panel ignores the call. Otherwise the grid is
   * re-initialised, start and exit and the path are cleared, the maze is
   * carved, floors are painted, start and exit are placed and the visited
   * flags are cleared. Exactly when the grid has no rows or fewer than three
   * columns does the worker throw, which leaves the panel busy for good;
   * otherwise it ends idle with the start in the corner, the exit in the
   * band of `COLS / 3` columns from `COLS * 2 / 3` on a dirt floor, every
   * cell reachable from the start, no cell visited, and open exactly the
   * |cells| - 1 distinct walls the generator carved.
   */
  method GenerateMaze(p: Panel, algorithm: string, draws: Draws) returns (p': Panel, carved: seq<Wall>)
    requires Consistent(p)
    ensures Consistent(p')
    ensures p.working ==> p' == p
    ensures !p.working ==> p'.g.cols == p.g.cols && p'.g.rows == p.g.rows && p'.path == []
    ensures !p.working ==> (p'.working <==> p.g.rows == 0 || p.g.cols < 3)
    ensures !p'.working ==> p'.start == Some(0) && p'.exit.Some? && p'.exit.value != 0
    ensures !p'.working ==> p'.g.cells[p'.exit.value].terrain == Dirt
    ensures !p'.working ==>
      p'.g.cols * 2 / 3 <= p'.g.cells[p'.exit.value].x < p'.g.cols * 2 / 3 + p'.g.cols / 3 <= p'.g.cols
    ensures !p'.working ==> forall i :: 0 <= i < |p'.g.cells| ==> Connected(p'.g, 0, i) && !p'.g.cells[i].visited
    ensures !p.working && !p'.working ==> |carved| == |p'.g.cells| - 1
    ensures !p.working && !p'.working ==>
      SameLayout(InitGrid(p.g.cols, p.g.rows), p'.g) && OpenedExactly(InitGrid(p.g.cols, p.g.rows), p'.g, carved)
    ensures !p.working && !p'.working ==> forall a, b :: 0 <= a < b < |carved| ==> carved[a] != carved[b]
    ensures !p.working && Contains(algorithm, "Kruskal") ==> forall w :: w in carved ==> w in AllWalls(InitGrid(p.g.cols, p.g.rows))
  {
    if p.working {
      return p, [];
    }
    var g0 := InitGrid(p.g.cols, p.g.rows);
    var maze;
    maze, carved := CarveMaze(g0, algorithm, draws.rnd);
    if maze.None? {
      return Panel(g0, None, None, true, []), carved;
    }
    var painted := PaintTerrain(maze.value, draws.chance);
    var placed := SetupStartAndExit(painted, draws.exitX, draws.exitY);
    if placed.None? {
      // The corner cell is labelled before `nextInt(COLS / 3)` throws, when it exists.
      var start := if painted.rows > 0 && painted.cols > 0 then Some(0) else None;
      return Panel(painted, start, None, true, []), carved;
    }
    var ready := ResetVisited(placed.value.g);
    assert |g0.cells| > 0;
    SameWallsKeepsSymmetry(maze.value, painted);
    SameWallsKeepsSymmetry(painted, placed.value.g);
    SameWallsKeepsSymmetry(placed.value.g, ready);
    SameWallsFromCorner(maze.value, painted);
    SameWallsFromCorner(painted, placed.value.g);
    SameWallsFromCorner(placed.value.g, ready);
    OpenedSameWalls(g0, maze.value, painted, carved);
    OpenedSameWalls(g0, painted, placed.value.g, carved);
    OpenedSameWalls(g0, placed.value.g, ready, carved);
    p' := Panel(ready, Some(placed.value.start), Some(placed.value.exit), false, []);
  }

  /**
   * The guard of the four `solve*` methods. On a consistent panel it lets a
   * solver run only with an exit inside the grid and a symmetric grid.
   */
  predicate CanSolve(p: Panel)
    ensures CanSolve(p) ==> !p.working && p.start.Some?
    ensures Consistent(p) && CanSolve(p) ==>
      p.exit.Some? && p.start.value < |p.g.cells| && p.exit.value < |p.g.cells| && Symmetric(p.g)
  {
    !p.working && p.start.Some?
  }

  /** The grid with its visited flags replaced by `seen`; nothing else changes. */
  function WithVisited(g: Grid, seen: seq<bool>): (r: Grid)
    requires |seen| == |g.cells|
    ensures SameLayout(g, r)
    ensures forall i :: 0 <= i < |g.cells| ==> r.cells[i].visited == seen[i]
    ensures forall i :: 0 <= i < |g.cells| ==> r.cells[i].walls == g.cells[i].walls
    ensures forall i :: 0 <= i < |g.cells| ==> r.cells[i].terrain == g.cells[i].terrain && r.cells[i].tag == g.cells[i].tag
  {
    g.(cells := seq(|g.cells|, i requires 0 <= i < |g.cells| => g.cells[i].(visited := seen[i])))
  }

  /**
   * `solveBFS`, `solveDFS`, `solveDijkstra` and `solveAStar` with the run
   * they start. A busy panel or one without a start ignores the call.
   * Otherwise the chosen solver runs from the start to the exit; the panel
   * ends idle with the solver's visited flags and the path it reconstructed
   * (empty for "No path found"), and walls, floors, start and exit unchanged.
   */
  method Solve(p: Panel, solver: Solver, rnd: nat -> nat) returns (p': Panel)
    requires Consistent(p)
    ensures Consistent(p')
    ensures !CanSolve(p) ==> p' == p
    ensures CanSolve(p) ==> !p'.working && p'.start == p.start && p'.exit == p.exit && SameLayout(p.g, p'.g)
    ensures CanSolve(p) ==> forall i :: 0 <= i < |p.g.cells| ==>
      p'.g.cells[i].walls == p.g.cells[i].walls && p'.g.cells[i].terrain == p.g.cells[i].terrain
    ensures CanSolve(p) && p'.path != [] ==> PathFromTo(p.g, p'.path, p.start.value, p.exit.value)
    ensures CanSolve(p) && (solver == BfsSolver || solver == DfsSolver) ==>
      (p'.path == [] <==> !Connected(p.g, p.start.value, p.exit.value))
    ensures CanSolve(p) && solver == BfsSolver && p'.path != [] ==>
      forall q :: PathFromTo(p.g, q, p.start.value, p.exit.value) ==> |p'.path| <= |q|
    ensures CanSolve(p) && (solver == DijkstraSolver || solver == AStarSolver) && p'.path == [] ==>
      forall q :: PathFromTo(p.g, q, p.start.value, p.exit.value) ==> PathCost(p.g, q) >= Infinity
    ensures CanSolve(p) && solver == DijkstraSolver && p'.path != [] ==>
      forall q :: PathFromTo(p.g, q, p.start.value, p.exit.value) && PathCost(p.g, q) < Infinity ==>
        PathCost(p.g, p'.path) <= PathCost(p.g, q)
  {
    if !CanSolve(p) {
      return p;
    }
    var start, exit := p.start.value, p.exit.value;
    var found: Option<seq<nat>>;
    var seen: seq<bool>;
    match solver {
      case BfsSolver =>
        var order;
        found, seen, order := Bfs(p.g, start, exit);
      case DfsSolver =>
        var order;
        found, seen, order := Dfs(p.g, start, exit, rnd);
      case DijkstraSolver =>
        var route;
        route, seen := Dijkstra(p.g, start, exit);
        found := if route.Some? then Some(route.value.cells) else None;
      case AStarSolver =>
        var route;
        route, seen := AStar(p.g, start, exit);
        found := if route.Some? then Some(route.value.cells) else None;
    }
    var g := WithVisited(p.g, seen);
    SameWallsKeepsSymmetry(p.g, g);
    p' := Panel(g, p.start, p.exit, false, if found.Some? then found.value else []);
  }
}
