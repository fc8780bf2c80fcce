/**
 * Per-position state of the maze: four wall flags, the visited flag that
 * the generators use, the floor kind and an optional role label (`tag`, the source's `label` field).
 */
module Cells {
  import opened Options
  import opened Terrains

  /** The four sides of a cell, in the order the wall flags are stored. */
  datatype Direction = Top | Right | Bottom | Left

  /** The directions in storage order Top, Right, Bottom, Left. */
  const Directions: seq<Direction> := [Top, Right, Bottom, Left]

  /** Index of a side in the `walls` array. */
  function Slot(d: Direction): (n: nat)
    ensures n < 4 && Directions[n] == d
  {
    match d
    case Top => 0
    case Right => 1
    case Bottom => 2
    case Left => 3
  }

  /** The side a neighbour in direction `d` shares with this cell. */
  function Opposite(d: Direction): (o: Direction)
    ensures o != d
    ensures Slot(o) == (Slot(d) + 2) % 4
  {
    match d
    case Top => Bottom
    case Right => Left
    case Bottom => Top
    case Left => Right
  }

  /** Taking the opposite side twice gives back the side itself. */
  lemma OppositeInvolution(d: Direction)
    ensures Opposite(Opposite(d)) == d
  {
  }

  /** Column and row offsets of a step in direction `d` (rows grow downwards). */
  function DeltaX(d: Direction): int
  {
    match d
    case Right => 1
    case Left => -1
    case _ => 0
  }

  function DeltaY(d: Direction): int
  {
    match d
    case Top => -1
    case Bottom => 1
    case _ => 0
  }

  /** A step followed by the opposite step returns to where it started. */
  lemma OppositeUndoesStep(d: Direction)
    ensures DeltaX(d) + DeltaX(Opposite(d)) == 0
    ensures DeltaY(d) + DeltaY(Opposite(d)) == 0
    ensures DeltaX(d) != 0 || DeltaY(d) != 0
  {
  }

  type Walls = w: seq<bool> | |w| == 4 witness [true, true, true, true]

  const StartLabel: string := "Start"
  const ExitLabel: string := "EXIT"

  datatype Cell = Cell(x: int, y: int, walls: Walls, visited: bool, terrain: Terrain, tag: Option<string>)

  /** True when the wall on side `d` of `c` is present. */
  predicate HasWall(c: Cell, d: Direction)
  {
    c.walls[Slot(d)]
  }

  /** A freshly built cell: all four walls, unvisited, dirt floor, no label. */
  function NewCell(x: int, y: int): (c: Cell)
    ensures c.x == x && c.y == y
    ensures forall d :: HasWall(c, d)
    ensures !c.visited && c.terrain == Dirt && c.tag == None
  {
    Cell(x, y, [true, true, true, true], false, Dirt, None)
  }

  /** Replaces the floor kind and nothing else. */
  function SetTerrain(c: Cell, t: Terrain): (r: Cell)
    ensures r.terrain == t
    ensures r.x == c.x && r.y == c.y && r.walls == c.walls
    ensures r.visited == c.visited && r.tag == c.tag
  {
    c.(terrain := t)
  }

  /** Setting the floor twice keeps only the second kind. */
  lemma SetTerrainOverwrites(c: Cell, a: Terrain, b: Terrain)
    ensures SetTerrain(SetTerrain(c, a), b) == SetTerrain(c, b)
    ensures SetTerrain(c, c.terrain) == c
  {
  }

  /** Clears the wall flag on side `d`; every other flag and field is kept. */
  function OpenSide(c: Cell, d: Direction): (r: Cell)
    ensures !HasWall(r, d)
    ensures forall e :: e != d ==> HasWall(r, e) == HasWall(c, e)
    ensures r.x == c.x && r.y == c.y && r.visited == c.visited
    ensures r.terrain == c.terrain && r.tag == c.tag
  {
    c.(walls := c.walls[Slot(d) := false])
  }
}
