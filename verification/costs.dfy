/**
 * What the weighted solvers measure: the cost of a path (the floors it
 * steps onto), the Manhattan estimate `getHeuristic`, and the priority
 * queue's choice of the next entry.
 */
module Costs {
  import opened Options
  import opened Terrains
  import opened Grids
  import opened Paths
  import opened Nodes

  /** `Integer.MAX_VALUE`, the distance every cell but the start begins with. */
  const Infinity: nat := 0x7fff_ffff

  /** `Math.abs`. */
  function Abs(a: int): (r: nat)
    ensures r == a || r == -a
  {
    if a < 0 then -a else a
  }

  /** The cost of stepping onto cell v: the cost of its floor. */
  function StepCost(g: Grid, v: nat): (c: nat)
    requires v < |g.cells|
    ensures c <= 10
    ensures c == 0 <==> g.cells[v].terrain == Dirt
  {
    Cost(g.cells[v].terrain)
  }

  /** All cells of p are inside the grid. */
  predicate Inside(g: Grid, p: seq<nat>)
  {
    forall k :: 0 <= k < |p| ==> p[k] < |g.cells|
  }

  /**
   * The cost of walking p: the floors of every cell after the first. The
   * first cell is where the walk starts and is not paid for.
   */
  function PathCost(g: Grid, p: seq<nat>): nat
    requires Inside(g, p)
  {
    if |p| <= 1 then 0 else PathCost(g, p[..|p| - 1]) + StepCost(g, p[|p| - 1])
  }

  /** One more step costs the floor of the cell stepped onto. */
  lemma ExtendCost(g: Grid, p: seq<nat>, v: nat)
    requires Inside(g, p) && |p| > 0 && v < |g.cells|
    ensures Inside(g, p + [v]) && PathCost(g, p + [v]) == PathCost(g, p) + StepCost(g, v)
  {
    assert (p + [v])[..|p + [v]| - 1] == p;
  }

  /** A walk costs at least as much as any walk it begins with. */
  lemma {:induction false} PrefixCost(g: Grid, p: seq<nat>, k: nat)
    requires Inside(g, p) && 0 < k <= |p|
    ensures Inside(g, p[..k]) && PathCost(g, p[..k]) <= PathCost(g, p)
    decreases |p|
  {
    if k < |p| {
      var q := p[..|p| - 1];
      PrefixCost(g, q, k);
      assert q[..k] == p[..k];
    } else {
      assert p[..k] == p;
    }
  }

  /** A walk on dirt alone costs nothing, and a walk costs at most 10 per step. */
  lemma {:induction false} CostBounds(g: Grid, p: seq<nat>)
    requires Inside(g, p) && |p| > 0
    ensures PathCost(g, p) <= 10 * (|p| - 1)
    ensures (forall k :: 0 < k < |p| ==> g.cells[p[k]].terrain == Dirt) ==> PathCost(g, p) == 0
    decreases |p|
  {
    if |p| > 1 {
      CostBounds(g, p[..|p| - 1]);
    }
  }

  /**
   * `getHeuristic`: 0 when there is no exit cell, otherwise the Manhattan
   * distance between the two cells' coordinates.
   */
  function Heuristic(g: Grid, a: nat, b: Option<nat>): (h: nat)
    requires WellFormed(g) && a < |g.cells| && (b.Some? ==> b.value < |g.cells|)
    ensures b.None? ==> h == 0
    ensures b.Some? ==> (h == 0 <==> a == b.value)
    ensures b.Some? ==> h >= Abs(g.cells[a].x - g.cells[b.value].x) && h >= Abs(g.cells[a].y - g.cells[b.value].y)
  {
    if b.None? then 0
    else Abs(g.cells[a].x - g.cells[b.value].x) + Abs(g.cells[a].y - g.cells[b.value].y)
  }

  /**
   * The Manhattan estimate is symmetric, and one step through an open side
   * changes it by exactly one.
   */
  lemma HeuristicStep(g: Grid, a: nat, w: nat, b: nat)
    requires WellFormed(g) && a < |g.cells| && b < |g.cells| && Accessible(g, a, w)
    ensures w < |g.cells|
    ensures Heuristic(g, a, Some(b)) == Heuristic(g, b, Some(a))
    ensures Heuristic(g, w, Some(b)) == Heuristic(g, a, Some(b)) + 1 || Heuristic(g, w, Some(b)) + 1 == Heuristic(g, a, Some(b))
  {
  }

  /** The estimate along an open path from a to b is at most its number of steps. */
  lemma {:induction false} HeuristicAlongPath(g: Grid, p: seq<nat>, b: nat)
    requires OpenPath(g, p) && p[|p| - 1] == b
    ensures Heuristic(g, p[0], Some(b)) <= |p| - 1
    decreases |p|
  {
    if |p| > 1 {
      HeuristicAlongPath(g, p[1..], b);
      HeuristicStep(g, p[0], p[1], b);
    }
  }

  /** The queue's order: `gCost` for Dijkstra's queue, `fCost` for A*'s. */
  function Priority(e: Node, estimate: bool): int
  {
    if estimate then e.fCost else e.gCost
  }

  /** `poll`: the position of an entry of least priority (here the first such). */
  function Poll(pq: seq<Node>, estimate: bool): (i: nat)
    requires |pq| > 0
    ensures i < |pq|
    ensures forall k :: 0 <= k < |pq| ==> Priority(pq[i], estimate) <= Priority(pq[k], estimate)
  {
    if |pq| == 1 then 0
    else
      var j := Poll(pq[1..], estimate);
      assert forall k :: 1 <= k < |pq| ==> pq[k] == pq[1..][k - 1];
      if Priority(pq[0], estimate) <= Priority(pq[1..][j], estimate) then 0 else j + 1
  }
}
