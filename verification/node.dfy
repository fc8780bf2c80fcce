/**
 * Search-frontier entries of the weighted solvers: a cell with its cost so
 * far (`gCost`), its estimate to the exit (`hCost`) and their sum (`fCost`).
 */
module Nodes {

  /** `cell` is the index of the cell in the grid. */
  datatype Node = Node(cell: nat, gCost: int, hCost: int, fCost: int)

  /** The constructor: stores its arguments and sums the two costs. */
  function NewNode(cell: nat, gCost: int, hCost: int): (n: Node)
    ensures n.cell == cell && n.gCost == gCost && n.hCost == hCost
    ensures n.fCost - n.hCost == n.gCost
  {
    Node(cell, gCost, hCost, gCost + hCost)
  }

  /** Every node the solvers build comes from the constructor. */
  predicate Built(n: Node)
  {
    n.fCost == n.gCost + n.hCost
  }

  /** `compareTo`: the sign of the difference of the `fCost`s, as -1, 0 or 1. */
  function CompareTo(a: Node, b: Node): (r: int)
    ensures -1 <= r <= 1
    ensures r < 0 <==> a.fCost < b.fCost
    ensures r == 0 <==> a.fCost == b.fCost
    ensures r > 0 <==> a.fCost > b.fCost
  {
    if a.fCost < b.fCost then -1 else if a.fCost == b.fCost then 0 else 1
  }

  /** Swapping the arguments flips the sign, and the order is transitive. */
  lemma CompareToIsAnOrder(a: Node, b: Node, c: Node)
    ensures CompareTo(a, b) == -CompareTo(b, a)
    ensures CompareTo(a, b) <= 0 && CompareTo(b, c) <= 0 ==> CompareTo(a, c) <= 0
  {
  }

  /**
   * With a zero estimate, as the Dijkstra solver builds its nodes, the
   * `fCost` order and the `gCost` order agree.
   */
  lemma ZeroEstimateOrdersByCostSoFar(a: Node, b: Node)
    requires Built(a) && Built(b) && a.hCost == 0 && b.hCost == 0
    ensures CompareTo(a, b) < 0 <==> a.gCost < b.gCost
    ensures CompareTo(a, b) == 0 <==> a.gCost == b.gCost
  {
  }

  /** A node built from the constructor is `Built`. */
  lemma NewNodeIsBuilt(cell: nat, gCost: int, hCost: int)
    ensures Built(NewNode(cell, gCost, hCost))
    ensures hCost == 0 ==> NewNode(cell, gCost, hCost).fCost == gCost
  {
  }
}
