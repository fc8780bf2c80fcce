/**
 * The four kinds of floor a cell can have, and the cost a weighted solver
 * pays for stepping onto a cell of that kind.
 */
module Terrains {

  datatype Terrain = Dirt | Grass | Mud | Water

  /** The kinds in declaration order. */
  const Kinds: seq<Terrain> := [Dirt, Grass, Mud, Water]

  /** Position of a kind in declaration order (Java's `ordinal()`). */
  function Ordinal(t: Terrain): (n: nat)
    ensures n < |Kinds| && Kinds[n] == t
  {
    match t
    case Dirt => 0
    case Grass => 1
    case Mud => 2
    case Water => 3
  }

  /** Traversal cost of a kind. */
  function Cost(t: Terrain): (c: nat)
    ensures c == 0 <==> t == Dirt
    ensures c <= 10
  {
    match t
    case Dirt => 0
    case Grass => 1
    case Mud => 5
    case Water => 10
  }

  /** There are exactly four kinds, all different, and every kind is listed. */
  lemma KindsAreExactlyFour()
    ensures |Kinds| == 4
    ensures forall i, j :: 0 <= i < j < |Kinds| ==> Kinds[i] != Kinds[j]
    ensures forall t: Terrain :: t in Kinds
  {
    forall t: Terrain ensures t in Kinds {
      assert Kinds[Ordinal(t)] == t;
    }
  }

  /** The costs are 0, 1, 5 and 10 in declaration order. */
  lemma CostTable()
    ensures Cost(Kinds[0]) == 0 && Cost(Kinds[1]) == 1
    ensures Cost(Kinds[2]) == 5 && Cost(Kinds[3]) == 10
  {
  }

  /** A kind declared later is strictly more expensive. */
  lemma CostIncreasing(a: Terrain, b: Terrain)
    ensures Ordinal(a) < Ordinal(b) <==> Cost(a) < Cost(b)
  {
  }

  /** Dirt is the cheapest kind, and every kind costs at least as much. */
  lemma DirtIsCheapest(t: Terrain)
    ensures Cost(Dirt) == 0 <= Cost(t)
  {
  }
}
