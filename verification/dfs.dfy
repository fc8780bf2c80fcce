/**
 * `runDFS`: depth-first search from the start cell, with a stack in place
 * of the queue and each polled cell's accessible neighbours shuffled before
 * they are pushed. Each visited cell carries a ghost stamp, the number of
 * polls made before it was discovered; a parent always has a smaller stamp
 * than its child, so the parent chains end.
 */
module DepthFirst {
  import opened Options
  import opened Grids
  import opened Paths
  import opened Randoms
  import opened ParentChains
  import opened Frontiers

  /** Every parent was discovered before its child, and no visited cell was discovered after the polls so far. */
  ghost predicate Stamped(parent: map<nat, nat>, seen: seq<bool>, order: seq<nat>, stamp: seq<nat>)
  {
    && |stamp| == |seen|
    && (forall v: nat :: v in parent ==> v < |stamp| && parent[v] < |stamp| && stamp[parent[v]] < stamp[v])
    && (forall v: nat :: v < |seen| && seen[v] ==> stamp[v] <= |order|)
  }

  /**
   * `runDFS` from start to exit, with `rnd` supplying the draws of the
   * neighbour shuffles. When it finds the exit, the returned path is an
   * open path from start to exit (not necessarily a shortest one); it
   * returns None exactly when no open path exists, and then the visited
   * cells are exactly those connected to the start. `order` lists the
   * polled cells: the start first, no cell twice.
   */
  method Dfs(g: Grid, start: nat, exit: nat, rnd: nat -> nat) returns (path: Option<seq<nat>>, seen: seq<bool>, order: seq<nat>)
    requires WellFormed(g) && start < |g.cells| && exit < |g.cells|
    ensures PolledCells(g, seen, order) && order[0] == start
    ensures path.Some? ==> PathFromTo(g, path.value, start, exit) && order[|order| - 1] == exit
    ensures path.None? <==> !Connected(g, start, exit)
    ensures path.None? ==> forall v :: 0 <= v < |g.cells| ==> (seen[v] <==> Connected(g, start, v))
  {
    var n := |g.cells|;
    seen := seq(n, i => i == start);
    var parent: map<nat, nat> := map[];
    var stack := [start];
    order := [];
    ghost var expanded: set<nat> := {};
    ghost var stamp := Zeros(n);
    var draws := 0;
    Initially(g, start, exit);
    while stack != []
      invariant Bookkeeping(g, start, exit, seen, parent, stack, expanded, order)
      invariant Stamped(parent, seen, order, stamp)
      decreases n - |expanded|
    {
      var current := stack[|stack| - 1];
      if current == exit {
        StampsRanked(parent, seen, order, stamp);
        path := Some(ReconstructPath(parent, Zeros(n), stamp, current));
        FoundPath(g, start, exit, seen, parent, stack, expanded, order, Zeros(n), stamp);
        Polled(g, start, exit, seen, parent, stack, expanded, order, current);
        order := order + [current];
        return;
      }
      seen, parent, stack, order, expanded, stamp := DfsExpand(g, start, exit, seen, parent, stack, order, expanded, stamp, rnd, draws);
      draws := draws + 4;
    }
    path := None;
    StampsRanked(parent, seen, order, stamp);
    Exhausted(g, start, exit, seen, parent, expanded, order, Zeros(n), stamp);
    Drained(g, start, exit, seen, parent, expanded, order);
  }

  /**
   * One poll that is not the exit: the top of the stack is popped and its
   * accessible neighbours, shuffled with the draws from `draws` on, are
   * discovered and pushed.
   */
  method DfsExpand(g: Grid, start: nat, exit: nat, seen: seq<bool>, parent: map<nat, nat>, stack: seq<nat>, order: seq<nat>,
                   ghost expanded: set<nat>, ghost stamp: seq<nat>, rnd: nat -> nat, draws: nat)
    returns (seen': seq<bool>, parent': map<nat, nat>, stack': seq<nat>, order': seq<nat>,
             ghost expanded': set<nat>, ghost stamp': seq<nat>)
    requires Bookkeeping(g, start, exit, seen, parent, stack, expanded, order)
    requires Stamped(parent, seen, order, stamp)
    requires stack != [] && stack[|stack| - 1] != exit
    ensures Bookkeeping(g, start, exit, seen', parent', stack', expanded', order')
    ensures Stamped(parent', seen', order', stamp')
    ensures |expanded| < |expanded'| <= |g.cells|
    ensures stack' == stack[..|stack| - 1] + Unseen(ShuffledNeighbors(g, stack[|stack| - 1], rnd, draws), seen)
    ensures order' == order + [stack[|stack| - 1]]
  {
    var current := stack[|stack| - 1];
    var rest := stack[..|stack| - 1];
    DropLast(stack);
    var shuffled := ShuffledNeighbors(g, current, rnd, draws);
    seen', parent', stack' := Expand(g, start, exit, seen, parent, stack, expanded, order, current, rest, shuffled);
    order' := order + [current];
    expanded' := expanded + {current};
    ghost var news := Unseen(shuffled, seen);
    stamp' := Restamp(stamp, news, |order'|);
    StampsKept(g, start, exit, seen, parent, stack, expanded, order, stamp, current, shuffled, news, seen', parent', stamp');
  }

  /**
   * The accessible neighbours of a cell in shuffled order: a list of
   * exactly the accessible cells, each once.
   */
  function ShuffledNeighbors(g: Grid, current: nat, rnd: nat -> nat, draws: nat): (r: seq<nat>)
    requires WellFormed(g) && current < |g.cells|
    ensures forall v :: v in r <==> Accessible(g, current, v)
    ensures Distinct(r)
    ensures forall k :: 0 <= k < |r| ==> r[k] < |g.cells|
  {
    var nbrs := AccessibleNeighbors(g, current);
    var r := Shuffle(nbrs, rnd, draws);
    ShuffleKeepsElements(nbrs, rnd, draws);
    ShuffleKeepsDistinct(nbrs, rnd, draws);
    assert forall k :: 0 <= k < |r| ==> r[k] in nbrs;
    r
  }

  /** The stamps after a poll: the newly discovered cells get stamp t, the others keep theirs. */
  ghost function Restamp(stamp: seq<nat>, news: seq<nat>, t: nat): (r: seq<nat>)
    ensures |r| == |stamp| && forall i :: 0 <= i < |stamp| ==> r[i] == (if i in news then t else stamp[i])
  {
    seq(|stamp|, i requires 0 <= i < |stamp| => if i in news then t else stamp[i])
  }

  lemma StampsKept(g: Grid, start: nat, exit: nat, seen: seq<bool>, parent: map<nat, nat>, stack: seq<nat>, expanded: set<nat>,
                   order: seq<nat>, stamp: seq<nat>, current: nat, nbrs: seq<nat>, news: seq<nat>,
                   seen': seq<bool>, parent': map<nat, nat>, stamp': seq<nat>)
    requires Bookkeeping(g, start, exit, seen, parent, stack, expanded, order)
    requires Stamped(parent, seen, order, stamp)
    requires current in stack
    requires forall k :: 0 <= k < |nbrs| ==> nbrs[k] < |seen|
    requires forall v :: v in news <==> v in nbrs && !seen[v]
    requires |seen'| == |seen| && forall i :: 0 <= i < |seen| ==> seen'[i] == (seen[i] || i in nbrs)
    requires forall v :: v in parent' <==> v in parent || v in news
    requires forall v :: v in parent' ==> parent'[v] == (if v in news then current else parent[v])
    requires |stamp'| == |stamp| && forall i :: 0 <= i < |stamp| ==> stamp'[i] == (if i in news then |order| + 1 else stamp[i])
    ensures Stamped(parent', seen', order + [current], stamp')
  {
    assert current < |seen| && seen[current] && current !in news;
    forall v: nat | v in parent ensures v !in news && parent[v] !in news {
      assert seen[v] && seen[parent[v]];
    }
    forall v: nat | v < |seen'| && seen'[v] ensures stamp'[v] <= |order| + 1 {
      if v !in news {
        assert seen[v];
      }
    }
  }

  /** The stamps rank the parent map, with every major rank 0. */
  lemma StampsRanked(parent: map<nat, nat>, seen: seq<bool>, order: seq<nat>, stamp: seq<nat>)
    requires Stamped(parent, seen, order, stamp)
    ensures Ranked(parent, Zeros(|stamp|), stamp) && |stamp| == |seen|
  {
  }
}
