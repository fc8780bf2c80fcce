/**
 * `runBFS`: breadth-first search from the start cell through open sides,
 * stopping when the exit is polled from the queue. Each cell carries a
 * ghost level, its distance in the search tree; levels along the queue
 * never drop and span at most one, which makes the found path a shortest
 * one.
 */
module BreadthFirst {
  import opened Options
  import opened Grids
  import opened Paths
  import opened ParentChains
  import opened Frontiers

  /**
   * The level invariant: the start has level 0, a parent is one level
   * below its child, the queue's levels rise and span at most one, polled
   * cells are at or below every queued level, and a cell accessible from a
   * polled cell is at most one level below it.
   */
  ghost predicate Levelled(g: Grid, start: nat, parent: map<nat, nat>, queue: seq<nat>, expanded: set<nat>, level: seq<nat>)
  {
    && WellFormed(g) && |level| == |g.cells|
    && LevelLinks(start, parent, level)
    && LevelQueue(queue, expanded, level)
    && LevelClosed(g, expanded, level)
  }

  ghost predicate LevelLinks(start: nat, parent: map<nat, nat>, level: seq<nat>)
  {
    && start < |level| && level[start] == 0
    && (forall v: nat :: v in parent ==> v < |level| && parent[v] < |level| && level[v] == level[parent[v]] + 1)
  }

  ghost predicate LevelQueue(queue: seq<nat>, expanded: set<nat>, level: seq<nat>)
  {
    && (forall k :: 0 <= k < |queue| ==> queue[k] < |level|)
    && (forall a, b :: 0 <= a <= b < |queue| ==> level[queue[a]] <= level[queue[b]])
    && (|queue| > 0 ==> level[queue[|queue| - 1]] <= level[queue[0]] + 1)
    && (forall u: nat :: u in expanded ==> u < |level|)
    && (forall u: nat, k :: u in expanded && 0 <= k < |queue| ==> level[u] <= level[queue[k]])
  }

  ghost predicate LevelClosed(g: Grid, expanded: set<nat>, level: seq<nat>)
  {
    && WellFormed(g) && |level| == |g.cells|
    && (forall u: nat, w: nat :: u in expanded && u < |g.cells| && Accessible(g, u, w) ==> w < |level| && level[w] <= level[u] + 1)
  }

  /**
   * `runBFS` from start to exit. When it finds the exit, the returned path
   * is an open path from start to exit no longer than any other; it returns
   * None exactly when no open path exists, and then the visited cells are
   * exactly those connected to the start. `order` lists the polled cells:
   * the start first, no cell twice.
   */
  method Bfs(g: Grid, start: nat, exit: nat) returns (path: Option<seq<nat>>, seen: seq<bool>, order: seq<nat>)
    requires WellFormed(g) && start < |g.cells| && exit < |g.cells|
    ensures PolledCells(g, seen, order) && order[0] == start
    ensures path.Some? ==> PathFromTo(g, path.value, start, exit) && order[|order| - 1] == exit
    ensures path.Some? ==> forall q :: PathFromTo(g, q, start, exit) ==> |path.value| <= |q|
    ensures path.None? <==> !Connected(g, start, exit)
    ensures path.None? ==> forall v :: 0 <= v < |g.cells| ==> (seen[v] <==> Connected(g, start, v))
  {
    var n := |g.cells|;
    seen := seq(n, i => i == start);
    var parent: map<nat, nat> := map[];
    var queue := [start];
    order := [];
    ghost var expanded: set<nat> := {};
    ghost var level := Zeros(n);
    Initially(g, start, exit);
    while queue != []
      invariant Bookkeeping(g, start, exit, seen, parent, queue, expanded, order)
      invariant Levelled(g, start, parent, queue, expanded, level)
      decreases n - |expanded|
    {
      var current := queue[0];
      if current == exit {
        LevelsRanked(g, start, exit, seen, parent, queue, expanded, order, level);
        path := Some(ReconstructPath(parent, level, Zeros(n), current));
        BfsFound(g, start, exit, seen, parent, queue, expanded, order, level);
        Polled(g, start, exit, seen, parent, queue, expanded, order, current);
        order := order + [current];
        return;
      }
      seen, parent, queue, order, expanded, level := BfsExpand(g, start, exit, seen, parent, queue, order, expanded, level);
    }
    path := None;
    LevelsRanked(g, start, exit, seen, parent, queue, expanded, order, level);
    Exhausted(g, start, exit, seen, parent, expanded, order, level, Zeros(n));
    Drained(g, start, exit, seen, parent, expanded, order);
  }

  /** One poll that is not the exit: the queue's head is expanded and its new neighbours queued one level deeper. */
  method BfsExpand(g: Grid, start: nat, exit: nat, seen: seq<bool>, parent: map<nat, nat>, queue: seq<nat>, order: seq<nat>,
                   ghost expanded: set<nat>, ghost level: seq<nat>)
    returns (seen': seq<bool>, parent': map<nat, nat>, queue': seq<nat>, order': seq<nat>,
             ghost expanded': set<nat>, ghost level': seq<nat>)
    requires Bookkeeping(g, start, exit, seen, parent, queue, expanded, order)
    requires Levelled(g, start, parent, queue, expanded, level)
    requires queue != [] && queue[0] != exit
    ensures Bookkeeping(g, start, exit, seen', parent', queue', expanded', order')
    ensures Levelled(g, start, parent', queue', expanded', level')
    ensures |expanded| < |expanded'| <= |g.cells|
    ensures queue' == queue[1..] + Unseen(AccessibleNeighbors(g, queue[0]), seen) && order' == order + [queue[0]]
  {
    var current := queue[0];
    var rest := queue[1..];
    DropFirst(queue);
    var nbrs := AccessibleNeighbors(g, current);
    seen', parent', queue' := Expand(g, start, exit, seen, parent, queue, expanded, order, current, rest, nbrs);
    order' := order + [current];
    expanded' := expanded + {current};
    ghost var news := Unseen(nbrs, seen);
    level' := Relevel(level, news, level[current] + 1);
    LevelsKept(g, start, exit, seen, parent, queue, expanded, order, level, current, rest, nbrs, news, parent', queue', level');
  }

  /** The levels after a poll: the newly discovered cells get level l, the others keep theirs. */
  ghost function Relevel(level: seq<nat>, news: seq<nat>, l: nat): (r: seq<nat>)
    ensures |r| == |level| && forall i :: 0 <= i < |level| ==> r[i] == (if i in news then l else level[i])
  {
    seq(|level|, i requires 0 <= i < |level| => if i in news then l else level[i])
  }

  lemma LevelsKept(g: Grid, start: nat, exit: nat, seen: seq<bool>, parent: map<nat, nat>, queue: seq<nat>, expanded: set<nat>,
                   order: seq<nat>, level: seq<nat>, current: nat, rest: seq<nat>, nbrs: seq<nat>, news: seq<nat>,
                   parent': map<nat, nat>, queue': seq<nat>, level': seq<nat>)
    requires Bookkeeping(g, start, exit, seen, parent, queue, expanded, order)
    requires Levelled(g, start, parent, queue, expanded, level)
    requires queue != [] && current == queue[0] && rest == queue[1..]
    requires forall v :: v in nbrs <==> Accessible(g, current, v)
    requires forall k :: 0 <= k < |nbrs| ==> nbrs[k] < |seen|
    requires forall v :: v in news <==> v in nbrs && !seen[v]
    requires queue' == rest + news
    requires forall v :: v in parent' <==> v in parent || v in news
    requires forall v :: v in parent' ==> parent'[v] == (if v in news then current else parent[v])
    requires |level'| == |level| && forall i :: 0 <= i < |level| ==> level'[i] == (if i in news then level[current] + 1 else level[i])
    ensures Levelled(g, start, parent', queue', expanded + {current}, level')
  {
    forall v | v in news ensures v < |g.cells| && !seen[v] && v !in queue && v !in expanded && v !in parent && v != start {
      var k :| 0 <= k < |nbrs| && nbrs[k] == v;
    }
    LevelsLinked(start, parent, level, current, news, parent', level');
    LevelsQueued(queue, expanded, level, current, rest, news, queue', level');
    LevelsClosed(g, start, exit, seen, parent, queue, expanded, order, level, current, nbrs, news, level');
  }

  lemma LevelsLinked(start: nat, parent: map<nat, nat>, level: seq<nat>, current: nat, news: seq<nat>,
                     parent': map<nat, nat>, level': seq<nat>)
    requires LevelLinks(start, parent, level) && current < |level|
    requires current !in news && start !in news
    requires forall v :: v in news ==> v < |level| && v !in parent
    requires forall v :: v in parent ==> parent[v] !in news
    requires forall v :: v in parent' <==> v in parent || v in news
    requires forall v :: v in parent' ==> parent'[v] == (if v in news then current else parent[v])
    requires |level'| == |level| && forall i :: 0 <= i < |level| ==> level'[i] == (if i in news then level[current] + 1 else level[i])
    ensures LevelLinks(start, parent', level')
  {
  }

  lemma LevelsQueued(queue: seq<nat>, expanded: set<nat>, level: seq<nat>, current: nat, rest: seq<nat>, news: seq<nat>,
                     queue': seq<nat>, level': seq<nat>)
    requires LevelQueue(queue, expanded, level)
    requires queue != [] && current == queue[0] && rest == queue[1..] && queue' == rest + news
    requires forall v :: v in news ==> v < |level| && v !in queue && v !in expanded
    requires |level'| == |level| && forall i :: 0 <= i < |level| ==> level'[i] == (if i in news then level[current] + 1 else level[i])
    ensures LevelQueue(queue', expanded + {current}, level')
  {
    var top := level[current];
    forall k | 0 <= k < |rest| ensures rest[k] < |level| && top <= level'[rest[k]] <= top + 1 && level'[rest[k]] == level[rest[k]] {
      assert rest[k] == queue[k + 1] && rest[k] in queue;
    }
    forall k | 0 <= k < |news| ensures news[k] < |level| && level'[news[k]] == top + 1 {
      assert news[k] in news;
    }
    forall k | 0 <= k < |queue'| ensures queue'[k] < |level'| && top <= level'[queue'[k]] <= top + 1 {
      if k >= |rest| {
        assert queue'[k] == news[k - |rest|];
      }
    }
    LevelsSorted(rest, news, level, level', top);
    forall u: nat, k | u in expanded + {current} && 0 <= k < |queue'| ensures level'[u] <= level'[queue'[k]] {
      if u in expanded {
        assert level[u] <= top;
      }
    }
  }

  lemma LevelsClosed(g: Grid, start: nat, exit: nat, seen: seq<bool>, parent: map<nat, nat>, queue: seq<nat>, expanded: set<nat>,
                     order: seq<nat>, level: seq<nat>, current: nat, nbrs: seq<nat>, news: seq<nat>, level': seq<nat>)
    requires Bookkeeping(g, start, exit, seen, parent, queue, expanded, order)
    requires Levelled(g, start, parent, queue, expanded, level)
    requires queue != [] && current == queue[0]
    requires forall v :: v in nbrs <==> Accessible(g, current, v)
    requires forall k :: 0 <= k < |nbrs| ==> nbrs[k] < |seen|
    requires forall v :: v in news <==> v in nbrs && !seen[v]
    requires |level'| == |level| && forall i :: 0 <= i < |level| ==> level'[i] == (if i in news then level[current] + 1 else level[i])
    ensures LevelClosed(g, expanded + {current}, level')
  {
    assert current !in news;
    forall u: nat, w: nat | u in expanded + {current} && u < |g.cells| && Accessible(g, u, w)
      ensures w < |level'| && level'[w] <= level'[u] + 1
    {
      if u == current {
        assert w in nbrs;
        if w !in news {
          assert seen[w];
          if w in queue {
            var k :| 0 <= k < |queue| && queue[k] == w;
            assert level[queue[k]] <= level[queue[|queue| - 1]];
          }
        }
      } else {
        assert w < |g.cells| && seen[w];
      }
    }
  }

  /** Queued levels in [top, top + 1] with the new cells at top + 1 stay sorted. */
  lemma LevelsSorted(rest: seq<nat>, news: seq<nat>, level: seq<nat>, level': seq<nat>, top: nat)
    requires |level'| == |level| && (forall k :: 0 <= k < |rest| ==> rest[k] < |level|) && forall k :: 0 <= k < |news| ==> news[k] < |level|
    requires forall k :: 0 <= k < |rest| ==> level'[rest[k]] == level[rest[k]] && top <= level[rest[k]] <= top + 1
    requires forall a, b :: 0 <= a <= b < |rest| ==> level[rest[a]] <= level[rest[b]]
    requires forall v :: v in news ==> v < |level'| && level'[v] == top + 1
    ensures var q := rest + news; forall a, b :: 0 <= a <= b < |q| ==> level'[q[a]] <= level'[q[b]]
  {
    var q := rest + news;
    forall a, b | 0 <= a <= b < |q| ensures level'[q[a]] <= level'[q[b]] {
      if b >= |rest| {
        assert q[b] in news;
      }
    }
  }

  /** The level invariant ranks the parent map: each link lowers the level by one. */
  lemma LevelsRanked(g: Grid, start: nat, exit: nat, seen: seq<bool>, parent: map<nat, nat>, queue: seq<nat>,
                     expanded: set<nat>, order: seq<nat>, level: seq<nat>)
    requires Bookkeeping(g, start, exit, seen, parent, queue, expanded, order)
    requires Levelled(g, start, parent, queue, expanded, level)
    ensures Ranked(parent, level, Zeros(|g.cells|)) && |level| == |g.cells|
  {
  }

  /**
   * Polling the exit: the reconstructed path is open, runs from start to
   * exit, has level(exit) + 1 cells, and no open path from start to exit
   * is shorter.
   */
  lemma BfsFound(g: Grid, start: nat, exit: nat, seen: seq<bool>, parent: map<nat, nat>, queue: seq<nat>,
                 expanded: set<nat>, order: seq<nat>, level: seq<nat>)
    requires Bookkeeping(g, start, exit, seen, parent, queue, expanded, order)
    requires Levelled(g, start, parent, queue, expanded, level)
    requires queue != [] && queue[0] == exit
    ensures Ranked(parent, level, Zeros(|g.cells|)) && exit < |level|
    ensures PathFromTo(g, ReconstructPath(parent, level, Zeros(|g.cells|), exit), start, exit)
    ensures forall q :: PathFromTo(g, q, start, exit) ==> |ReconstructPath(parent, level, Zeros(|g.cells|), exit)| <= |q|
    ensures Connected(g, start, exit)
  {
    LevelsRanked(g, start, exit, seen, parent, queue, expanded, order, level);
    FoundPath(g, start, exit, seen, parent, queue, expanded, order, level, Zeros(|g.cells|));
    FoundLength(g, start, exit, seen, parent, queue, expanded, order, level);
    BfsAllLonger(g, start, exit, seen, parent, queue, expanded, order, level);
  }

  /** The reconstructed path has one cell per level up to the exit's. */
  lemma FoundLength(g: Grid, start: nat, exit: nat, seen: seq<bool>, parent: map<nat, nat>, queue: seq<nat>,
                    expanded: set<nat>, order: seq<nat>, level: seq<nat>)
    requires Bookkeeping(g, start, exit, seen, parent, queue, expanded, order)
    requires Levelled(g, start, parent, queue, expanded, level)
    requires queue != [] && queue[0] == exit && Ranked(parent, level, Zeros(|g.cells|))
    ensures exit < |level| && |ReconstructPath(parent, level, Zeros(|g.cells|), exit)| == level[exit] + 1
  {
    var s := set v | 0 <= v < |g.cells| && seen[v];
    ChainLength(parent, level, Zeros(|g.cells|), s, exit);
  }

  /** Every open path from start to exit has more cells than the exit's level. */
  lemma BfsAllLonger(g: Grid, start: nat, exit: nat, seen: seq<bool>, parent: map<nat, nat>, queue: seq<nat>,
                     expanded: set<nat>, order: seq<nat>, level: seq<nat>)
    requires Bookkeeping(g, start, exit, seen, parent, queue, expanded, order)
    requires Levelled(g, start, parent, queue, expanded, level)
    requires queue != [] && queue[0] == exit
    ensures exit < |level| && forall q :: PathFromTo(g, q, start, exit) ==> level[exit] < |q|
  {
    forall q | PathFromTo(g, q, start, exit) ensures level[exit] < |q| {
      BfsShortest(g, start, exit, seen, parent, queue, expanded, order, level, q);
    }
  }

  /** Any open path from start to exit has more cells than the exit's level. */
  lemma BfsShortest(g: Grid, start: nat, exit: nat, seen: seq<bool>, parent: map<nat, nat>, queue: seq<nat>,
                    expanded: set<nat>, order: seq<nat>, level: seq<nat>, q: seq<nat>)
    requires Bookkeeping(g, start, exit, seen, parent, queue, expanded, order)
    requires Levelled(g, start, parent, queue, expanded, level)
    requires queue != [] && queue[0] == exit
    requires PathFromTo(g, q, start, exit)
    ensures exit < |level| && level[exit] < |q|
  {
    var j := FirstNotIn(q, expanded);
    LevelsAlong(g, start, exit, seen, parent, queue, expanded, order, level, q, j);
    var m :| 0 <= m < |queue| && queue[m] == q[j];
  }

  /** Along a path from the start whose first k cells were polled, the k-th cell is visited with level at most k. */
  lemma {:induction false} LevelsAlong(g: Grid, start: nat, exit: nat, seen: seq<bool>, parent: map<nat, nat>, queue: seq<nat>,
                                       expanded: set<nat>, order: seq<nat>, level: seq<nat>, q: seq<nat>, k: nat)
    requires Bookkeeping(g, start, exit, seen, parent, queue, expanded, order)
    requires Levelled(g, start, parent, queue, expanded, level)
    requires OpenPath(g, q) && q[0] == start && k < |q|
    requires forall i :: 0 <= i < k ==> q[i] in expanded
    ensures seen[q[k]] && level[q[k]] <= k
  {
    if k > 0 {
      LevelsAlong(g, start, exit, seen, parent, queue, expanded, order, level, q, k - 1);
      assert Accessible(g, q[k - 1], q[k]);
    }
  }
}
