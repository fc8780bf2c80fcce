/**
 * What breadth-first and depth-first search share: the visited flags, the
 * parent map, the frontier (a queue or a stack, both growing at the end)
 * and the loop that discovers the unvisited neighbours of the polled cell.
 */
module Frontiers {
  import opened Options
  import opened Grids
  import opened Paths
  import opened ParentChains
  import opened Indices

  /** No element occurs twice. */
  predicate Distinct(s: seq<nat>)
  {
    forall a, b :: 0 <= a < b < |s| ==> s[a] != s[b]
  }

  /** The listed cells that are not yet visited, in list order. */
  function Unseen(nbrs: seq<nat>, seen: seq<bool>): (r: seq<nat>)
    requires forall k :: 0 <= k < |nbrs| ==> nbrs[k] < |seen|
    ensures forall v :: v in r <==> v in nbrs && !seen[v]
    ensures Distinct(nbrs) ==> Distinct(r)
  {
    if nbrs == [] then [] else
      var init, last := nbrs[..|nbrs| - 1], nbrs[|nbrs| - 1];
      assert nbrs == init + [last];
      var r := Unseen(init, seen) + (if seen[last] then [] else [last]);
      assert Distinct(nbrs) ==> last !in init;
      r
  }

  /**
   * The neighbour loop of `runBFS` and `runDFS`: every listed neighbour not
   * yet visited is marked visited, gets `current` as its parent and is added
   * at the end of the frontier, in list order. Nothing else changes.
   */
  method Discover(seen: seq<bool>, parent: map<nat, nat>, frontier: seq<nat>, current: nat, nbrs: seq<nat>)
    returns (seen': seq<bool>, parent': map<nat, nat>, frontier': seq<nat>)
    requires forall k :: 0 <= k < |nbrs| ==> nbrs[k] < |seen|
    requires Distinct(nbrs)
    ensures |seen'| == |seen|
    ensures frontier' == frontier + Unseen(nbrs, seen)
    ensures forall i :: 0 <= i < |seen| ==> seen'[i] == (seen[i] || i in nbrs)
    ensures forall v :: v in parent' <==> v in parent || v in Unseen(nbrs, seen)
    ensures forall v :: v in parent' ==> parent'[v] == (if v in Unseen(nbrs, seen) then current else parent[v])
  {
    seen', parent', frontier' := seen, parent, frontier;
    for k := 0 to |nbrs|
      invariant DiscoveredSoFar(seen, parent, frontier, current, nbrs[..k], seen', parent', frontier')
    {
      var n := nbrs[k];
      assert nbrs[..k + 1] == nbrs[..k] + [n];
      assert n !in nbrs[..k];
      DiscoverOne(seen, parent, frontier, current, nbrs[..k], n, seen', parent', frontier');
      if !seen'[n] {
        seen' := seen'[n := true];
        parent' := parent'[n := current];
        frontier' := frontier' + [n];
      }
    }
    assert nbrs[..|nbrs|] == nbrs;
  }

  /** The state after the neighbour loop has handled the cells in `done`. */
  ghost predicate DiscoveredSoFar(seen: seq<bool>, parent: map<nat, nat>, frontier: seq<nat>, current: nat, done: seq<nat>,
                                  seen': seq<bool>, parent': map<nat, nat>, frontier': seq<nat>)
  {
    && (forall k :: 0 <= k < |done| ==> done[k] < |seen|)
    && frontier' == frontier + Unseen(done, seen)
    && SeenSoFar(seen, done, seen')
    && ParentsSoFar(parent, current, Unseen(done, seen), parent')
  }

  /** Exactly the cells seen before or handled since are visited. */
  ghost predicate SeenSoFar(seen: seq<bool>, done: seq<nat>, seen': seq<bool>)
  {
    |seen'| == |seen| && forall i :: 0 <= i < |seen| ==> seen'[i] == (seen[i] || i in done)
  }

  /** The newly discovered cells, and only they, got current as their parent. */
  ghost predicate ParentsSoFar(parent: map<nat, nat>, current: nat, news: seq<nat>, parent': map<nat, nat>)
  {
    && (forall v :: v in parent' <==> v in parent || v in news)
    && (forall v :: v in parent' ==> parent'[v] == (if v in news then current else parent[v]))
  }

  /** Handling one more neighbour n, not handled before, extends the state accordingly. */
  lemma DiscoverOne(seen: seq<bool>, parent: map<nat, nat>, frontier: seq<nat>, current: nat, done: seq<nat>, n: nat,
                    seen': seq<bool>, parent': map<nat, nat>, frontier': seq<nat>)
    requires DiscoveredSoFar(seen, parent, frontier, current, done, seen', parent', frontier')
    requires n < |seen| && n !in done
    ensures !seen'[n] ==> DiscoveredSoFar(seen, parent, frontier, current, done + [n],
                                          seen'[n := true], parent'[n := current], frontier' + [n])
    ensures seen'[n] ==> DiscoveredSoFar(seen, parent, frontier, current, done + [n], seen', parent', frontier')
  {
    UnseenSnoc(done, seen, n);
    SeenOneMore(seen, done, seen', n);
    if !seen'[n] {
      var before := Unseen(done, seen);
      ParentsOneMore(parent, current, before, parent', n);
      assert frontier' + [n] == frontier + (before + [n]);
    } else {
      assert seen'[n := true] == seen';
    }
  }

  /** Handling one more neighbour adds it to the unseen ones exactly when it was not seen. */
  lemma UnseenSnoc(done: seq<nat>, seen: seq<bool>, n: nat)
    requires (forall k :: 0 <= k < |done| ==> done[k] < |seen|) && n < |seen|
    ensures forall k :: 0 <= k < |done + [n]| ==> (done + [n])[k] < |seen|
    ensures Unseen(done + [n], seen) == Unseen(done, seen) + (if seen[n] then [] else [n])
  {
    assert (done + [n])[..|done|] == done;
  }

  /** Marking a handled neighbour visited keeps the visited flags exact. */
  lemma SeenOneMore(seen: seq<bool>, done: seq<nat>, seen': seq<bool>, n: nat)
    requires SeenSoFar(seen, done, seen') && n < |seen|
    ensures SeenSoFar(seen, done + [n], seen'[n := true])
    ensures seen'[n] == (seen[n] || n in done)
  {
    forall i | 0 <= i < |seen| ensures seen'[n := true][i] == (seen[i] || i in done + [n]) {
      assert i in done + [n] <==> i in done || i == n;
    }
  }

  /** A newly discovered cell gets current as its parent. */
  lemma ParentsOneMore(parent: map<nat, nat>, current: nat, news: seq<nat>, parent': map<nat, nat>, n: nat)
    requires ParentsSoFar(parent, current, news, parent') && n !in news
    ensures ParentsSoFar(parent, current, news + [n], parent'[n := current])
  {
    forall v ensures v in news + [n] <==> v in news || v == n {
    }
  }

  /**
   * The state both searches keep between polls. `expanded` holds the polled
   * cells, `order` lists them in polling order; a cell is visited exactly
   * when it was polled or waits in the frontier; every cell but the start
   * that is visited has a polled parent it is accessible from; every cell
   * accessible from a polled cell is visited; the exit was never polled
   * (the search stops when it is).
   */
  ghost predicate Bookkeeping(g: Grid, start: nat, exit: nat, seen: seq<bool>, parent: map<nat, nat>,
                              frontier: seq<nat>, expanded: set<nat>, order: seq<nat>)
  {
    && Shape(g, start, exit, seen, frontier, expanded, order)
    && Parents(g, start, seen, parent, expanded)
    && Closed(g, seen, expanded)
  }

  ghost predicate Shape(g: Grid, start: nat, exit: nat, seen: seq<bool>, frontier: seq<nat>, expanded: set<nat>, order: seq<nat>)
  {
    && WellFormed(g) && start < |g.cells| && |seen| == |g.cells|
    && (forall k :: 0 <= k < |frontier| ==> frontier[k] < |g.cells|) && Distinct(frontier)
    && (forall v: nat :: v in expanded ==> v < |g.cells| && v !in frontier)
    && (forall v: nat :: v < |g.cells| ==> (seen[v] <==> v in expanded || v in frontier))
    && exit !in expanded && seen[start]
    && (forall v: nat :: v in order <==> v in expanded) && Distinct(order)
    && (order == [] ==> frontier == [start])
    && (order != [] ==> order[0] == start)
  }

  ghost predicate Parents(g: Grid, start: nat, seen: seq<bool>, parent: map<nat, nat>, expanded: set<nat>)
  {
    && WellFormed(g) && |seen| == |g.cells| && start !in parent
    && (forall v: nat :: v in parent <==> v < |g.cells| && seen[v] && v != start)
    && (forall v: nat :: v in parent ==> parent[v] in expanded && parent[v] < |g.cells| && Accessible(g, parent[v], v))
  }

  ghost predicate Closed(g: Grid, seen: seq<bool>, expanded: set<nat>)
  {
    && WellFormed(g) && |seen| == |g.cells|
    && (forall u: nat, w: nat :: u in expanded && u < |g.cells| && Accessible(g, u, w) ==> w < |g.cells| && seen[w])
  }

  /** Before the first poll: only the start is visited and it is the whole frontier. */
  lemma Initially(g: Grid, start: nat, exit: nat)
    requires WellFormed(g) && start < |g.cells|
    ensures Bookkeeping(g, start, exit, seq(|g.cells|, i => i == start), map[], [start], {}, [])
  {
    var seen := seq(|g.cells|, i => i == start);
    forall v: nat | v < |g.cells| ensures seen[v] <==> v in [start] {
    }
  }

  /**
   * Polling `current` (not the exit) out of the frontier, leaving `rest`, and
   * discovering its accessible neighbours, listed in any order without
   * repeats, keeps the bookkeeping, with `current` now polled.
   */
  method Expand(g: Grid, start: nat, exit: nat, seen: seq<bool>, parent: map<nat, nat>, frontier: seq<nat>,
                ghost expanded: set<nat>, order: seq<nat>, current: nat, rest: seq<nat>, nbrs: seq<nat>)
    returns (seen': seq<bool>, parent': map<nat, nat>, frontier': seq<nat>)
    requires Bookkeeping(g, start, exit, seen, parent, frontier, expanded, order)
    requires current in frontier && current != exit
    requires Distinct(rest) && forall v :: v in rest <==> v in frontier && v != current
    requires current < |g.cells| && Distinct(nbrs) && forall v :: v in nbrs <==> Accessible(g, current, v)
    requires forall k :: 0 <= k < |nbrs| ==> nbrs[k] < |g.cells|
    ensures Bookkeeping(g, start, exit, seen', parent', frontier', expanded + {current}, order + [current])
    ensures current !in expanded && |expanded + {current}| <= |g.cells|
    ensures frontier' == rest + Unseen(nbrs, seen)
    ensures forall v :: v in parent' <==> v in parent || v in Unseen(nbrs, seen)
    ensures forall v :: v in parent' ==> parent'[v] == (if v in Unseen(nbrs, seen) then current else parent[v])
  {
    seen', parent', frontier' := Discover(seen, parent, rest, current, nbrs);
    ExpandKeeps(g, start, exit, seen, parent, frontier, expanded, order, current, rest, nbrs, seen', parent', frontier');
    SubsetOfIndices(expanded + {current}, |g.cells|);
  }

  lemma ExpandKeeps(g: Grid, start: nat, exit: nat, seen: seq<bool>, parent: map<nat, nat>, frontier: seq<nat>,
                    expanded: set<nat>, order: seq<nat>, current: nat, rest: seq<nat>, nbrs: seq<nat>,
                    seen': seq<bool>, parent': map<nat, nat>, frontier': seq<nat>)
    requires Bookkeeping(g, start, exit, seen, parent, frontier, expanded, order)
    requires current in frontier && current != exit
    requires Distinct(rest) && forall v :: v in rest <==> v in frontier && v != current
    requires current < |g.cells| && Distinct(nbrs) && forall v :: v in nbrs <==> Accessible(g, current, v)
    requires forall k :: 0 <= k < |nbrs| ==> nbrs[k] < |seen|
    requires |seen'| == |seen|
    requires frontier' == rest + Unseen(nbrs, seen)
    requires forall i :: 0 <= i < |seen| ==> seen'[i] == (seen[i] || i in nbrs)
    requires forall v :: v in parent' <==> v in parent || v in Unseen(nbrs, seen)
    requires forall v :: v in parent' ==> parent'[v] == (if v in Unseen(nbrs, seen) then current else parent[v])
    ensures Bookkeeping(g, start, exit, seen', parent', frontier', expanded + {current}, order + [current])
    ensures current !in expanded
  {
    var news := Unseen(nbrs, seen);
    ExpandShape(g, start, exit, seen, frontier, expanded, order, current, rest, nbrs, news, seen', frontier');
    ExpandParents(g, start, seen, parent, expanded, current, nbrs, news, seen', parent');
    ExpandClosed(g, seen, expanded, current, nbrs, seen');
  }

  lemma ExpandShape(g: Grid, start: nat, exit: nat, seen: seq<bool>, frontier: seq<nat>, expanded: set<nat>, order: seq<nat>,
                    current: nat, rest: seq<nat>, nbrs: seq<nat>, news: seq<nat>, seen': seq<bool>, frontier': seq<nat>)
    requires Shape(g, start, exit, seen, frontier, expanded, order)
    requires current in frontier && current != exit
    requires Distinct(rest) && forall v :: v in rest <==> v in frontier && v != current
    requires forall k :: 0 <= k < |nbrs| ==> nbrs[k] < |seen|
    requires Distinct(news) && forall v :: v in news <==> v in nbrs && !seen[v]
    requires |seen'| == |seen| && frontier' == rest + news
    requires forall i :: 0 <= i < |seen| ==> seen'[i] == (seen[i] || i in nbrs)
    ensures Shape(g, start, exit, seen', frontier', expanded + {current}, order + [current])
    ensures current !in expanded
  {
    var expanded', order' := expanded + {current}, order + [current];
    forall k | 0 <= k < |frontier'| ensures frontier'[k] < |g.cells| {
      if k < |rest| {
        assert frontier'[k] in rest;
      } else {
        assert frontier'[k] in news;
      }
    }
    DistinctJoin(rest, news);
    DistinctJoin(order, [current]);
    forall v: nat | v < |g.cells| ensures seen'[v] <==> v in expanded' || v in frontier' {
      if v in nbrs && !seen[v] {
        assert v in news;
      }
    }
    assert order' != [] && order'[0] == start by {
      if order == [] {
        assert frontier == [start];
      }
    }
  }

  /** Two lists without repeats and without common elements join into one without repeats. */
  lemma DistinctJoin(s: seq<nat>, t: seq<nat>)
    requires Distinct(s) && Distinct(t) && forall v :: v in s ==> v !in t
    ensures Distinct(s + t)
  {
    var u := s + t;
    forall a, b | 0 <= a < b < |u| ensures u[a] != u[b] {
      if a < |s| && b >= |s| {
        assert u[a] in s && u[b] == t[b - |s|];
      } else if a >= |s| {
        assert u[a] == t[a - |s|] && u[b] == t[b - |s|];
      }
    }
  }

  lemma ExpandParents(g: Grid, start: nat, seen: seq<bool>, parent: map<nat, nat>, expanded: set<nat>,
                      current: nat, nbrs: seq<nat>, news: seq<nat>, seen': seq<bool>, parent': map<nat, nat>)
    requires Parents(g, start, seen, parent, expanded) && start < |seen| && seen[start]
    requires current < |g.cells| && seen[current] && forall v :: v in nbrs <==> Accessible(g, current, v)
    requires forall k :: 0 <= k < |nbrs| ==> nbrs[k] < |seen|
    requires forall v :: v in news <==> v in nbrs && !seen[v]
    requires |seen'| == |seen| && forall i :: 0 <= i < |seen| ==> seen'[i] == (seen[i] || i in nbrs)
    requires forall v :: v in parent' <==> v in parent || v in news
    requires forall v :: v in parent' ==> parent'[v] == (if v in news then current else parent[v])
    ensures Parents(g, start, seen', parent', expanded + {current})
  {
    forall v: nat ensures v in parent' <==> v < |g.cells| && seen'[v] && v != start {
      if v in nbrs {
        assert v < |g.cells|;
      }
    }
  }

  lemma ExpandClosed(g: Grid, seen: seq<bool>, expanded: set<nat>, current: nat, nbrs: seq<nat>, seen': seq<bool>)
    requires Closed(g, seen, expanded)
    requires current < |g.cells| && forall v :: v in nbrs <==> Accessible(g, current, v)
    requires forall k :: 0 <= k < |nbrs| ==> nbrs[k] < |seen|
    requires |seen'| == |seen| && forall i :: 0 <= i < |seen| ==> seen'[i] == (seen[i] || i in nbrs)
    ensures Closed(g, seen', expanded + {current})
  {
    forall u: nat, w: nat | u in expanded + {current} && u < |g.cells| && Accessible(g, u, w)
      ensures w < |g.cells| && seen'[w]
    {
      if u == current {
        var k :| 0 <= k < |nbrs| && nbrs[k] == w;
      }
    }
  }

  /** The cells a search may poll: inside the grid and, while it runs, never the exit. */
  lemma {:induction false} PathStaysIn(g: Grid, s: set<nat>, q: seq<nat>, k: nat)
    requires OpenPath(g, q) && q[0] in s && k < |q|
    requires forall u, w :: u in s && u < |g.cells| && Accessible(g, u, w) ==> w in s
    ensures q[k] in s
  {
    if k > 0 {
      PathStaysIn(g, s, q, k - 1);
    }
  }

  /**
   * When the frontier runs dry, the visited cells are exactly those
   * connected to the start, and the exit is not among them.
   */
  lemma Exhausted(g: Grid, start: nat, exit: nat, seen: seq<bool>, parent: map<nat, nat>,
                  expanded: set<nat>, order: seq<nat>, major: seq<nat>, minor: seq<nat>)
    requires Bookkeeping(g, start, exit, seen, parent, [], expanded, order)
    requires Ranked(parent, major, minor) && |major| == |g.cells|
    ensures !Connected(g, start, exit)
    ensures forall v :: 0 <= v < |g.cells| ==> (seen[v] <==> Connected(g, start, v))
  {
    var s := set v | 0 <= v < |g.cells| && seen[v];
    assert forall v :: v in s <==> v in expanded;
    forall v | 0 <= v < |g.cells| ensures seen[v] <==> Connected(g, start, v) {
      if seen[v] {
        PathFromParents(g, parent, major, minor, s, start, v);
      }
      if Connected(g, start, v) {
        var q :| PathFromTo(g, q, start, v);
        PathStaysIn(g, expanded, q, |q| - 1);
      }
    }
  }

  /** When the exit is polled, following parents from it gives an open path from the start. */
  lemma FoundPath(g: Grid, start: nat, exit: nat, seen: seq<bool>, parent: map<nat, nat>, frontier: seq<nat>,
                  expanded: set<nat>, order: seq<nat>, major: seq<nat>, minor: seq<nat>)
    requires Bookkeeping(g, start, exit, seen, parent, frontier, expanded, order)
    requires Ranked(parent, major, minor) && |major| == |g.cells| && exit in frontier
    ensures PathFromTo(g, ReconstructPath(parent, major, minor, exit), start, exit)
  {
    var s := set v | 0 <= v < |g.cells| && seen[v];
    PathFromParents(g, parent, major, minor, s, start, exit);
  }

  /** Polling `current` from the frontier extends the polling order without repeats, starting at the start. */
  lemma Polled(g: Grid, start: nat, exit: nat, seen: seq<bool>, parent: map<nat, nat>, frontier: seq<nat>,
               expanded: set<nat>, order: seq<nat>, current: nat)
    requires Bookkeeping(g, start, exit, seen, parent, frontier, expanded, order) && current in frontier
    ensures PolledCells(g, seen, order + [current]) && (order == [] ==> current == start)
  {
    DistinctJoin(order, [current]);
    if order == [] {
      assert frontier == [start];
    }
    forall k | 0 <= k < |order| ensures order[k] < |g.cells| && seen[order[k]] {
      assert order[k] in order;
    }
  }

  /** When the frontier runs dry, the start has been polled first and no cell twice. */
  lemma Drained(g: Grid, start: nat, exit: nat, seen: seq<bool>, parent: map<nat, nat>, expanded: set<nat>, order: seq<nat>)
    requires Bookkeeping(g, start, exit, seen, parent, [], expanded, order)
    ensures PolledCells(g, seen, order) && order[0] == start
  {
    forall k | 0 <= k < |order| ensures order[k] < |g.cells| && seen[order[k]] {
      assert order[k] in order;
    }
  }

  /** The polled cells: at least one, no repeats, all visited. */
  predicate PolledCells(g: Grid, seen: seq<bool>, order: seq<nat>)
  {
    && |order| > 0 && Distinct(order) && |seen| == |g.cells|
    && forall k :: 0 <= k < |order| ==> order[k] < |g.cells| && seen[order[k]]
  }

  /** The first cell of q outside s, when its last cell is outside s. */
  ghost function FirstNotIn(q: seq<nat>, s: set<nat>): (j: nat)
    requires |q| > 0 && q[|q| - 1] !in s
    ensures j < |q| && q[j] !in s && forall k :: 0 <= k < j ==> q[k] in s
  {
    if q[0] !in s then 0 else 1 + FirstNotIn(q[1..], s)
  }
  /** Without its first element a list without repeats keeps exactly the other elements. */
  lemma DropFirst(s: seq<nat>)
    requires s != [] && Distinct(s)
    ensures Distinct(s[1..]) && forall v :: v in s[1..] <==> v in s && v != s[0]
  {
    forall v | v in s && v != s[0] ensures v in s[1..] {
      var k :| 0 <= k < |s| && s[k] == v;
      assert s[1..][k - 1] == v;
    }
  }

  /** Without its last element a list without repeats keeps exactly the other elements. */
  lemma DropLast(s: seq<nat>)
    requires s != [] && Distinct(s)
    ensures Distinct(s[..|s| - 1]) && forall v :: v in s[..|s| - 1] <==> v in s && v != s[|s| - 1]
  {
    forall v | v in s && v != s[|s| - 1] ensures v in s[..|s| - 1] {
      var k :| 0 <= k < |s| && s[k] == v;
      assert s[..|s| - 1][k] == v;
    }
  }
}
