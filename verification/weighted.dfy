/**
 * `runDijkstra` and `runAStar`. Both keep a distance per cell (MAX_VALUE
 * except 0 at the start), a parent map and a priority queue of nodes; they
 * poll a node of least priority, skip it when a cheaper distance to its
 * cell is already known, mark its cell visited, stop at the exit, and
 * otherwise relax every accessible neighbour: when going through the
 * current cell is strictly cheaper, the neighbour's distance and parent are
 * replaced and a new node is queued. They differ only in the estimate a node
 * carries (0 for Dijkstra, the Manhattan distance to the exit for A*) and in
 * the priority (`gCost` for Dijkstra, `fCost` for A*), so one engine,
 * `Search`, models both.
 */
module WeightedSearch {
  import opened Options
  import opened Grids
  import opened Paths
  import opened ParentChains
  import opened Frontiers
  import opened Nodes
  import opened Costs

  /**
   * The estimate queued with cell v: the Manhattan distance to the exit for
   * A*, 0 for Dijkstra. It vanishes at the exit (and, for A*, only there)
   * and never exceeds the number of steps of an open path from v to the exit.
   */
  function Estimate(g: Grid, exit: nat, estimate: bool, v: nat): (h: nat)
    requires WellFormed(g) && v < |g.cells| && exit < |g.cells|
    ensures !estimate ==> h == 0
    ensures estimate ==> h == Heuristic(g, v, Some(exit))
    ensures estimate ==> (h == 0 <==> v == exit)
    ensures forall p :: PathFromTo(g, p, v, exit) ==> h <= |p| - 1
  {
    var h := if estimate then Heuristic(g, v, Some(exit)) else 0;
    assert forall p :: PathFromTo(g, p, v, exit) ==> h <= |p| - 1 by {
      forall p | PathFromTo(g, p, v, exit) ensures h <= |p| - 1 {
        HeuristicAlongPath(g, p, exit);
      }
    }
    h
  }

  /** The node the solver queues for cell v reached at cost d. */
  function Entry(g: Grid, exit: nat, estimate: bool, v: nat, d: int): (e: Node)
    requires WellFormed(g) && v < |g.cells| && exit < |g.cells|
    ensures e.cell == v && e.gCost == d && Built(e)
  {
    NewNode(v, d, Estimate(g, exit, estimate, v))
  }

  /** The sum of all distances; each improvement lowers it. */
  function Total(s: seq<nat>): nat
  {
    if s == [] then 0 else s[0] + Total(s[1..])
  }

  /** Lowering one distance lowers the sum. */
  lemma {:induction false} TotalDecreases(s: seq<nat>, i: nat, d: nat)
    requires i < |s| && d < s[i]
    ensures Total(s[i := d]) < Total(s)
    decreases |s|
  {
    if i == 0 {
      assert s[i := d][1..] == s[1..];
    } else {
      TotalDecreases(s[1..], i - 1, d);
      assert s[i := d][1..] == s[1..][i - 1 := d];
    }
  }

  // ---------------------------------------------------------------------
  // The state the loop keeps, one predicate per concern.
  // ---------------------------------------------------------------------

  /** Distances: one per cell, at most MAX_VALUE, 0 at the start. */
  ghost predicate Distances(g: Grid, start: nat, dist: seq<nat>)
  {
    && WellFormed(g) && start < |g.cells| && |dist| == |g.cells|
    && dist[start] == 0
    && forall v :: 0 <= v < |dist| ==> dist[v] <= Infinity
  }

  /**
   * Every queued node was built for its cell with that cell's estimate, its
   * cost is finite and no cheaper than the cell's current distance.
   */
  ghost predicate Entries(g: Grid, exit: nat, estimate: bool, dist: seq<nat>, pq: seq<Node>)
  {
    && WellFormed(g) && exit < |g.cells| && |dist| == |g.cells|
    && forall k :: 0 <= k < |pq| ==>
         && pq[k].cell < |g.cells|
         && dist[pq[k].cell] <= pq[k].gCost < Infinity
         && pq[k] == Entry(g, exit, estimate, pq[k].cell, pq[k].gCost)
  }

  /**
   * u is a proper parent of v: u has a finite distance, v is entered from u,
   * reaching v through u costs no more than v's distance, and u ranks below
   * v by distance and then by the time its link was set.
   */
  ghost predicate Linked(g: Grid, dist: seq<nat>, stamp: seq<nat>, u: nat, v: nat)
  {
    && WellFormed(g) && |dist| == |g.cells| && |stamp| == |g.cells|
    && u < |g.cells| && v < |g.cells|
    && dist[u] < Infinity && Accessible(g, u, v)
    && dist[u] + StepCost(g, v) <= dist[v]
    && (dist[u] < dist[v] || stamp[u] < stamp[v])
  }

  /**
   * The parent map holds exactly the cells other than the start with a
   * finite distance, each properly linked; `stamp` (ghost) records when each
   * link was set, before `clock`.
   */
  ghost predicate Links(g: Grid, start: nat, dist: seq<nat>, parent: map<nat, nat>, stamp: seq<nat>, clock: nat)
  {
    && WellFormed(g) && |dist| == |g.cells| && |stamp| == |g.cells|
    && (forall v :: 0 <= v < |stamp| ==> stamp[v] < clock)
    && (forall v: nat :: v in parent <==> v < |g.cells| && dist[v] < Infinity && v != start)
    && (forall v: nat :: v in parent ==> Linked(g, dist, stamp, parent[v], v))
  }

  /** No neighbour of v can be reached more cheaply through v than its distance says. */
  ghost predicate Relaxed(g: Grid, dist: seq<nat>, v: nat)
  {
    && WellFormed(g) && |dist| == |g.cells| && v < |g.cells|
    && forall w: nat :: w < |g.cells| && Accessible(g, v, w) && dist[v] + StepCost(g, w) < Infinity ==>
         dist[w] <= dist[v] + StepCost(g, w)
  }

  /**
   * Every cell with a finite distance (except `skip`) still has a node for
   * that distance in the queue, or is not the exit and has been relaxed.
   */
  ghost predicate Covered(g: Grid, exit: nat, estimate: bool, dist: seq<nat>, pq: seq<Node>, skip: Option<nat>)
  {
    && WellFormed(g) && exit < |g.cells| && |dist| == |g.cells|
    && forall v: nat :: v < |g.cells| && skip != Some(v) && dist[v] < Infinity ==>
         Entry(g, exit, estimate, v, dist[v]) in pq || (v != exit && Relaxed(g, dist, v))
  }

  /** Visited cells have a finite distance. */
  ghost predicate Marked(g: Grid, dist: seq<nat>, visited: seq<bool>)
  {
    && |visited| == |g.cells| && |dist| == |g.cells|
    && forall v :: 0 <= v < |visited| && visited[v] ==> dist[v] < Infinity
  }

  /** Everything the main loop keeps. */
  ghost predicate Searching(g: Grid, start: nat, exit: nat, estimate: bool, dist: seq<nat>, parent: map<nat, nat>,
                            pq: seq<Node>, visited: seq<bool>, stamp: seq<nat>, clock: nat)
  {
    && Distances(g, start, dist) && Entries(g, exit, estimate, dist, pq)
    && Links(g, start, dist, parent, stamp, clock) && Covered(g, exit, estimate, dist, pq, None)
    && Marked(g, dist, visited)
  }

  /** The two loops that put MAX_VALUE for every cell and then 0 for the start. */
  function Unreached(n: nat, start: nat): (dist: seq<nat>)
    ensures |dist| == n && forall v :: 0 <= v < n ==> dist[v] == if v == start then 0 else Infinity
  {
    seq(n, v => if v == start then 0 else Infinity)
  }

  /** `resetVisited`: no cell visited. */
  function Unvisited(n: nat): (visited: seq<bool>)
    ensures |visited| == n && forall v :: 0 <= v < n ==> !visited[v]
  {
    seq(n, v => false)
  }

  /** The state right after initialisation. */
  lemma Initially(g: Grid, start: nat, exit: nat, estimate: bool)
    requires WellFormed(g) && start < |g.cells| && exit < |g.cells|
    ensures Searching(g, start, exit, estimate, Unreached(|g.cells|, start), map[],
                      [Entry(g, exit, estimate, start, 0)], Unvisited(|g.cells|), Zeros(|g.cells|), 1)
  {
    var dist := Unreached(|g.cells|, start);
    var pq := [Entry(g, exit, estimate, start, 0)];
    forall v: nat | v < |g.cells| && dist[v] < Infinity ensures Entry(g, exit, estimate, v, dist[v]) in pq {
      assert v == start;
    }
  }

  // ---------------------------------------------------------------------
  // Taking a node off the queue.
  // ---------------------------------------------------------------------

  /** The queue without position i keeps every other node. */
  lemma Without(pq: seq<Node>, i: nat, e: Node)
    requires i < |pq| && e in pq && e != pq[i]
    ensures e in pq[..i] + pq[i + 1..]
  {
    var k :| 0 <= k < |pq| && pq[k] == e;
    if k < i {
      assert (pq[..i] + pq[i + 1..])[k] == e;
    } else {
      assert (pq[..i] + pq[i + 1..])[k - 1] == e;
    }
  }

  /** Dropping nodes keeps the facts about the remaining ones. */
  lemma EntriesWithout(g: Grid, exit: nat, estimate: bool, dist: seq<nat>, pq: seq<Node>, i: nat)
    requires Entries(g, exit, estimate, dist, pq) && i < |pq|
    ensures Entries(g, exit, estimate, dist, pq[..i] + pq[i + 1..])
  {
    var rest := pq[..i] + pq[i + 1..];
    forall k | 0 <= k < |rest| ensures rest[k] == pq[if k < i then k else k + 1] {
    }
  }

  /**
   * A stale node (its cost exceeds the cell's distance) is never the node
   * that keeps a cell covered, so skipping it keeps every cell covered.
   */
  lemma DropStale(g: Grid, exit: nat, estimate: bool, dist: seq<nat>, pq: seq<Node>, i: nat)
    requires Entries(g, exit, estimate, dist, pq) && Covered(g, exit, estimate, dist, pq, None)
    requires i < |pq| && pq[i].gCost > dist[pq[i].cell]
    ensures Entries(g, exit, estimate, dist, pq[..i] + pq[i + 1..])
    ensures Covered(g, exit, estimate, dist, pq[..i] + pq[i + 1..], None)
  {
    EntriesWithout(g, exit, estimate, dist, pq, i);
    forall v: nat | v < |g.cells| && dist[v] < Infinity && Entry(g, exit, estimate, v, dist[v]) in pq
      ensures Entry(g, exit, estimate, v, dist[v]) in pq[..i] + pq[i + 1..]
    {
      Without(pq, i, Entry(g, exit, estimate, v, dist[v]));
    }
  }

  /** Polling the node of cell c keeps every other cell covered. */
  lemma DropCurrent(g: Grid, exit: nat, estimate: bool, dist: seq<nat>, pq: seq<Node>, i: nat)
    requires Entries(g, exit, estimate, dist, pq) && Covered(g, exit, estimate, dist, pq, None) && i < |pq|
    ensures Entries(g, exit, estimate, dist, pq[..i] + pq[i + 1..])
    ensures Covered(g, exit, estimate, dist, pq[..i] + pq[i + 1..], Some(pq[i].cell))
  {
    EntriesWithout(g, exit, estimate, dist, pq, i);
    forall v: nat | v < |g.cells| && v != pq[i].cell && dist[v] < Infinity && Entry(g, exit, estimate, v, dist[v]) in pq
      ensures Entry(g, exit, estimate, v, dist[v]) in pq[..i] + pq[i + 1..]
    {
      Without(pq, i, Entry(g, exit, estimate, v, dist[v]));
    }
  }

  // ---------------------------------------------------------------------
  // Relaxing the neighbours of the polled cell.
  // ---------------------------------------------------------------------

  /**
   * The state part-way through the neighbour loop of `current`: `done` are
   * the neighbours handled so far, each no dearer than going through
   * `current`; distances only went down, `current`'s did not change, and
   * the queue grew only if the distances' sum fell.
   */
  ghost predicate Relaxing(g: Grid, start: nat, exit: nat, estimate: bool, dist0: seq<nat>, pq0: seq<Node>, current: nat,
                           done: seq<nat>, dist: seq<nat>, parent: map<nat, nat>, pq: seq<Node>, stamp: seq<nat>, clock: nat)
  {
    && Distances(g, start, dist) && Entries(g, exit, estimate, dist, pq)
    && Links(g, start, dist, parent, stamp, clock) && Covered(g, exit, estimate, dist, pq, Some(current))
    && current != exit && Lowered(dist0, pq0, dist, pq, current)
    && Handled(g, dist, current, done)
  }

  /**
   * Distances only went down, `current`'s (finite) not at all, and the
   * queue grew only if the distances' sum fell.
   */
  ghost predicate Lowered(dist0: seq<nat>, pq0: seq<Node>, dist: seq<nat>, pq: seq<Node>, current: nat)
  {
    && |dist0| == |dist| && current < |dist|
    && dist[current] == dist0[current] < Infinity
    && (forall v :: 0 <= v < |dist| ==> dist[v] <= dist0[v])
    && Total(dist) <= Total(dist0) && (Total(dist) < Total(dist0) || pq == pq0)
  }

  /** Each neighbour in `done` is no dearer than going through `current`. */
  ghost predicate Handled(g: Grid, dist: seq<nat>, current: nat, done: seq<nat>)
  {
    && |dist| == |g.cells| && current < |dist|
    && (forall k :: 0 <= k < |done| ==> done[k] < |dist|)
    && (forall k :: 0 <= k < |done| && dist[current] + StepCost(g, done[k]) < Infinity ==>
          dist[done[k]] <= dist[current] + StepCost(g, done[k]))
  }

  /** Lowering w's distance keeps `Lowered`, now with a smaller sum. */
  lemma LoweredUpdated(dist0: seq<nat>, pq0: seq<Node>, dist: seq<nat>, pq: seq<Node>, current: nat, w: nat, d: nat, e: Node)
    requires Lowered(dist0, pq0, dist, pq, current) && w < |dist| && w != current && d < dist[w]
    ensures Lowered(dist0, pq0, dist[w := d], pq + [e], current)
  {
    TotalDecreases(dist, w, d);
  }

  /** Handling w after lowering it to the cost through `current`. */
  lemma HandledUpdated(g: Grid, dist: seq<nat>, current: nat, done: seq<nat>, w: nat, d: nat)
    requires Handled(g, dist, current, done) && w < |dist| && w != current && d == dist[current] + StepCost(g, w) < dist[w]
    ensures Handled(g, dist[w := d], current, done + [w])
  {
    var done' := done + [w];
    forall k | 0 <= k < |done'| ensures done'[k] == if k < |done| then done[k] else w {
    }
  }

  /** A relaxed cell stays relaxed when other cells' distances go down. */
  lemma RelaxedStays(g: Grid, dist: seq<nat>, dist': seq<nat>, v: nat)
    requires Relaxed(g, dist, v) && |dist'| == |dist| && dist'[v] == dist[v]
    requires forall u :: 0 <= u < |dist| ==> dist'[u] <= dist[u]
    ensures Relaxed(g, dist', v)
  {
  }

  /** Replacing w's distance, parent and stamp keeps every link proper. */
  lemma LinksUpdated(g: Grid, start: nat, dist: seq<nat>, parent: map<nat, nat>, stamp: seq<nat>, clock: nat,
                     current: nat, w: nat, d: nat)
    requires Distances(g, start, dist) && Links(g, start, dist, parent, stamp, clock)
    requires current < |g.cells| && w < |g.cells| && w != current && dist[current] < Infinity
    requires Accessible(g, current, w) && d == dist[current] + StepCost(g, w) && d < dist[w]
    ensures Links(g, start, dist[w := d], parent[w := current], stamp[w := clock], clock + 1)
  {
    var dist', parent', stamp' := dist[w := d], parent[w := current], stamp[w := clock];
    forall v: nat | v in parent' ensures Linked(g, dist', stamp', parent'[v], v) {
      if v == w {
        assert parent'[v] == current && stamp'[current] == stamp[current] < clock;
      } else {
        assert Linked(g, dist, stamp, parent[v], v);
      }
    }
  }

  /** Replacing w's distance and queueing its new node keeps the other cells covered. */
  lemma CoveredUpdated(g: Grid, exit: nat, estimate: bool, dist: seq<nat>, pq: seq<Node>, current: nat, w: nat, d: nat)
    requires Covered(g, exit, estimate, dist, pq, Some(current))
    requires w < |g.cells| && w != current && d < dist[w]
    ensures Covered(g, exit, estimate, dist[w := d], pq + [Entry(g, exit, estimate, w, d)], Some(current))
  {
    var dist', pq' := dist[w := d], pq + [Entry(g, exit, estimate, w, d)];
    forall v: nat | v < |g.cells| && v != current && dist'[v] < Infinity
      ensures Entry(g, exit, estimate, v, dist'[v]) in pq' || (v != exit && Relaxed(g, dist', v))
    {
      if v != w {
        if Entry(g, exit, estimate, v, dist[v]) !in pq {
          RelaxedStays(g, dist, dist', v);
        }
      }
    }
  }

  /** A neighbour no cheaper through `current` than its distance is left as it is. */
  lemma RelaxSkip(g: Grid, start: nat, exit: nat, estimate: bool, dist0: seq<nat>, pq0: seq<Node>, current: nat,
                  done: seq<nat>, w: nat, dist: seq<nat>, parent: map<nat, nat>, pq: seq<Node>, stamp: seq<nat>, clock: nat)
    requires Relaxing(g, start, exit, estimate, dist0, pq0, current, done, dist, parent, pq, stamp, clock)
    requires w < |g.cells| && dist[current] + StepCost(g, w) >= dist[w]
    ensures Relaxing(g, start, exit, estimate, dist0, pq0, current, done + [w], dist, parent, pq, stamp, clock)
  {
    var done' := done + [w];
    forall k | 0 <= k < |done'| ensures done'[k] == if k < |done| then done[k] else w {
    }
  }

  /** A neighbour strictly cheaper through `current` gets the new distance, parent and node. */
  lemma RelaxImprove(g: Grid, start: nat, exit: nat, estimate: bool, dist0: seq<nat>, pq0: seq<Node>, current: nat,
                     done: seq<nat>, w: nat, d: nat, dist: seq<nat>, parent: map<nat, nat>, pq: seq<Node>, stamp: seq<nat>, clock: nat)
    requires Relaxing(g, start, exit, estimate, dist0, pq0, current, done, dist, parent, pq, stamp, clock)
    requires w < |g.cells| && Accessible(g, current, w) && d == dist[current] + StepCost(g, w) < dist[w]
    ensures Relaxing(g, start, exit, estimate, dist0, pq0, current, done + [w], dist[w := d], parent[w := current],
                     pq + [Entry(g, exit, estimate, w, d)], stamp[w := clock], clock + 1)
  {
    assert w != current;
    var dist', pq' := dist[w := d], pq + [Entry(g, exit, estimate, w, d)];
    assert Distances(g, start, dist');
    assert Entries(g, exit, estimate, dist', pq') by {
      EntriesUpdated(g, exit, estimate, dist, pq, w, d);
    }
    assert Links(g, start, dist', parent[w := current], stamp[w := clock], clock + 1) by {
      LinksUpdated(g, start, dist, parent, stamp, clock, current, w, d);
    }
    assert Covered(g, exit, estimate, dist', pq', Some(current)) by {
      CoveredUpdated(g, exit, estimate, dist, pq, current, w, d);
    }
    assert Lowered(dist0, pq0, dist', pq', current) by {
      LoweredUpdated(dist0, pq0, dist, pq, current, w, d, Entry(g, exit, estimate, w, d));
    }
    assert Handled(g, dist', current, done + [w]) by {
      HandledUpdated(g, dist, current, done, w, d);
    }
  }

  /** Lowering w's distance and queueing its node keeps every node's facts. */
  lemma EntriesUpdated(g: Grid, exit: nat, estimate: bool, dist: seq<nat>, pq: seq<Node>, w: nat, d: nat)
    requires Entries(g, exit, estimate, dist, pq) && w < |g.cells| && d < dist[w] <= Infinity
    ensures Entries(g, exit, estimate, dist[w := d], pq + [Entry(g, exit, estimate, w, d)])
  {
    var pq' := pq + [Entry(g, exit, estimate, w, d)];
    forall k | 0 <= k < |pq'| ensures pq'[k] == if k < |pq| then pq[k] else Entry(g, exit, estimate, w, d) {
    }
  }

  /** After the whole neighbour loop `current` is relaxed too, so every cell is covered. */
  /** Before any neighbour: nothing handled and nothing improved. */
  lemma RelaxStart(g: Grid, start: nat, exit: nat, estimate: bool, dist: seq<nat>, parent: map<nat, nat>, pq: seq<Node>,
                   stamp: seq<nat>, clock: nat, current: nat)
    requires Distances(g, start, dist) && Entries(g, exit, estimate, dist, pq)
    requires Links(g, start, dist, parent, stamp, clock) && Covered(g, exit, estimate, dist, pq, Some(current))
    requires current < |g.cells| && current != exit && dist[current] < Infinity
    ensures Relaxing(g, start, exit, estimate, dist, pq, current, [], dist, parent, pq, stamp, clock)
    ensures Improved(g, exit, estimate, dist, parent, pq, current, dist, parent, pq)
  {
    assert pq[..|pq|] == pq;
  }

  lemma RelaxDone(g: Grid, start: nat, exit: nat, estimate: bool, dist0: seq<nat>, pq0: seq<Node>, current: nat,
                  nbrs: seq<nat>, dist: seq<nat>, parent: map<nat, nat>, pq: seq<Node>, stamp: seq<nat>, clock: nat)
    requires Relaxing(g, start, exit, estimate, dist0, pq0, current, nbrs, dist, parent, pq, stamp, clock)
    requires forall w :: w in nbrs <==> Accessible(g, current, w)
    ensures Covered(g, exit, estimate, dist, pq, None)
  {
    forall w: nat | w < |g.cells| && Accessible(g, current, w) && dist[current] + StepCost(g, w) < Infinity
      ensures dist[w] <= dist[current] + StepCost(g, w)
    {
      var k :| 0 <= k < |nbrs| && nbrs[k] == w;
    }
    assert Relaxed(g, dist, current);
  }

  /** A prefix one longer ends with the next element. */
  lemma TakeOneMore(s: seq<nat>, k: nat)
    requires k < |s|
    ensures s[..k + 1] == s[..k] + [s[k]]
  {
  }

  /**
   * What the neighbour loop did to (dist0, parent0, pq0): the queue only
   * grew; every cell whose distance fell is an accessible neighbour of
   * `current` that now has the distance through `current`, `current` as its
   * parent and a node in the queue; every other cell kept its parent.
   */
  ghost predicate Improved(g: Grid, exit: nat, estimate: bool, dist0: seq<nat>, parent0: map<nat, nat>, pq0: seq<Node>,
                           current: nat, dist: seq<nat>, parent: map<nat, nat>, pq: seq<Node>)
  {
    && WellFormed(g) && exit < |g.cells| && |dist0| == |dist| == |g.cells| && current < |dist|
    && |pq0| <= |pq| && pq[..|pq0|] == pq0
    && (forall w :: 0 <= w < |dist| && dist[w] < dist0[w] ==> ThroughCurrent(g, exit, estimate, dist0, current, dist, parent, pq, w))
    && (forall v: nat :: !(0 <= v < |dist| && dist[v] < dist0[v]) ==> KeptParent(parent0, parent, v))
  }

  /** w is an accessible neighbour of `current` with the distance through it, `current` as parent and a queued node. */
  ghost predicate ThroughCurrent(g: Grid, exit: nat, estimate: bool, dist0: seq<nat>, current: nat, dist: seq<nat>,
                                 parent: map<nat, nat>, pq: seq<Node>, w: nat)
    requires WellFormed(g) && exit < |g.cells| && |dist0| == |dist| == |g.cells| && current < |dist| && w < |dist|
  {
    && Accessible(g, current, w) && dist[w] == dist0[current] + StepCost(g, w)
    && w in parent && parent[w] == current && Entry(g, exit, estimate, w, dist[w]) in pq
  }

  /** v has the same parent, or the same lack of one, in both maps. */
  ghost predicate KeptParent(parent0: map<nat, nat>, parent: map<nat, nat>, v: nat)
  {
    (v in parent <==> v in parent0) && (v in parent0 ==> parent[v] == parent0[v])
  }

  /** Lowering one more neighbour through `current` keeps the record. */
  lemma ImprovedOneMore(g: Grid, exit: nat, estimate: bool, dist0: seq<nat>, parent0: map<nat, nat>, pq0: seq<Node>,
                        current: nat, dist: seq<nat>, parent: map<nat, nat>, pq: seq<Node>, w: nat, d: nat)
    requires Improved(g, exit, estimate, dist0, parent0, pq0, current, dist, parent, pq)
    requires w < |dist| && w != current && dist[current] == dist0[current] && dist[w] <= dist0[w]
    requires Accessible(g, current, w) && d == dist[current] + StepCost(g, w) < dist[w]
    ensures Improved(g, exit, estimate, dist0, parent0, pq0, current, dist[w := d], parent[w := current],
                     pq + [Entry(g, exit, estimate, w, d)])
  {
    var dist', parent', pq' := dist[w := d], parent[w := current], pq + [Entry(g, exit, estimate, w, d)];
    assert pq'[..|pq0|] == pq[..|pq0|];
    forall x | 0 <= x < |dist'| && dist'[x] < dist0[x]
      ensures ThroughCurrent(g, exit, estimate, dist0, current, dist', parent', pq', x)
    {
      if x == w {
        assert pq'[|pq|] == Entry(g, exit, estimate, w, d);
      } else {
        assert ThroughCurrent(g, exit, estimate, dist0, current, dist, parent, pq, x);
      }
    }
    forall v: nat | !(0 <= v < |dist'| && dist'[v] < dist0[v]) ensures KeptParent(parent0, parent', v) {
      assert v != w && KeptParent(parent0, parent, v);
    }
  }

  /**
   * The neighbour loop of both solvers for the polled cell `current`: each
   * accessible neighbour, in `getAccessibleNeighbors` order, whose cost
   * through `current` is strictly below its distance gets that distance,
   * `current` as its parent and a new node in the queue.
   */
  method Relax(g: Grid, start: nat, exit: nat, estimate: bool, dist: seq<nat>, parent: map<nat, nat>, pq: seq<Node>,
               ghost stamp: seq<nat>, ghost clock: nat, current: nat)
    returns (dist': seq<nat>, parent': map<nat, nat>, pq': seq<Node>, ghost stamp': seq<nat>, ghost clock': nat)
    requires Distances(g, start, dist) && Entries(g, exit, estimate, dist, pq)
    requires Links(g, start, dist, parent, stamp, clock) && Covered(g, exit, estimate, dist, pq, Some(current))
    requires current < |g.cells| && current != exit && dist[current] < Infinity
    ensures Distances(g, start, dist') && Entries(g, exit, estimate, dist', pq')
    ensures Links(g, start, dist', parent', stamp', clock') && Covered(g, exit, estimate, dist', pq', None)
    ensures |dist'| == |dist| && forall v :: 0 <= v < |dist| ==> dist'[v] <= dist[v]
    ensures Total(dist') <= Total(dist) && (Total(dist') < Total(dist) || pq' == pq)
    ensures Improved(g, exit, estimate, dist, parent, pq, current, dist', parent', pq')
  {
    var nbrs := AccessibleNeighbors(g, current);
    dist', parent', pq', stamp', clock' := dist, parent, pq, stamp, clock;
    RelaxStart(g, start, exit, estimate, dist, parent, pq, stamp, clock, current);
    for k := 0 to |nbrs|
      invariant Relaxing(g, start, exit, estimate, dist, pq, current, nbrs[..k], dist', parent', pq', stamp', clock')
      invariant Improved(g, exit, estimate, dist, parent, pq, current, dist', parent', pq')
    {
      TakeOneMore(nbrs, k);
      dist', parent', pq', stamp', clock' :=
        RelaxNeighbor(g, start, exit, estimate, dist, parent, pq, current, nbrs[..k], nbrs[k], dist', parent', pq', stamp', clock');
    }
    assert nbrs[..|nbrs|] == nbrs;
    RelaxDone(g, start, exit, estimate, dist, pq, current, nbrs, dist', parent', pq', stamp', clock');
  }

  /**
   * One neighbour w of `current`: when the cost through `current` is
   * strictly below w's distance, w gets that distance, `current` as parent
   * and a new node in the queue; otherwise nothing changes.
   */
  method RelaxNeighbor(g: Grid, start: nat, exit: nat, estimate: bool, dist0: seq<nat>, parent0: map<nat, nat>, pq0: seq<Node>,
                       current: nat, done: seq<nat>, w: nat, dist: seq<nat>, parent: map<nat, nat>, pq: seq<Node>,
                       ghost stamp: seq<nat>, ghost clock: nat)
    returns (dist': seq<nat>, parent': map<nat, nat>, pq': seq<Node>, ghost stamp': seq<nat>, ghost clock': nat)
    requires Relaxing(g, start, exit, estimate, dist0, pq0, current, done, dist, parent, pq, stamp, clock)
    requires Improved(g, exit, estimate, dist0, parent0, pq0, current, dist, parent, pq)
    requires w < |g.cells| && Accessible(g, current, w)
    ensures Relaxing(g, start, exit, estimate, dist0, pq0, current, done + [w], dist', parent', pq', stamp', clock')
    ensures Improved(g, exit, estimate, dist0, parent0, pq0, current, dist', parent', pq')
    ensures dist[current] + StepCost(g, w) >= dist[w] ==> dist' == dist && parent' == parent && pq' == pq
  {
    var newDist := dist[current] + StepCost(g, w);
    if newDist < dist[w] {
      RelaxImprove(g, start, exit, estimate, dist0, pq0, current, done, w, newDist, dist, parent, pq, stamp, clock);
      ImprovedOneMore(g, exit, estimate, dist0, parent0, pq0, current, dist, parent, pq, w, newDist);
      dist' := dist[w := newDist];
      parent' := parent[w := current];
      pq' := pq + [Entry(g, exit, estimate, w, newDist)];
      stamp' := stamp[w := clock];
      clock' := clock + 1;
    } else {
      RelaxSkip(g, start, exit, estimate, dist0, pq0, current, done, w, dist, parent, pq, stamp, clock);
      dist', parent', pq', stamp', clock' := dist, parent, pq, stamp, clock;
    }
  }

  // ---------------------------------------------------------------------
  // What the state says about paths.
  // ---------------------------------------------------------------------

  /** Proper links rank every parent below its child by (distance, stamp). */
  lemma LinksRanked(g: Grid, start: nat, dist: seq<nat>, parent: map<nat, nat>, stamp: seq<nat>, clock: nat)
    requires Links(g, start, dist, parent, stamp, clock)
    ensures Ranked(parent, dist, stamp)
  {
    forall v | v in parent ensures v < |dist| && parent[v] < |dist| &&
      (dist[parent[v]] < dist[v] || (dist[parent[v]] == dist[v] && stamp[parent[v]] < stamp[v]))
    {
      assert Linked(g, dist, stamp, parent[v], v);
    }
  }

  /** The cells with a finite distance. */
  ghost function Reached(dist: seq<nat>): (s: set<nat>)
    ensures forall v :: v in s <==> 0 <= v < |dist| && dist[v] < Infinity
  {
    set v | 0 <= v < |dist| && dist[v] < Infinity
  }

  /** The reconstructed path to a cell with a finite distance is an open path from the start. */
  lemma ChainPath(g: Grid, start: nat, dist: seq<nat>, parent: map<nat, nat>, stamp: seq<nat>, clock: nat, v: nat)
    requires Distances(g, start, dist) && Links(g, start, dist, parent, stamp, clock)
    requires v < |g.cells| && dist[v] < Infinity
    ensures Ranked(parent, dist, stamp)
    ensures PathFromTo(g, ReconstructPath(parent, dist, stamp, v), start, v)
  {
    LinksRanked(g, start, dist, parent, stamp, clock);
    var s := Reached(dist);
    forall u | u in s && u in parent ensures parent[u] in s && Accessible(g, parent[u], u) {
      assert Linked(g, dist, stamp, parent[u], u);
    }
    PathFromParents(g, parent, dist, stamp, s, start, v);
  }

  /** The reconstructed path to a cell with a finite distance costs at most that distance. */
  lemma {:induction false} ChainCost(g: Grid, start: nat, dist: seq<nat>, parent: map<nat, nat>, stamp: seq<nat>, clock: nat, v: nat)
    requires Distances(g, start, dist) && Links(g, start, dist, parent, stamp, clock) && Ranked(parent, dist, stamp)
    requires v < |g.cells| && dist[v] < Infinity
    ensures Inside(g, ReconstructPath(parent, dist, stamp, v))
    ensures PathCost(g, ReconstructPath(parent, dist, stamp, v)) <= dist[v]
    decreases dist[v], stamp[v]
  {
    if v in parent {
      var u := parent[v];
      assert Linked(g, dist, stamp, u, v);
      ChainCost(g, start, dist, parent, stamp, clock, u);
      ReconstructLink(parent, dist, stamp, v);
      ExtendCost(g, ReconstructPath(parent, dist, stamp, u), v);
    } else {
      assert ReconstructPath(parent, dist, stamp, v) == [v];
    }
  }

  /**
   * Along a walk from the start whose first j cells have no node for their
   * distance left in the queue, each of those cells is relaxed, so the
   * (j+1)-th cell's distance is at most the cost of walking to it.
   */
  lemma {:induction false} Along(g: Grid, start: nat, exit: nat, estimate: bool, dist: seq<nat>, pq: seq<Node>, q: seq<nat>, j: nat)
    requires Distances(g, start, dist) && Covered(g, exit, estimate, dist, pq, None)
    requires OpenPath(g, q) && q[0] == start && j < |q| && PathCost(g, q) < Infinity
    requires forall k :: 0 <= k < j ==> Entry(g, exit, estimate, q[k], dist[q[k]]) !in pq
    ensures Inside(g, q[..j + 1]) && dist[q[j]] <= PathCost(g, q[..j + 1])
    decreases j
  {
    if j == 0 {
      assert q[..1] == [start];
    } else {
      var before, upto := q[..j], q[..j + 1];
      Along(g, start, exit, estimate, dist, pq, q, j - 1);
      assert q[..j - 1 + 1] == before;
      PrefixCost(g, q, j + 1);
      TakeOneMore(q, j);
      ExtendCost(g, before, q[j]);
      AlongStep(g, exit, estimate, dist, pq, q[j - 1], q[j], PathCost(g, before), PathCost(g, upto));
    }
  }

  /**
   * One step of `Along`: u has no node left for its distance, so it is
   * relaxed, and its neighbour v is reached for at most u's cost plus v's floor.
   */
  lemma AlongStep(g: Grid, exit: nat, estimate: bool, dist: seq<nat>, pq: seq<Node>, u: nat, v: nat, before: nat, upto: nat)
    requires Covered(g, exit, estimate, dist, pq, None)
    requires u < |g.cells| && v < |g.cells| && Accessible(g, u, v)
    requires Entry(g, exit, estimate, u, dist[u]) !in pq
    requires dist[u] <= before && upto == before + StepCost(g, v) < Infinity
    ensures dist[v] <= upto
  {
    CoveredAt(g, exit, estimate, dist, pq, u);
    RelaxedAt(g, dist, u, v);
  }

  /** A cell with a finite distance and no node for it in the queue has been relaxed. */
  lemma CoveredAt(g: Grid, exit: nat, estimate: bool, dist: seq<nat>, pq: seq<Node>, u: nat)
    requires Covered(g, exit, estimate, dist, pq, None)
    requires u < |g.cells| && dist[u] < Infinity && Entry(g, exit, estimate, u, dist[u]) !in pq
    ensures u != exit && Relaxed(g, dist, u)
  {
  }

  /** A relaxed cell bounds the distance of each neighbour it opens onto. */
  lemma RelaxedAt(g: Grid, dist: seq<nat>, u: nat, v: nat)
    requires Relaxed(g, dist, u) && v < |g.cells| && Accessible(g, u, v) && dist[u] + StepCost(g, v) < Infinity
    ensures dist[v] <= dist[u] + StepCost(g, v)
  {
  }

  /** Every cell has a node for its distance, or is relaxed and not the exit: with an empty queue the exit is out of reach. */
  lemma Exhausted(g: Grid, start: nat, exit: nat, estimate: bool, dist: seq<nat>, q: seq<nat>)
    requires Distances(g, start, dist) && Covered(g, exit, estimate, dist, [], None)
    requires PathFromTo(g, q, start, exit)
    ensures PathCost(g, q) >= Infinity
  {
    if PathCost(g, q) < Infinity {
      assert q[..|q|] == q;
      Along(g, start, exit, estimate, dist, [], q, |q| - 1);
    }
  }

  /**
   * Dijkstra's bound: when the polled node of least cost is the exit's node
   * for its distance, no walk from the start to the exit is cheaper.
   */
  lemma Optimal(g: Grid, start: nat, exit: nat, dist: seq<nat>, pq: seq<Node>, i: nat, q: seq<nat>)
    requires Distances(g, start, dist) && Entries(g, exit, false, dist, pq) && Covered(g, exit, false, dist, pq, None)
    requires i < |pq| && forall k :: 0 <= k < |pq| ==> pq[i].gCost <= pq[k].gCost
    requires pq[i].cell == exit && pq[i].gCost <= dist[exit]
    requires PathFromTo(g, q, start, exit) && PathCost(g, q) < Infinity
    ensures dist[exit] <= PathCost(g, q)
  {
    var dead := set v | 0 <= v < |g.cells| && Entry(g, exit, false, v, dist[v]) !in pq;
    assert pq[i] == Entry(g, exit, false, exit, dist[exit]);
    var j := FirstNotIn(q, dead);
    Along(g, start, exit, false, dist, pq, q, j);
    PrefixCost(g, q, j + 1);
    var k :| 0 <= k < |pq| && pq[k] == Entry(g, exit, false, q[j], dist[q[j]]);
  }

  /** Marking the cell of a node that is not stale keeps every visited cell at a finite distance. */
  lemma MarkVisited(g: Grid, dist: seq<nat>, pq: seq<Node>, visited: seq<bool>, i: nat, exit: nat, estimate: bool)
    requires Entries(g, exit, estimate, dist, pq) && Marked(g, dist, visited) && i < |pq|
    ensures Marked(g, dist, visited[pq[i].cell := true])
  {
  }

  /** Lowering distances keeps every visited cell at a finite distance. */
  lemma MarkedLowered(g: Grid, dist0: seq<nat>, dist: seq<nat>, visited: seq<bool>)
    requires Marked(g, dist0, visited) && |dist| == |dist0|
    requires forall v :: 0 <= v < |dist0| ==> dist[v] <= dist0[v]
    ensures Marked(g, dist, visited)
  {
  }

  /**
   * Reaching the exit through a node that is not stale: the reconstructed
   * path is an open path from the start to the exit costing at most the
   * node's cost; for Dijkstra it costs exactly that, and no walk costing
   * less than MAX_VALUE is cheaper.
   */
  lemma Arrive(g: Grid, start: nat, exit: nat, estimate: bool, dist: seq<nat>, parent: map<nat, nat>, pq: seq<Node>,
               stamp: seq<nat>, clock: nat, i: nat)
    requires Distances(g, start, dist) && Entries(g, exit, estimate, dist, pq)
    requires Links(g, start, dist, parent, stamp, clock) && Covered(g, exit, estimate, dist, pq, None)
    requires i < |pq| && forall k :: 0 <= k < |pq| ==> Priority(pq[i], estimate) <= Priority(pq[k], estimate)
    requires pq[i].cell == exit && pq[i].gCost <= dist[exit]
    ensures Ranked(parent, dist, stamp) && pq[i].gCost == dist[exit]
    ensures PathFromTo(g, ReconstructPath(parent, dist, stamp, exit), start, exit)
    ensures PathCost(g, ReconstructPath(parent, dist, stamp, exit)) <= pq[i].gCost
    ensures !estimate ==> PathCost(g, ReconstructPath(parent, dist, stamp, exit)) == pq[i].gCost
    ensures !estimate ==> forall q :: PathFromTo(g, q, start, exit) && PathCost(g, q) < Infinity ==> pq[i].gCost <= PathCost(g, q)
  {
    ChainPath(g, start, dist, parent, stamp, clock, exit);
    ChainCost(g, start, dist, parent, stamp, clock, exit);
    if !estimate {
      forall q | PathFromTo(g, q, start, exit) && PathCost(g, q) < Infinity ensures dist[exit] <= PathCost(g, q) {
        Optimal(g, start, exit, dist, pq, i, q);
      }
      Optimal(g, start, exit, dist, pq, i, ReconstructPath(parent, dist, stamp, exit));
    }
  }

  /** A visited cell, like every cell with a finite distance, is reachable from the start. */
  lemma VisitedReachable(g: Grid, start: nat, dist: seq<nat>, parent: map<nat, nat>, visited: seq<bool>, stamp: seq<nat>, clock: nat)
    requires Distances(g, start, dist) && Links(g, start, dist, parent, stamp, clock) && Marked(g, dist, visited)
    ensures forall v :: 0 <= v < |visited| && visited[v] ==> Connected(g, start, v)
  {
    forall v | 0 <= v < |visited| && visited[v] ensures Connected(g, start, v) {
      ChainPath(g, start, dist, parent, stamp, clock, v);
    }
  }

  // ---------------------------------------------------------------------
  // The solvers.
  // ---------------------------------------------------------------------

  /** A path found by a weighted solver and the `gCost` of the exit's node. */
  datatype Route = Route(cells: seq<nat>, cost: nat)

  /**
   * What a solver promises about a route it reports: an open path from the
   * start to the exit costing at most the reported cost, and for Dijkstra
   * exactly that cost and no more than any walk costing less than MAX_VALUE.
   */
  ghost predicate Answer(g: Grid, start: nat, exit: nat, estimate: bool, r: Route)
  {
    && PathFromTo(g, r.cells, start, exit) && PathCost(g, r.cells) <= r.cost
    && (!estimate ==> PathCost(g, r.cells) == r.cost)
    && (!estimate ==> forall q :: PathFromTo(g, q, start, exit) && PathCost(g, q) < Infinity ==> r.cost <= PathCost(g, q))
  }

  /**
   * One turn of the main loop: poll a node of least priority, skip it if it
   * is stale, otherwise mark its cell visited and either stop at the exit
   * with the reconstructed path or relax the cell's neighbours. A turn that
   * goes on lowers the distances' sum, or keeps it and shortens the queue.
   */
  method Turn(g: Grid, start: nat, exit: nat, estimate: bool, dist: seq<nat>, parent: map<nat, nat>, pq: seq<Node>,
              visited: seq<bool>, ghost stamp: seq<nat>, ghost clock: nat)
    returns (arrived: Option<Route>, dist': seq<nat>, parent': map<nat, nat>, pq': seq<Node>, visited': seq<bool>,
             ghost stamp': seq<nat>, ghost clock': nat)
    requires Searching(g, start, exit, estimate, dist, parent, pq, visited, stamp, clock) && pq != []
    ensures |visited'| == |g.cells| && forall v :: 0 <= v < |visited'| && visited'[v] ==> Connected(g, start, v)
    ensures arrived.Some? ==> Answer(g, start, exit, estimate, arrived.value) && visited'[exit]
    ensures arrived.None? ==> Searching(g, start, exit, estimate, dist', parent', pq', visited', stamp', clock')
    ensures arrived.None? ==> Total(dist') < Total(dist) || (Total(dist') == Total(dist) && |pq'| < |pq|)
  {
    var i := Poll(pq, estimate);
    var node := pq[i];
    var current := node.cell;
    var rest := pq[..i] + pq[i + 1..];
    if node.gCost > dist[current] {
      DropStale(g, exit, estimate, dist, pq, i);
      VisitedReachable(g, start, dist, parent, visited, stamp, clock);
      return None, dist, parent, rest, visited, stamp, clock;
    }
    MarkVisited(g, dist, pq, visited, i, exit, estimate);
    visited' := visited[current := true];
    VisitedReachable(g, start, dist, parent, visited', stamp, clock);
    if current == exit {
      Arrive(g, start, exit, estimate, dist, parent, pq, stamp, clock, i);
      var path := ReconstructPath(parent, dist, stamp, current);
      return Some(Route(path, node.gCost)), dist, parent, pq, visited', stamp, clock;
    }
    DropCurrent(g, exit, estimate, dist, pq, i);
    arrived := None;
    dist', parent', pq', stamp', clock' := Relax(g, start, exit, estimate, dist, parent, rest, stamp, clock, current);
    MarkedLowered(g, dist, dist', visited');
    VisitedReachable(g, start, dist', parent', visited', stamp', clock');
  }

  /**
   * The shared engine of `runDijkstra` (estimate false) and `runAStar`
   * (estimate true). It returns the reconstructed path with the exit's
   * cost, or None for "No path found", and the cells it marked visited.
   */
  method Search(g: Grid, start: nat, exit: nat, estimate: bool) returns (route: Option<Route>, visited: seq<bool>)
    requires WellFormed(g) && start < |g.cells| && exit < |g.cells|
    ensures |visited| == |g.cells|
    ensures forall v :: 0 <= v < |visited| && visited[v] ==> Connected(g, start, v)
    ensures route.Some? ==> PathFromTo(g, route.value.cells, start, exit)
    ensures route.Some? ==> PathCost(g, route.value.cells) <= route.value.cost && visited[exit]
    ensures route.Some? && !estimate ==> PathCost(g, route.value.cells) == route.value.cost
    ensures route.Some? && !estimate ==>
      forall q :: PathFromTo(g, q, start, exit) && PathCost(g, q) < Infinity ==> route.value.cost <= PathCost(g, q)
    ensures route.None? ==> forall q :: PathFromTo(g, q, start, exit) ==> PathCost(g, q) >= Infinity
  {
    var n := |g.cells|;
    Initially(g, start, exit, estimate);
    route, visited := SearchLoop(g, start, exit, estimate, Unreached(n, start), map[],
                                 [NewNode(start, 0, Estimate(g, exit, estimate, start))], Unvisited(n), Zeros(n), 1);
  }

  /** What a finished search promises: reachable visited cells, and a route as in `Answer` or no cheap walk at all. */
  ghost predicate Outcome(g: Grid, start: nat, exit: nat, estimate: bool, route: Option<Route>, visited: seq<bool>)
    requires WellFormed(g)
  {
    && |visited| == |g.cells|
    && (forall v :: 0 <= v < |visited| && visited[v] ==> Connected(g, start, v))
    && (route.Some? ==> Answer(g, start, exit, estimate, route.value) && visited[exit])
    && (route.None? ==> forall q :: PathFromTo(g, q, start, exit) ==> PathCost(g, q) >= Infinity)
  }

  /** The main loop, from any state that keeps the invariant until the exit is polled or the queue is empty. */
  method SearchLoop(g: Grid, start: nat, exit: nat, estimate: bool, dist: seq<nat>, parent: map<nat, nat>, pq: seq<Node>,
                    visited: seq<bool>, ghost stamp: seq<nat>, ghost clock: nat)
    returns (route: Option<Route>, visited': seq<bool>)
    requires Searching(g, start, exit, estimate, dist, parent, pq, visited, stamp, clock)
    ensures WellFormed(g) && Outcome(g, start, exit, estimate, route, visited')
  {
    var dist', parent', pq' := dist, parent, pq;
    ghost var stamp', clock' := stamp, clock;
    visited' := visited;
    while pq' != []
      invariant Searching(g, start, exit, estimate, dist', parent', pq', visited', stamp', clock')
      decreases Total(dist'), |pq'|
    {
      var arrived;
      arrived, dist', parent', pq', visited', stamp', clock' := Turn(g, start, exit, estimate, dist', parent', pq', visited', stamp', clock');
      if arrived.Some? {
        return arrived, visited';
      }
    }
    forall q | PathFromTo(g, q, start, exit) ensures PathCost(g, q) >= Infinity {
      Exhausted(g, start, exit, estimate, dist', q);
    }
    VisitedReachable(g, start, dist', parent', visited', stamp', clock');
    route := None;
  }

  /**
   * `runDijkstra`: the path it reports is an open path from the start to
   * the exit whose cost is the reported cost, and no walk between them
   * costing less than MAX_VALUE is cheaper; "No path found" means no such
   * walk exists.
   */
  method Dijkstra(g: Grid, start: nat, exit: nat) returns (route: Option<Route>, visited: seq<bool>)
    requires WellFormed(g) && start < |g.cells| && exit < |g.cells|
    ensures |visited| == |g.cells| && forall v :: 0 <= v < |visited| && visited[v] ==> Connected(g, start, v)
    ensures route.Some? ==> PathFromTo(g, route.value.cells, start, exit) && PathCost(g, route.value.cells) == route.value.cost
    ensures route.Some? ==>
      forall q :: PathFromTo(g, q, start, exit) && PathCost(g, q) < Infinity ==> route.value.cost <= PathCost(g, q)
    ensures route.None? ==> forall q :: PathFromTo(g, q, start, exit) ==> PathCost(g, q) >= Infinity
  {
    route, visited := Search(g, start, exit, false);
  }

  /**
   * `runAStar`: the path it reports is an open path from the start to the
   * exit costing at most the reported cost; "No path found" means no walk
   * between them costs less than MAX_VALUE. Nothing is claimed about
   * optimality.
   */
  method AStar(g: Grid, start: nat, exit: nat) returns (route: Option<Route>, visited: seq<bool>)
    requires WellFormed(g) && start < |g.cells| && exit < |g.cells|
    ensures |visited| == |g.cells| && forall v :: 0 <= v < |visited| && visited[v] ==> Connected(g, start, v)
    ensures route.Some? ==> PathFromTo(g, route.value.cells, start, exit) && PathCost(g, route.value.cells) <= route.value.cost
    ensures route.None? ==> forall q :: PathFromTo(g, q, start, exit) ==> PathCost(g, q) >= Infinity
  {
    route, visited := Search(g, start, exit, true);
  }
}
