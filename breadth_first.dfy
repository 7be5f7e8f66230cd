/** The state of breadth-first search as plain values: the queue, the parents
    map, the level at which each position was discovered and the set of
    expanded positions, with the invariant that makes the search find a
    shortest path, and the lemmas that carry it across one iteration. */
module BreadthFirst {
  import opened Cells
  import opened Options
  import opened Paths
  import opened Searches

  /** The breadth-first queue: no position twice, all discovered at level `lvl`
      or `lvl + 1` in non-decreasing order, and every discovered position either
      still queued or expanded at a level no deeper than `lvl`. */
  ghost predicate QueueLayered(frontier: seq<Pos>, dist: map<Pos, nat>, expanded: set<Pos>, lvl: nat)
  {
    && Distinct(frontier)
    && (forall k :: 0 <= k < |frontier| ==> frontier[k] in dist && lvl <= dist[frontier[k]] <= lvl + 1)
    && (forall a, b :: 0 <= a < b < |frontier| ==> dist[frontier[a]] <= dist[frontier[b]])
    && (forall p :: p in expanded ==> p in dist && dist[p] <= lvl && p !in frontier)
    && (forall p :: p in dist ==> p in expanded || p in frontier)
  }

  /** Dequeuing the head and enqueuing its undiscovered neighbours one level
      deeper keeps the queue layered, now at the head's level. */
  lemma LayeredStep(frontier: seq<Pos>, dist: map<Pos, nat>, expanded: set<Pos>, lvl: nat,
                    added: seq<Pos>, dist': map<Pos, nat>)
    requires QueueLayered(frontier, dist, expanded, lvl) && |frontier| >= 1
    requires Distinct(added) && forall k :: 0 <= k < |added| ==> added[k] !in dist
    requires Deepened(dist, added, dist[frontier[0]] + 1, dist')
    ensures QueueLayered(frontier[1..] + added, dist', expanded + {frontier[0]}, dist[frontier[0]])
  {
    var head := frontier[0];
    var q := frontier[1..] + added;
    forall a, b | 0 <= a < b < |q| ensures q[a] != q[b] {
      if b < |frontier| - 1 {
        assert q[a] == frontier[a + 1] && q[b] == frontier[b + 1];
      } else if a < |frontier| - 1 {
        assert q[a] == frontier[a + 1] && q[b] == added[b - |frontier| + 1];
      } else {
        assert q[a] == added[a - |frontier| + 1] && q[b] == added[b - |frontier| + 1];
      }
    }
    forall k | 0 <= k < |q| ensures q[k] in dist' && dist[head] <= dist'[q[k]] <= dist[head] + 1 {
      if k < |frontier| - 1 {
        assert q[k] == frontier[k + 1];
      } else {
        assert q[k] == added[k - |frontier| + 1];
      }
    }
    forall a, b | 0 <= a < b < |q| ensures dist'[q[a]] <= dist'[q[b]] {
      if b < |frontier| - 1 {
        assert q[a] == frontier[a + 1] && q[b] == frontier[b + 1];
      } else if a < |frontier| - 1 {
        assert q[a] == frontier[a + 1] && q[b] == added[b - |frontier| + 1];
      }
    }
    forall p | p in expanded + {head} ensures p in dist' && dist'[p] <= dist[head] && p !in q {
      if p == head {
        forall k | 0 <= k < |frontier| - 1 ensures frontier[1..][k] != head {
          assert frontier[1..][k] == frontier[k + 1];
        }
      } else {
        assert p in dist;
      }
    }
    forall p | p in dist' ensures p in expanded + {head} || p in q {
      if p in dist && p !in expanded {
        assert p in frontier;
        var k :| 0 <= k < |frontier| && frontier[k] == p;
        if k > 0 { assert q[k - 1] == p; }
      }
    }
  }

  /** Every open neighbour of an expanded position is discovered at most one
      level deeper. */
  ghost predicate ExpandedClosed(open: set<Pos>, dist: map<Pos, nat>, expanded: set<Pos>)
  {
    forall u, q :: u in expanded && q in open && Adjacent(u, q) ==>
      u in dist && q in dist && dist[q] <= dist[u] + 1
  }

  /** The invariant of the search loop of solveMazeBFS, at the top of each
      iteration: discovered positions are open, the parents map links each one
      to the start, the queue is layered and the expanded positions closed, the
      start is expanded after the first iteration, and the destination is never
      expanded (reaching it ends the search). */
  ghost predicate BfsInv(open: set<Pos>, start: Pos, dest: Pos, frontier: seq<Pos>,
                         parents: map<Key, Option<Pos>>, dist: map<Pos, nat>, expanded: set<Pos>, lvl: nat,
                         startKind: CellType)
  {
    && (forall p :: p in dist ==> p in open)
    && Bookkeeping(parents, dist, start, startKind)
    && QueueLayered(frontier, dist, expanded, lvl)
    && ExpandedClosed(open, dist, expanded)
    && (start in expanded || frontier == [start])
    && dest !in expanded
  }

  /** The state before the first iteration: only the start queued and discovered,
      and its key mapped to no parent. */
  lemma BfsInit(open: set<Pos>, start: Pos, dest: Pos, startKind: CellType)
    requires start in open
    ensures var key0 := MazeCell(start.row, start.col, startKind).Projection();
      BfsInv(open, start, dest, [start], map[key0 := None], map[start := 0], {}, 0, startKind)
  {
  }

  /** One iteration that does not stop: the head is dequeued and expanded, and its
      open undiscovered neighbours `added` are discovered one level deeper and
      queued with the head as their parent. The invariant holds again, and either
      some open position was discovered or the queue got shorter. */
  lemma BfsAdvance(open: set<Pos>, start: Pos, dest: Pos, queue: seq<Pos>,
                   parents: map<Key, Option<Pos>>, dist: map<Pos, nat>, expanded: set<Pos>, lvl: nat,
                   startKind: CellType, added: seq<Pos>, parents': map<Key, Option<Pos>>, dist': map<Pos, nat>)
    requires BfsInv(open, start, dest, queue, parents, dist, expanded, lvl, startKind)
    requires |queue| >= 1 && queue[0] != dest
    requires NewNeighbours(open, dist, queue[0], added)
    requires Deepened(dist, added, dist[queue[0]] + 1, dist')
    requires ParentsAdded(parents, added, queue[0], parents')
    ensures BfsInv(open, start, dest, queue[1..] + added, parents', dist', expanded + {queue[0]}, dist[queue[0]],
                   startKind)
    ensures added == [] ==> dist'.Keys == dist.Keys
    ensures added != [] ==> open - dist'.Keys < open - dist.Keys
  {
    RecordAll(parents, dist, start, startKind, queue[0], added, parents', dist');
    LayeredStep(queue, dist, expanded, lvl, added, dist');
    ExpandHeadClosed(open, queue, dist, expanded, lvl, added, dist');
    if added != [] {
      assert added[0] in open - dist.Keys;
      assert added[0] !in open - dist'.Keys;
    }
  }

  /** Expanding the head of a layered queue, once its open undiscovered neighbours
      are discovered one level deeper, keeps the expanded positions closed. */
  lemma ExpandHeadClosed(open: set<Pos>, queue: seq<Pos>, dist: map<Pos, nat>, expanded: set<Pos>, lvl: nat,
                         added: seq<Pos>, dist': map<Pos, nat>)
    requires QueueLayered(queue, dist, expanded, lvl) && |queue| >= 1
    requires ExpandedClosed(open, dist, expanded)
    requires NewNeighbours(open, dist, queue[0], added)
    requires Deepened(dist, added, dist[queue[0]] + 1, dist')
    ensures ExpandedClosed(open, dist', expanded + {queue[0]})
  {
    var head := queue[0];
    forall q | q in open && Adjacent(head, q) ensures q in dist' && dist'[q] <= dist'[head] + 1 {
      if q !in dist {
        assert q in added;
      } else if q !in expanded {
        var k :| 0 <= k < |queue| && queue[k] == q;
      }
    }
  }

  /** What the search leaves behind: parent links from the start to every
      discovered position, the cell it stopped at among them, the cells marked
      visited (the start among them) all discovered, `found` exactly when it
      stopped at the destination, and no open path from the start reaching the
      destination unless it was found, and none reaching the cell it stopped at in
      fewer steps than that cell's level. */
  ghost predicate BfsOutcome(open: set<Pos>, start: Pos, dest: Pos, parents: map<Key, Option<Pos>>,
                             dist: map<Pos, nat>, painted: set<Pos>, current: Pos, found: bool)
  {
    && ParentLinks(parents, dist, start) && current in dist
    && (forall p :: p in dist ==> p in open)
    && start in painted && (forall p :: p in painted ==> p in dist)
    && (found <==> current == dest)
    && (forall P :: IsPathFrom(open, start, P) && P[|P| - 1] == current ==> dist[current] <= |P| - 1)
    && forall P :: IsPathFrom(open, start, P) && P[|P| - 1] == dest ==> found && dist[dest] <= |P| - 1
  }

  /** When the destination is at the head of the queue, no open path from the
      start reaches it in fewer steps than its level. */
  lemma BfsFoundShortest(open: set<Pos>, start: Pos, dest: Pos, queue: seq<Pos>,
                         parents: map<Key, Option<Pos>>, dist: map<Pos, nat>, expanded: set<Pos>, lvl: nat,
                         startKind: CellType)
    requires BfsInv(open, start, dest, queue, parents, dist, expanded, lvl, startKind)
    requires |queue| >= 1 && queue[0] == dest && dest != start
    ensures BfsOutcome(open, start, dest, parents, dist, expanded + {dest}, dest, true)
  {
    forall p | p in dist && dist[p] < dist[dest] ensures p in expanded {
    }
    forall P | IsPathFrom(open, start, P) && P[|P| - 1] == dest ensures dist[dest] <= |P| - 1 {
      DepthIsShortest(open, dist, expanded, start, dest, P);
    }
  }

  /** When the queue is empty, every discovered position has been expanded, none
      deeper than the last level expanded; every open path from the start ends at
      a discovered position; the destination was never discovered, so no open
      path from the start reaches it; and no open path reaches `current`, the
      last position expanded, in fewer steps than its level. */
  lemma BfsExhausted(open: set<Pos>, start: Pos, dest: Pos,
                     parents: map<Key, Option<Pos>>, dist: map<Pos, nat>, expanded: set<Pos>, lvl: nat,
                     startKind: CellType, current: Pos)
    requires BfsInv(open, start, dest, [], parents, dist, expanded, lvl, startKind)
    requires current in dist && dist[current] == lvl
    ensures forall p :: p in dist <==> p in expanded
    ensures forall p :: p in dist ==> dist[p] <= lvl
    ensures forall P :: IsPathFrom(open, start, P) ==> P[|P| - 1] in dist
    ensures dest !in dist
    ensures BfsOutcome(open, start, dest, parents, dist, expanded, current, false)
  {
    forall P | IsPathFrom(open, start, P) ensures P[|P| - 1] in dist {
      ClosedSetContainsPaths(open, expanded, start, P);
    }
    forall P | IsPathFrom(open, start, P) && P[|P| - 1] == current ensures dist[current] <= |P| - 1 {
      DepthIsShortest(open, dist, expanded, start, current, P);
    }
  }

  /** What solveMazeBFS marks, as a property of the marked chain `path`: a
      repeat-free open path from the start, ending at the destination exactly
      when `found`, and no longer than any open path from the start to the same
      cell. The destination is found whenever an open path reaches it; when it is
      not, the end of `path` is as far from the start as any reachable cell. */
  ghost predicate BfsSolution(open: set<Pos>, start: Pos, dest: Pos, found: bool, path: seq<Pos>)
  {
    && IsPathFrom(open, start, path) && Distinct(path)
    && (found <==> path[|path| - 1] == dest)
    && (forall P :: IsPathFrom(open, start, P) && P[|P| - 1] == path[|path| - 1] ==> |path| <= |P|)
    && (forall P :: IsPathFrom(open, start, P) && P[|P| - 1] == dest ==> found)
    && (!found ==> forall q :: Reachable(open, start, q) ==> ReachableWithin(open, start, q, |path|))
  }

  /** The chain back from the cell the search stopped at is a BFS solution, given
      the outcome of the search loop and, when the queue ran dry, that every open
      path from the start ends at a discovered position none deeper than `current`. */
  lemma BfsSolved(open: set<Pos>, start: Pos, dest: Pos, parents: map<Key, Option<Pos>>,
                  dist: map<Pos, nat>, painted: set<Pos>, current: Pos, found: bool)
    requires BfsOutcome(open, start, dest, parents, dist, painted, current, found)
    requires !found ==> forall p :: p in dist ==> dist[p] <= dist[current]
    requires !found ==> forall P :: IsPathFrom(open, start, P) ==> P[|P| - 1] in dist
    ensures BfsSolution(open, start, dest, found, Chain(parents, dist, start, current))
  {
    var path := Chain(parents, dist, start, current);
    ChainShape(parents, dist, start, current);
    assert IsPathFrom(open, start, path);
    if !found {
      forall q | Reachable(open, start, q) ensures ReachableWithin(open, start, q, |path|) {
        var P :| IsPathFrom(open, start, P) && P[|P| - 1] == q;
        ChainShape(parents, dist, start, q);
        var Q := Chain(parents, dist, start, q);
        assert IsPathFrom(open, start, Q) && Q[|Q| - 1] == q;
      }
    }
  }
}
