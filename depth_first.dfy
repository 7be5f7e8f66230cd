/** The state of depth-first search as plain values: the stack, the cell being
    explored, the parents map and the depth of each discovered cell in the
    search tree, with the invariant that makes the search complete, and the
    lemmas that carry it across one iteration. */
module DepthFirst {
  import opened Cells
  import opened Options
  import opened Paths
  import opened Searches

  /** The stack of a search at `current`: empty once the search is back at the
      start for good, and otherwise the start followed by the parent chain of
      `current` without `current` itself. */
  ghost predicate StackChain(parents: map<Key, Option<Pos>>, depth: map<Pos, nat>, start: Pos,
                             stack: seq<Pos>, current: Pos)
  {
    && ParentLinks(parents, depth, start) && current in depth
    && (|stack| == 0 ==> current == start)
    && (|stack| >= 1 ==> stack[0] == start && stack[1..] + [current] == Chain(parents, depth, start, current))
  }

  /** Every discovered position the search has left for good (all of them once
      the stack is empty, otherwise those neither on the stack nor `current`) has
      all its open neighbours discovered. */
  ghost predicate LeftClosed(open: set<Pos>, depth: map<Pos, nat>, stack: seq<Pos>, current: Pos)
  {
    forall u, q :: u in depth && q in open && Adjacent(u, q) && (|stack| == 0 || (u !in stack && u != current))
      ==> q in depth
  }

  /** The invariant of the search loop of solveMazeDFS, at the top of each
      iteration. Discovered positions are open and linked to the start; the
      visited ones are all discovered positions except, perhaps, `current`; the
      stack is the path back to the start; the positions left for good are
      closed; and the destination, once discovered, is `current`. */
  ghost predicate DfsInv(open: set<Pos>, start: Pos, dest: Pos, stack: seq<Pos>, current: Pos,
                         parents: map<Key, Option<Pos>>, depth: map<Pos, nat>, marked: set<Pos>,
                         startKind: CellType)
  {
    && (forall p :: p in depth ==> p in open)
    && Bookkeeping(parents, depth, start, startKind)
    && start in marked
    && (forall p :: p in marked ==> p in depth)
    && (forall p :: p in depth ==> p in marked || p == current)
    && StackChain(parents, depth, start, stack, current)
    && LeftClosed(open, depth, stack, current)
    && (dest in depth ==> dest == current)
  }

  /** The state before the first iteration: the start on the stack, discovered,
      visited and being explored, and its key mapped to no parent. */
  lemma DfsInit(open: set<Pos>, start: Pos, dest: Pos, startKind: CellType)
    requires start in open
    ensures var key0 := MazeCell(start.row, start.col, startKind).Projection();
      DfsInv(open, start, dest, [start], start, map[key0 := None], map[start := 0], {start}, startKind)
  {
    var key0 := MazeCell(start.row, start.col, startKind).Projection();
    assert Chain(map[key0 := None], map[start := 0], start, start) == [start];
    assert [start][1..] + [start] == [start];
  }

  /** Pushing `current` and moving to its new child `n` keeps the stack the path
      back to the start. */
  lemma PushChain(parents: map<Key, Option<Pos>>, depth: map<Pos, nat>, start: Pos, stack: seq<Pos>, current: Pos,
                  n: Pos, parents': map<Key, Option<Pos>>, depth': map<Pos, nat>)
    requires StackChain(parents, depth, start, stack, current) && |stack| >= 1
    requires ParentLinks(parents', depth', start) && n in depth' && n !in depth && n != start
    requires SolvedKey(n) in parents' && parents'[SolvedKey(n)] == Some(current)
    requires forall q :: q in depth ==> q in depth' && depth'[q] == depth[q]
    requires forall q :: q in depth && q != start ==> parents'[SolvedKey(q)] == parents[SolvedKey(q)]
    ensures StackChain(parents', depth', start, stack + [current], n)
  {
    ChainExtends(parents, depth, parents', depth', start, current);
    assert Chain(parents', depth', start, n) == Chain(parents', depth', start, current) + [n];
    assert (stack + [current])[1..] + [n] == stack[1..] + [current] + [n];
  }

  /** Popping the top of the stack moves back to the parent of `current`, or,
      when `current` is the start, empties the stack. */
  lemma PopChain(parents: map<Key, Option<Pos>>, depth: map<Pos, nat>, start: Pos, stack: seq<Pos>, current: Pos)
    requires StackChain(parents, depth, start, stack, current) && |stack| >= 1
    ensures stack[|stack| - 1] in depth
    ensures StackChain(parents, depth, start, stack[..|stack| - 1], stack[|stack| - 1])
    ensures |stack| == 1 ==> current == start
  {
    var top, rest := stack[|stack| - 1], stack[..|stack| - 1];
    assert stack == rest + [top];
    if current == start {
      ChainShape(parents, depth, start, start);
      assert |stack[1..] + [current]| == 1;
    } else {
      ChainStep(parents, depth, start, current);
      var q := parents[SolvedKey(current)].value;
      var c, cq := Chain(parents, depth, start, current), Chain(parents, depth, start, q);
      ChainShape(parents, depth, start, q);
      assert stack[1..] == c[..|c| - 1] == cq;
      assert |stack| >= 2 && top == q;
      assert rest[1..] + [top] == stack[1..];
    }
  }

  /** Leaving `current` for good once it has no open undiscovered neighbour keeps
      the positions left for good closed. */
  lemma RetreatClosed(open: set<Pos>, depth: map<Pos, nat>, stack: seq<Pos>, current: Pos)
    requires LeftClosed(open, depth, stack, current) && |stack| >= 1
    requires |stack| == 1 ==> stack[0] == current
    requires forall q :: q in open && Adjacent(current, q) ==> q in depth
    ensures LeftClosed(open, depth, stack[..|stack| - 1], stack[|stack| - 1])
  {
    var top, rest := stack[|stack| - 1], stack[..|stack| - 1];
    assert stack == rest + [top];
    forall u, q | u in depth && q in open && Adjacent(u, q) && (|rest| == 0 || (u !in rest && u != top))
      ensures q in depth
    {
      if u != current {
        assert u !in stack;
      }
    }
  }

  /** Moving on to a new child leaves nothing new for good. */
  lemma AdvanceClosed(open: set<Pos>, depth: map<Pos, nat>, stack: seq<Pos>, current: Pos,
                      n: Pos, depth': map<Pos, nat>)
    requires LeftClosed(open, depth, stack, current) && |stack| >= 1
    requires forall p :: p in depth' <==> p in depth || p == n
    ensures LeftClosed(open, depth', stack + [current], n)
  {
    forall u, q | u in depth' && q in open && Adjacent(u, q) && u !in stack + [current] && u != n
      ensures q in depth'
    {
      assert u in depth && u !in stack && u != current;
    }
  }

  /** Moving on from `current`, once marked visited, to an open undiscovered neighbour `n`:
      `current` is pushed, `n` gets `current` as its parent one level deeper, and
      `n` is explored next. The invariant holds again with one more position
      discovered. */
  lemma DfsAdvance(open: set<Pos>, start: Pos, dest: Pos, stack: seq<Pos>, current: Pos,
                   parents: map<Key, Option<Pos>>, depth: map<Pos, nat>, marked: set<Pos>, startKind: CellType,
                   n: Pos, parents': map<Key, Option<Pos>>, depth': map<Pos, nat>)
    requires DfsInv(open, start, dest, stack, current, parents, depth, marked, startKind)
    requires |stack| >= 1 && current != dest
    requires n in open && n !in depth && Adjacent(current, n)
    requires parents' == parents[SolvedKey(n) := Some(current)] && depth' == depth[n := depth[current] + 1]
    ensures DfsInv(open, start, dest, stack + [current], n, parents', depth', marked + {current}, startKind)
    ensures open - depth'.Keys < open - depth.Keys
  {
    assert Bookkeeping(parents', depth', start, startKind) by {
      FreshKey(parents, depth, start, startKind, n);
      assert Deepened(depth, [n], depth[current] + 1, depth');
      assert ParentsAdded(parents, [n], current, parents');
      RecordAll(parents, depth, start, startKind, current, [n], parents', depth');
    }
    forall q | q in depth && q != start ensures parents'[SolvedKey(q)] == parents[SolvedKey(q)] {
      assert SolvedKey(q) != SolvedKey(n);
    }
    PushChain(parents, depth, start, stack, current, n, parents', depth');
    AdvanceClosed(open, depth, stack, current, n, depth');
    assert n !in open - depth'.Keys;
  }

  /** Backing up from `current`, once marked visited, when it has no open
      undiscovered neighbour: the top of the stack is popped and explored next,
      and `current` is left for good. */
  lemma DfsRetreat(open: set<Pos>, start: Pos, dest: Pos, stack: seq<Pos>, current: Pos,
                   parents: map<Key, Option<Pos>>, depth: map<Pos, nat>, marked: set<Pos>, startKind: CellType)
    requires DfsInv(open, start, dest, stack, current, parents, depth, marked, startKind)
    requires |stack| >= 1 && current != dest
    requires forall q :: q in open && Adjacent(current, q) ==> q in depth
    ensures DfsInv(open, start, dest, stack[..|stack| - 1], stack[|stack| - 1], parents, depth, marked + {current},
                   startKind)
  {
    PopChain(parents, depth, start, stack, current);
    RetreatClosed(open, depth, stack, current);
  }

  /** One step of the search from `current`, once marked visited and not the
      destination, given its open undiscovered neighbours in the order they are
      looked up: it moves on to the first of them or, when there is none, backs
      up. Either some open position is discovered or the stack gets shorter. */
  lemma DfsMove(open: set<Pos>, start: Pos, dest: Pos, stack: seq<Pos>, current: Pos,
                parents: map<Key, Option<Pos>>, depth: map<Pos, nat>, marked: set<Pos>, startKind: CellType,
                neighbors: seq<Pos>, stack': seq<Pos>, current': Pos, parents': map<Key, Option<Pos>>,
                depth': map<Pos, nat>)
    requires DfsInv(open, start, dest, stack, current, parents, depth, marked, startKind)
    requires |stack| >= 1 && current != dest
    requires NewNeighbours(open, depth, current, neighbors)
    requires |neighbors| >= 1 ==>
               && stack' == stack + [current] && current' == neighbors[0]
               && parents' == parents[SolvedKey(neighbors[0]) := Some(current)]
               && depth' == depth[neighbors[0] := depth[current] + 1]
    requires |neighbors| == 0 ==>
               stack' == stack[..|stack| - 1] && current' == stack[|stack| - 1] && parents' == parents && depth' == depth
    ensures DfsInv(open, start, dest, stack', current', parents', depth', marked + {current}, startKind)
    ensures open - depth'.Keys < open - depth.Keys || (depth'.Keys == depth.Keys && |stack'| < |stack|)
  {
    if |neighbors| >= 1 {
      DfsAdvance(open, start, dest, stack, current, parents, depth, marked, startKind, neighbors[0], parents', depth');
    } else {
      DfsRetreat(open, start, dest, stack, current, parents, depth, marked, startKind);
    }
  }

  /** What the search leaves behind: parent links from the start to every
      discovered position, the cell it stopped at among them, the visited cells
      (the start among them) all discovered, `found` exactly when it stopped at
      the destination and otherwise back at the start, and no open path from
      the start reaching the destination unless it was found. */
  ghost predicate DfsOutcome(open: set<Pos>, start: Pos, dest: Pos, parents: map<Key, Option<Pos>>,
                             depth: map<Pos, nat>, painted: set<Pos>, current: Pos, found: bool)
  {
    && ParentLinks(parents, depth, start) && current in depth
    && (forall p :: p in depth ==> p in open)
    && start in painted && (forall p :: p in painted ==> p in depth)
    && (found <==> current == dest)
    && (!found ==> current == start)
    && forall P :: IsPathFrom(open, start, P) && P[|P| - 1] == dest ==> found
  }

  /** Stopping at the destination once it is marked visited. */
  lemma DfsFound(open: set<Pos>, start: Pos, dest: Pos, stack: seq<Pos>, current: Pos,
                 parents: map<Key, Option<Pos>>, depth: map<Pos, nat>, marked: set<Pos>, startKind: CellType)
    requires DfsInv(open, start, dest, stack, current, parents, depth, marked, startKind)
    requires current == dest
    ensures DfsOutcome(open, start, dest, parents, depth, marked + {current}, current, true)
  {
  }

  /** When the stack is empty, every discovered position has been left for good,
      so the discovered positions are closed under open neighbours: the
      destination was never discovered and no open path from the start reaches it. */
  lemma DfsExhausted(open: set<Pos>, start: Pos, dest: Pos, current: Pos,
                     parents: map<Key, Option<Pos>>, depth: map<Pos, nat>, marked: set<Pos>, startKind: CellType)
    requires DfsInv(open, start, dest, [], current, parents, depth, marked, startKind)
    requires dest != start
    ensures forall p :: p in depth ==> p in marked
    ensures forall P :: IsPathFrom(open, start, P) ==> P[|P| - 1] in depth
    ensures dest !in depth
    ensures DfsOutcome(open, start, dest, parents, depth, marked, current, false)
  {
    forall P | IsPathFrom(open, start, P) ensures P[|P| - 1] in depth {
      ClosedSetContainsPaths(open, depth.Keys, start, P);
    }
  }
}
