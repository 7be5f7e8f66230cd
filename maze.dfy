/** The maze: a grid of typed cells built from text, the neighbour rule, the
    breadth-first and depth-first solvers that annotate the grid in place, and
    the cell-count summary. */
module Mazes {
  import opened Cells
  import opened Options
  import opened Lines
  import opened Paths
  import opened Tallies
  import opened Searches
  import opened BreadthFirst
  import opened DepthFirst

  /** What the constructor relies on without checking: every character is one
      UTF-16 code unit (so that splitting a row into characters gives one cell
      per character), at least three rows and three columns, all rows as long
      as the first, and passageways at the entry (row 1, column 0) and at the
      exit (second-to-last row, last column). */
  predicate WellFormedText(text: string)
  {
    var rows := Split(text, '\n');
    && (forall k :: 0 <= k < |text| ==> text[k] as int < 0x1_0000)
    && |rows| >= 3
    && |rows[0]| >= 3
    && (forall i :: 0 <= i < |rows| ==> |rows[i]| == |rows[0]|)
    && FromChar(rows[1][0]) == Passageway
    && FromChar(rows[|rows| - 2][|rows[0]| - 1]) == Passageway
  }

  class Maze {
    /** The grid; the cell at row i, column j is `maze[i, j]`. */
    const maze: array2<CellType>
    const start: Pos
    const destination: Pos

    /** The shape the constructor gives every maze. */
    ghost predicate Valid()
    {
      && maze.Length0 >= 3
      && maze.Length1 >= 3
      && start == Pos(1, 0)
      && destination == Pos(maze.Length0 - 2, maze.Length1 - 1)
    }

    predicate InBounds(p: Pos)
    {
      0 <= p.row < maze.Length0 && 0 <= p.col < maze.Length1
    }

    /** The cells a search may enter: the passageways, and the start itself. */
    ghost function OpenCells(): (open: set<Pos>)
      reads maze
      ensures forall p :: p in open <==> p == start || (InBounds(p) && maze[p.row, p.col] == Passageway)
    {
      (set i, j | 0 <= i < maze.Length0 && 0 <= j < maze.Length1 && maze[i, j] == Passageway :: Pos(i, j))
        + {start}
    }

    /** Builds the grid from the text, one cell per character, row by row. */
    constructor (plainTextMaze: string)
      requires WellFormedText(plainTextMaze)
      ensures Valid() && fresh(maze)
      ensures var rows := Split(plainTextMaze, '\n');
        && maze.Length0 == |rows|
        && maze.Length1 == |rows[0]|
        && forall i, j :: 0 <= i < |rows| && 0 <= j < |rows[0]| ==> maze[i, j] == FromChar(rows[i][j])
      ensures maze[start.row, start.col] == Passageway
      ensures maze[destination.row, destination.col] == Passageway
    {
      var rows := Split(plainTextMaze, '\n');
      var grid := new CellType[|rows|, |rows[0]|];
      for i := 0 to |rows|
        invariant forall i', j :: 0 <= i' < i && 0 <= j < |rows[0]| ==> grid[i', j] == FromChar(rows[i'][j])
      {
        for j := 0 to |rows[i]|
          invariant forall i', j' :: 0 <= i' < i && 0 <= j' < |rows[0]| ==> grid[i', j'] == FromChar(rows[i'][j'])
          invariant forall j' :: 0 <= j' < j ==> grid[i, j'] == FromChar(rows[i][j'])
        {
          grid[i, j] := FromChar(rows[i][j]);
        }
      }
      maze := grid;
      start := Pos(1, 0);
      destination := Pos(|rows| - 2, |rows[0]| - 1);
    }

    /** Whether `p` is the exit: the second-to-last row and the last column,
        whatever the kind of the cell there. */
    function IsDestination(p: Pos): (b: bool)
      ensures Valid() ==> (b <==> p.row == maze.Length0 - 2 && p.col == maze.Length1 - 1)
    {
      destination.row == p.row && destination.col == p.col
    }

    /** `q` alone when it is an in-bounds passageway right now, nothing otherwise. */
    ghost function Keep(q: Pos): seq<Pos>
      reads maze
    {
      if InBounds(q) && maze[q.row, q.col] == Passageway then [q] else []
    }

    /** The passageway neighbours of `p`, in the order down, right, up, left. */
    ghost function Around(p: Pos): seq<Pos>
      reads maze
    {
      Keep(Down(p)) + Keep(Right(p)) + Keep(Up(p)) + Keep(Left(p))
    }

    /** There are at most four of them, each an in-bounds passageway one step from
        `p`, and every in-bounds passageway one step from `p` is among them. */
    lemma AroundMembers(p: Pos)
      ensures |Around(p)| <= 4
      ensures forall k :: 0 <= k < |Around(p)| ==>
                InBounds(Around(p)[k]) && Adjacent(p, Around(p)[k]) &&
                maze[Around(p)[k].row, Around(p)[k].col] == Passageway
      ensures forall q :: InBounds(q) && Adjacent(p, q) && maze[q.row, q.col] == Passageway ==> q in Around(p)
    {
    }

    /** They come in the order down, right, up, left, so none occurs twice. */
    lemma AroundOrder(p: Pos)
      ensures forall a, b :: 0 <= a < b < |Around(p)| ==> Rank(p, Around(p)[a]) < Rank(p, Around(p)[b])
      ensures Distinct(Around(p))
    {
    }

    /** Retyping `p` itself leaves its neighbours as they were: they depend only
        on the cells one step away. */
    twostate lemma AroundIgnoresSelf(p: Pos)
      requires forall q :: InBounds(q) && q != p ==> maze[q.row, q.col] == old(maze[q.row, q.col])
      ensures Around(p) == old(Around(p))
    {
      assert Keep(Down(p)) == old(Keep(Down(p)));
      assert Keep(Right(p)) == old(Keep(Right(p)));
      assert Keep(Up(p)) == old(Keep(Up(p)));
      assert Keep(Left(p)) == old(Keep(Left(p)));
    }

    /** Once the start is no longer a passageway it is never a neighbour, so the
        key of every neighbour differs from the key the start had when the
        search began, whatever its kind was then: the `visited.has` test of
        solveMazeDFS, whose visited set holds only the start's key, never fails. */
    lemma NeighbourKeyUnvisited(p: Pos, startKind: CellType)
      requires Valid() && maze[start.row, start.col] != Passageway
      ensures start !in Around(p)
      ensures forall k :: 0 <= k < |Around(p)| ==>
                var n := Around(p)[k];
                MazeCell(n.row, n.col, maze[n.row, n.col]).Projection() !in
                  {MazeCell(start.row, start.col, startKind).Projection()}
    {
      AroundMembers(p);
      forall k | 0 <= k < |Around(p)|
        ensures var n := Around(p)[k];
                MazeCell(n.row, n.col, maze[n.row, n.col]).Projection() !in
                  {MazeCell(start.row, start.col, startKind).Projection()}
      {
        var n := Around(p)[k];
        PassagewayKeyIsNew(MazeCell(start.row, start.col, startKind), MazeCell(n.row, n.col, maze[n.row, n.col]));
      }
    }

    /** The in-bounds orthogonal neighbours of `p` that are passageways right now,
        in the order down, right, up, left. */
    method GetNeighbors(p: Pos) returns (neighbors: seq<Pos>)
      requires InBounds(p)
      ensures neighbors == Around(p)
    {
      neighbors := [];
      if p.row + 1 < maze.Length0 && maze[p.row + 1, p.col] == Passageway {
        neighbors := neighbors + [Down(p)];
      }
      assert neighbors == Keep(Down(p));
      if p.col + 1 < maze.Length1 && maze[p.row, p.col + 1] == Passageway {
        neighbors := neighbors + [Right(p)];
      }
      assert neighbors == Keep(Down(p)) + Keep(Right(p));
      if p.row - 1 >= 0 && maze[p.row - 1, p.col] == Passageway {
        neighbors := neighbors + [Up(p)];
      }
      assert neighbors == Keep(Down(p)) + Keep(Right(p)) + Keep(Up(p));
      if p.col - 1 >= 0 && maze[p.row, p.col - 1] == Passageway {
        neighbors := neighbors + [Left(p)];
      }
    }

    /** Follows the parent links back from `current`, marking every cell met as
        part of the solution; the lookup for the start yields nothing and ends the walk. */
    method MarkSolutionPath(current: Pos, parents: map<Key, Option<Pos>>, ghost chain: seq<Pos>)
      requires LinkedChain(parents, chain) && chain[|chain| - 1] == current
      requires forall k :: 0 <= k < |chain| ==> InBounds(chain[k])
      modifies maze
      ensures forall p :: InBounds(p) ==>
                maze[p.row, p.col] == if p in chain then Solution else old(maze[p.row, p.col])
    {
      var cell: Option<Pos> := Some(current);
      ghost var m := |chain|;
      while cell.Some?
        invariant 0 <= m <= |chain|
        invariant cell.Some? ==> m > 0 && cell.value == chain[m - 1]
        invariant cell.None? ==> m == 0
        invariant forall p :: InBounds(p) ==>
                    maze[p.row, p.col] == if p in chain[m..] then Solution else old(maze[p.row, p.col])
        decreases m
      {
        var c := cell.value;
        maze[c.row, c.col] := Solution;
        var key := MazeCell(c.row, c.col, maze[c.row, c.col]).Projection();
        assert key == SolvedKey(c);
        assert m - 1 > 0 ==> key in parents && parents[key] == Some(chain[m - 2]);
        cell := if key in parents then parents[key] else None;
        m := m - 1;
      }
    }

    /** Marks the parent chain of `current`, the cell a search stopped at, as the
        solution, over the grid the search has painted. Afterwards a cell is a
        solution cell exactly when it is on the chain or was one before the search,
        every changed cell is an open cell now frontier, visited or solution, and
        every cell the search marked visited is now visited or solution. */
    method MarkChain(current: Pos, parents: map<Key, Option<Pos>>, ghost depth: map<Pos, nat>,
                     ghost marked: set<Pos>, ghost g0: map<Pos, CellType>, ghost open: set<Pos>)
      returns (ghost chain: seq<Pos>)
      requires Valid()
      requires forall p :: p in g0 <==> InBounds(p)
      requires OpenCellsOf(g0, start, open)
      requires ParentLinks(parents, depth, start) && current in depth
      requires forall p :: p in depth ==> p in open
      requires start in marked && forall p :: p in marked ==> p in depth
      requires PaintedAs(g0, depth, marked)
      modifies maze
      ensures chain == Chain(parents, depth, start, current)
      ensures forall p :: InBounds(p) ==> (maze[p.row, p.col] == Solution <==> p in chain || g0[p] == Solution)
      ensures forall p :: InBounds(p) && maze[p.row, p.col] != g0[p] ==>
                p in open && maze[p.row, p.col] in {Frontier, Visited, Solution}
      ensures forall p :: p in marked ==> InBounds(p) && maze[p.row, p.col] in {Visited, Solution}
    {
      chain := Chain(parents, depth, start, current);
      ChainShape(parents, depth, start, current);
      ChainLinks(parents, depth, start, current);
      SolutionPaint(g0, start, open, depth, marked, chain);
      MarkSolutionPath(current, parents, chain);
    }

    /** The grid shows what the search has done so far: `Paint` of every cell. */
    ghost predicate PaintedAs(g0: map<Pos, CellType>, dist: map<Pos, nat>, marked: set<Pos>)
      reads maze
      requires forall p :: p in g0 <==> InBounds(p)
    {
      forall p :: InBounds(p) ==> maze[p.row, p.col] == Paint(g0, start, dist, marked, p)
    }

    /** The grid as a map from positions to kinds. */
    ghost function Snapshot(): (g: map<Pos, CellType>)
      reads maze
      ensures forall p :: p in g <==> InBounds(p)
      ensures forall p :: InBounds(p) ==> g[p] == maze[p.row, p.col]
    {
      var cells := set i, j | 0 <= i < maze.Length0 && 0 <= j < maze.Length1 :: Pos(i, j);
      map p | p in cells :: maze[p.row, p.col]
    }

    /** When the passageways are exactly the open cells not yet discovered, the
        passageway neighbours of `u` are its open undiscovered neighbours. */
    lemma AroundIsFresh(u: Pos, open: set<Pos>, depth: map<Pos, nat>)
      requires forall p :: p in open ==> InBounds(p)
      requires forall p :: InBounds(p) ==> (maze[p.row, p.col] == Passageway <==> p in open && p !in depth)
      ensures Around(u) == Fresh(open, depth, u)
    {
      assert Keep(Down(u)) == FreshAt(open, depth, Down(u));
      assert Keep(Right(u)) == FreshAt(open, depth, Right(u));
      assert Keep(Up(u)) == FreshAt(open, depth, Up(u));
      assert Keep(Left(u)) == FreshAt(open, depth, Left(u));
    }

    /** The inner loop of solveMazeBFS: one by one, each neighbour whose key is not
        yet visited is marked visited, gets `current` as its parent, joins the
        queue and is marked frontier. The neighbours given are undiscovered
        passageways whose keys have no entry yet, so every one of them is taken. */
    method EnqueueNeighbors(current: Pos, neighbors: seq<Pos>, frontier: seq<Pos>, visited: set<Key>,
                            parents: map<Key, Option<Pos>>, ghost dist: map<Pos, nat>,
                            ghost g0: map<Pos, CellType>, ghost marked: set<Pos>)
      returns (frontier': seq<Pos>, visited': set<Key>, parents': map<Key, Option<Pos>>, ghost dist': map<Pos, nat>)
      requires forall p :: p in g0 <==> InBounds(p)
      requires visited == parents.Keys && current in dist && start in dist
      requires forall p :: p in marked ==> p in dist
      requires Distinct(neighbors)
      requires forall k :: 0 <= k < |neighbors| ==>
                 InBounds(neighbors[k]) && g0[neighbors[k]] == Passageway && neighbors[k] !in dist &&
                 SolvedKey(neighbors[k]) !in parents
      requires forall p :: InBounds(p) ==> maze[p.row, p.col] == Paint(g0, start, dist, marked, p)
      modifies maze
      ensures frontier' == frontier + neighbors
      ensures visited' == parents'.Keys && ParentsAdded(parents, neighbors, current, parents')
      ensures Deepened(dist, neighbors, dist[current] + 1, dist')
      ensures forall p :: InBounds(p) ==> maze[p.row, p.col] == Paint(g0, start, dist', marked, p)
    {
      frontier', visited', parents', dist' := frontier, visited, parents, dist;
      ghost var d := dist[current] + 1;
      for i := 0 to |neighbors|
        invariant frontier' == frontier + neighbors[..i]
        invariant visited' == parents'.Keys && ParentsAdded(parents, neighbors[..i], current, parents')
        invariant Deepened(dist, neighbors[..i], d, dist')
        invariant forall p :: InBounds(p) ==> maze[p.row, p.col] == Paint(g0, start, dist', marked, p)
      {
        var n := neighbors[i];
        assert n !in dist' && SolvedKey(n) !in parents' by {
          assert forall k :: 0 <= k < i ==> neighbors[..i][k] == neighbors[k] && neighbors[k] != n;
        }
        assert maze[n.row, n.col] == Passageway;
        var key := MazeCell(n.row, n.col, maze[n.row, n.col]).Projection();
        assert key == SolvedKey(n);
        if key !in visited' {
          visited' := visited' + {key};
          parents' := parents'[key := Some(current)];
          frontier' := frontier' + [n];
          maze[n.row, n.col] := Frontier;
          PaintDiscovered(g0, start, dist', marked, n, d);
          dist' := dist'[n := d];
          assert neighbors[..i + 1] == neighbors[..i] + [n];
        }
      }
      assert neighbors[..|neighbors|] == neighbors;
    }

    /** The part of one iteration of solveMazeBFS after a cell other than the
        destination has been dequeued and marked visited: its passageway
        neighbours are looked up and queued. The invariant holds again, and
        either some open cell was discovered or the queue got shorter. */
    method ExpandBFS(current: Pos, frontier: seq<Pos>, visited: set<Key>, parents: map<Key, Option<Pos>>,
                     ghost queue: seq<Pos>, ghost dist: map<Pos, nat>, ghost done: set<Pos>, ghost lvl: nat,
                     ghost startKind: CellType, ghost g0: map<Pos, CellType>, ghost open: set<Pos>)
      returns (frontier': seq<Pos>, visited': set<Key>, parents': map<Key, Option<Pos>>, ghost dist': map<Pos, nat>)
      requires forall p :: p in g0 <==> InBounds(p)
      requires OpenCellsOf(g0, start, open)
      requires BfsInv(open, start, destination, queue, parents, dist, done, lvl, startKind)
      requires |queue| >= 1 && queue[0] == current && frontier == queue[1..] && current != destination
      requires visited == parents.Keys
      requires PaintedAs(g0, dist, done + {current})
      modifies maze
      ensures frontier' == frontier + old(Around(current))
      ensures ParentsAdded(parents, old(Around(current)), current, parents')
      ensures Deepened(dist, old(Around(current)), dist[current] + 1, dist')
      ensures BfsInv(open, start, destination, frontier', parents', dist', done + {current}, dist[current], startKind)
      ensures visited' == parents'.Keys
      ensures open - dist'.Keys < open - dist.Keys || (dist'.Keys == dist.Keys && |frontier'| < |queue|)
      ensures PaintedAs(g0, dist', done + {current})
    {
      ghost var marked := done + {current};
      var neighbors := GetNeighbors(current);
      assert NewNeighbours(open, dist, current, neighbors) by {
        PaintPassageway(g0, start, open, dist, marked);
        AroundIsFresh(current, open, dist);
        FreshMembers(open, dist, current);
      }
      assert forall k :: 0 <= k < |neighbors| ==>
               InBounds(neighbors[k]) && g0[neighbors[k]] == Passageway && neighbors[k] !in dist &&
               SolvedKey(neighbors[k]) !in parents by {
        forall k | 0 <= k < |neighbors|
          ensures InBounds(neighbors[k]) && g0[neighbors[k]] == Passageway && SolvedKey(neighbors[k]) !in parents
        {
          FreshKey(parents, dist, start, startKind, neighbors[k]);
        }
      }
      frontier', visited', parents', dist' :=
        EnqueueNeighbors(current, neighbors, frontier, visited, parents, dist, g0, marked);
      BfsAdvance(open, start, destination, queue, parents, dist, done, lvl, startKind, neighbors, parents', dist');
    }

    /** One iteration of the search loop of solveMazeBFS: the head of the queue
        is dequeued and marked visited; unless it is the destination
        (`arrived`), its passageway neighbours are queued. */
    method StepBFS(frontier: seq<Pos>, visited: set<Key>, parents: map<Key, Option<Pos>>,
                   ghost dist: map<Pos, nat>, ghost done: set<Pos>, ghost lvl: nat,
                   ghost startKind: CellType, ghost g0: map<Pos, CellType>, ghost open: set<Pos>)
      returns (current: Pos, arrived: bool, frontier': seq<Pos>, visited': set<Key>,
               parents': map<Key, Option<Pos>>, ghost dist': map<Pos, nat>)
      requires Valid()
      requires forall p :: p in g0 <==> InBounds(p)
      requires OpenCellsOf(g0, start, open)
      requires BfsInv(open, start, destination, frontier, parents, dist, done, lvl, startKind)
      requires |frontier| >= 1 && visited == parents.Keys
      requires PaintedAs(g0, dist, done)
      modifies maze
      ensures current == frontier[0] && (arrived <==> current == destination)
      ensures arrived ==> frontier' == frontier[1..] && visited' == visited && parents' == parents && dist' == dist &&
                          BfsOutcome(open, start, destination, parents, dist, done + {current}, current, true)
      ensures !arrived ==>
                && frontier' == frontier[1..] + old(Around(frontier[0]))
                && ParentsAdded(parents, old(Around(frontier[0])), current, parents')
                && Deepened(dist, old(Around(frontier[0])), dist[current] + 1, dist')
                && BfsInv(open, start, destination, frontier', parents', dist', done + {current}, dist[current], startKind)
                && visited' == parents'.Keys
                && (open - dist'.Keys < open - dist.Keys || (dist'.Keys == dist.Keys && |frontier'| < |frontier|))
      ensures PaintedAs(g0, dist', done + {current})
    {
      current := frontier[0];
      frontier' := frontier[1..];
      maze[current.row, current.col] := Visited;
      AroundIgnoresSelf(current);
      PaintVisited(g0, start, dist, done, current);
      arrived := IsDestination(current);
      if arrived {
        BfsFoundShortest(open, start, destination, frontier, parents, dist, done, lvl, startKind);
        visited', parents', dist' := visited, parents, dist;
        return;
      }
      frontier', visited', parents', dist' :=
        ExpandBFS(current, frontier', visited, parents, frontier, dist, done, lvl, startKind, g0, open);
    }

    /** The search loop of solveMazeBFS. It stops at the destination (`found`) or
        when the queue runs dry, and returns the last dequeued cell and the
        parents map; `dist` holds the level of each discovered cell and `painted`
        the cells marked visited. Found or not, no open path from the start to
        the destination is shorter than the level of the destination, and none to
        the last dequeued cell shorter than its level. When the queue runs dry,
        every open path from the start ends at a discovered cell, and every
        discovered cell is marked visited and no deeper than the last dequeued one. */
    method SearchBFS(ghost g0: map<Pos, CellType>, ghost open: set<Pos>)
      returns (current: Pos, parents: map<Key, Option<Pos>>, ghost dist: map<Pos, nat>,
               ghost painted: set<Pos>, ghost found: bool)
      requires Valid()
      requires forall p :: p in g0 <==> InBounds(p)
      requires OpenCellsOf(g0, start, open)
      requires forall p :: InBounds(p) ==> maze[p.row, p.col] == g0[p]
      modifies maze
      ensures BfsOutcome(open, start, destination, parents, dist, painted, current, found)
      ensures !found ==> forall p :: p in dist ==> p in painted && dist[p] <= dist[current]
      ensures !found ==> forall P :: IsPathFrom(open, start, P) ==> P[|P| - 1] in dist
      ensures PaintedAs(g0, dist, painted)
    {
      ghost var startKind := maze[start.row, start.col];
      var frontier := [start];
      var visited := {MazeCell(start.row, start.col, maze[start.row, start.col]).Projection()};
      parents := map[MazeCell(start.row, start.col, maze[start.row, start.col]).Projection() := None];
      dist := map[start := 0];
      ghost var lvl: nat := 0;
      painted := {};
      current := start;
      found := false;
      BfsInit(open, start, destination, startKind);
      while |frontier| >= 1
        invariant BfsInv(open, start, destination, frontier, parents, dist, painted, lvl, startKind)
        invariant visited == parents.Keys && current in dist && dist[current] == lvl && !found
        invariant PaintedAs(g0, dist, painted)
        decreases open - dist.Keys, |frontier|
      {
        var arrived;
        ghost var dist';
        current, arrived, frontier, visited, parents, dist' :=
          StepBFS(frontier, visited, parents, dist, painted, lvl, startKind, g0, open);
        lvl := dist[current];
        painted := painted + {current};
        dist := dist';
        if arrived {
          found := true;
          break;
        }
      }
      if !found {
        BfsExhausted(open, start, destination, parents, dist, painted, lvl, startKind, current);
      }
    }

    /** Breadth-first search from the start (solveMazeBFS): the search loop, then
        the parent chain of the last dequeued cell marked as the solution. `found`
        tells whether the search stopped at the destination and `path` is the
        marked chain: a shortest open path from the start to the cell where the
        search stopped. That cell is the destination whenever the destination can
        be reached at all; otherwise it is as far from the start as any reachable
        cell, and every reachable cell is left visited or solution. */
    method SolveBFS() returns (ghost found: bool, ghost path: seq<Pos>)
      requires Valid()
      modifies maze
      ensures BfsSolution(old(OpenCells()), start, destination, found, path)
      ensures forall p :: InBounds(p) ==>
                (maze[p.row, p.col] == Solution <==> p in path || old(maze[p.row, p.col]) == Solution)
      ensures forall p :: InBounds(p) && maze[p.row, p.col] != old(maze[p.row, p.col]) ==>
                p in old(OpenCells()) && maze[p.row, p.col] in {Frontier, Visited, Solution}
      ensures !found ==> forall q :: Reachable(old(OpenCells()), start, q) ==>
                InBounds(q) && maze[q.row, q.col] in {Visited, Solution}
    {
      ghost var g0 := Snapshot();
      ghost var open := OpenCells();
      assert OpenCellsOf(g0, start, open);
      assert forall p :: InBounds(p) ==> old(maze[p.row, p.col]) == g0[p];
      var current, parents;
      ghost var dist, painted;
      current, parents, dist, painted, found := SearchBFS(g0, open);
      BfsSolved(open, start, destination, parents, dist, painted, current, found);
      path := MarkChain(current, parents, dist, painted, g0, open);
    }

    /** Moving on to the passageway neighbour `n` of `current`, unless its key is
        already visited: `n` is marked frontier, `current` is pushed on the stack
        and recorded as the parent of `n`, and `n` becomes the current cell.
        Only the start's key is ever visited, so the move always happens. */
    method AdvanceDFS(n: Pos, frontier: seq<Pos>, current: Pos, visited: set<Key>, parents: map<Key, Option<Pos>>,
                      ghost depth: map<Pos, nat>, ghost marked: set<Pos>, ghost startKind: CellType,
                      ghost g0: map<Pos, CellType>)
      returns (frontier': seq<Pos>, current': Pos, parents': map<Key, Option<Pos>>, ghost depth': map<Pos, nat>)
      requires forall p :: p in g0 <==> InBounds(p)
      requires InBounds(n) && maze[n.row, n.col] == Passageway && n !in marked && n != start
      requires current in depth && visited == {MazeCell(start.row, start.col, startKind).Projection()}
      requires PaintedAs(g0, depth, marked)
      modifies maze
      ensures frontier' == frontier + [current] && current' == n
      ensures parents' == parents[SolvedKey(n) := Some(current)] && depth' == depth[n := depth[current] + 1]
      ensures PaintedAs(g0, depth', marked)
    {
      frontier', current', parents', depth' := frontier, current, parents, depth;
      var key := MazeCell(n.row, n.col, maze[n.row, n.col]).Projection();
      PassagewayKeyIsNew(MazeCell(start.row, start.col, startKind), MazeCell(n.row, n.col, maze[n.row, n.col]));
      if key !in visited {
        maze[n.row, n.col] := Frontier;
        frontier' := frontier + [current];
        parents' := parents[key := Some(current)];
        current' := n;
        PaintDiscovered(g0, start, depth, marked, n, depth[current] + 1);
        depth' := depth[n := depth[current] + 1];
      }
    }

    /** The part of one iteration of solveMazeDFS after a cell other than the
        destination has been marked visited: the search moves on to its first
        passageway neighbour, pushing `current` on the stack, recording it as
        the neighbour's parent and marking the neighbour frontier, or, when there
        is none, pops the cell to go back to. The invariant holds again, and
        either some open cell was discovered or the stack got shorter. */
    method ExpandDFS(frontier: seq<Pos>, current: Pos, visited: set<Key>, parents: map<Key, Option<Pos>>,
                     ghost depth: map<Pos, nat>, ghost marked: set<Pos>, ghost startKind: CellType,
                     ghost g0: map<Pos, CellType>, ghost open: set<Pos>)
      returns (frontier': seq<Pos>, current': Pos, parents': map<Key, Option<Pos>>, ghost depth': map<Pos, nat>)
      requires Valid()
      requires forall p :: p in g0 <==> InBounds(p)
      requires OpenCellsOf(g0, start, open)
      requires DfsInv(open, start, destination, frontier, current, parents, depth, marked, startKind)
      requires |frontier| >= 1 && current != destination
      requires visited == {MazeCell(start.row, start.col, startKind).Projection()}
      requires PaintedAs(g0, depth, marked + {current})
      modifies maze
      ensures |old(Around(current))| >= 1 ==>
                && frontier' == frontier + [current] && current' == old(Around(current))[0]
                && parents' == parents[SolvedKey(current') := Some(current)]
                && depth' == depth[current' := depth[current] + 1]
      ensures |old(Around(current))| == 0 ==>
                && frontier' == frontier[..|frontier| - 1] && current' == frontier[|frontier| - 1]
                && parents' == parents && depth' == depth
      ensures DfsInv(open, start, destination, frontier', current', parents', depth', marked + {current}, startKind)
      ensures open - depth'.Keys < open - depth.Keys || (depth'.Keys == depth.Keys && |frontier'| < |frontier|)
      ensures PaintedAs(g0, depth', marked + {current})
    {
      frontier', current', parents', depth' := frontier, current, parents, depth;
      var neighbors := GetNeighbors(current);
      assert NewNeighbours(open, depth, current, neighbors) by {
        PaintPassageway(g0, start, open, depth, marked + {current});
        AroundIsFresh(current, open, depth);
        FreshMembers(open, depth, current);
      }
      if |neighbors| >= 1 {
        AroundMembers(current);
        assert maze[start.row, start.col] == Visited;
        NeighbourKeyUnvisited(current, startKind);
        frontier', current', parents', depth' :=
          AdvanceDFS(neighbors[0], frontier, current, visited, parents, depth, marked + {current}, startKind, g0);
      } else {
        current' := frontier[|frontier| - 1];
        frontier' := frontier[..|frontier| - 1];
      }
      DfsMove(open, start, destination, frontier, current, parents, depth, marked, startKind,
              neighbors, frontier', current', parents', depth');
    }

    /** One iteration of the search loop of solveMazeDFS: `current` is marked
        visited and, unless it is the destination (`arrived`), the search moves
        on or backs up. */
    method StepDFS(frontier: seq<Pos>, current: Pos, visited: set<Key>, parents: map<Key, Option<Pos>>,
                   ghost depth: map<Pos, nat>, ghost marked: set<Pos>, ghost startKind: CellType,
                   ghost g0: map<Pos, CellType>, ghost open: set<Pos>)
      returns (arrived: bool, frontier': seq<Pos>, current': Pos, parents': map<Key, Option<Pos>>,
               ghost depth': map<Pos, nat>)
      requires Valid()
      requires forall p :: p in g0 <==> InBounds(p)
      requires OpenCellsOf(g0, start, open)
      requires DfsInv(open, start, destination, frontier, current, parents, depth, marked, startKind)
      requires |frontier| >= 1
      requires visited == {MazeCell(start.row, start.col, startKind).Projection()}
      requires PaintedAs(g0, depth, marked)
      modifies maze
      ensures arrived <==> current == destination
      ensures arrived ==> frontier' == frontier && current' == current && parents' == parents && depth' == depth &&
                          DfsOutcome(open, start, destination, parents, depth, marked + {current}, current, true)
      ensures !arrived && |old(Around(current))| >= 1 ==>
                && frontier' == frontier + [current] && current' == old(Around(current))[0]
                && parents' == parents[SolvedKey(current') := Some(current)]
                && depth' == depth[current' := depth[current] + 1]
      ensures !arrived && |old(Around(current))| == 0 ==>
                && frontier' == frontier[..|frontier| - 1] && current' == frontier[|frontier| - 1]
                && parents' == parents && depth' == depth
      ensures !arrived ==>
                && DfsInv(open, start, destination, frontier', current', parents', depth', marked + {current}, startKind)
                && (open - depth'.Keys < open - depth.Keys || (depth'.Keys == depth.Keys && |frontier'| < |frontier|))
      ensures PaintedAs(g0, depth', marked + {current})
    {
      maze[current.row, current.col] := Visited;
      AroundIgnoresSelf(current);
      PaintVisited(g0, start, depth, marked, current);
      arrived := IsDestination(current);
      if arrived {
        DfsFound(open, start, destination, frontier, current, parents, depth, marked, startKind);
        frontier', current', parents', depth' := frontier, current, parents, depth;
        return;
      }
      frontier', current', parents', depth' :=
        ExpandDFS(frontier, current, visited, parents, depth, marked, startKind, g0, open);
    }

    /** The search loop of solveMazeDFS, after the start is marked visited. It
        stops at the destination (`found`) or when the stack runs dry, back at the
        start, and returns the cell it stopped at and the parents map; `depth`
        holds the depth of each discovered cell in the search tree and `painted`
        the cells marked visited. Whenever an open path from the start reaches the
        destination, the search finds it; when the stack runs dry, every open path
        from the start ends at a discovered cell, and every discovered cell is
        marked visited. */
    method SearchDFS(ghost g0: map<Pos, CellType>, ghost open: set<Pos>)
      returns (current: Pos, parents: map<Key, Option<Pos>>, ghost depth: map<Pos, nat>,
               ghost painted: set<Pos>, ghost found: bool)
      requires Valid()
      requires forall p :: p in g0 <==> InBounds(p)
      requires OpenCellsOf(g0, start, open)
      requires forall p :: InBounds(p) ==> maze[p.row, p.col] == g0[p]
      modifies maze
      ensures DfsOutcome(open, start, destination, parents, depth, painted, current, found)
      ensures !found ==> forall p :: p in depth ==> p in painted
      ensures !found ==> forall P :: IsPathFrom(open, start, P) ==> P[|P| - 1] in depth
      ensures PaintedAs(g0, depth, painted)
    {
      ghost var startKind := maze[start.row, start.col];
      var frontier := [start];
      var visited := {MazeCell(start.row, start.col, maze[start.row, start.col]).Projection()};
      parents := map[MazeCell(start.row, start.col, maze[start.row, start.col]).Projection() := None];
      current := start;
      maze[current.row, current.col] := Visited;
      depth := map[start := 0];
      PaintVisited(g0, start, depth, {}, start);
      painted := {start};
      found := false;
      DfsInit(open, start, destination, startKind);
      while |frontier| >= 1
        invariant DfsInv(open, start, destination, frontier, current, parents, depth, painted, startKind)
        invariant visited == {MazeCell(start.row, start.col, startKind).Projection()} && !found
        invariant PaintedAs(g0, depth, painted)
        decreases open - depth.Keys, |frontier|
      {
        var arrived, current';
        ghost var depth';
        arrived, frontier, current', parents, depth' :=
          StepDFS(frontier, current, visited, parents, depth, painted, startKind, g0, open);
        painted := painted + {current};
        current := current';
        depth := depth';
        if arrived {
          found := true;
          break;
        }
      }
      if !found {
        DfsExhausted(open, start, destination, current, parents, depth, painted, startKind);
      }
    }

    /** Depth-first search from the start (solveMazeDFS): the search loop, then
        the parent chain of the cell it stopped at marked as the solution. `found`
        tells whether the search reached the destination and `path` is the marked
        chain: an open path from the start to the destination when it was found,
        and the start alone otherwise; it is found whenever it can be reached, and
        when it cannot, every reachable cell is left visited or solution. */
    method SolveDFS() returns (ghost found: bool, ghost path: seq<Pos>)
      requires Valid()
      modifies maze
      ensures IsPathFrom(old(OpenCells()), start, path) && Distinct(path)
      ensures found <==> path[|path| - 1] == destination
      ensures !found ==> path == [start]
      ensures forall p :: InBounds(p) ==>
                (maze[p.row, p.col] == Solution <==> p in path || old(maze[p.row, p.col]) == Solution)
      ensures forall p :: InBounds(p) && maze[p.row, p.col] != old(maze[p.row, p.col]) ==>
                p in old(OpenCells()) && maze[p.row, p.col] in {Frontier, Visited, Solution}
      ensures forall P :: IsPathFrom(old(OpenCells()), start, P) && P[|P| - 1] == destination ==> found
      ensures !found ==> forall q :: Reachable(old(OpenCells()), start, q) ==>
                InBounds(q) && maze[q.row, q.col] in {Visited, Solution}
    {
      ghost var g0 := Snapshot();
      ghost var open := OpenCells();
      assert OpenCellsOf(g0, start, open);
      assert forall p :: InBounds(p) ==> old(maze[p.row, p.col]) == g0[p];
      var current, parents;
      ghost var depth, painted;
      current, parents, depth, painted, found := SearchDFS(g0, open);
      path := MarkChain(current, parents, depth, painted, g0, open);
      ChainShape(parents, depth, start, current);
    }

    /** Counts the solution cells, the visited cells (solution cells included)
        and the frontier cells, reading the grid and changing nothing. */
    method CellCounts() returns (counter: Counts)
      ensures counter == GridTally(maze, maze.Length0)
      ensures counter.solution <= counter.visited
      ensures counter.visited + counter.frontier <= maze.Length0 * maze.Length1
    {
      counter := Counts(0, 0, 0);
      for i := 0 to maze.Length0
        invariant counter == GridTally(maze, i)
      {
        ghost var before := counter;
        for j := 0 to maze.Length1
          invariant counter == Plus(before, RowTally(maze, i, j))
        {
          var t := maze[i, j];
          if t == Solution {
            counter := counter.(solution := counter.solution + 1);
          }
          if t == Solution || t == Visited {
            counter := counter.(visited := counter.visited + 1);
          }
          if t == Frontier {
            counter := counter.(frontier := counter.frontier + 1);
          }
        }
      }
      GridTallyBounds(maze, maze.Length0);
    }
  }
}
