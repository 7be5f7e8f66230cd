/** What both solvers share, stated over plain values: the parents map keyed by
    cell keys, the cells a search may enter, the kinds a search paints on the
    grid, and the undiscovered neighbours of a cell. */
module Searches {
  import opened Cells
  import opened Options
  import opened Paths

  /** The parents map of a search that started at `start`, whose cell had kind
      `startKind` when the search began, and that has discovered the positions of
      `depth`. The start's key maps to no parent; every other key is the
      passageway key of a discovered position. */
  ghost predicate Bookkeeping(parents: map<Key, Option<Pos>>, depth: map<Pos, nat>, start: Pos, startKind: CellType)
  {
    var key0 := MazeCell(start.row, start.col, startKind).Projection();
    && key0 in parents && parents[key0] == None
    && ParentLinks(parents, depth, start)
    && forall key :: key in parents && key != key0 ==>
         key.cls == PassageClass && Pos(key.row, key.col) in depth && Pos(key.row, key.col) != start
  }

  /** `depth'` is `depth` with the positions of `s`, none of them discovered
      before, discovered at level `d`. */
  ghost predicate Deepened(depth: map<Pos, nat>, s: seq<Pos>, d: nat, depth': map<Pos, nat>)
  {
    && (forall p :: p in depth' <==> p in depth || p in s)
    && (forall p :: p in depth ==> depth'[p] == depth[p])
    && (forall k :: 0 <= k < |s| ==> depth'[s[k]] == d)
  }

  /** `parents'` is `parents` with `c` recorded as the parent of each position
      of `s`, under the key the position has once solved, and nothing else. */
  ghost predicate ParentsAdded(parents: map<Key, Option<Pos>>, s: seq<Pos>, c: Pos, parents': map<Key, Option<Pos>>)
  {
    && (forall k :: 0 <= k < |s| ==> SolvedKey(s[k]) in parents' && parents'[SolvedKey(s[k])] == Some(c))
    && (forall key :: key in parents ==> key in parents' && parents'[key] == parents[key])
    && (forall key :: key in parents' && key !in parents ==> key.cls == PassageClass && Pos(key.row, key.col) in s)
  }

  /** An undiscovered position's key has no entry yet. */
  lemma FreshKey(parents: map<Key, Option<Pos>>, depth: map<Pos, nat>, start: Pos, startKind: CellType, n: Pos)
    requires Bookkeeping(parents, depth, start, startKind) && n !in depth
    ensures SolvedKey(n) !in parents
  {
  }

  /** Recording distinct undiscovered neighbours `s` of a discovered `c` as its
      children, one level deeper, keeps the bookkeeping. */
  lemma RecordAll(parents: map<Key, Option<Pos>>, depth: map<Pos, nat>, start: Pos, startKind: CellType,
                  c: Pos, s: seq<Pos>, parents': map<Key, Option<Pos>>, depth': map<Pos, nat>)
    requires Bookkeeping(parents, depth, start, startKind)
    requires c in depth && Distinct(s) && forall k :: 0 <= k < |s| ==> s[k] !in depth && Adjacent(c, s[k])
    requires Deepened(depth, s, depth[c] + 1, depth') && ParentsAdded(parents, s, c, parents')
    ensures Bookkeeping(parents', depth', start, startKind)
  {
    assert SolvedKey(start) in parents' ==> parents'[SolvedKey(start)] == None by {
      if SolvedKey(start) in parents' && SolvedKey(start) !in parents {
        assert start in s;
      }
    }
    forall p | p in depth' && p != start
      ensures HasParent(parents', depth', p)
    {
      if p in depth {
        assert HasParent(parents, depth, p);
      } else {
        var k :| 0 <= k < |s| && s[k] == p;
      }
    }
  }

  /** The cells a search may enter, given the grid `g0` it started from: the
      start, and every passageway. */
  ghost predicate OpenCellsOf(g0: map<Pos, CellType>, start: Pos, open: set<Pos>)
  {
    && start in g0
    && forall p :: p in open <==> p == start || (p in g0 && g0[p] == Passageway)
  }

  /** The kind a search has given the cell at `p`: visited once it has been marked
      visited, frontier once discovered (the start is never marked frontier),
      and as it was in `g0` otherwise. */
  function Paint(g0: map<Pos, CellType>, start: Pos, depth: map<Pos, nat>, marked: set<Pos>, p: Pos): CellType
    requires p in g0
  {
    if p in marked then Visited
    else if p in depth && p != start then Frontier
    else g0[p]
  }

  /** Marking `c` visited paints it visited and leaves every other cell as it was. */
  lemma PaintVisited(g0: map<Pos, CellType>, start: Pos, depth: map<Pos, nat>, marked: set<Pos>, c: Pos)
    ensures forall p :: p in g0 ==>
              Paint(g0, start, depth, marked + {c}, p) == if p == c then Visited else Paint(g0, start, depth, marked, p)
  {
  }

  /** Discovering `n` paints it frontier and leaves every other cell as it was. */
  lemma PaintDiscovered(g0: map<Pos, CellType>, start: Pos, depth: map<Pos, nat>, marked: set<Pos>, n: Pos, d: nat)
    requires n !in marked && n != start
    ensures forall p :: p in g0 ==>
              Paint(g0, start, depth[n := d], marked, p) == if p == n then Frontier else Paint(g0, start, depth, marked, p)
  {
  }

  /** Once the start is marked visited, the passageways left are exactly the
      open cells not yet discovered. */
  lemma PaintPassageway(g0: map<Pos, CellType>, start: Pos, open: set<Pos>, depth: map<Pos, nat>, marked: set<Pos>)
    requires OpenCellsOf(g0, start, open)
    requires start in marked && forall p :: p in marked ==> p in depth
    ensures forall p :: p in g0 ==> (Paint(g0, start, depth, marked, p) == Passageway <==> p in open && p !in depth)
  {
  }

  /** Marking a chain from the start through discovered positions as the solution
      over a painted grid: a cell is a solution cell exactly when it is on the
      chain or was one in `g0`, and every cell whose kind changed is an open cell
      now marked frontier, visited or solution. */
  lemma SolutionPaint(g0: map<Pos, CellType>, start: Pos, open: set<Pos>, depth: map<Pos, nat>, marked: set<Pos>,
                      chain: seq<Pos>)
    requires OpenCellsOf(g0, start, open)
    requires forall p :: p in depth ==> p in open
    requires start in marked && forall p :: p in marked ==> p in depth
    requires |chain| >= 1 && chain[0] == start && forall k :: 0 <= k < |chain| ==> chain[k] in depth
    ensures forall p :: p in g0 ==>
              var t := if p in chain then Solution else Paint(g0, start, depth, marked, p);
              && (t == Solution <==> p in chain || g0[p] == Solution)
              && (t != g0[p] ==> p in open && t in {Frontier, Visited, Solution})
  {
  }

  /** `q` alone when it is open and undiscovered, nothing otherwise. */
  ghost function FreshAt(open: set<Pos>, depth: map<Pos, nat>, q: Pos): seq<Pos>
  {
    if q in open && q !in depth then [q] else []
  }

  /** The open, undiscovered neighbours of `u`, in the order down, right, up, left. */
  ghost function Fresh(open: set<Pos>, depth: map<Pos, nat>, u: Pos): seq<Pos>
  {
    FreshAt(open, depth, Down(u)) + FreshAt(open, depth, Right(u)) + FreshAt(open, depth, Up(u)) + FreshAt(open, depth, Left(u))
  }

  /** `s` lists the open, undiscovered neighbours of `u`: each is open,
      undiscovered and adjacent to `u`, none occurs twice, and none is missing. */
  ghost predicate NewNeighbours(open: set<Pos>, depth: map<Pos, nat>, u: Pos, s: seq<Pos>)
  {
    && (forall k :: 0 <= k < |s| ==> s[k] in open && s[k] !in depth && Adjacent(u, s[k]))
    && Distinct(s)
    && (forall q :: q in open && q !in depth && Adjacent(u, q) ==> q in s)
  }

  /** `Fresh` lists them. */
  lemma FreshMembers(open: set<Pos>, depth: map<Pos, nat>, u: Pos)
    ensures NewNeighbours(open, depth, u, Fresh(open, depth, u))
  {
  }
}
