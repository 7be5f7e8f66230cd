/** The cell-count summary of a grid: solution cells, visited cells (solution
    cells included) and frontier cells. */
module Tallies {
  import opened Cells

  datatype Counts = Counts(solution: nat, visited: nat, frontier: nat)

  /** The counts after looking at one more cell. */
  function Tick(c: Counts, t: CellType): Counts
  {
    Counts(
      c.solution + (if t == Solution then 1 else 0),
      c.visited + (if t == Solution || t == Visited then 1 else 0),
      c.frontier + (if t == Frontier then 1 else 0))
  }

  function Plus(a: Counts, b: Counts): Counts
  {
    Counts(a.solution + b.solution, a.visited + b.visited, a.frontier + b.frontier)
  }

  /** The counts over the first `j` cells of row `i`. */
  ghost function RowTally(g: array2<CellType>, i: nat, j: nat): Counts
    reads g
    requires i < g.Length0 && j <= g.Length1
  {
    if j == 0 then Counts(0, 0, 0) else Tick(RowTally(g, i, j - 1), g[i, j - 1])
  }

  /** The counts over the first `i` rows. */
  ghost function GridTally(g: array2<CellType>, i: nat): Counts
    reads g
    requires i <= g.Length0
  {
    if i == 0 then Counts(0, 0, 0) else Plus(GridTally(g, i - 1), RowTally(g, i - 1, g.Length1))
  }

  /** Within a row prefix, solution cells are among the visited ones, and visited
      and frontier cells together are at most the cells looked at. */
  lemma {:induction false} RowTallyBounds(g: array2<CellType>, i: nat, j: nat)
    requires i < g.Length0 && j <= g.Length1
    ensures var c := RowTally(g, i, j); c.solution <= c.visited && c.visited + c.frontier <= j
  {
    if j > 0 {
      RowTallyBounds(g, i, j - 1);
    }
  }

  /** The same bounds over whole rows. */
  lemma {:induction false} GridTallyBounds(g: array2<CellType>, i: nat)
    requires i <= g.Length0
    ensures var c := GridTally(g, i); c.solution <= c.visited && c.visited + c.frontier <= i * g.Length1
  {
    if i > 0 {
      GridTallyBounds(g, i - 1);
      RowTallyBounds(g, i - 1, g.Length1);
      assert (i - 1) * g.Length1 + g.Length1 == i * g.Length1;
    }
  }
}
