/** Cells of the maze: their kinds, their character codes, their grid positions
    and the key under which a search remembers them. */
module Cells {

  /** The kinds of cell (MazeCellTypes). The source stores the raw character of
      the input text as the cell type, so a character that is none of the five
      codes survives as `Unknown`. */
  datatype CellType = Wall | Passageway | Solution | Frontier | Visited | Unknown(code: char)

  /** The character each kind is written as. */
  function ToChar(t: CellType): char
  {
    match t
    case Wall => '#'
    case Passageway => ' '
    case Solution => '@'
    case Frontier => 'F'
    case Visited => 'V'
    case Unknown(c) => c
  }

  /** The kind a character of the input text stands for. */
  function FromChar(c: char): (t: CellType)
    ensures ToChar(t) == c
    ensures t.Unknown? <==> c !in {'#', ' ', '@', 'F', 'V'}
  {
    if c == '#' then Wall
    else if c == ' ' then Passageway
    else if c == '@' then Solution
    else if c == 'F' then Frontier
    else if c == 'V' then Visited
    else Unknown(c)
  }

  /** A kind as `FromChar` produces it: an unknown character is never one of the five codes. */
  predicate Canonical(t: CellType)
  {
    t.Unknown? ==> t.code !in {'#', ' ', '@', 'F', 'V'}
  }

  /** Reading a written kind back gives the kind again. */
  lemma CharRoundTrip(t: CellType)
    requires Canonical(t)
    ensures FromChar(ToChar(t)) == t
  {
  }

  /** A position in the grid; the row grows downwards, the column to the right. */
  datatype Pos = Pos(row: int, col: int)

  function Down(p: Pos): Pos { Pos(p.row + 1, p.col) }
  function Right(p: Pos): Pos { Pos(p.row, p.col + 1) }
  function Up(p: Pos): Pos { Pos(p.row - 1, p.col) }
  function Left(p: Pos): Pos { Pos(p.row, p.col - 1) }

  /** Two positions one orthogonal step apart. */
  predicate Adjacent(p: Pos, q: Pos)
  {
    q == Down(p) || q == Right(p) || q == Up(p) || q == Left(p)
  }

  /** The place of the step from `p` to `q` in the order down, right, up, left;
      4 when `q` is not a neighbour of `p`. */
  function Rank(p: Pos, q: Pos): nat
  {
    if q == Down(p) then 0
    else if q == Right(p) then 1
    else if q == Up(p) then 2
    else if q == Left(p) then 3
    else 4
  }

  /** The classes a key distinguishes: a solution cell is still a passageway. */
  datatype KeyClass = WallClass | PassageClass | NoClass

  /** The de-duplication key of a cell (its projection). */
  datatype Key = Key(cls: KeyClass, row: int, col: int)

  /** A cell value: its position and its kind at the moment it is looked at. */
  datatype MazeCell = MazeCell(row: int, col: int, kind: CellType)
  {
    /** The key of this cell. Frontier, visited and unknown cells get no class
        prefix, so their keys all fall in `NoClass`. */
    function Projection(): (k: Key)
      ensures k.row == row && k.col == col
    {
      var cls :=
        if kind == Wall then WallClass
        else if kind == Passageway || kind == Solution then PassageClass
        else NoClass;
      Key(cls, row, col)
    }
  }

  /** The key a cell has once it has been marked as part of the solution. */
  function SolvedKey(p: Pos): Key
  {
    MazeCell(p.row, p.col, Solution).Projection()
  }

  /** Marking a passageway as part of the solution does not change its key. */
  lemma SolutionKeepsKey(row: int, col: int)
    ensures MazeCell(row, col, Passageway).Projection() == MazeCell(row, col, Solution).Projection()
  {
  }

  /** Cells at different positions never share a key, whatever their kinds. */
  lemma KeyDeterminesPosition(a: MazeCell, b: MazeCell)
    requires a.Projection() == b.Projection()
    ensures a.row == b.row && a.col == b.col
  {
  }

  /** Walls and passageways at the same position have different keys, and a
      passageway's key differs from that of a frontier or visited cell. */
  lemma KeysSeparateClasses(row: int, col: int, t: CellType)
    ensures MazeCell(row, col, Wall).Projection() != MazeCell(row, col, Passageway).Projection()
    ensures t in {Frontier, Visited} ==>
              MazeCell(row, col, t).Projection() != MazeCell(row, col, Passageway).Projection()
  {
  }

  /** A passageway's key is the key it will have once solved, and it is the key of
      no other position. This is why a search that marks the start as visited
      before looking at neighbours never meets the start's key again. */
  lemma PassagewayKeyIsNew(start0: MazeCell, n: MazeCell)
    requires n.kind == Passageway
    requires n.row != start0.row || n.col != start0.col
    ensures n.Projection() !in {start0.Projection()}
    ensures n.Projection() == SolvedKey(Pos(n.row, n.col))
  {
  }
}
