# MazeSolver in Dafny

A model of `js/maze.js`, the maze engine of MazeSolver, together with proofs about it.

The engine reads a maze written as text: one character per cell, one line per row. It builds a grid of typed cells from that text:

| character | cell type |
|---|---|
| `#` | wall |
| space | passageway |
| `@` | solution |
| `F` | frontier |
| `V` | visited |

The entry is at row 1, column 0. The exit is at the second-to-last row and the last column. Two solvers search from the entry and retype cells in place as they go:
- breadth-first (`solveMazeBFS`), with a FIFO queue;
- depth-first (`solveMazeDFS`), with an explicit stack that always takes the first passageway neighbour.

Both then walk the parent links back from the cell where the search stopped and mark every cell on the way as `SOLUTION`. `cellCounts` summarises the grid.

Layout:

| file | module | contents |
|---|---|---|
| `cells.dfy` | `Cells` | cell types and their characters; positions and adjacency; the de-duplication key that `projection()` builds, as a datatype `Key(class, row, col)` |
| `lines.dfy` | `Lines` | splitting the text into rows |
| `paths.dfy` | `Paths` | open paths; parent links; the parent chain followed by the backtrack loop |
| `searches.dfy` | `Searches` | what both solvers share: the parents bookkeeping, and how a search paints the grid (`Paint`) |
| `breadth_first.dfy` | `BreadthFirst` | the invariant of the BFS loop and the lemmas that carry it |
| `depth_first.dfy` | `DepthFirst` | the invariant of the DFS loop and the lemmas that carry it |
| `tallies.dfy` | `Tallies` | the cell-count summary as a function of the grid |
| `maze.dfy` | `Mazes` | class `Maze` over an `array2<CellType>`: the constructor, the neighbour rule, both solvers and `cellCounts` |
| `options.dfy` | `Options` | `Option` |

How the model represents the source:
- A JS `MazeCell` object shared by the grid, the queue or stack and the parents map is a position `Pos(row, col)` into the one grid array. Retyping a cell is therefore seen by every holder, as in the source.
- The parents map is a `map<Key, Option<Pos>>`. `None` is the `false` stored for the start.
- A missing entry reads as `undefined`. It ends the backtrack walk, as `None` does.

What is proved:

- **Breadth-first search.**
  - It terminates.
  - It queues every cell at most once.
  - It retypes only the start and passageways, and only to frontier, visited or solution.
  - The cells it marks as solution are exactly the parent chain from the cell where it stopped back to the start. Cells that were already solution cells in the text (`@`) stay so; the search never enters them. That chain is an open path of adjacent cells with no repeats.
  - The chain is a shortest open path to the cell where the search stopped.
  - When the exit is reachable at all, the search stops there.
  - When it is not, the chain ends at a cell as far from the start as any reachable cell, and every reachable cell is left visited or solution (`BreadthFirst.BfsSolution`).
- **Depth-first search.**
  - It terminates.
  - Every step either moves on to the first passageway neighbour (marking it frontier and pushing the current cell) or pops the stack.
  - The `visited.has` test never fails: the start, once visited, is never a neighbour, so no neighbour has the start's key. `Mazes.Maze.NeighbourKeyUnvisited` states this, and `ExpandDFS` relies on it before `AdvanceDFS`.
  - When the stack runs dry, the current cell is the start, and the chain it marks is the start alone. Every reachable cell has then been discovered and is left visited or solution.
  - It always reaches the exit when the exit is reachable. In that case the cells it marks as solution form an open path of adjacent cells from the start to the exit. Cells that were already solution cells stay so, as with BFS.

Invariants of each solver:
- **BFS** (`BreadthFirst.BfsInv`):
  - the queue is layered by distance;
  - every expanded cell has all its open neighbours discovered.
- **DFS** (`DepthFirst.DfsInv`):
  - the stack is the start followed by the parent chain of the current cell, without the current cell itself;
  - every cell the search has left for good has all its open neighbours discovered.

Each search loop is a `while` loop in a method. Each iteration is its own method:
- BFS: `StepBFS`, `ExpandBFS`, `EnqueueNeighbors`;
- DFS: `StepDFS`, `ExpandDFS`, `AdvanceDFS`.

The grid after each step is stated through `Searches.Paint`. The cell at a position is:
- visited once marked visited;
- frontier once discovered, except the start;
- as it was before the search, otherwise.

The outputs `found` and `path` of `SolveBFS` and `SolveDFS` are ghost. The source returns nothing; they exist so that the contracts can name the marked chain.

What the code does in two cases worth spelling out:
- The depth-first solver finds the exit whenever it is reachable, on mazes with cycles too. It always moves on to some passageway neighbour while one exists, and it backs up only at dead ends. When the exit is unreachable it discovers every reachable cell (`SolveDFS`). When it reaches the exit it stops at once, so branches it has not taken stay undiscovered.
- When the exit is unreachable, the code raises nothing and still marks a chain:
  - BFS marks the chain back from the last dequeued cell;
  - DFS marks the start alone.

  For DFS the contract says exactly this: `found` is false and `path` is `[start]`. For BFS it says that `found` is false and `path` is a shortest open path to a cell as far from the start as any reachable cell. Which of several equally far cells that is is not stated; see "Left out".

## Model

| member | source | states |
|---|---|---|
| Cells.FromChar | js/maze.js:4-10 | the type read from a character writes back as that same character, and it is an unknown type exactly when the character is none of the five codes |
| Cells.CharRoundTrip | js/maze.js:4-10 | reading back the character of a type gives the type again |
| Cells.MazeCell.Projection | js/maze.js:26-37 | a cell's key carries the cell's own row and column |
| Cells.SolutionKeepsKey | js/maze.js:31-33 | a passageway and a solution cell at the same place have the same key |
| Cells.KeyDeterminesPosition | js/maze.js:26-37 | equal keys mean equal positions, whatever the types |
| Cells.KeysSeparateClasses | js/maze.js:28-35 | a wall's key differs from a passageway's at the same place, and so does a frontier or visited cell's |
| Cells.PassagewayKeyIsNew | js/maze.js:232-237 | a passageway anywhere but the start has a key other than the start's, and that key is its solved key |
| Mazes.Maze.NeighbourKeyUnvisited | js/maze.js:213-237 | once the start is no longer a passageway it is not among any cell's neighbours, and no neighbour's key is the start's, so the `visited.has` test of the depth-first loop never fails |
| Lines.Split | js/maze.js:49 | splitting yields at least one row and no row contains the separator |
| Lines.JoinSplit | js/maze.js:49 | gluing the rows back with the separator gives the text again |
| Lines.SplitPrefix | js/maze.js:49 | a separator-free prefix stays in the first row |
| Lines.SplitJoin | js/maze.js:49 | splitting separator-free rows glued with the separator gives the rows again |
| Mazes.Maze.constructor | js/maze.js:47-65 | the grid has one row per text line and one column per character, cell [i, j] has the type of character j of line i, the start is (1, 0), the destination is (rows - 2, columns - 1), and both are passageways |
| Mazes.Maze.IsDestination | js/maze.js:72-77 | a cell is the destination exactly when it sits at row rows - 2 and column columns - 1, whatever its type |
| Mazes.Maze.AroundMembers | js/maze.js:83-111 | at most four neighbours, each in bounds, adjacent and currently a passageway, and no in-bounds adjacent passageway is missing |
| Mazes.Maze.AroundOrder | js/maze.js:83-111 | the neighbours come in the order down, right, up, left, hence distinct |
| Mazes.Maze.GetNeighbors | js/maze.js:83-111 | the list built is exactly the in-bounds adjacent passageways in that order |
| Mazes.Maze.AroundIgnoresSelf | js/maze.js:147-156 | marking the current cell visited does not change its own neighbour list, so the neighbours looked up after the mark are those of the grid before it |
| Mazes.Maze.AroundIsFresh | js/maze.js:156-157 | when the passageways are the open cells not yet discovered, the neighbours are exactly the open undiscovered cells in that order |
| Mazes.Maze.MarkSolutionPath | js/maze.js:180-183 | following the parent links from the last cell retypes exactly the parent chain as solution and leaves every other cell as it was |
| Mazes.Maze.MarkChain | js/maze.js:178-184 | after a search, marking the chain back from where it stopped makes a cell a solution cell exactly when it is on the chain or was one before; every changed cell is open and now frontier, visited or solution; every cell marked visited is now visited or solution |
| Paths.ChainShape | js/maze.js:180-183 | the parent chain of a discovered cell runs from the start to it, is an open path of adjacent cells without repeats, and has one cell per level |
| Paths.ChainLinks | js/maze.js:180-183 | the chain is what the backtrack walk meets: each cell's solved key leads to the cell before it, and the start's to nothing |
| Paths.ChainStep | js/maze.js:180-183 | the parent of a cell other than the start is one level shallower, and its chain is one cell shorter |
| Paths.ChainExtends | js/maze.js:169 | recording a new cell's parent leaves every existing chain unchanged |
| Paths.ClosedSetContainsPaths | js/maze.js:142-176 | a set of cells that contains the start and all open neighbours of its members contains the end of every open path from the start |
| Paths.ShortPathsAreDiscovered | js/maze.js:142-176 | when all cells below some level are expanded and closed, every short open path ends at a discovered cell no deeper than its length |
| Paths.DepthIsShortest | js/maze.js:315-316 | the level of a cell is at most the length of any open path from the start to it |
| Searches.FreshKey | js/maze.js:162-165 | an undiscovered cell's key has no entry in the parents map |
| Searches.RecordAll | js/maze.js:160-175 | recording undiscovered neighbours with the current cell as parent, one level deeper, keeps every parent link adjacent and one level up |
| Searches.PaintVisited | js/maze.js:148 | marking a cell visited changes that cell only |
| Searches.PaintDiscovered | js/maze.js:173 | marking a newly discovered cell frontier changes that cell only |
| Searches.PaintPassageway | js/maze.js:156-157 | during a search, the passageways are exactly the open cells not yet discovered |
| Searches.SolutionPaint | js/maze.js:180-183 | after marking the chain, a cell is a solution exactly when it is on the chain or was one before, and every retyped cell is open and now frontier, visited or solution |
| Searches.FreshMembers | js/maze.js:83-111 | the open undiscovered neighbours listed down, right, up, left are exactly those cells, without repeats |
| BreadthFirst.LayeredStep | js/maze.js:142-176 | dequeuing the head and queuing its new neighbours one level deeper keeps the queue free of repeats and ordered by level, spanning at most two levels |
| BreadthFirst.BfsInit | js/maze.js:122-137 | the initial queue, visited set and parents map satisfy the loop invariant |
| BreadthFirst.BfsAdvance | js/maze.js:142-176 | an iteration that does not stop keeps the loop invariant, and discovers an open cell or shortens the queue |
| BreadthFirst.ExpandHeadClosed | js/maze.js:156-175 | after expanding the head, every expanded cell has all its open neighbours discovered at most one level deeper |
| BreadthFirst.BfsFoundShortest | js/maze.js:150-154 | dequeuing the destination ends the search with no open path to it shorter than its level |
| BreadthFirst.BfsExhausted | js/maze.js:142 | an empty queue means every discovered cell was expanded, none deeper than the last level expanded; every open path from the start ends at a discovered cell; the destination is unreachable; and no open path reaches the last expanded cell in fewer steps than its level |
| BreadthFirst.BfsSolved | js/maze.js:142-184 | the chain back from the cell the search stopped at is a shortest open path to that cell, ending at the destination exactly when found and found whenever the destination is reachable; when it is not, that cell is as far from the start as any reachable cell |
| Mazes.Maze.EnqueueNeighbors | js/maze.js:160-175 | every neighbour is taken: it is queued in order, recorded with the current cell as parent and marked frontier |
| Mazes.Maze.ExpandBFS | js/maze.js:156-175 | the passageway neighbours of the current cell, in the order down, right, up, left, are appended to the queue, recorded with the current cell as parent one level deeper and painted frontier; the loop invariant holds again, and a cell is discovered or the queue gets shorter |
| Mazes.Maze.StepBFS | js/maze.js:144-175 | one iteration dequeues the head and marks it visited; at the destination it stops with the shortest-path outcome; otherwise the head's passageway neighbours, down, right, up, left, join the back of the queue with the head as parent one level deeper, the invariant holds again and progress is made |
| Mazes.Maze.SearchBFS | js/maze.js:119-176 | the loop ends at the destination exactly when found; no open path reaches the destination unless found, nor the last dequeued cell in fewer steps than its level; when the queue runs dry, every reachable cell is discovered and marked visited, none deeper than the last dequeued cell |
| Mazes.Maze.SolveBFS | js/maze.js:119-184 | the marked cells are a shortest open path from the start to the last dequeued cell, without repeats, ending at the destination exactly when found; the destination is found whenever reachable; when it is not, the path ends at a cell as far from the start as any reachable cell, and every reachable cell is left visited or solution; no cell other than the start or a passageway changes type |
| DepthFirst.DfsInit | js/maze.js:195-214 | the initial stack, parents map and visited start satisfy the loop invariant |
| DepthFirst.PushChain | js/maze.js:239-248 | pushing the current cell and moving to its new child keeps the stack the start followed by the chain to the current cell |
| DepthFirst.PopChain | js/maze.js:250-253 | popping moves back to the current cell's parent, or empties the stack at the start |
| DepthFirst.RetreatClosed | js/maze.js:250-253 | leaving a dead end for good keeps every cell left for good closed under open neighbours |
| DepthFirst.AdvanceClosed | js/maze.js:239-248 | moving on leaves no new cell for good |
| DepthFirst.DfsAdvance | js/maze.js:232-249 | moving on to a new open neighbour keeps the loop invariant and discovers one more open cell |
| DepthFirst.DfsRetreat | js/maze.js:250-253 | backing up from a cell with no new open neighbour keeps the loop invariant |
| DepthFirst.DfsMove | js/maze.js:229-253 | a step that takes the first new neighbour, or pops when there is none, keeps the loop invariant and discovers a cell or shortens the stack |
| DepthFirst.DfsFound | js/maze.js:223-226 | stopping at the destination gives the found outcome |
| DepthFirst.DfsExhausted | js/maze.js:217 | an empty stack means the search is back at the start, every discovered cell is visited, every open path from the start ends at a discovered cell, the destination was never discovered, and no open path from the start reaches it |
| Mazes.Maze.AdvanceDFS | js/maze.js:234-248 | the move always happens: the neighbour is marked frontier, the current cell pushed and recorded as its parent, and the neighbour becomes current |
| Mazes.Maze.ExpandDFS | js/maze.js:229-253 | with a passageway neighbour, the current cell is pushed, recorded as the parent of its first neighbour one level deeper, and that neighbour is painted frontier and becomes current; with none, the top of the stack is popped and becomes current, nothing else changing; the loop invariant holds again, and a cell is discovered or the stack gets shorter |
| Mazes.Maze.StepDFS | js/maze.js:219-253 | one iteration marks the current cell visited; at the destination it stops with the found outcome; otherwise it either pushes the current cell and moves on to its first passageway neighbour, recorded one level deeper, or pops the stack when there is none, and the invariant holds again with progress |
| Mazes.Maze.SearchDFS | js/maze.js:195-255 | the loop ends at the destination exactly when found, otherwise back at the start; no open path reaches the destination unless found; when the stack runs dry, every reachable cell is discovered and marked visited |
| Mazes.Maze.SolveDFS | js/maze.js:191-263 | the marked cells are an open path of adjacent cells from the start without repeats, ending at the destination exactly when found and the start alone otherwise; no cell other than the start or a passageway changes type; the destination is found whenever reachable; when it is not, every reachable cell is left visited or solution |
| Tallies.RowTallyBounds | js/maze.js:294-305 | within a row prefix, the solution count is at most the visited count, and visited plus frontier is at most the cells looked at |
| Tallies.GridTallyBounds | js/maze.js:293-306 | the same bounds over whole rows |
| Mazes.Maze.CellCounts | js/maze.js:288-308 | the counters are the tally of the whole grid, read without changing it, with solution at most visited and visited plus frontier at most rows times columns |

## Left out

- The `priority` field of a cell (js/maze.js:18) is a floating-point value that only the unimplemented solvers would use.
- `solveMazeDijkstra` and `solveMazeAStar` (js/maze.js:271-282) are empty stubs with no behaviour.
- The trailing commentary and sample maze (js/maze.js:313-331) are not code. Only the shortest-path claim at lines 315-316 is stated, by `SolveBFS` and `Paths.DepthIsShortest`.
- The text form of a key (`"PASSAGEWAY cell at [r,c]"`) is modelled as the datatype `Key(class, row, col)`. Two keys are equal exactly when the strings would be, since the row and column are integers.
- Using a JS `Array` as a dictionary becomes a Dafny `map`. The loose `==` at js/maze.js:299 compares two one-character strings, so it means the same as `===` there.
- Mazes.Maze.SolveBFS: which of several candidate chains is marked is left open, in two cases:
  - When the exit is unreachable, the source marks the chain of the last cell it dequeued, which is the last cell it queued. The contract places that cell among the cells farthest from the start, but when several are equally far it does not say which one.
  - When the exit is found and several shortest paths reach it, the contract does not say which one is marked.

  In the source, the down, right, up, left neighbour order decides both. Only `StepBFS` and `ExpandBFS` state that order, one step at a time; the model does not carry it to the whole search.
- Mazes.Maze.SolveDFS: when the exit is found, the contract says the marked cells are a repeat-free open path from the start to the exit, but not which one. In the source, the down, right, up, left order of the neighbours decides it. Only `StepDFS` and `ExpandDFS` state that order, one step at a time.
- Mazes.Maze.constructor: the source splits each row into UTF-16 code units, while a Dafny string holds Unicode scalar values. The precondition therefore admits only characters of one code unit; a character outside the Basic Multilingual Plane is two cells in the source and has no counterpart here.
- Mazes.Maze.constructor: the source does not validate the text. Rectangularity, the minimum size and passageways at the entry and exit are its precondition `WellFormedText`; the source raises no error for malformed text.
- Reading the maze text from a file or the command line, and drawing the grid, are outside `js/maze.js` and not part of this model.
