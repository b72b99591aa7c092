# Mazes: walled-cell grid, randomized DFS generator, carving step and DFS solver

This project models the algorithmic core of a small Python maze program and
proves properties of it in Dafny.

- **Grid** (`grid.dfy`, tools.py). A `Cell` is a class with four wall flags
  (top, bottom, left, right) that the border helpers update in place. A maze
  is a list of rows of cells, indexed `maze[y][x]`. `CreateEmptyMaze` and
  `DeepCopy` build mazes with nested loops. `Walls` is the value of a cell's
  four flags. `Removed` and `Added` are the value-level specifications the
  border helpers are proved against.
- **Directions** (`directions.dfy`, main.py:30-33). This is the table that
  names unit vectors after walls, plus `get_direction`, `reverse_direction`
  and the component-wise `add_tuple`. `Enclosed` says every wall on the
  border of a maze is present; the solver relies on it.
- **Generator** (`generator.dfy`, maze_generators.py). `Step` is the
  randomized depth-first backtracker as a function on states, and
  `RandomizedDFS` is the object whose `Move` is proved against it.
  `random.choice` becomes a caller-supplied index `pick`, taken modulo the
  number of candidates. The IndexError of a backtrack with fewer than two
  stack entries is modelled as an outcome.
- **Carving** (`carving.dfy`, main.py:50-64). After each generator move, the
  wall of the new cell facing the previous one and the wall of the previous
  cell facing the new one are removed. `CarveGrid` does this on the maze's
  flags, and the methods `Carve`, `MoveAndCarve` and `CarveStep` do it on
  the cells. Carving keeps the maze `Symmetric`: the wall between two
  neighbours is present on both sides or on neither.
- **Solver** (`solver.dfy`, maze_solvers.py). This is the depth-first
  solver with a LIFO queue:
  - `Passages` is `find_passages`, including its stable sort by
    non-increasing Manhattan distance;
  - `SearchStep` is `move`;
  - the class `DFS` holds the same fields and is proved against both.

`tools.py` as given does not define `directions` or `add_tuple`, although
maze_solvers.py:1 imports them from there. The model uses the table of
main.py:30 and the `add_tuple` of maze_generators.py:14 in their place.

## Model

| member | source | states |
|---|---|---|
| Grid.Cell.constructor | tools.py:1-6 | the new cell has exactly the four flags passed, and each defaults to a present wall |
| Grid.RemoveAllBorders | tools.py:9-13 | afterwards all four walls of the cell are absent |
| Grid.AddAllBorders | tools.py:16-20 | afterwards all four walls of the cell are present |
| Grid.AddBorder | tools.py:23-31 | the cell's flags become `Added` of its old flags and the name |
| Grid.RemoveBorder | tools.py:34-42 | the cell's flags become `Removed` of its old flags and the name |
| Grid.Added | tools.py:23-31 | the named wall becomes present, and every other wall keeps its flag; a name that is not one of the four walls changes nothing |
| Grid.Removed | tools.py:34-42 | the named wall becomes absent, and every other wall keeps its flag; a name that is not one of the four walls changes nothing |
| Grid.AddedIdempotent | tools.py:23-31 | adding the same wall twice gives the same flags as adding it once |
| Grid.RemovedIdempotent | tools.py:34-42 | removing the same wall twice gives the same flags as removing it once |
| Grid.AddedAfterRemoved | tools.py:23-42 | adding back a present wall that was removed restores the cell's flags |
| Grid.CreateEmptyMaze | tools.py:45-53 | the result has `cols` rows of `rows` cells, where a negative count gives an empty range as Python's `range` does; every cell is fresh and fully walled; no cell object sits at two positions |
| Grid.DeepCopy | tools.py:56-67 | the copy has the original's dimensions and equal flags at every position; its cells are fresh, so they share no object with the original or with each other |
| Directions.Add | maze_generators.py:14 | component-wise addition (no contract of its own); `Toward` and `GetDirection` state how it relates neighbours |
| Directions.DirectionName | main.py:30 | a key is found exactly for the zero vector and the four unit vectors; the zero vector maps to no wall; a unit vector maps to the wall `d` exactly when it is the offset across `d` |
| Directions.GetDirection | main.py:32 | the vector leads from `coord` back to `prev`; it is zero exactly when the two are equal and a unit vector exactly when they are neighbours |
| Directions.ReverseDirection | main.py:33 | the vector and its reverse add up to zero |
| Directions.ReverseInvolution | main.py:33 | reversing twice gives back the vector |
| Directions.ReverseOfGetDirection | main.py:32-33 | the reverse of the vector from `coord` to `prev` is the vector from `prev` to `coord` |
| Directions.ReverseNamesOpposite | main.py:30-33 | reversal maps the zero vector's name to no wall and every named wall to its opposite (right and left, bottom and top); it keeps a key found or missing |
| Directions.UnitsNamed | main.py:30 | the moves right, down, left and up are named right, bottom, left and top |
| Directions.DirectionNameOfNeighbour | main.py:30-32 | between neighbours, the vector back to `prev` names the wall of `coord` that faces `prev` |
| Generator.Init | maze_generators.py:5-12 | the state `__init__` builds (no contract of its own); `InitInv` and `RandomizedDFS.constructor` state its properties |
| Generator.Free | maze_generators.py:33-43 | the filter loop of `possible_moves` over any list of moves (no contract of its own); `FreeMembers` states its members |
| Generator.Candidates | maze_generators.py:33-43 | `possible_moves` on a state (no contract of its own); `CandidatesInOrder` and `CandidatesMembers` state its order and members |
| Generator.Step | maze_generators.py:16-31 | `move` on values (no contract of its own): finish, forward or backtrack, or raise. `StepPreservesInv`, `ForwardStep`, `BacktrackStep`, `RaisesExactly`, `FinishedStep`, `StepDecreases` and `StepAdjacent` state its properties |
| Generator.FreeMembers | maze_generators.py:33-43 | the loop keeps a move exactly when it is listed and leads to an unvisited cell inside the grid |
| Generator.CandidatesInOrder | maze_generators.py:33-43 | the candidates are those of right, down, left and up, in this order |
| Generator.CandidatesMembers | maze_generators.py:33-43 | a move is a candidate exactly when it is a unit move to an unvisited, in-bounds cell |
| Generator.RandomizedDFS.constructor | maze_generators.py:5-14 | `max_size` is the product of the dimensions; only the start is visited; the stack is empty and the generator is not finished |
| Generator.RandomizedDFS.PossibleMoves | maze_generators.py:33-43 | the result is the in-order candidate list, and a move is in it exactly when its target is unvisited and inside the grid |
| Generator.RandomizedDFS.Move | maze_generators.py:16-31 | the new state is `Step` of the old one; the method returns the new position, or None exactly when the source raises IndexError |
| Generator.InitInv | maze_generators.py:5-12 | an in-bounds start satisfies the invariants |
| Generator.StepPreservesInv | maze_generators.py:16-31 | every step, including one that raises, keeps the invariants: `curr` is visited, in bounds and the stack top; stack entries are visited, distinct and pairwise adjacent; visited cells are in bounds. The visited set never shrinks |
| Generator.ForwardPreservesInv | maze_generators.py:21-26 | a forward step keeps the invariants |
| Generator.VisitedBound | maze_generators.py:7-12 | under the invariants, `len(visited) <= max_size` |
| Generator.ForwardStep | maze_generators.py:21-26 | a forward step goes by one listed unit move to an unvisited in-bounds cell, visits it and pushes it; `len(visited)` grows by exactly one |
| Generator.BacktrackStep | maze_generators.py:27-29 | a backtrack step with at least two stack entries drops exactly the stack top, keeps `visited`, and moves to the new top, a neighbour of the old position |
| Generator.RaisesExactly | maze_generators.py:27-29 | a step raises IndexError exactly when it must backtrack with fewer than two stack entries |
| Generator.FinishedStep | maze_generators.py:17-19 | once every cell is visited, a step clears `not_finished` and returns `curr` with no other change, and a later step changes nothing |
| Generator.StepDecreases | maze_generators.py:16-29 | a step that neither finishes nor raises decreases the pair (cells left to visit, stack height) lexicographically |
| Generator.StepAdjacent | maze_generators.py:16-31 | the returned position is the new `curr`, and it is either the old position or a neighbour of it |
| Generator.OneByOne | maze_generators.py:17-19 | a 1 x 1 grid finishes on its first call, in place |
| Generator.TwoByTwo0 | maze_generators.py:17-26 | taking the first candidate from (0, 0) on a 2 x 2 grid, the first call moves to (0, 1) |
| Generator.TwoByTwo1 | maze_generators.py:17-26 | the second call then moves to (1, 1) |
| Generator.TwoByTwo2 | maze_generators.py:17-26 | the third call then moves to (1, 0) |
| Generator.TwoByTwo3 | maze_generators.py:17-19 | the fourth call reports finished at (1, 0) |
| Generator.MiddleStartRaises | maze_generators.py:10-29 | started in the middle of a 1 x 3 grid, the generator moves to (0, 2) and the next call raises IndexError, because the start is never pushed |
| Generator.OneRowStart | maze_generators.py:87-88 | the 1 x n run from (0, 0) starts in the row state with only (0, 0) visited |
| Generator.OneRowForward | maze_generators.py:87-91 | whatever is picked, each call before the last cell moves one cell right, visits it and pushes it |
| Generator.OneRowLast | maze_generators.py:87-91 | at the last cell of the row the next call finishes in place, so the demo loop over 1 x n grids completes |
| Generator.Drive | maze_generators.py:89-90 | the run of successive `move` calls, the k-th picking `chooser(k)`, ending at the first raise (no contract of its own); `DriveNext` and `RunToCompletion` state its properties |
| Generator.DriveNext | maze_generators.py:16-31 | one more call of a run that has not raised, with the flag set, is one `move`: it keeps the invariant, clears the flag only with every cell visited, raises only in a state where every later `move` raises too, and otherwise decreases the loop's measure (cells left to visit, then stack height) |
| Generator.RunToCompletion | maze_generators.py:89-90 | the loop `while not_finished: move()` stops for every chooser, after `calls` calls, in exactly the state `Drive` gives for those calls, and reports success exactly when none of them raised. It keeps the invariants. Either every cell is visited and the flag is clear, or the last move raised: the flag is still set and the next move would raise whatever it picks |
| Carving.CarveGrid | main.py:55-61 | lines 55-61 on the maze's flags (no contract of its own); the `Carve…` lemmas below state its properties |
| Carving.CarveDefined | main.py:55-58 | the two name lookups succeed exactly when the positions are equal or neighbours |
| Carving.CarveSamePosition | main.py:51-61 | when `move` returns the same position, the direction is (0, 0), its name is None and no wall changes |
| Carving.CarveNeighbours | main.py:51-61 | between neighbours, the new cell's wall facing the previous cell and the previous cell's wall facing the new cell are both cleared; no other cell and no other flag of the two cells changes |
| Carving.CarveOnlyClears | main.py:60-61 | carving keeps the maze's shape and never sets a wall |
| Carving.CarveOpenIsNoop | main.py:55-61 | re-carving a passage that is open from both sides changes nothing |
| Carving.CarvePreservesEnclosed | main.py:55-61 | carving keeps every border wall of the grid present |
| Carving.ClosedSymmetric | tools.py:45-53 | a maze of fully walled cells has every wall present on both sides |
| Carving.CarveKeepsSymmetric | main.py:55-61 | carving keeps the whole maze symmetric: for every two neighbours, one's wall facing the other is cleared exactly when the other's facing wall is |
| Carving.ForwardThenCarve | main.py:51-61 | after a forward step the carve is defined, opens the passage to the new cell, and keeps every pair of consecutive stack entries joined by an open passage |
| Carving.BacktrackThenCarve | main.py:51-61 | a backtrack step re-clears a passage that is already open, so the maze does not change |
| Carving.StepThenCarve | main.py:51-64 | after every generator step that does not raise, the carve is defined (no KeyError) and keeps consecutive stack entries joined; a step that visits no new cell changes no wall |
| Carving.Carve | main.py:52-61 | `curr_cell` is the cell at `coord`; when both lookups succeed, the maze's flags become `CarveGrid` of the old flags; otherwise no wall changes |
| Carving.MoveAndCarve | main.py:51-64 | the generator takes one `Step`; `raised` is set exactly when that step raises IndexError, and then no wall changes; otherwise the returned coordinate and cell become the previous ones, and the maze is carved between the old and new positions |
| Carving.CarveStep | main.py:50-64 | a finished generator leaves everything as it was; otherwise as `MoveAndCarve`. `raised` is set exactly when the generator was running and its step raises |
| Solver.ManhattanDistance | maze_solvers.py:47-51 | the distance is non-negative, and zero exactly when the position is the target |
| Solver.NeighbourDistance | maze_solvers.py:47-51 | the distances of two neighbours to the target differ by exactly one |
| Solver.Unsorted | maze_solvers.py:35-42 | the list the loop of `find_passages` has built after its first n moves (no contract of its own); `UnsortedInOrder`, `ReachMember` and `UnsortedMembers` state its properties |
| Solver.UnsortedInOrder | maze_solvers.py:35-42 | before sorting, the passages are those of right, down, left and up, in this order |
| Solver.ReachMember | maze_solvers.py:37-42 | one iteration appends the neighbour across wall `d` exactly when that wall's flag is clear and the neighbour is unvisited |
| Solver.UnsortedMembers | maze_solvers.py:30-42 | before sorting, a position is a passage exactly when it is a neighbour, the current cell's wall facing it is clear, and it is unvisited; there are at most four |
| Solver.Insert | maze_solvers.py:44 | one insertion step of the stable sort by non-increasing distance (no contract of its own); `InsertMembers`, `InsertSorted` and `InsertStable` state its properties |
| Solver.SortByDistance | maze_solvers.py:44 | `passages.sort(key=manhattan_distance, reverse=True)` (no contract of its own); `SortByDistanceCorrect` states that it is sorted, a permutation and stable |
| Solver.InsertMembers | maze_solvers.py:44 | insertion adds exactly the inserted position: the length grows by one, and the multiset and the members gain it |
| Solver.InsertSorted | maze_solvers.py:44 | inserting into a list sorted by non-increasing distance keeps it sorted |
| Solver.InsertStable | maze_solvers.py:44 | insertion keeps each distance class in order, with the inserted position first in its class |
| Solver.SortByDistanceCorrect | maze_solvers.py:43-45 | the sort orders by non-increasing distance, is a permutation, and keeps passages at equal distance in their original order |
| Solver.Passages | maze_solvers.py:30-45 | `find_passages` on the current cell's flags (no contract of its own); `PassagesMembers` states its members, size and order |
| Solver.PassagesMembers | maze_solvers.py:30-45 | under either ordering, the passages are the open, unvisited neighbours, at most four; with the Manhattan ordering the last one, popped first, is nearest to the target |
| Solver.SearchInit | maze_solvers.py:10-19 | the state `__init__` builds (no contract of its own); `InitFacts` states its properties |
| Solver.SearchStep | maze_solvers.py:21-28 | `move` on values (no contract of its own); `SearchStepFacts` and `FinishedStaysFinished` state its properties |
| Solver.InitFacts | maze_solvers.py:10-19 | `curr` is the start and only the start is visited; the target defaults to the bottom-right cell; the queue holds exactly the start's open neighbours, all inside the maze |
| Solver.SearchStepFacts | maze_solvers.py:21-28 | a move fails exactly on an empty queue; otherwise: it pops the last entry; the rest of the queue stays below the new entries; the new entries are exactly the popped cell's open, unvisited neighbours; exactly the popped cell is added to `visited`; `not_finished` clears exactly when the popped cell is the target (or was already clear); every queued position stays inside a maze with a closed border |
| Solver.FinishedStaysFinished | maze_solvers.py:27-28 | no move sets `not_finished` back to true |
| Directions.ClosedMazeEnclosed | tools.py:45-53 | a maze of fully walled cells has a closed border |
| Solver.DFS.constructor | maze_solvers.py:5-19 | the solver's state is `SearchInit` of the maze's flags; the solver keeps the maze and the start |
| Solver.DFS.FindPassages | maze_solvers.py:30-45 | the result is `Passages` of the current cell's flags, the current position, `visited` and the target |
| Solver.DFS.Move | maze_solvers.py:21-28 | the move succeeds exactly when the queue is non-empty; the new state is `SearchStep` of the old one; on an empty queue nothing changes; the maze's cells are untouched |

## Left out

- The GUI and drawing code (layout.py, canvas.py, pygame_cell.py, drawing_tools.py) and the rest of main.py (pygame setup, event polling, the `paused` flag, rendering and frame pacing) are not part of this model.
- `random.choice` is not modelled as a random draw. A caller-supplied index `pick`, taken modulo the number of candidates, can select any candidate.
- The `__main__` demos print and sleep, and are not modelled as code. The 1 x n loop of maze_generators.py:87-91 is covered for every n by `OneRowStart`, `OneRowForward`, `OneRowLast` and `RunToCompletion`. The solver's demo (maze_solvers.py:54-66) needs `maze_filler`, which is not part of this model.
- `create_matrix` (main.py:22), `maze_filler`, and the `directions` and `add_tuple` of tools.py are not part of this model. The last two are replaced as described above.
- Wall flags are the ints 0 and 1 in the source and booleans here. Wall names are strings in the source and `Option<Direction>` here, where None stands for Python's None or any other string. Reading a cell through `__dict__` becomes reading its four fields.
- Python's sort is not modelled as such. It is modelled as a stable insertion sort by non-increasing distance, and any stable sort gives this same order.
- There is no proof that a finished generator leaves a perfect maze (a spanning tree). The solver has no termination proof, and no proof that it reaches the target.
- Generator.RandomizedDFS.constructor: grid sizes are natural numbers; negative sizes are not modelled.
- Grid.DeepCopy: requires a non-empty maze with no row shorter than the first. The source raises IndexError in those cases instead.
- Carving.Carve: requires a maze in which no cell object sits at two positions, as `CreateEmptyMaze` guarantees. A maze that aliases cells is not modelled.
- Solver.DFS.constructor: requires a non-empty maze, a start inside it and a closed border. Outside these, the source reads cells through Python's negative indices or raises IndexError; neither is modelled. An explicit `end` that Python treats as false (the empty tuple) is not modelled.
- Solver.DFS.Move: requires `curr` and every queued position to lie inside the maze. Its own ensures does not restate that this carries over to the next move; `SearchStepFacts` proves that it does in a maze with a closed border. The solver reads the cells' flags as they were at construction: `Valid` requires that nothing has changed them since.
