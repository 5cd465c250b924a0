# Maze: a verified model of DFS maze generation and solving

`maze.py` builds a rectangular maze by randomised depth-first carving
(`DFS_create`) and then searches it from ENTER to EXIT by a greedy
depth-first walk (`DFS_solve`). The grid is a list of lists of small
integers standing for five entry states: CELL, WALL, VISITED, PASSED and
WRONG. Real cells sit on odd rows and odd columns inside a WALL border. The
entries between two neighbouring real cells are wall slots, and carving
opens them.

This project models that core in Dafny:

- `grid.dfy` (module `Grid`) holds the states and positions, and the grid
  dimensions with ENTER and EXIT derived from them. It also holds
  `get_frame`, the four moves, `get_neighbours`, `get_unvisited`,
  `unvisited_exist` and `remove_wall`. The grid is an `array2<State>`,
  changed in place as the source changes its list of lists. Specifications
  compare value copies (`Snap`), and every single-entry assignment goes
  through `Put`.
- `heuristic.dfy` (module `Heuristic`) holds `manhattan_distance` and
  `best_turn`.
- `generator.dfy` (module `Generator`) holds `DFS_create`: the carving loop,
  its invariant (`Carving`, `Walk`), and one method and lemma per branch.
- `search_state.dfy` (module `SearchState`) holds the invariant of
  `DFS_solve` (`Search`). It has one lemma per loop step and the proof that
  a failed search means no walk leads from ENTER to EXIT.
- `solver.dfy` (module `Solver`) holds `DFS_solve` itself, with its step
  forward and its step back.

HEIGHT and WIDTH are parameters here (`Dims`), required to be odd and at
least 3. `Configured` is the source's 121 × 251. `random.choice` is an
injected stream `rng: nat -> nat`: the k-th call picks element
`rng(k) % |s|` of its list `s`. Each loop is proved to terminate:

- in `Create`, by the number of CELL real cells and then the stack length;
- in `Solve`, by the number of CELL entries and then the stack length.

`best_turn` sorts by distance with `reverse=True` and pops the last element.
Python's sort is stable, also reversed, so the result is fixed: the element
of least distance that comes last in the list. Ties are broken by list
order: the last of the nearest neighbours is taken.

## Model

| member | source | states |
|---|---|---|
| Grid.ConfiguredIsValid | maze.py:18-23 | The configured 121 × 251 grid meets the odd, at-least-3 requirement, and its EXIT is (119, 249). |
| Grid.EnterExitReal | maze.py:22-23 | ENTER (1, 1) and EXIT (HEIGHT - 2, WIDTH - 2) are real cells of every valid grid. They coincide exactly on the 3 × 3 grid. |
| Grid.Put | maze.py:97 | A single assignment `maze[x][y] = v`: the copy after it is the copy before with exactly that entry replaced. |
| Grid.GetFrame | maze.py:26-27 | A fresh grid in which an entry is CELL exactly when it is a real cell. Every entry is CELL or WALL, and the border is WALL. |
| Grid.Step | maze.py:12-16 | Each move lands on the same row or column, exactly `dist` steps away. |
| Grid.Candidates | maze.py:36-37 | The four move results are in the order left, up, right, down. For a non-zero distance they are four different positions. |
| Grid.DirectionOf | maze.py:12-16 | Every candidate position is the result of one of the four moves. |
| Grid.OpenAmong | maze.py:35-40 | The kept positions are exactly the candidates that pass the guard at maze.py:39 (`Open`: inside the border and CELL). They keep the candidates' order and are no more than the candidates. |
| Grid.Neighbours | maze.py:34-41 | At most four results, in move order. For each move, its result is included exactly when it lies inside the border and is CELL. |
| Grid.RowScan | maze.py:45 | The positions of one row visited by `range(j0, w, 2)`. |
| Grid.Scan | maze.py:45 | The positions visited by the nested odd-step ranges. |
| Grid.RealCells | maze.py:31 | The scan of both comprehensions visits exactly the real cells. |
| Grid.CellsAmong | maze.py:45 | A position is kept exactly when it is scanned and holds CELL. |
| Grid.Unvisited | maze.py:44-45 | `get_unvisited` returns exactly the real cells holding CELL. |
| Grid.AnyNotVisited | maze.py:31 | True exactly when some scanned position does not hold VISITED. |
| Grid.UnvisitedExist | maze.py:30-31 | True exactly when some real cell does not hold VISITED. |
| Grid.Offset | maze.py:52-53 | `diff // max(1, abs(diff))` is the sign of `diff`: 1, -1 or 0. |
| Grid.WallSlot | maze.py:52-55 | The entry `remove_wall` writes is at most one step from (x1, y1) on each axis. It lies on a shortest axis path to (x2, y2), and it is (x1, y1) itself only when the two points coincide. |
| Grid.SlotIsMidpoint | maze.py:48-55 | For two positions two apart on one axis, the entry `remove_wall` writes is their midpoint. |
| Grid.RemoveWall | maze.py:48-55 | `filler` is written at one step from (x1, y1) toward (x2, y2), and no other entry changes. |
| Heuristic.Manhattan | maze.py:58-59 | The distance is a natural number, and zero exactly at EXIT. |
| Heuristic.LastBest | maze.py:62-63 | The index of a least-distance element, every later element being strictly farther. |
| Heuristic.BestTurn | maze.py:62-63 | None exactly for the empty list, where `pop` fails. Otherwise an element of the list of least distance, every element after it in the list being strictly farther. |
| Generator.UnvisitedAgree | maze.py:72 | Under the carving invariant, `unvisited_exist` holds exactly when `get_unvisited` is non-empty, so the reseed `choice` never sees an empty list. |
| Generator.CarveStep | maze.py:73-78 | A CELL neighbour two steps from a visited real cell is a real cell. The entry `remove_wall` opens is the WALL slot between them. |
| Generator.CarveKeeps | maze.py:75-80 | A carving step keeps the carving invariant. |
| Generator.OpenSlotCounts | maze.py:78 | Opening a WALL slot adds one VISITED slot and leaves the real cells alone. |
| Generator.VisitCellCounts | maze.py:80 | Visiting a CELL real cell moves it from the CELL real cells to the VISITED ones and leaves the slots alone. |
| Generator.CarveCounts | maze.py:78-80 | A carving step adds one VISITED slot and one VISITED real cell, and uses up one CELL real cell. |
| Generator.ReseedEffect | maze.py:84-85 | A reseed keeps the invariant and visits one real cell without opening a slot. |
| Generator.StartEffect | maze.py:67-69 | The frame with ENTER visited meets the invariant, and ENTER is its only VISITED entry. |
| Generator.Carve | maze.py:75-80 | Exactly the slot and the neighbour change, from WALL and CELL to VISITED. The invariant is kept, and the counts move by one. |
| Generator.Reseed | maze.py:84-85 | The drawn element of `get_unvisited`, a CELL real cell, becomes VISITED, and nothing else changes. The invariant is kept. |
| Generator.Begin | maze.py:67-69 | The fresh frame with ENTER visited. It meets the invariant, and ENTER is its only VISITED entry. |
| Generator.FinishEffect | maze.py:87 | Once all real cells are visited, the rendered grid holds only CELL and WALL. Real cells are CELL, the border is WALL, other CELL entries are carved slots, and they are exactly the carving's VISITED slots. |
| Generator.Render | maze.py:87 | The returned grid is CELL where the carving is VISITED and WALL elsewhere, with the properties above. |
| Generator.WalkStart | maze.py:67-70 | The loop invariant holds at the start: position ENTER, empty stack, no reseeds. |
| Generator.WalkCarve | maze.py:75-80 | A carving step keeps the loop invariant with the old position pushed, and it decreases the count of CELL real cells. |
| Generator.WalkPop | maze.py:81-82 | Popping the stack keeps the loop invariant. |
| Generator.WalkReseed | maze.py:83-85 | A reseed keeps the loop invariant with one more reseed, and it decreases the count of CELL real cells. |
| Generator.WalkDone | maze.py:72 | When `unvisited_exist` is false, every real cell is VISITED. |
| Generator.Create | maze.py:66-87 | The loop terminates. The result is a fresh grid of CELL and WALL only: every real cell CELL, the border WALL, any other CELL a slot between real cells. The opened slots number one less than the real cells, less the ghost count `reseeds`. The body ties `reseeds` to the reseed branches taken. To a caller it shows that the opened slots are at most one less than the real cells. |
| SearchState.SearchStart | maze.py:96-98 | With ENTER marked PASSED, the search invariant holds for the route [ENTER]. |
| SearchState.AdvanceEvolved | maze.py:106 | Marking a CELL neighbour PASSED is an allowed change, and that neighbour was a CELL of the input other than ENTER. |
| SearchState.AdvanceRoute | maze.py:104-106 | A move to a CELL neighbour extends the route: still a walk over distinct PASSED positions. |
| SearchState.AdvanceMarks | maze.py:104-106 | After the move, every PASSED position stepped on lies on the route and every WRONG one is still stuck. |
| SearchState.CellsAdvance | maze.py:106 | The move uses up exactly one CELL. |
| SearchState.SearchAdvance | maze.py:103-106 | The step forward keeps the search invariant with the current position pushed and one CELL fewer. |
| SearchState.RetreatEvolved | maze.py:108 | Re-marking the PASSED current position WRONG is an allowed change. |
| SearchState.RetreatRoute | maze.py:108-109 | Dropping the last position gives a route once that position is WRONG. |
| SearchState.RetreatMarks | maze.py:108-109 | After the step back, the PASSED positions lie on the shortened route, and the new WRONG one is stuck. |
| SearchState.CellsRetreat | maze.py:108 | The step back leaves the CELL entries as they are. |
| SearchState.SearchRetreat | maze.py:107-109 | The step back from a stuck position keeps the invariant, with the stack popped into the current position. |
| SearchState.SearchFails | maze.py:110-111 | An empty stack plus a stuck current position means the position is ENTER, every stepped-on position is stuck, and EXIT was never stepped on. |
| SearchState.WalkPrefix | maze.py:110-111 | A walk without its last position is a walk. |
| SearchState.SettledMove | maze.py:110-111 | Once every stepped-on position is stuck, a move from one leads to another. |
| SearchState.WalkStaysSettled | maze.py:110-111 | Then every walk through the input from ENTER ends on a stepped-on position. |
| SearchState.NoWayOut | maze.py:110-111 | Then no walk through the input from ENTER reaches EXIT. |
| SearchState.StuckOf | maze.py:101-103 | An empty `get_neighbours` with distance 1 means no move from the position reaches a CELL inside the border. |
| Solver.Forward | maze.py:103-106 | The step forward goes to `best_turn` of the neighbours, which becomes PASSED. Nothing else changes, and the invariant holds for the extended route. |
| Solver.Back | maze.py:107-109 | The step back marks the dead end WRONG. Nothing else changes, and the invariant holds for the popped route. |
| Solver.Solve | maze.py:90-113 | The loop terminates. Only ENTER and CELL entries of the input change, and they end PASSED or WRONG. When the maze is returned: it is the same array, EXIT is PASSED, and the path is a walk from ENTER to EXIT over distinct PASSED positions. Every PASSED entry the search stepped on lies on that path, and every WRONG one has no CELL neighbour. When None is returned: the search is back at ENTER with an empty stack and no CELL neighbour, and no walk through the input leads from ENTER to EXIT. |

## Left out

- `draw` (maze.py:116-138) renders and saves an image through PIL. Drawing and file output are not modelled.
- The top-level script (maze.py:141-145) only calls the two algorithms and `draw`.
- `random.choice` is replaced by the injected draw stream `rng`; no distribution of mazes is modelled.
- Generator.Create: the spanning-tree and connectivity claims are not proved, that every real cell is reachable from every other through opened slots. What is proved is the count of opened slots against real cells and reseeds.
- Solver.Solve: a found route is proved to be a walk from ENTER to EXIT, not a shortest one. The source makes no such promise either.
- Solver.Solve: ENTER is marked PASSED whatever it held, as in the source. So Evolved exempts ENTER, and a WALL on ENTER would change.
- Python's negative-index wrap-around is not modelled. Every index the source uses is proved in bounds, and the guard of `get_neighbours` keeps the solver and the generator inside the border.
- The values are compared with `is`. On these small integers that is value equality, modelled as equality of `State` constructors.
- HEIGHT and WIDTH being odd and at least 3 is a precondition (`Dims.Valid`), not a run-time check. The source has none and relies on its constants.
- The unused imports (`getcwd`, `sep`, `math`) and `cell_width` belong to `draw` or to nothing.
