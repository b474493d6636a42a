# Pathfinder grid core: cost table, map editor and hill-climbing search

This project models the algorithmic core of the "Hercules finds his path
underworld" pathfinding game in Dafny. All three parts share one grid of
integer cell ids, stored row-major so that column x, row y is `grid[y][x]`.

- `constants.dfy` (module `Constants`): the cell ids 0..8 and the pass-cost
  table. A cost is `Finite(n)` or `Infinite`, and `Infinite` replaces the
  floating-point infinity. The table is keyed by integer ids and by the one
  name `"dead_hidra"`. Its lookup falls back to cost 1, as the search's
  `CELL_COSTS.get(id, 1)` does.
- `grid_editor.dfy` (module `GridEditor`): the `Grid` class. It holds an
  N×N `array2<int>` and the two presence flags `playerInTheGame` and
  `goalInTheGame`. `UpdateCell` paints one cell with a tool ("wall",
  "eraser", "player", "wifey" or anything else).
  - It is proved against the pure function `Paint`.
  - It changes no other cell.
  - It keeps the object invariant `Valid()`: a raised flag always has its
    piece somewhere on the grid.
- `local_search.dfy` (module `Search`): the `LocalSearch` class over a
  `Grid`. It has the Manhattan heuristic, the passable 4-neighbour
  expansion, greedy hill climbing with an iteration cap, and the restart
  wrapper.
  - The methods are proved equal to the recursive specification functions
    `Neighbors`, `Scan`, `Climb` and `HillClimb`.
  - Lemmas about those functions prove what a returned path looks like. It
    starts at `start`, ends at `goal` and moves between adjacent cells, and
    every cell after `start` is passable. `start` itself is never checked,
    so it may be a wall or lie off the grid. The heuristic drops by exactly one at each step, so no cell
    repeats. The path has exactly `Heuristic(start, goal) + 1` cells, so it
    is a shortest 4-connected walk.
  - Further lemmas prove that once the iteration cap exceeds the distance,
    raising it changes nothing, and that the search always succeeds when
    the rectangle spanned by start and goal is entirely passable and the
    iteration cap exceeds `Heuristic(start, goal)`. A cap at most that
    distance always gives `None`.

Several behaviours of the code differ from what a reader of the game would
expect; the model follows the code in each:

- One might expect the editor to keep at most one player on the grid; it
  does not. Painting "wifey" onto the
  player's cell while a goal exists is refused, but it still drops the
  player flag. A second player can then be placed
  (`WifeyOnPlayerKeepsPlayerCell`, `DuplicatePlayerScenario`).
- Neighbours are not tried up, down, left, right: the order is
  (x−1, y), (x+1, y), (x, y−1), (x, y+1), which decides ties between
  equally close neighbours.
- A returned path is not free of impassable cells: hill climbing never
  checks the start cell (local_search.py:48-55). On a 2×2 grid with a wall
  at (0, 0), the search from (0, 0) to (1, 0) returns [(0, 0), (1, 0)]
  (`WallStartScenario`). Only the cells after the start are passable
  (`HillClimbSound`).
- Hill climbing never fails on a lethal cell, although its code looks as if
  it could. The check for a lava or hydra
  cell at local_search.py:76-78 can never fire, because `get_neighbors`
  already dropped every infinite-cost cell. The model proves this: that
  branch of `HillClimbing` holds only `assert false`.
- Hill climbing is deterministic, so the restart wrapper returns exactly
  what one call returns when `restarts >= 1`, and `None` otherwise.

The search methods have no `modifies` clause, so they cannot change the grid.

The neighbour-evaluation loop of `hill_climbing` (local_search.py:61-67) is
its own method, `EvaluateNeighbors`, called from `HillClimbing`. It is the
same loop, with the same variables and the same strict comparison.

## Model

| member | source | states |
|---|---|---|
| `Constants.CostLookup` | pathfinder-herkules/custom_constants.py:25-34 | A table lookup with default cost 1; every finite cost it can return is at least 1 |
| `Constants.CellCost` | pathfinder-herkules/local_search.py:29-35 | The cost of the cell a grid holds, through the table lookup with default 1; it is infinite exactly for WALL, LAVA and HIDRA |
| `Constants.CellIdsAreDistinct` | pathfinder-herkules/custom_constants.py:14-22 | EMPTY, WALL, PLAYER, KID1, KID2, WIFEY, LAVA, MOUNTAIN, HIDRA are 0..8 in that order, hence pairwise distinct |
| `Constants.CellCostTable` | pathfinder-herkules/custom_constants.py:25-34 | A cell id is impassable exactly when it is WALL, LAVA or HIDRA; MOUNTAIN costs 10; every other id costs 1 |
| `Constants.KidsUseDefaultCost` | pathfinder-herkules/custom_constants.py:17-34 | KID1 and KID2 have no table entry and cost 1 through the default |
| `Constants.NamedKeysCostOne` | pathfinder-herkules/custom_constants.py:23-34 | The dead hydra is listed with cost 1; any other name also gets cost 1 |
| `GridEditor.Paint` | pathfinder-herkules/create_map.py:46-62 | One edit of a cell: the flag of a piece standing on the cell is cleared; "wall" and "eraser" always write; "player" and "wifey" write only when their cleared flag is false; any other tool keeps the cell. The cell only ever changes to the id its own tool writes |
| `GridEditor.Grid.constructor` | pathfinder-herkules/create_map.py:12-17 | A new grid is N×N, every cell EMPTY_CELL_ID, both flags false, and the invariant holds |
| `GridEditor.Grid.UpdateCell` | pathfinder-herkules/create_map.py:46-62 | Only cell (x, y) changes; its new id and the new flags are those of `Paint`; the flag-implies-piece invariant is preserved |
| `GridEditor.PaintWallAndEraser` | pathfinder-herkules/create_map.py:52-55 | "wall" always writes WALL_ID and "eraser" always writes EMPTY_CELL_ID, whatever the flags; both flags are only cleared, each exactly when its piece stood on the cell |
| `GridEditor.PaintClearsOverwrittenFlags` | pathfinder-herkules/create_map.py:47-51 | Painting over the player's (goal's) cell with any other tool leaves the player (goal) flag false |
| `GridEditor.PaintPlayer` | pathfinder-herkules/create_map.py:56-59 | "player" writes PLAYER_ID and raises the flag exactly when no player is left after the clearing step; otherwise the cell is unchanged |
| `GridEditor.PaintWifey` | pathfinder-herkules/create_map.py:60-62 | "wifey" writes WIFEY_ID and raises the goal flag exactly when no goal is left after the clearing step; otherwise the cell is unchanged |
| `GridEditor.RepaintPlayerIsIdempotent` | pathfinder-herkules/create_map.py:48-59 | Painting "player" onto the player's own cell leaves PLAYER_ID there with the flag true |
| `GridEditor.WifeyOnPlayerKeepsPlayerCell` | pathfinder-herkules/create_map.py:48-62 | With a player and a goal present, "wifey" on the player's cell keeps PLAYER_ID but drops the player flag |
| `GridEditor.UnknownToolKeepsCell` | pathfinder-herkules/create_map.py:52-62 | Any other tool leaves the cell as it was; only the clearing of lines 48-51 happens |
| `GridEditor.PaintRaisesOnlyOwnFlag` | pathfinder-herkules/create_map.py:46-62 | A flag is true afterwards only if it was true and its piece was not on the painted cell, or its own tool just wrote its id |
| `GridEditor.DuplicatePlayerScenario` | pathfinder-herkules/create_map.py:46-62 | Four edits on a 2×2 grid leave two PLAYER_ID cells with the player flag true: "at most one player" is not kept |
| `Search.Heuristic` | pathfinder-herkules/local_search.py:17-20 | The Manhattan distance is 0 exactly when the cell is the goal |
| `Search.Passable` | pathfinder-herkules/local_search.py:28-35 | A cell is kept as a neighbour exactly when it is on the grid and its cost is finite, that is, it holds neither WALL, LAVA nor HIDRA |
| `Search.Expand` | pathfinder-herkules/local_search.py:25-37 | The loop over a list of offsets as a function: the passable cells p + d in offset order, at most one per offset |
| `Search.Neighbors` | pathfinder-herkules/local_search.py:22-37 | `get_neighbors`: the expansion over the four offsets of line 24, so at most 4 cells |
| `Search.HeuristicStep` | pathfinder-herkules/local_search.py:17-20 | Between side-adjacent cells the heuristic changes by exactly one |
| `Search.HeuristicAdmissible` | pathfinder-herkules/local_search.py:17-20 | Every 4-connected walk from p to the goal has at least Heuristic(p, goal) steps |
| `Search.ExpandMembers` | pathfinder-herkules/local_search.py:24-37 | The expansion keeps at most one cell per offset, and exactly the passable cells p + d |
| `Search.DirectionsReachAdjacent` | pathfinder-herkules/local_search.py:24 | The four offsets reach exactly the side-adjacent cells |
| `Search.NeighborsAreAdjacentPassable` | pathfinder-herkules/local_search.py:22-37 | At most 4 neighbours, and q is one exactly when q is adjacent, on the grid and of finite cost (default 1) |
| `Search.LocalSearch.GetNeighbors` | pathfinder-herkules/local_search.py:22-37 | The loop returns the expansion in offset order: at most 4 cells, exactly the adjacent in-bounds finite-cost ones |
| `Search.Scan` | pathfinder-herkules/local_search.py:61-67 | The evaluation loop as a function: it returns None with best_h unchanged, or a cell of the list with best_h below the starting heuristic |
| `Search.ScanFindsFirstBest` | pathfinder-herkules/local_search.py:61-67 | The scan finds a cell exactly when one is below the current heuristic; it is the first cell of least heuristic, and none is lower |
| `Search.ScanKeepsBestHeuristic` | pathfinder-herkules/local_search.py:61-67 | The kept best_h is the heuristic of the kept best_neighbor |
| `Search.LocalSearch.EvaluateNeighbors` | pathfinder-herkules/local_search.py:61-67 | None (and best_h unchanged) exactly when no neighbour strictly improves; otherwise the first neighbour of least heuristic, below current_h |
| `Search.NextCell` | pathfinder-herkules/local_search.py:55-71 | The cell one pass moves to: None when there are no neighbours or none improves, otherwise one of the neighbours |
| `Search.Climb` | pathfinder-herkules/local_search.py:52-83 | The loop as a function of the passes left and the path so far: None when the passes run out, the path when the current cell is the goal, None when no pass can move, otherwise the climb from the next cell with the path extended |
| `Search.HillClimb` | pathfinder-herkules/local_search.py:39-83 | `hill_climbing`: the climb from start with the path [start] and max_iterations passes |
| `Search.NextCellStep` | pathfinder-herkules/local_search.py:55-81 | The cell a pass moves to is adjacent, passable and exactly one closer to the goal |
| `Search.NextCellExists` | pathfinder-herkules/local_search.py:55-71 | A pass does not stop while some passable adjacent cell is closer to the goal |
| `Search.ClimbAdvances` | pathfinder-herkules/local_search.py:79-81 | A successful pass moves to the chosen cell, appends it and uses up one iteration |
| `Search.ExtendDescent` | pathfinder-herkules/local_search.py:79-81 | Appending an adjacent, passable, closer cell keeps the path a passable descending walk |
| `Search.ClimbEndsAtGoal` | pathfinder-herkules/local_search.py:52-83 | A returned path extends the path so far, ends at the goal, and adds fewer cells than the passes left |
| `Search.ClimbKeepsDescent` | pathfinder-herkules/local_search.py:52-83 | Every cell the loop appends is adjacent to its predecessor, passable and strictly closer to the goal |
| `Search.DescentHeights` | pathfinder-herkules/local_search.py:62-67 | On a strictly descending walk the i-th cell is exactly i closer to the goal than the first |
| `Search.HillClimbSound` | pathfinder-herkules/local_search.py:39-83 | A returned path starts at start, ends at goal, and is a walk of passable cells (after start) with strictly falling heuristic. It has no repeated cell, has exactly Heuristic(start, goal) + 1 cells and fits max_iterations |
| `Search.HillClimbIsShortest` | pathfinder-herkules/local_search.py:39-83 | No 4-connected walk from start to goal is shorter than a returned path |
| `Search.HillClimbNeedsBudget` | pathfinder-herkules/local_search.py:52-83 | With max_iterations at most the distance, the result is None (this includes start = goal with max_iterations = 0) |
| `Search.ClimbBudgetIrrelevant` | pathfinder-herkules/local_search.py:52-83 | From any cell, two budgets above its distance to the goal give the same outcome |
| `Search.HillClimbBudgetIrrelevant` | pathfinder-herkules/local_search.py:39-83 | Any two iteration caps above Heuristic(start, goal) give the same result |
| `Search.CloserNeighborInBox` | pathfinder-herkules/local_search.py:62-67 | A cell one closer to the goal lies in the rectangle spanned by the current cell and the goal |
| `Search.ClimbSucceedsInClearBox` | pathfinder-herkules/local_search.py:52-83 | From any cell whose rectangle to the goal is passable, enough passes reach the goal |
| `Search.HillClimbSucceedsInClearBox` | pathfinder-herkules/local_search.py:39-83 | If every cell of the rectangle spanned by start and goal is passable and max_iterations exceeds the distance, a path is returned |
| `Search.LocalSearch.constructor` | pathfinder-herkules/local_search.py:9-15 | The search keeps a reference to the grid and copies its size; a square grid gives a valid search |
| `Search.LocalSearch.HillClimbing` | pathfinder-herkules/local_search.py:39-83 | The loop returns exactly `HillClimb`, with max_iterations 1000 by default; a returned path has every property of `HillClimbSound`; the lava/hydra branch is unreachable |
| `Search.WallStartScenario` | pathfinder-herkules/local_search.py:48-55 | The start cell is never checked: with a wall at (0, 0) of a 2×2 grid, hill climbing from (0, 0) to (1, 0) returns [(0, 0), (1, 0)] |
| `Search.LocalSearch.LocalSearchWithRestarts` | pathfinder-herkules/local_search.py:85-94 | None when restarts <= 0, and otherwise exactly the result of one hill-climbing call with the default cap 1000; restarts is 10 by default |

## Left out

- Images, drawing, the `Sidebar` and the `Game` event loop (create_map.py:19-44, 65-193): rendering and UI.
- `Grid.cell_size` (create_map.py:14): it only sizes drawn cells.
- Grid cells hold integer ids only, so `CellCost` and `Passable` never see the `"dead_hidra"` name key; it is reachable only through `CostLookup`. A Python cell could hold that string, but the modelled code writes only 0, 1, 2 and 5 into cells (create_map.py:53-61).
- The constructor requires `gridSize > 0`. The source fails on 0 (division by zero at create_map.py:14) and on negative sizes (image scaling).
- `Grid.UpdateCell` requires 0 <= x, y < N, as its only caller checks (create_map.py:182-183). Python's wrap-around for negative indices is not modelled.
- `run_tests` (local_search.py:97-149): random maps, a CSV file and printing. It also calls `create_auto_map` and `valid_map`, which the `Grid` class does not define.
- The enclosure validator, random map generator, breadth-first, depth-first, uniform-cost and A* searches, and the hydra-kill energy loop. The `Grid` class at create_map.py:11-62 defines neither `create_auto_map` nor `valid_map` (called at local_search.py:129 and 133), and none of the modelled files contains the validator, the generator, the four searches or the hydra loop.
- Window, colour and sidebar layout constants, `GRID_SIZE`, `HIDRA_ENABLED` and `MAX_ATTEMPTS` (custom_constants.py:5-12, 36-66). Nothing in the modelled code uses them.
- The plotting scripts and the console size prompt (visualization.csv.py, test.py, utils.py): I/O only.
- Floating-point infinity: replaced by the `Infinite` cost variant, which is compared exactly as `cost == float('inf')` is.
