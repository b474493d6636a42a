/**
 * The editable map: an N x N grid of cell ids, stored row-major so that the
 * cell at column x and row y is grid[y, x], plus two flags recording whether
 * a player and a goal ("wifey") have been placed.
 */
module GridEditor {
  import opened Constants

  /** What painting one cell produces: the new cell id and the two flags afterwards. */
  datatype CellEdit = CellEdit(cell: int, playerInTheGame: bool, goalInTheGame: bool)

  /**
   * One edit with a tool, on a cell that held `cell`. The flag of a player
   * or goal that stood on the cell is cleared first; "wall" and "eraser"
   * always paint; "player" and "wifey" paint only when their flag is then
   * false; any other tool leaves the cell as it was.
   */
  function Paint(cell: int, playerInTheGame: bool, goalInTheGame: bool, tool: string): (r: CellEdit)
    ensures r.cell != cell ==>
      (tool == "wall" && r.cell == WALL_ID) || (tool == "eraser" && r.cell == EMPTY_CELL_ID) ||
      (tool == "player" && r.cell == PLAYER_ID) || (tool == "wifey" && r.cell == WIFEY_ID)
  {
    var player := playerInTheGame && cell != PLAYER_ID;
    var goal := goalInTheGame && cell != WIFEY_ID;
    if tool == "wall" then CellEdit(WALL_ID, player, goal)
    else if tool == "eraser" then CellEdit(EMPTY_CELL_ID, player, goal)
    else if tool == "player" && !player then CellEdit(PLAYER_ID, true, goal)
    else if tool == "wifey" && !goal then CellEdit(WIFEY_ID, player, true)
    else CellEdit(cell, player, goal)
  }

  /** Wall and eraser write their id whatever the flags are; the flags are only cleared. */
  lemma PaintWallAndEraser(cell: int, playerInTheGame: bool, goalInTheGame: bool)
    ensures Paint(cell, playerInTheGame, goalInTheGame, "wall").cell == WALL_ID
    ensures Paint(cell, playerInTheGame, goalInTheGame, "eraser").cell == EMPTY_CELL_ID
    ensures Paint(cell, playerInTheGame, goalInTheGame, "wall").playerInTheGame == (playerInTheGame && cell != PLAYER_ID)
    ensures Paint(cell, playerInTheGame, goalInTheGame, "wall").goalInTheGame == (goalInTheGame && cell != WIFEY_ID)
    ensures Paint(cell, playerInTheGame, goalInTheGame, "eraser").playerInTheGame == (playerInTheGame && cell != PLAYER_ID)
    ensures Paint(cell, playerInTheGame, goalInTheGame, "eraser").goalInTheGame == (goalInTheGame && cell != WIFEY_ID)
  {
  }

  /** Overwriting the player's (goal's) cell with anything but the player (goal) tool drops its flag. */
  lemma PaintClearsOverwrittenFlags(cell: int, playerInTheGame: bool, goalInTheGame: bool, tool: string)
    ensures cell == PLAYER_ID && tool != "player" ==> !Paint(cell, playerInTheGame, goalInTheGame, tool).playerInTheGame
    ensures cell == WIFEY_ID && tool != "wifey" ==> !Paint(cell, playerInTheGame, goalInTheGame, tool).goalInTheGame
  {
  }

  /**
   * The player tool places a player exactly when no player is left after the
   * clearing step, and otherwise changes nothing but the cleared goal flag.
   */
  lemma PaintPlayer(cell: int, playerInTheGame: bool, goalInTheGame: bool)
    ensures var r := Paint(cell, playerInTheGame, goalInTheGame, "player");
      if playerInTheGame && cell != PLAYER_ID
      then r == CellEdit(cell, true, goalInTheGame && cell != WIFEY_ID)
      else r == CellEdit(PLAYER_ID, true, goalInTheGame && cell != WIFEY_ID)
  {
  }

  /** The goal tool mirrors the player tool for WIFEY_ID and the goal flag. */
  lemma PaintWifey(cell: int, playerInTheGame: bool, goalInTheGame: bool)
    ensures var r := Paint(cell, playerInTheGame, goalInTheGame, "wifey");
      if goalInTheGame && cell != WIFEY_ID
      then r == CellEdit(cell, playerInTheGame && cell != PLAYER_ID, true)
      else r == CellEdit(WIFEY_ID, playerInTheGame && cell != PLAYER_ID, true)
  {
  }

  /** Painting the player onto the player's own cell changes nothing: the flag is cleared, then set again. */
  lemma RepaintPlayerIsIdempotent(playerInTheGame: bool, goalInTheGame: bool)
    ensures Paint(PLAYER_ID, playerInTheGame, goalInTheGame, "player") == CellEdit(PLAYER_ID, true, goalInTheGame)
  {
  }

  /**
   * Painting the goal onto the player's cell while a goal exists keeps
   * PLAYER_ID on the cell but drops the player flag, so a second player can
   * be placed afterwards (see DuplicatePlayerScenario).
   */
  lemma WifeyOnPlayerKeepsPlayerCell()
    ensures Paint(PLAYER_ID, true, true, "wifey") == CellEdit(PLAYER_ID, false, true)
  {
  }

  /** A tool that is none of the four known ones leaves the cell as it was; only flags can be cleared. */
  lemma UnknownToolKeepsCell(cell: int, playerInTheGame: bool, goalInTheGame: bool, tool: string)
    requires tool != "wall" && tool != "eraser" && tool != "player" && tool != "wifey"
    ensures Paint(cell, playerInTheGame, goalInTheGame, tool)
            == CellEdit(cell, playerInTheGame && cell != PLAYER_ID, goalInTheGame && cell != WIFEY_ID)
  {
  }

  /**
   * A flag can only be raised by its own tool, and a flag that stays raised
   * without being re-set never points at the painted cell: this is the local
   * half of the grid invariant kept by UpdateCell.
   */
  lemma PaintRaisesOnlyOwnFlag(cell: int, playerInTheGame: bool, goalInTheGame: bool, tool: string)
    ensures var r := Paint(cell, playerInTheGame, goalInTheGame, tool);
      (r.playerInTheGame ==> (playerInTheGame && cell != PLAYER_ID) || (tool == "player" && r.cell == PLAYER_ID)) &&
      (r.goalInTheGame ==> (goalInTheGame && cell != WIFEY_ID) || (tool == "wifey" && r.cell == WIFEY_ID))
  {
  }

  class Grid {
    const gridSize: int
    const grid: array2<int>
    var playerInTheGame: bool
    var goalInTheGame: bool

    /** The array has the dimensions the grid claims. */
    predicate Square()
    {
      grid.Length0 == gridSize && grid.Length1 == gridSize
    }

    /** Some cell of the grid holds `id`. */
    ghost predicate Holds(id: int)
      reads grid
    {
      exists y, x :: 0 <= y < grid.Length0 && 0 <= x < grid.Length1 && grid[y, x] == id
    }

    /** A raised flag always has its piece somewhere on the grid. */
    ghost predicate Valid()
      reads this, grid
    {
      Square() &&
      (playerInTheGame ==> Holds(PLAYER_ID)) &&
      (goalInTheGame ==> Holds(WIFEY_ID))
    }

    /** A fresh grid: every cell empty, no player, no goal. */
    constructor (gridSize: int)
      requires gridSize > 0
      ensures Valid() && fresh(grid)
      ensures this.gridSize == gridSize
      ensures forall y, x :: 0 <= y < gridSize && 0 <= x < gridSize ==> grid[y, x] == EMPTY_CELL_ID
      ensures !playerInTheGame && !goalInTheGame
    {
      this.gridSize := gridSize;
      grid := new int[gridSize, gridSize]((y, x) => EMPTY_CELL_ID);
      playerInTheGame := false;
      goalInTheGame := false;
    }

    /** Applies `tool` to the cell at column x, row y; no other cell changes. */
    method UpdateCell(x: int, y: int, tool: string)
      requires Valid()
      requires 0 <= x < gridSize && 0 <= y < gridSize
      modifies this, grid
      ensures Valid()
      ensures forall j, i :: 0 <= j < gridSize && 0 <= i < gridSize && (j, i) != (y, x) ==> grid[j, i] == old(grid[j, i])
      ensures CellEdit(grid[y, x], playerInTheGame, goalInTheGame)
              == Paint(old(grid[y, x]), old(playerInTheGame), old(goalInTheGame), tool)
    {
      ghost var py, px := y, x;
      if playerInTheGame {
        py, px :| 0 <= py < gridSize && 0 <= px < gridSize && grid[py, px] == PLAYER_ID;
      }
      ghost var gy, gx := y, x;
      if goalInTheGame {
        gy, gx :| 0 <= gy < gridSize && 0 <= gx < gridSize && grid[gy, gx] == WIFEY_ID;
      }

      if grid[y, x] == PLAYER_ID {
        playerInTheGame := false;
      }
      if grid[y, x] == WIFEY_ID {
        goalInTheGame := false;
      }
      if tool == "wall" {
        grid[y, x] := WALL_ID;
      } else if tool == "eraser" {
        grid[y, x] := EMPTY_CELL_ID;
      } else if tool == "player" && !playerInTheGame {
        grid[y, x] := PLAYER_ID;
        playerInTheGame := true;
      } else if tool == "wifey" && !goalInTheGame {
        grid[y, x] := WIFEY_ID;
        goalInTheGame := true;
      }

      if playerInTheGame && grid[y, x] != PLAYER_ID {
        assert grid[py, px] == PLAYER_ID;
      }
      if goalInTheGame && grid[y, x] != WIFEY_ID {
        assert grid[gy, gx] == WIFEY_ID;
      }
    }
  }

  /**
   * The editor does not keep "at most one player": on a 2 x 2 grid, place a
   * player and a goal, paint the goal tool over the player (refused, but the
   * player flag is dropped), then place a second player.
   */
  method DuplicatePlayerScenario() returns (g: Grid)
    ensures g.Valid() && g.playerInTheGame && g.goalInTheGame
    ensures g.grid[0, 0] == PLAYER_ID && g.grid[0, 1] == PLAYER_ID
  {
    g := new Grid(2);
    g.UpdateCell(0, 0, "player");
    g.UpdateCell(1, 1, "wifey");
    g.UpdateCell(0, 0, "wifey");
    assert g.grid[0, 0] == PLAYER_ID && !g.playerInTheGame;
    g.UpdateCell(1, 0, "player");
  }
}
