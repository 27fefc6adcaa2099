// The mutable game state: the board, the half-move counter and the player to
// move, updated in place by `select`. Every method is proved to do what the
// corresponding function of module Rules says.
module Game {
  import opened Board
  import opened Rules
  import opened Cursors

  class State {
    var board: Grid
    var turnNum: nat
    var curPlayer: Player
    var cursor: Cursor

    /** The game-relevant value of this object: what a deep copy of it holds. */
    function Snapshot(): GameState
      reads this
    {
      GameState(board, turnNum, curPlayer)
    }

    /** A new game with `player1` to move (Red unless told otherwise). */
    constructor (player1: Player := Red)
      ensures Snapshot() == Initial(player1)
      ensures fresh(cursor) && cursor.Valid() && cursor.x == 0 && cursor.y == 0
    {
      board := EmptyGrid();
      turnNum := 0;
      curPlayer := player1;
      cursor := new Cursor();
      new;
      SetCell(3, 3, Tile(Red));
      SetCell(3, 4, Tile(Blue));
      SetCell(4, 3, Tile(Blue));
      SetCell(4, 4, Tile(Red));
    }

    /** `copy.deepcopy(state)`: an independent game with the same board, turn, mover and cursor. */
    constructor Copy(other: State)
      ensures Snapshot() == other.Snapshot()
      ensures fresh(cursor) && cursor.x == other.cursor.x && cursor.y == other.cursor.y
    {
      board := other.board;
      turnNum := other.turnNum;
      curPlayer := other.curPlayer;
      var c := new Cursor();
      c.x, c.y := other.cursor.x, other.cursor.y;
      cursor := c;
    }

    /** The player who is not to move. */
    function OtherPlayer(): (p: Player)
      reads this
      ensures p != curPlayer
    {
      Other(curPlayer)
    }

    /** Every valid placement for the player to move, scanning rows outer and columns inner. */
    method AllValidPlacements() returns (ps: seq<Coord>)
      ensures ps == Placements(board, curPlayer)
    {
      ps := [];
      for y := 0 to 8
        invariant ps == PlacementsUpTo(board, curPlayer, y)
      {
        for x := 0 to 8
          invariant ps == PlacementsUpTo(board, curPlayer, y) + RowPlacements(board, curPlayer, y, x)
        {
          var valid := IsValidPlacement(x, y);
          if valid {
            ps := ps + [(x, y)];
          }
        }
      }
    }

    /** (x, y) is empty and an orthogonal neighbour holds the opponent's tile. */
    method IsValidPlacement(x: int, y: int) returns (valid: bool)
      requires InBounds(x, y)
      ensures valid == ValidPlacement(board, x, y, curPlayer)
    {
      if board[y][x] != Empty {
        return false;
      }
      for k := 0 to 4
        invariant forall i :: 0 <= i < k ==>
                    !NeighbourIs(board, x, y, Directions[i].1, Directions[i].0, Tile(OtherPlayer()))
      {
        var (dy, dx) := Directions[k];
        if 0 <= y + dy < 8 && 0 <= x + dx < 8 && board[y + dy][x + dx] == Tile(OtherPlayer()) {
          return true;
        }
      }
      assert forall i :: 0 <= i < 4 ==>
               !NeighbourIs(board, x, y, Directions[i].1, Directions[i].0, Tile(Other(curPlayer)));
      assert Directions[0] == (-1, 0) && Directions[1] == (1, 0) && Directions[2] == (0, 1) && Directions[3] == (0, -1);
      return false;
    }

    /**
     * Place the mover's tile at (x, y), flip what it brackets and end the
     * turn. The outcome reports the turn number before the move, the cell
     * and the number of flips; GameOver is reported after the move and the
     * turn change took effect; SpotNotEmpty leaves everything unchanged.
     */
    method Select(x: int, y: int) returns (outcome: Outcome)
      requires InBounds(x, y)
      modifies this
      ensures Transition(Snapshot(), outcome) == Rules.Select(old(Snapshot()), x, y)
      ensures cursor == old(cursor)
    {
      var valid := IsValidPlacement(x, y);
      if !valid {
        return SpotNotEmpty;
      }
      SetCell(x, y, Tile(curPlayer));
      var tilesToSwap := GetSwaps(x, y, curPlayer);
      var swapCount := |tilesToSwap|;
      SwapsSpec(board, x, y, curPlayer);
      DoSwapTiles(tilesToSwap);
      var turn := turnNum;
      var over := EndTurn();
      if over {
        return GameOver;
      }
      return Selected(turn, x, y, swapCount);
    }

    /** `select()` with no coordinates: select the cell under the cursor. */
    method SelectAtCursor() returns (outcome: Outcome)
      requires cursor.Valid()
      modifies this
      ensures Transition(Snapshot(), outcome) == Rules.Select(old(Snapshot()), old(cursor.x), old(cursor.y))
      ensures cursor == old(cursor)
    {
      outcome := Select(cursor.x, cursor.y);
    }

    /**
     * Hand the move to the other player and count the half-move; report
     * game over when the new mover has no valid placement.
     */
    method EndTurn() returns (gameOver: bool)
      modifies this
      ensures (Snapshot(), gameOver) == Rules.EndTurn(old(Snapshot()))
      ensures cursor == old(cursor)
    {
      curPlayer := OtherPlayer();
      turnNum := turnNum + 1;
      var placements := AllValidPlacements();
      gameOver := placements == [];
    }

    /** The tiles a `color` tile at (x, y) flips: left, right, up and down rays. */
    method GetSwaps(x: int, y: int, color: Player) returns (swaps: seq<Coord>)
      requires InBounds(x, y)
      ensures swaps == Swaps(board, x, y, color)
    {
      LeftRaySpec(x, y);
      RightRaySpec(x, y);
      UpRaySpec(x, y);
      DownRaySpec(x, y);
      var left := GetSwapsForLine(LeftRay(x, y), color);
      var right := GetSwapsForLine(RightRay(x, y), color);
      var up := GetSwapsForLine(UpRay(x, y), color);
      var down := GetSwapsForLine(DownRay(x, y), color);
      swaps := left + right + up + down;
    }

    /**
     * Walk `ray` collecting non-`color` tiles; an empty cell or the end of
     * the ray discards them, a `color` tile returns them.
     */
    method GetSwapsForLine(ray: seq<Coord>, color: Player) returns (swaps: seq<Coord>)
      requires OnBoard(ray)
      ensures swaps == LineSwaps(board, ray, color)
    {
      ghost var run := RunLength(board, ray, color);
      var tilesToSwap: seq<Coord> := [];
      for k := 0 to |ray|
        invariant k <= run
        invariant tilesToSwap == ray[..k]
      {
        var (i, j) := ray[k];
        if board[j][i] == Empty {
          return [];
        } else if board[j][i] != Tile(color) {
          tilesToSwap := tilesToSwap + [(i, j)];
        } else {
          return tilesToSwap;
        }
      }
      return [];
    }

    /** Turn every listed tile to the mover's colour. */
    method DoSwapTiles(tilesToSwap: seq<Coord>)
      requires forall t :: t in tilesToSwap ==> InBounds(t.0, t.1)
      modifies this
      ensures board == SwapTiles(old(board), tilesToSwap, old(curPlayer))
      ensures turnNum == old(turnNum) && curPlayer == old(curPlayer) && cursor == old(cursor)
    {
      for k := 0 to |tilesToSwap|
        invariant SwapTiles(board, tilesToSwap[k..], curPlayer) == SwapTiles(old(board), tilesToSwap, curPlayer)
        invariant turnNum == old(turnNum) && curPlayer == old(curPlayer) && cursor == old(cursor)
      {
        assert tilesToSwap[k..][1..] == tilesToSwap[k + 1..];
        SetCell(tilesToSwap[k].0, tilesToSwap[k].1, Tile(curPlayer));
      }
    }

    /** Write `c` into the cell at column x, row y. */
    method SetCell(x: int, y: int, c: Cell)
      requires InBounds(x, y)
      modifies this
      ensures board == Set(old(board), x, y, c)
      ensures turnNum == old(turnNum) && curPlayer == old(curPlayer) && cursor == old(cursor)
    {
      board := board[y := board[y][x := c]];
    }
  }
}
