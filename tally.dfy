// The end of the game: count both players' tiles and name the winner from
// the human's (Red's) point of view.
module Tally {
  import opened Board
  import opened Game

  /** "You won!", "You lost!" or "Game tie." */
  datatype Verdict = YouWon | YouLost | GameTie

  /** The verdict for the given tile counts: more red wins, more blue loses, equal ties. */
  function Judge(redCount: nat, blueCount: nat): (v: Verdict)
    ensures v == YouWon <==> redCount > blueCount
    ensures v == YouLost <==> blueCount > redCount
    ensures v == GameTie <==> redCount == blueCount
  {
    if redCount > blueCount then YouWon
    else if blueCount > redCount then YouLost
    else GameTie
  }

  /**
   * `handle_game_over`: scan the board row by row, count red and blue
   * tiles, and judge. The game is not changed.
   */
  method HandleGameOver(state: State) returns (verdict: Verdict, redCount: nat, blueCount: nat)
    ensures redCount == Count(state.board, Tile(Red)) && blueCount == Count(state.board, Tile(Blue))
    ensures redCount + blueCount + Count(state.board, Empty) == 64
    ensures verdict == Judge(redCount, blueCount)
  {
    var b := state.board;
    redCount, blueCount := 0, 0;
    for y := 0 to 8
      invariant redCount == Count(b[..y], Tile(Red)) && blueCount == Count(b[..y], Tile(Blue))
    {
      for x := 0 to 8
        invariant redCount == Count(b[..y], Tile(Red)) + RowCount(b[y][..x], Tile(Red))
        invariant blueCount == Count(b[..y], Tile(Blue)) + RowCount(b[y][..x], Tile(Blue))
      {
        var piece := b[y][x];
        assert b[y][..x + 1][..x] == b[y][..x];
        if piece == Tile(Red) {
          redCount := redCount + 1;
        }
        if piece == Tile(Blue) {
          blueCount := blueCount + 1;
        }
      }
      assert b[..y + 1][..y] == b[..y] && b[y][..8] == b[y];
    }
    assert b[..8] == b;
    CountPartition(b);
    verdict := Judge(redCount, blueCount);
  }
}
