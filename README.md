# Reversi game engine in Dafny

This project models the engine of a terminal Reversi game, `game_backend.py`.
The engine has four parts:

- **the 8×8 board** of empty, red and blue cells;
- **the `State` object**, which holds the board, the half-move counter
  `turn_num` and the player to move, and whose `select` places a tile, flips
  the bracketed tiles and ends the turn;
- **the cursor** that the human moves with w/a/s/d;
- **the computer's fixed-depth search** (`max_step` / `min_step`) and the
  red/blue tally at the end of the game.

## How the model is laid out

- `board.dfy` (module `Board`) holds the cell and player types and the grid
  value (`seq<seq<Cell>>`, indexed `b[y][x]` as in the source). It also has
  single-cell writes and tile counting.
- `rules.dfy` (module `Rules`) states the rules as functions over values:
  - `ValidPlacement` and `Placements` say which cells are legal.
  - `LineSwaps` and `Swaps` say which tiles a placement flips.
  - `SwapTiles` applies the flips.
  - `EndTurn` and `Select` describe one transition of a `GameState`.
  - `Select` returns an `Outcome`: `Selected(turn, x, y, swapCount)`, `GameOver` or `SpotNotEmpty`. These stand for the tuple and the two exceptions that the source's `select` returns or raises.
- `cursor.dfy` (module `Cursors`) is the `Cursor` class.
- `game.dfy` (module `Game`) is the `State` class. Its fields are updated in place by methods with the source's loops. Each method is proved to do what the matching function of `Rules` does to `Snapshot()`, the `GameState` value the object holds.
- `search.dfy` (module `Search`) is the search.
  - The source plays every candidate on a `copy.deepcopy` of the game. `SelectOnCopy` proves that deep-copy-then-select gives exactly the value transition `SelectMove`. So the search is a function of a `GameState` value.
  - The search is written over the function that plays one move (`Mover`), and the game instantiates it with `SelectMove`. `MaxStep` and `MinStep` are the spec functions; `SearchPly`, `MaxStepOf` and `MinStepOf` are the loops, proved equal to them.
  - A `GameOver` raised by a hypothetical select is not caught by the search, so it abandons the whole search (`Aborted`).
- `tally.dfy` (module `Tally`) holds the end-of-game count and verdict.

## Behaviour modelled as the code has it

Each item is modelled as the code does it, not as a general description of Reversi would have it:

- A placement is legal when the cell is empty and one of its four orthogonal neighbours holds an opponent tile. Diagonals are never looked at, and the placement need not flip anything.
- Flips run only along the four orthogonal rays, in the order left, right, up, down.
- `end_turn` switches the player and counts the half-move before it raises `GameOver`. So a move that ends the game has already changed the board, the turn number and the player to move.
- `min_step` adds the score of the ply below it (line 376); only `max_step` subtracts (line 390).
- The search picks the best candidate with Python's `max` over `(score, x, y)` tuples. On equal scores the larger x wins, then the larger y; the first candidate found does not win.

## Model

| member | source | states |
|---|---|---|
| Board.Other | game_backend.py:165-169 | the opponent of a player is never that player (Blue's is Red, Red's is Blue) |
| Board.Set | game_backend.py:280-284 | `_set` writes exactly one cell: it holds the new value and every other cell keeps its value |
| Board.SetCount | game_backend.py:280-284 | one write moves exactly one cell from its old value's count to its new value's count |
| Board.CountPartition | game_backend.py:325-331 | every one of the 64 cells is empty, red or blue, so the three counts sum to 64 |
| Board.InitialGridLayout | game_backend.py:150-163 | the starting board has R at (3,3) and (4,4), B at (3,4) and (4,3), and the other 60 cells empty |
| Rules.Initial | game_backend.py:149-163 | a fresh game has turn 0, `player_1` to move, 60 empty cells and two tiles of each colour |
| Rules.PlacementsSpec | game_backend.py:194-210 | the placements list holds exactly the in-bounds valid placements, each once, in row-major order (y outer, x inner) |
| Rules.PlacementsSound | game_backend.py:194-200 | every listed placement is on the board and valid |
| Rules.PlacementsComplete | game_backend.py:194-200 | every valid placement is listed |
| Rules.PlacementsEmpty | game_backend.py:241-242 | the list is empty exactly when no cell is a valid placement for that player |
| Rules.RowPlacementsSpec | game_backend.py:197-199 | the inner scan of one row lists exactly that row's valid cells below the bound, left to right |
| Rules.PlacementsUpToSpec | game_backend.py:196-199 | the outer scan over the first rows lists exactly their valid cells, in scan order |
| Rules.ForeignIsOpponent | game_backend.py:262-265 | a tile that is neither empty nor the mover's colour is the opponent's |
| Rules.RunLength | game_backend.py:261-266 | the leading run of non-empty, non-mover tiles: all of it foreign, and the cell after it (if any) is not |
| Rules.LineSwapsSpec | game_backend.py:251-270 | one ray flips a non-empty run exactly when that run is a prefix of opponent tiles closed by a mover tile; an empty cell or the board's edge first gives nothing |
| Rules.LineSwapsCells | game_backend.py:251-270 | the tiles a ray flips lie on that ray, are on the board, are opponent tiles and are distinct |
| Rules.LineSwapsFrame | game_backend.py:259-270 | only the cells on the ray decide what it flips |
| Rules.RayFrame | game_backend.py:259-270 | boards that agree on the cross through (x, y) flip the same tiles along any ray in that cross |
| Rules.LeftRaySpec | game_backend.py:246 | the left ray runs from x-1 down to 0 in row y: on the board, distinct, left of x |
| Rules.RightRaySpec | game_backend.py:247 | the right ray runs from x+1 up to 7 in row y: on the board, distinct, right of x |
| Rules.UpRaySpec | game_backend.py:248 | the up ray runs from y-1 down to 0 in column x: on the board, distinct, above y |
| Rules.DownRaySpec | game_backend.py:249 | the down ray runs from y+1 up to 7 in column x: on the board, distinct, below y |
| Rules.SwapsSpec | game_backend.py:244-249 | all flipped tiles are distinct, on the board, opponent-held, not (x, y), and in the row or column of (x, y), never on a diagonal |
| Rules.CrossOnly | game_backend.py:202-249 | legality and flips at (x, y) depend only on the row and column through it |
| Rules.SwapTilesEffect | game_backend.py:272-278 | after `_do_swap_tiles` the listed cells hold the mover's colour and every other cell is unchanged |
| Rules.SwapTilesCount | game_backend.py:272-278 | turning k distinct opponent tiles adds k to the mover's count, takes k from the opponent's, and leaves empty cells alone |
| Rules.EndTurn | game_backend.py:238-242 | the board is kept, the turn goes up by one, the player toggles; game over exactly when the new mover has no valid placement |
| Rules.Select | game_backend.py:213-236 | SpotNotEmpty exactly when the placement is invalid, and then nothing changes; otherwise the turn advances, the player toggles and the cell is the mover's, even when GameOver is raised (exactly when the new mover has no placement); a completed select reports the pre-move turn and x, y |
| Rules.SelectCounts | game_backend.py:228-231 | a legal select with k flips gives the mover 1+k more tiles, the opponent k fewer, one fewer empty cell, and reports k |
| Rules.SelectFrame | game_backend.py:228-231 | a legal select changes only the placed cell and the flipped tiles, all to the mover's colour |
| Rules.SelectSwapsBeforePlacement | game_backend.py:228-229 | the flips computed after placing the tile are the ones the board before the placement brackets |
| Rules.OpeningSwaps | game_backend.py:244-249 | from the opening, Red at (5,3) flips exactly (4,3) |
| Rules.OpeningMove | game_backend.py:225-236 | from the opening, Red at (5,3) completes on turn 0 with one flip, and (4,3) turns red |
| Cursors.Cursor.constructor | game_backend.py:106-108 | a new cursor is at (0,0) |
| Cursors.Cursor.Reset | game_backend.py:110-112 | reset puts the cursor back at (0,0) |
| Cursors.Cursor.Equals | game_backend.py:114-115 | a cursor kept on the board only equals on-board coordinates |
| Cursors.Cursor.Up | game_backend.py:117-119 | y goes down by one unless already 0; x is unchanged; stays on the board |
| Cursors.Cursor.Down | game_backend.py:121-123 | y goes up by one unless already 7; x is unchanged; stays on the board |
| Cursors.Cursor.Right | game_backend.py:125-127 | x goes up by one unless already 7; y is unchanged; stays on the board |
| Cursors.Cursor.Left | game_backend.py:129-131 | x goes down by one unless already 0; y is unchanged; stays on the board |
| Game.State.constructor | game_backend.py:149-163 | the new object holds `Initial(player_1)`, with Red to move when no player is given, and a fresh cursor at (0,0) |
| Game.State.Copy | game_backend.py:373 | a deep copy holds the same board, turn and mover, and its own cursor at the same place |
| Game.State.OtherPlayer | game_backend.py:165-169 | the other player is not the player to move |
| Game.State.AllValidPlacements | game_backend.py:194-200 | the nested scan returns `Placements` of the current board and mover |
| Game.State.IsValidPlacement | game_backend.py:202-210 | the four-direction check answers `ValidPlacement` |
| Game.State.Select | game_backend.py:225-236 | the in-place select leaves the object holding, and returns, exactly what `Rules.Select` gives for the old state |
| Game.State.SelectAtCursor | game_backend.py:223-224 | `select()` without coordinates selects the cursor's cell |
| Game.State.EndTurn | game_backend.py:238-242 | the in-place end of turn matches `Rules.EndTurn` |
| Game.State.GetSwaps | game_backend.py:244-249 | the four ray scans return `Swaps` |
| Game.State.GetSwapsForLine | game_backend.py:251-270 | the early-return scan returns `LineSwaps` for that ray |
| Game.State.DoSwapTiles | game_backend.py:272-278 | the loop leaves the board as `SwapTiles` of the old board; turn and player are unchanged |
| Game.State.SetCell | game_backend.py:280-284 | the board becomes `Set` of the old board; nothing else changes |
| Search.Max | game_backend.py:380 | Python `max` over the candidates returns one of them that no other candidate exceeds as a (score, x, y) tuple |
| Search.SelectMove | game_backend.py:374 | playing a move in the search is refused (SpotNotEmpty, nothing changed) exactly when it is not a valid placement on the board, so a listed placement is never refused; a move that is played hands the turn to the other player and counts the half-move |
| Search.SelectOnCopy | game_backend.py:373-374 | selecting on a deep copy gives exactly `SelectMove` of the original's value, on a fresh object |
| Search.SearchPly | game_backend.py:369-394 | the candidate loop with its early abort returns `Step` for any move function |
| Search.ScoreMove | game_backend.py:373-377 | one loop iteration yields that move's `Evaluate` score |
| Search.MaxStepOf | game_backend.py:383-394 | `max_step` on the game object returns `MaxStep` of its value and changes nothing |
| Search.MinStepOf | game_backend.py:369-380 | `min_step` on the game object returns `MinStep` of its value and changes nothing |
| Search.CandidatesLength | game_backend.py:372-377 | a completed candidate list has one entry per placement |
| Search.CandidateAt | game_backend.py:372-377 | candidate k is the score of placement k |
| Search.CandidatesAbort | game_backend.py:372-377 | the candidate list is abandoned exactly when scoring some placement raised |
| Search.EvaluateCoordinates | game_backend.py:374-377 | a score that was produced belongs to a completed select of that same move |
| Search.StepNoMove | game_backend.py:392-393 | with no valid placement the answer is (0, -1, -1) |
| Search.StepAborts | game_backend.py:386-391 | the search is abandoned exactly when some valid placement's select raises or, with plies left, its reply's search is abandoned |
| Search.SearchAbortsOnGameOver | game_backend.py:386-391 | with the game's select this means GameOver: a valid placement never raises SpotNotEmpty |
| Search.StepBest | game_backend.py:386-394 | the answer is a valid placement, carries that placement's own score, and is the (score, x, y) maximum over all valid placements, so ties go to the larger x, then the larger y |
| Search.StepScore | game_backend.py:374-376 | the answer's score is its flips at the last ply; otherwise its flips minus the reply's score at a max ply, plus it at a min ply |
| Search.ReplyIsAMove | game_backend.py:375-376 | after a completed select the reply ply always has a move, so it never answers (0, -1, -1) |
| Tally.Judge | game_backend.py:333-338 | red wins exactly when it has more tiles, loses exactly when blue has more, ties exactly on equal counts |
| Tally.HandleGameOver | game_backend.py:322-338 | the scan counts exactly the red and blue tiles (which together with the empty cells make 64) and judges them |

## Left out

- Terminal set-up and presentation are not modelled: the `stty` size probe, the colour constants and banner, the log capture, `board_display` and `draw`. They only render or configure the terminal.
- `get_logging_box` is not modelled. It calls `exit()` (game_backend.py:289) before it builds any output, so every `draw()` ends the process; the model has no notion of the process ending.
- Keyboard input is not modelled: `getch` and the `handle_human_turn` event loop. The cursor moves and the select they trigger are modelled.
- The `print` of the verdict in `handle_game_over` is left out; the counts and the verdict are returned.
- The `logging.info` call in `State.__init__` is left out; it has no game effect.
- `handle_computer_turn` (draw, `max_step(state, 3)`, then select) is left out. The search it calls is modelled.
- The driver `reversi.py` is not part of this model.
- Game.State.Select: off-board coordinates are excluded by a precondition. The source would index Python lists with negative numbers and wrap around, for instance with the sentinel (-1, -1) from a search that found no move.
- Search.SearchPly: a depth of at least 1 is required. With depth 0 the source's counter becomes -1, which Python treats as true, so every ply recurses into the reply. If the mover has no placement the answer is (0, -1, -1). Otherwise the search always ends with GameOver: every select fills an empty cell, so along the first line of play the board fills within 60 plies, and the select that leaves the next mover without a placement raises GameOver, which nothing catches.
- Search.SearchPly: the candidates are played with `SelectMove` on game values instead of on deep-copied objects. `SelectOnCopy` shows the two agree, but the loop itself does not allocate copies.
- The board is a value (`seq` of rows) reassigned by `SetCell`. The source mutates nested lists in place, but nothing else holds a reference to a row, so no aliasing is lost.
