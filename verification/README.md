# Tic Tac Toe with a minimax AI — a Dafny model of the game's logic

This project models the part of `tictactoe.py` that does not depend on
pygame. That covers:

- the 3x3 board;
- the win tests, the full-board test and the list of empty cells;
- placing a mark, with the turn switch and game-over detection;
- minimax with alpha-beta pruning, which the AI (O, player 2) uses to pick its move;
- the mapping from a mouse position to a board cell;
- the two in-game events of the main loop that drive these: a click on the
  board, and the AI's turn in a game against the computer.

Modules:

- `BoardState` (`board.dfy`): players, cells, the nine-cell board, the
  eight winning lines, the full test and the empty-cell scan.
- `Engine` (`engine.dfy`): the pruned search exactly as the game runs it,
  plain unpruned minimax as the reference it must agree with, and the
  choice of the best move.
- `Pruning` (`pruning.dfy`): proof that pruning never changes the result
  when the search starts with the full window, as the game starts it, so
  the AI's move is optimal under plain minimax.
- `Mouse` (`mouse.dfy`): the pixel-to-cell mapping, as written and
  corrected.
- `GameState` (`game.dfy`): the game record, reset, a move, and an
  invariant that every game reached by play satisfies and every transition
  keeps.

Representation choices:

- The board is a sequence of nine cells, row by row: cell (row, col) is at
  index `3 * row + col`. The game's codes 0/1/2 become `Empty`,
  `Mark(X)` and `Mark(O)`.
- The game seeds alpha, beta and the running best with floating-point
  infinities. Every score lies in [-10, 10], so the integer sentinel
  `Infinity = 1000` behaves the same.
- Where the game would stop with an uncaught exception, the model returns
  `None`. That is the click on the grid's right or bottom edge, and the
  unpacking of a missing best move, which the invariant rules out.
- The game's search writes a trial mark into the shared board, searches
  below it, then erases it. The model searches the board with the mark
  written (`Place`) instead. `ClearUndoesPlace` states that the erase
  restores the board exactly, which is what makes the two equivalent.

## Model

| member | source | states |
|---|---|---|
| BoardState.Other | tictactoe.py:363-364 | The turn switch `3 - p` maps each player's code to the other player's code and never returns the same player. |
| BoardState.WinsFor | tictactoe.py:512-531 | The per-player line test (rows, then columns, then both diagonals) holds exactly when one of the eight lines of an independent line table carries the player's mark in all three cells. |
| BoardState.LinesAgree | tictactoe.py:514-530 | The game's four groups of checks (three rows, three columns, two diagonals) together cover exactly the eight lines of the table. |
| GameState.CheckWinner | tictactoe.py:370-392 | The winner test for the player to move holds exactly when that player owns one of the eight lines. |
| BoardState.IsBoardFull | tictactoe.py:394-400 | The board is full exactly when none of its nine cells is empty. |
| BoardState.EmptyCellsFrom | tictactoe.py:406-413 | The scan from a given index lists only empty, valid cells at or after that index, lists every such cell, and lists them in strictly increasing row-major order. |
| BoardState.EmptyCells | tictactoe.py:406-413 | The list of empty cells holds every empty cell of the board and nothing else, each once, row by row and left to right. |
| BoardState.FullIffNoEmptyCells | tictactoe.py:394-413 | The full-board test and the empty-cell list agree: the board is full exactly when the list is empty. |
| BoardState.PlaceUsesOneEmpty | tictactoe.py:470-476 | Writing a mark into an empty cell removes exactly one empty cell, adds one mark for the mover and leaves the opponent's count unchanged; so the search terminates. |
| BoardState.ClearUndoesPlace | tictactoe.py:470-476 | Erasing the trial mark (setting the cell back to 0) restores the board the trial started from, cell for cell. |
| BoardState.PlaceNoOtherLine | tictactoe.py:331-333 | Writing one player's mark never completes a line for the other player. |
| BoardState.EmptyAtMostNine | tictactoe.py:131 | A nine-cell board has at most nine empty cells. |
| BoardState.CountUniform | tictactoe.py:131 | A board filled with one kind of cell counts that cell once per position and every other kind zero times. |
| BoardState.EmptyBoardClear | tictactoe.py:131 | The freshly created board has nine empty cells, no mark of either player and no completed line. |
| Engine.Minimax | tictactoe.py:451-510 | Whenever depth plus the number of empty cells is at most ten (every position the game searches), the pruned search's score lies within ±(10 - depth). |
| Engine.MaxLoop | tictactoe.py:464-486 | The maximiser's loop never returns less than its running best, and from any real score or the -inf seed it returns a score within ±(10 - depth). |
| Engine.MinLoop | tictactoe.py:488-510 | The minimiser's loop never returns more than its running best, and from any real score or the +inf seed it returns a score within ±(10 - depth). |
| Engine.ScoreBounded | tictactoe.py:547-550 | Every move's score, computed as `minimax(0, False)` after writing O, lies in [-10, 10], strictly above the -inf seed of the best-move loop. |
| Engine.BestFrom | tictactoe.py:541-560 | The best-move loop returns no move only when there was no move before and no cells are left; otherwise it returns a valid cell, either the previous choice or one of the cells it tried. |
| Engine.BestFromBest | tictactoe.py:545-558 | The strict `>` comparison gives a choice whose score is at least the running best and at least every tried cell's score, and strictly greater than the score of every tried cell that comes before it. |
| Engine.BestMove | tictactoe.py:533-560 | The AI returns no move exactly when no cell is empty. Otherwise its move is an empty cell whose score is maximal over all empty cells, and it is the first such cell in row-major order. |
| Pruning.MaxLoopStep | tictactoe.py:468-486 | If the window property holds for the first child and for the rest of the loop, it holds for the maximiser loop over all the cells. |
| Pruning.MinLoopStep | tictactoe.py:492-510 | If the window property holds for the first child and for the rest of the loop, it holds for the minimiser loop over all the cells. |
| Pruning.MaxLoopSound | tictactoe.py:464-486 | For any window inside the sentinels, the maximiser loop started at or below alpha returns the plain maximum when it lies inside the window, a value <= alpha when the maximum is <= alpha, and a value >= beta when the maximum is >= beta. |
| Pruning.MinLoopSound | tictactoe.py:488-510 | For any window inside the sentinels, the minimiser loop started at or above beta returns the plain minimum when it lies inside the window, a value <= alpha when the minimum is <= alpha, and a value >= beta when the minimum is >= beta. |
| Pruning.PruningSound | tictactoe.py:415-510 | For every window inside the sentinels, alpha-beta pruning returns the plain minimax value when that value lies strictly inside the window, and otherwise a value on the same side of the window. Pruning only skips branches that cannot affect the result. |
| Pruning.PruningExact | tictactoe.py:415 | With the default window (-inf, +inf), the window the game always starts with, the pruned search returns exactly the plain minimax value. |
| Pruning.BestMoveOptimal | tictactoe.py:533-560 | The AI's move is optimal under plain minimax: no empty cell has a greater unpruned value, and every earlier empty cell has a strictly smaller one. |
| Mouse.CellFromMouse | tictactoe.py:310-323 | The game's mapping returns a cell exactly for points on the grid rectangle with both bounds inclusive, namely the cell whose 150-pixel square holds the point. Row and column lie in 0..3, and the cell is on the board exactly when the point is strictly inside the grid. |
| Mouse.RightEdgeLeavesBoard | tictactoe.py:315-321 | Every point on the grid's right edge maps to column 3, which is not a board cell. |
| Mouse.CellFromMouseFixed | tictactoe.py:310-323 | With exclusive upper bounds, the mapping accepts exactly the points strictly inside the grid. Every accepted point lands on a real board cell that covers it, and the result agrees with the game's mapping. |
| GameState.ResetGame | tictactoe.py:127-141 | A new game has an empty board, X to move, the game running, no winner and the AI not thinking, and it satisfies the play invariant. |
| GameState.MakeMove | tictactoe.py:325-368 | A move on an occupied cell is refused and changes nothing. Otherwise exactly that cell receives the current player's mark. A completed line ends the game with the mover as winner; failing that, a full board ends it as a draw; otherwise the turn passes to the other player. |
| GameState.MakeMoveKeepsInvariant | tictactoe.py:325-368 | From a running game satisfying the invariant, any move keeps it. While the game runs there is no line, the board is not full, and X leads by one mark exactly when O is to move. Once the game is over, the recorded outcome is consistent with the board. |
| GameState.MoveOnEmptyCell | tictactoe.py:331-333 | A move on an empty cell is accepted and writes the mover's mark there. |
| GameState.PlayClick | tictactoe.py:589-596 | Once the click is mapped: refused clicks (game over, AI thinking, or O to move against the AI) and clicks off the grid change nothing. A board cell receives the move, with `make_move`'s outcome. A cell past the board makes the game fail. The invariant is kept whenever the game goes on. |
| GameState.HandleGameClick | tictactoe.py:589-596 | The click as the game runs it, through its own mapping. It fails exactly for an accepted click on the grid's right or bottom edge. A refused click, or one off the grid, leaves the game unchanged. An accepted click inside a board cell plays `make_move` there, and an empty cell receives the mover's mark. The invariant is kept. |
| GameState.HandleGameClickFixed | tictactoe.py:589-596 | The click through the corrected mapping never fails. It agrees with the game's click wherever that does not fail, changes nothing outside the grid, and keeps the invariant. |
| GameState.AiTurn | tictactoe.py:609-627 | Outside O's turn in a running game with the AI idle, nothing changes. On O's turn in a state satisfying the invariant, the AI always has a move, so the game's unchecked unpacking of `get_best_move()` cannot fail. That best move is played through `make_move`, which writes O into the chosen cell, and the invariant is kept. |
| GameState.ScenarioLead | tictactoe.py:325-368 | In the position O O X / X O X / X _ _, X holds four marks and O three. |
| GameState.ScenarioReachable | tictactoe.py:325-368 | With O to move, that position satisfies the play invariant, so play can reach it. |
| GameState.ScenarioWinScores | tictactoe.py:451-454 | In that position, O's mark at (2, 1) completes the middle column, and the move scores 10. |
| GameState.ScenarioBestMove | tictactoe.py:545-558 | In that position (2, 1) and (2, 2) both score 10. Because the comparison is strict, the AI picks (2, 1), the first in row-major order. |
| GameState.WinningMoveScenario | tictactoe.py:609-627 | Played through the AI's turn, that move ends the game with O as winner. |

Proof helpers with no row of their own, because they model no source line:

- `Pruning.MaxAllShift` and `Pruning.MinAllShift` pull a start value out of the unpruned fold.
- `Pruning.MaxStep` and `Pruning.MinStep` are the integer step of the window argument.
- `Pruning.MaxLoopUnfold` and `Pruning.MinLoopUnfold` unfold the loops one step.
- `GameState.CoversUnique` states that the cells' pixel squares do not overlap.

## Left out

- Rendering, fonts, colours, the window, the menu screen and the game-over screen (`draw_*`): pygame output with no game logic.
- Sounds, voices and `pygame.time.wait` delays in `make_move` and the AI turn; `load_assets`, `create_sounds.py` and `play.py`: audio, files and timing.
- The main loop's mode transitions (menu, R to restart, M for menu) and the quit event: these only call `reset_game` or change the screen mode. `AiTurn` models the AI turn of a game against the computer only. `HandleGameClick` takes the two-player flag as a parameter.
- The `ai_thinking` flag is set and cleared around the AI's move within one iteration of the loop. `AiTurn` does not model that flip: it acts only when the flag is clear, and leaves it clear.
- The in-place write/erase of trial marks on the shared board: it is modelled by searching a copy with the mark written, and `ClearUndoesPlace` shows the erase restores the board.
- Python's negative list indices in `make_move`: no caller passes a negative row or column, since the mouse mapping only yields coordinates at or right of/below the grid's offset. `MakeMove` requires a cell on the board.
- Pruning.PruningExact: stated for boards with at most ten plies left (depth plus empty cells at most ten), the only ones a search started at depth 0 reaches, because scores are bounded by the integer sentinel rather than a real infinity.
- A proof that the AI never loses a whole game: it would need the entire game tree's values, which is far beyond what the verifier can unfold.

## Findings

| source | as written | input that shows it | evidently intended | confidence | as-written member | corrected member |
|---|---|---|---|---|---|---|
| tictactoe.py:315-319 | The grid test uses `<=` on both upper bounds, so the last pixel column (x = 525) and row (y = 600) map to column or row 3; `make_move` then indexes `board[row][3]` or `board[3]` and raises IndexError. | a click at (525, 200) gives (row 0, col 3) | upper bounds exclusive: `x < GRID_OFFSET_X + CELL_SIZE * 3` and `y < GRID_OFFSET_Y + CELL_SIZE * 3` | not executed; follows from the integer arithmetic | Mouse.CellFromMouse, Mouse.RightEdgeLeavesBoard, GameState.HandleGameClick | Mouse.CellFromMouseFixed, GameState.HandleGameClickFixed |
