# Tic-tac-toe game engine: a verified Dafny model

This project models the game logic of an N×N tic-tac-toe program written in Python with a tkinter window. The model covers:

- the board and its queries: `initialize_board`, `get_available_moves`, `is_winner`, `is_board_full`;
- the minimax evaluator `minimax`, a full-depth search without pruning;
- the move selectors `best_minimax_move` and `best_ai_move`;
- the round bookkeeping inside the window callbacks:
  - `cell_click` places a symbol, records a win or a tie, and switches turns;
  - `computer_move` plays the computer's move;
  - `highlight_winner` extracts the winning cells;
  - `reset_board` picks the starting player;
  - `start_game` sets up a session.

Modules, one per component:

- `Board` (board.dfy) defines the board and its queries:
  - cells are `Empty` or `Mark(X | O)`, and a board is a `Grid` (a list of rows);
  - `InitializeBoard`, `AvailableMoves`, `IsWinner` and `IsBoardFull` are the pure queries;
  - the shared game board is an `array2<Cell>`, and `Snapshot` reads it as a `Grid`;
  - `SetCell` is the in-place write `board[i][j] = c`.
- `WinLines` (lines.dfy) describes the lines of the board:
  - every row, column and diagonal as a list of coordinates;
  - the line-based reading of `is_winner`;
  - the `win_cells` loop of `highlight_winner`, as the method `WinCells`.
- `Evaluator` (minimax.dfy) holds the evaluator:
  - `Value` is the specification of the minimax score. It applies `minimax`'s terminal checks in their order and then folds the best score over the available moves, as `minimax`'s loops do.
  - `Minimax` is the search itself, written in place on the `array2`. Each trial mark is written, the search recurses, and the cell is written back to `Empty`. The method is proved to return `Value` of the board it was given and to leave the board exactly as it found it.
- `Selection` (selection.dfy) holds `BestMinimaxMove` and `BestAiMove`. Both work in place on the `array2` and leave it unchanged.
- `Round` (round.dfy) holds the class `Session`:
  - its fields are the game's module-level variables (`board`, `current_player`, `last_loser`, `player_scores`, `mode`, `board_size`, `ai_difficulty`, `loser_starts_toggle`);
  - its methods are `cell_click`, `computer_move` and `reset_board`.

The search terminates because every recursive call is made on a board with one fewer available move (`PlaceShrinksMoves`).

Two details of the code shape the model:

- **Scan order of `highlight_winner`.** It tests row i and then column i for each i, then the main diagonal, then the anti-diagonal. The last complete line is kept (tic_tac_toe.py:281-289).
- **Medium difficulty.** `best_ai_move` passes `depth_limit=len(board) - 1` for Medium (tic_tac_toe.py:100). But `best_minimax_move` never reads `depth_limit`, and `minimax` never reads `depth`. So Medium's search branch plays exactly as Hard.

## Model

| member | source | states |
|---|---|---|
| Board.InitializeBoard | tic_tac_toe.py:20-22 | The result is a square board of the given size whose empty cells are exactly the in-range coordinates; a board of size at least 1 has no winner and is full exactly when its size is 0 |
| Board.AvailableMovesSpec | tic_tac_toe.py:25-27 | A coordinate is listed exactly when it names an empty cell, and the list is strictly increasing in row-major order, so every empty cell appears once and in the comprehension's order |
| Board.FullIffNoMoves | tic_tac_toe.py:53-55 | is_board_full holds exactly when get_available_moves is empty |
| Board.PlaceShrinksMoves | tic_tac_toe.py:72-74 | Writing a mark on an available cell removes exactly that move from the available moves, so their number drops by one (the measure on which the search terminates) |
| Board.UndoPlace | tic_tac_toe.py:73-75 | Writing " " back over a trial mark gives back exactly the board the mark was written on |
| WinLines.WinnerIffLine | tic_tac_toe.py:30-50 | is_winner(board, p) holds exactly when some line (one of the n rows, one of the n columns, the main diagonal or the anti-diagonal, each as its n coordinates) has p in every cell |
| WinLines.PlaceKeepsOtherLoser | tic_tac_toe.py:30-50 | Writing p's mark on an empty cell never gives a different player a winning line that was not there before |
| WinLines.ScanOrderIsLines | tic_tac_toe.py:281-289 | The cells tested by highlight_winner (row i and column i for each i, then both diagonals) are exactly the lines of the board |
| WinLines.WinCells | tic_tac_toe.py:281-289 | win_cells is the last line in scan order that is entirely the player's. When is_winner holds, it has exactly n coordinates, forms a row, column or diagonal, and every cell holds the player; otherwise it is empty |
| Evaluator.Value | tic_tac_toe.py:58-85 | The minimax score of every square board, for either side to move, is -1, 0 or 1 |
| Evaluator.ValueSpec | tic_tac_toe.py:63-85 | An AI line scores 1 before a human line is checked (-1), both before fullness (0). Otherwise there are available moves, and the score is the maximum (AI to move) or minimum (human to move) of the scores after each available move, attained by one of them |
| Evaluator.ValueSwap | tic_tac_toe.py:58-85 | Exchanging the AI and human symbols and the side to move negates the score, on every board where the two do not both already have a line |
| Evaluator.Minimax | tic_tac_toe.py:58-85 | The in-place search returns the minimax score of the board it was given, and on return the board is identical to the board on entry, since every trial write is undone |
| Selection.BestMinimaxMove | tic_tac_toe.py:105-116 | None exactly when there are no empty cells. Otherwise the result is an available move whose score is the maximum over all candidates, and every earlier candidate scores strictly less. The board is unchanged afterwards |
| Selection.FirstBestUnique | tic_tac_toe.py:109-115 | Only one candidate can be the earliest best-scoring one, so best_minimax_move's result depends on the board alone, and not on depth_limit |
| Selection.FirstBestIsMinimaxValue | tic_tac_toe.py:105-116 | On an undecided board, the move kept by best_minimax_move scores exactly the minimax value of the board with the AI to move |
| Selection.ImmediateWinIsFound | tic_tac_toe.py:105-116 | When some available move completes a line for the AI, the kept move scores 1, so a win in one move is never missed |
| Selection.BestAiMove | tic_tac_toe.py:88-102 | None exactly when there are no available moves, otherwise a member of them. Easy, and Medium when the coin says random, return the drawn candidate; otherwise the result is best_minimax_move's. The board is unchanged |
| Round.Session.constructor | tic_tac_toe.py:120-132 | A new session stores its settings, starts with zero scores, no recorded loser, X to move and an empty board of the chosen size |
| Round.Session.ResetBoard | tic_tac_toe.py:297-312 | The recorded loser starts only when the toggle is on and a loser is recorded, otherwise X starts. The board becomes a fresh empty board of the session's size, and the computer's move is due exactly when playing the computer and O starts |
| Round.Session.CellClick | tic_tac_toe.py:233-265 | Each outcome of a click has its own effect. (1) A human click during the computer's turn changes nothing, and so does a click on an occupied cell. (2) Otherwise the symbol is written. (3) A win increments the winner's score, records the other symbol as loser, keeps the turn and reports the winning cells. (4) A full board without a winner records no loser. (5) Otherwise the turn passes, and the result says whether the computer's move is now due |
| Round.Session.ComputerMove | tic_tac_toe.py:268-272 | With no available move nothing changes. Otherwise O is written on an available move. At Easy, and at Medium when the coin says random, that move is the drawn candidate; otherwise it is the earliest best-scoring candidate for O against X. The AI click then records the result: a win for O scores it and records X as loser, a full board records no loser, and otherwise X is to move and no computer move is due |

## Left out

- The window is not modelled: widgets, message boxes, the score and name labels, `show_main_menu`, `show_name_input`, `show_game_screen`, `clear_window` and `get_player_name`. They only render state and collect input.
- Timer scheduling of `computer_move` through `root.after` is not modelled. `CellClick` and `ResetBoard` instead report whether the computer's move is due, and the caller then calls `ComputerMove` directly.
- Random draws are parameters, not random values:
  - `coin` stands for `random.random() < 0.5`;
  - `pick` stands for the candidate `random.choice` returns, as an index taken modulo the number of moves.

  Only membership in the available moves can be stated, not the uniform distribution.
- The `±inf` starting scores are the integers -2 and 2, which lie outside {-1, 0, 1}. No floating point is modelled.
- Cells can only be " ", "X" or "O", because they are a datatype. Strings other than these cannot appear on the board.
- All boards are square (`IsBoard`). `CellClick` requires an in-range cell, since the window only creates buttons for cells on the board.
- `minimax` has two loops, one for the AI to move and one for the human. The model uses one loop: it writes the mark of the side to move and keeps the maximum or the minimum, as that side requires.
- Properties of whole games on concrete boards are not proved:
  - that Hard against Hard on an empty 3×3 board always draws;
  - the blocking scenario.

  A full search on a concrete board is too large for the verifier. The general lemma `ImmediateWinIsFound` covers the win-in-one scenario.
- Running time on 4×4 and 5×5 boards is not modelled. Only termination is proved.
