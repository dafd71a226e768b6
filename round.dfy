/** The round bookkeeping that the window callbacks perform: placing a symbol
    (cell_click), the computer's turn (computer_move), and starting a new round
    (reset_board). The module-level variables of the game become the fields of a
    Session. */
module Round {
  import opened Board
  import opened WinLines
  import opened Selection

  datatype Mode = PvP | PvC

  /** What a click leads to. `Continue(aiScheduled)` says whether the computer's move is
      now due (`cell_click` schedules it with `root.after`). */
  datatype ClickOutcome =
    | Ignored
    | Won(winner: Player, cells: seq<Move>)
    | Tie
    | Continue(aiScheduled: bool)

  class Session {
    var board: array2<Cell>
    var size: nat
    var mode: Mode
    var difficulty: int
    var loserStarts: bool
    var current: Player
    var lastLoser: Option<Player>
    var scores: map<Player, nat>

    ghost predicate Valid()
      reads this
    {
      board.Length0 == size && board.Length1 == size && forall p: Player :: p in scores
    }

    /** start_game after the main menu has cleared the scores and the recorded loser. */
    constructor (mode: Mode, size: nat, difficulty: int, loserToggle: bool)
      ensures Valid() && fresh(board)
      ensures this.mode == mode && this.size == size && this.difficulty == difficulty
      ensures loserStarts == loserToggle
      ensures scores == map[X := 0, O := 0] && lastLoser == None
      ensures current == X
      ensures Snapshot(board) == InitializeBoard(size)
    {
      this.mode := mode;
      this.size := size;
      this.difficulty := difficulty;
      loserStarts := loserToggle;
      scores := map[X := 0, O := 0];
      lastLoser := None;
      current := X;
      board := new Cell[size, size]((i, j) => Empty);
      new;
      SnapshotIs(board, InitializeBoard(size));
      forall p: Player ensures p in scores {
        if p == X {} else {}
      }
    }

    /** reset_board: the recorded loser starts when the option is on and there is one,
        otherwise X starts; the board is replaced by an empty one. Returns whether the
        computer's first move is due. */
    method ResetBoard() returns (aiFirst: bool)
      requires Valid()
      modifies this
      ensures Valid() && fresh(board)
      ensures current == (if loserStarts && lastLoser != None then lastLoser.value else X)
      ensures Snapshot(board) == InitializeBoard(size)
      ensures aiFirst == (mode == PvC && current == O)
      ensures size == old(size) && mode == old(mode) && difficulty == old(difficulty)
      ensures loserStarts == old(loserStarts) && lastLoser == old(lastLoser) && scores == old(scores)
    {
      if loserStarts && lastLoser != None {
        current := lastLoser.value;
      } else {
        current := X;
      }
      board := new Cell[size, size]((i, j) => Empty);
      SnapshotIs(board, InitializeBoard(size));
      aiFirst := mode == PvC && current == O;
    }

    /** cell_click(row, col, by_ai). */
    method CellClick(row: nat, col: nat, byAi: bool) returns (outcome: ClickOutcome)
      requires Valid() && row < size && col < size
      modifies this, board
      ensures Valid() && board == old(board)
      ensures size == old(size) && mode == old(mode) && difficulty == old(difficulty)
      ensures loserStarts == old(loserStarts)
      // a human click while the computer is to move, or a click on a taken cell, changes nothing
      ensures (!byAi && mode == PvC && old(current) == O) || old(Snapshot(board))[row][col] != Empty ==>
        outcome == Ignored && Snapshot(board) == old(Snapshot(board))
        && current == old(current) && lastLoser == old(lastLoser) && scores == old(scores)
      ensures !(!byAi && mode == PvC && old(current) == O) && old(Snapshot(board))[row][col] == Empty ==>
        var symbol := if byAi then O else old(current);
        var g := Place(old(Snapshot(board)), Move(row, col), symbol);
        Snapshot(board) == g
        && (IsWinner(g, symbol) ==>
              outcome.Won? && outcome.winner == symbol
              && |outcome.cells| == size && IsLine(size, outcome.cells) && Holds(g, outcome.cells, symbol)
              && LastHolding(g, ScanOrder(size), symbol, outcome.cells)
              && scores == old(scores)[symbol := old(scores)[symbol] + 1]
              && lastLoser == Some(Other(symbol)) && current == old(current))
        && (!IsWinner(g, symbol) && IsBoardFull(g) ==>
              outcome == Tie && lastLoser == None && scores == old(scores) && current == old(current))
        && (!IsWinner(g, symbol) && !IsBoardFull(g) ==>
              current == (if byAi then X else Other(old(current)))
              && outcome == Continue(mode == PvC && current == O)
              && lastLoser == old(lastLoser) && scores == old(scores))
    {
      if !byAi && mode == PvC && current == O {
        return Ignored;
      }
      if board[row, col] != Empty {
        return Ignored;
      }
      var symbol := if byAi then O else current;
      SetCell(board, Move(row, col), Mark(symbol));
      var g := Snapshot(board);
      if IsWinner(g, symbol) {
        scores := scores[symbol := scores[symbol] + 1];
        var cells := WinCells(g, symbol);
        lastLoser := Some(Other(symbol));
        return Won(symbol, cells);
      } else if IsBoardFull(g) {
        lastLoser := None;
        return Tie;
      }
      current := if byAi then X else Other(current);
      outcome := Continue(mode == PvC && current == O);
    }

    /** computer_move: the computer ("O") picks a move against "X" at the session's
        difficulty and, when there is one, plays it as an AI click. `coin` and `pick` stand
        for the random draws of the move choice. */
    method ComputerMove(coin: bool, pick: nat) returns (move: Option<Move>, outcome: ClickOutcome)
      requires Valid()
      modifies this, board
      ensures Valid() && board == old(board)
      ensures size == old(size) && mode == old(mode) && difficulty == old(difficulty)
      ensures loserStarts == old(loserStarts)
      ensures AvailableMoves(old(Snapshot(board))) == [] ==>
        move == None && outcome == Ignored && Snapshot(board) == old(Snapshot(board))
        && current == old(current) && lastLoser == old(lastLoser) && scores == old(scores)
      ensures AvailableMoves(old(Snapshot(board))) != [] ==>
        move != None && move.value in AvailableMoves(old(Snapshot(board)))
        && Snapshot(board) == Place(old(Snapshot(board)), move.value, O)
        && outcome != Ignored
      // the move is best_ai_move's choice for "O" against "X" at the session's difficulty
      ensures var g := old(Snapshot(board)); var ms := AvailableMoves(g);
        (ms != [] && (difficulty == 1 || (difficulty == 2 && coin)) ==> move == Some(ms[pick % |ms|]))
        && (ms != [] && difficulty != 1 && !(difficulty == 2 && coin) ==>
              exists j: nat :: FirstBest(g, ms, |ms|, j, O, X) && move == Some(ms[j]))
      // and the AI click records the result of the move
      ensures move != None ==>
        var g := Snapshot(board);
        (IsWinner(g, O) ==>
           outcome.Won? && outcome.winner == O && IsLine(size, outcome.cells) && Holds(g, outcome.cells, O)
           && scores == old(scores)[O := old(scores)[O] + 1] && lastLoser == Some(X) && current == old(current))
        && (!IsWinner(g, O) && IsBoardFull(g) ==>
              outcome == Tie && lastLoser == None && scores == old(scores) && current == old(current))
        && (!IsWinner(g, O) && !IsBoardFull(g) ==>
              current == X && outcome == Continue(false) && lastLoser == old(lastLoser) && scores == old(scores))
    {
      move := BestAiMove(board, difficulty, O, X, coin, pick);
      if move != None {
        AvailableMovesSpec(old(Snapshot(board)));
        outcome := CellClick(move.value.row, move.value.col, true);
      } else {
        outcome := Ignored;
      }
    }
  }
}
