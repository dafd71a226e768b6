/** Move selection: best_minimax_move, which scores every candidate with minimax and
    keeps the first best one, and best_ai_move, which picks by difficulty. */
module Selection {
  import opened Board
  import opened Evaluator

  /** The score best_minimax_move gives candidate m: minimax on the board with the AI's
      mark at m, the human to move next. */
  function MoveScore(g: Grid, m: Move, ai: Player, human: Player): (v: int)
    requires IsBoard(g) && IsEmptyAt(g, m)
  {
    ChildValue(g, m, true, ai, human)
  }

  /** Among the first k candidates of ms, ms[j] has the highest score, and every candidate
      before it scores strictly less. */
  predicate FirstBest(g: Grid, ms: seq<Move>, k: nat, j: nat, ai: Player, human: Player)
    requires IsBoard(g) && k <= |ms|
    requires forall m :: m in ms ==> IsEmptyAt(g, m)
  {
    j < k
    && (forall t :: 0 <= t < k ==> MoveScore(g, ms[t], ai, human) <= MoveScore(g, ms[j], ai, human))
    && (forall t :: 0 <= t < j ==> MoveScore(g, ms[t], ai, human) < MoveScore(g, ms[j], ai, human))
  }

  /** One round of best_minimax_move's loop: candidate k replaces the kept one exactly when
      it scores strictly higher (or when nothing is kept yet). */
  lemma FirstBestStep(g: Grid, ms: seq<Move>, k: nat, j: nat, ai: Player, human: Player)
    requires IsBoard(g) && k < |ms|
    requires forall m :: m in ms ==> IsEmptyAt(g, m)
    requires k > 0 ==> FirstBest(g, ms, k, j, ai, human)
    ensures k == 0 || MoveScore(g, ms[k], ai, human) > MoveScore(g, ms[j], ai, human) ==>
      FirstBest(g, ms, k + 1, k, ai, human)
    ensures k > 0 && MoveScore(g, ms[k], ai, human) <= MoveScore(g, ms[j], ai, human) ==>
      FirstBest(g, ms, k + 1, j, ai, human)
  {
  }

  /** The first-best candidate is unique, so best_minimax_move's result is determined by the
      board alone. */
  lemma FirstBestUnique(g: Grid, ms: seq<Move>, k: nat, j1: nat, j2: nat, ai: Player, human: Player)
    requires IsBoard(g) && k <= |ms|
    requires forall m :: m in ms ==> IsEmptyAt(g, m)
    requires FirstBest(g, ms, k, j1, ai, human) && FirstBest(g, ms, k, j2, ai, human)
    ensures j1 == j2
  {
    var s1 := MoveScore(g, ms[j1], ai, human);
    var s2 := MoveScore(g, ms[j2], ai, human);
    assert s1 <= s2 && s2 <= s1;
  }

  /** When the board is not already decided, the move best_minimax_move keeps scores exactly
      the minimax value of the board with the AI to move. */
  lemma FirstBestIsMinimaxValue(g: Grid, j: nat, ai: Player, human: Player)
    requires IsBoard(g)
    requires !IsWinner(g, ai) && !IsWinner(g, human) && !IsBoardFull(g)
    requires FirstBest(g, AvailableMoves(g), |AvailableMoves(g)|, j, ai, human)
    ensures MoveScore(g, AvailableMoves(g)[j], ai, human) == Value(g, true, ai, human)
  {
    var ms := AvailableMoves(g);
    ValueSpec(g, true, ai, human);
    var w :| w in ms && ChildValue(g, w, true, ai, human) == Value(g, true, ai, human);
    var t :| 0 <= t < |ms| && ms[t] == w;
    assert ms[j] in ms;
  }

  /** A move that completes a line for the AI at once scores 1, so the kept move scores 1:
      the search never misses a win in one. */
  lemma ImmediateWinIsFound(g: Grid, j: nat, w: Move, ai: Player, human: Player)
    requires IsBoard(g)
    requires FirstBest(g, AvailableMoves(g), |AvailableMoves(g)|, j, ai, human)
    requires w in AvailableMoves(g) && IsWinner(Place(g, w, ai), ai)
    ensures MoveScore(g, AvailableMoves(g)[j], ai, human) == 1
  {
    var ms := AvailableMoves(g);
    var t :| 0 <= t < |ms| && ms[t] == w;
    PlaceShrinksMoves(g, w, ai);
    ValueSpec(Place(g, w, ai), false, ai, human);
    assert MoveScore(g, ms[t], ai, human) == 1;
  }

  /** best_minimax_move(board, ai, human, depth_limit): tries each empty cell in row-major
      order, scores it with minimax and keeps it only on a strictly higher score. The
      depth limit is accepted but never consulted. */
  method BestMinimaxMove(board: array2<Cell>, ai: Player, human: Player, depthLimit: Option<int>)
    returns (best: Option<Move>)
    requires board.Length0 == board.Length1
    modifies board
    ensures Snapshot(board) == old(Snapshot(board))
    ensures var g := old(Snapshot(board)); var ms := AvailableMoves(g);
      (best == None <==> ms == [])
      && (best != None ==> best.value in ms)
      && (best != None ==> exists j: nat :: FirstBest(g, ms, |ms|, j, ai, human) && best == Some(ms[j]))
  {
    ghost var g := Snapshot(board);
    var bestScore := -2;
    best := None;
    ghost var bestIndex: nat := 0;
    var moves := AvailableMoves(Snapshot(board));
    for k := 0 to |moves|
      invariant Snapshot(board) == g
      invariant k == 0 ==> bestScore == -2 && best == None
      invariant k > 0 ==>
        FirstBest(g, moves, k, bestIndex, ai, human) && best == Some(moves[bestIndex])
        && bestScore == MoveScore(g, moves[bestIndex], ai, human)
    {
      var m := moves[k];
      assert m in moves;
      FirstBestStep(g, moves, k, bestIndex, ai, human);
      PlaceShrinksMoves(g, m, ai);
      SetCell(board, m, Mark(ai));
      var score := Minimax(board, 0, false, ai, human);
      assert score == MoveScore(g, m, ai, human);
      SetCell(board, m, Empty);
      UndoPlace(g, m, ai);
      if score > bestScore {
        bestScore := score;
        best := Some(m);
        bestIndex := k;
      }
    }
  }

  /** best_ai_move(board, difficulty, ai, human). The two random draws of best_ai_move are
      parameters: `coin` is the outcome of `random.random() < 0.5`, and `pick` selects the
      candidate that `random.choice` returns. Difficulty 1 is Easy, 2 is Medium, and
      anything else is Hard. */
  method BestAiMove(board: array2<Cell>, difficulty: int, ai: Player, human: Player, coin: bool, pick: nat)
    returns (move: Option<Move>)
    requires board.Length0 == board.Length1
    modifies board
    ensures Snapshot(board) == old(Snapshot(board))
    ensures var g := old(Snapshot(board)); var ms := AvailableMoves(g);
      (move == None <==> ms == [])
      && (move != None ==> move.value in ms)
      && (ms != [] && (difficulty == 1 || (difficulty == 2 && coin)) ==> move == Some(ms[pick % |ms|]))
      && (ms != [] && difficulty != 1 && !(difficulty == 2 && coin) ==>
            exists j: nat :: FirstBest(g, ms, |ms|, j, ai, human) && move == Some(ms[j]))
  {
    var moves := AvailableMoves(Snapshot(board));
    if moves == [] {
      return None;
    }
    if difficulty == 1 {
      move := Some(moves[pick % |moves|]);
    } else if difficulty == 2 {
      if coin {
        move := Some(moves[pick % |moves|]);
      } else {
        move := BestMinimaxMove(board, ai, human, Some(board.Length0 - 1));
      }
    } else {
      move := BestMinimaxMove(board, ai, human, None);
    }
  }
}
