/** The minimax evaluator: a full-depth search, without pruning, that scores a
    position +1, 0 or -1 from the AI's point of view. */
module Evaluator {
  import opened Board
  import opened WinLines

  /** The integer stand-ins for -inf and +inf that start the running best score. */
  function Sentinel(maximizing: bool): int
  {
    if maximizing then -2 else 2
  }

  /** The side that plays next: the AI when maximizing, the human otherwise. */
  function Mover(maximizing: bool, ai: Player, human: Player): Player
  {
    if maximizing then ai else human
  }

  function Max(a: int, b: int): int { if a >= b then a else b }

  function Min(a: int, b: int): int { if a <= b then a else b }

  /** The value minimax returns on board g: the terminal checks in their fixed order,
      then the best score over the available moves, folded left to right. */
  function Value(g: Grid, maximizing: bool, ai: Player, human: Player): (v: int)
    requires IsBoard(g)
    ensures -1 <= v <= 1
    decreases |AvailableMoves(g)|, 2
  {
    if IsWinner(g, ai) then 1
    else if IsWinner(g, human) then -1
    else if IsBoardFull(g) then 0
    else
      FullIffNoMoves(g);
      Best(g, AvailableMoves(g), maximizing, ai, human, Sentinel(maximizing))
  }

  /** best_score after the loop has also visited `moves`, starting from `acc`. */
  function Best(g: Grid, moves: seq<Move>, maximizing: bool, ai: Player, human: Player, acc: int): (r: int)
    requires IsBoard(g)
    requires forall m :: m in moves ==> IsEmptyAt(g, m)
    requires -1 <= acc <= 1 || acc == Sentinel(maximizing)
    ensures (moves != [] || -1 <= acc <= 1) ==> -1 <= r <= 1
    decreases |AvailableMoves(g)|, 1, |moves|
  {
    if moves == [] then acc
    else
      var s := ChildValue(g, moves[0], maximizing, ai, human);
      Best(g, moves[1..], maximizing, ai, human, if maximizing then Max(acc, s) else Min(acc, s))
  }

  /** The value of the position reached by playing m for the side to move. */
  function ChildValue(g: Grid, m: Move, maximizing: bool, ai: Player, human: Player): (v: int)
    requires IsBoard(g) && IsEmptyAt(g, m)
    ensures -1 <= v <= 1
    decreases |AvailableMoves(g)|, 0
  {
    PlaceShrinksMoves(g, m, Mover(maximizing, ai, human));
    Value(Place(g, m, Mover(maximizing, ai, human)), !maximizing, ai, human)
  }

  lemma {:induction false} BestBounds(g: Grid, moves: seq<Move>, maximizing: bool, ai: Player, human: Player, acc: int)
    requires IsBoard(g)
    requires forall m :: m in moves ==> IsEmptyAt(g, m)
    requires -1 <= acc <= 1 || acc == Sentinel(maximizing)
    ensures var r := Best(g, moves, maximizing, ai, human, acc);
      (maximizing ==> acc <= r && forall m :: m in moves ==> ChildValue(g, m, maximizing, ai, human) <= r)
      && (!maximizing ==> r <= acc && forall m :: m in moves ==> r <= ChildValue(g, m, maximizing, ai, human))
      && (r == acc || exists m :: m in moves && ChildValue(g, m, maximizing, ai, human) == r)
    decreases |moves|
  {
    if moves != [] {
      var s := ChildValue(g, moves[0], maximizing, ai, human);
      var acc' := if maximizing then Max(acc, s) else Min(acc, s);
      assert forall m :: m in moves[1..] ==> m in moves;
      BestBounds(g, moves[1..], maximizing, ai, human, acc');
      var r := Best(g, moves[1..], maximizing, ai, human, acc');
      assert Best(g, moves, maximizing, ai, human, acc) == r;
      assert forall m :: m in moves ==> m == moves[0] || m in moves[1..];
      assert maximizing ==> acc <= acc' && s <= acc';
      assert !maximizing ==> acc' <= acc && acc' <= s;
      if r != acc && r == acc' {
        assert moves[0] in moves;
        assert acc' == acc || acc' == s;
      }
    }
  }

  /** minimax's recurrence: the terminal checks come in a fixed order (an AI line, then a
      human line, then a full board), and otherwise the value is the maximum (AI to move)
      or the minimum (human to move) over the values of all moves available. */
  lemma ValueSpec(g: Grid, maximizing: bool, ai: Player, human: Player)
    requires IsBoard(g)
    ensures IsWinner(g, ai) ==> Value(g, maximizing, ai, human) == 1
    ensures !IsWinner(g, ai) && IsWinner(g, human) ==> Value(g, maximizing, ai, human) == -1
    ensures !IsWinner(g, ai) && !IsWinner(g, human) && IsBoardFull(g) ==> Value(g, maximizing, ai, human) == 0
    ensures !IsWinner(g, ai) && !IsWinner(g, human) && !IsBoardFull(g) ==>
      var v := Value(g, maximizing, ai, human);
      AvailableMoves(g) != []
      && (forall m :: m in AvailableMoves(g) ==>
            if maximizing then ChildValue(g, m, maximizing, ai, human) <= v
            else v <= ChildValue(g, m, maximizing, ai, human))
      && (exists m :: m in AvailableMoves(g) && ChildValue(g, m, maximizing, ai, human) == v)
  {
    if !IsWinner(g, ai) && !IsWinner(g, human) && !IsBoardFull(g) {
      FullIffNoMoves(g);
      BestBounds(g, AvailableMoves(g), maximizing, ai, human, Sentinel(maximizing));
    }
  }

  /** Swapping the two players and the side to move negates the value, on every board where
      the two players do not both already have a line. */
  lemma {:induction false} ValueSwap(g: Grid, maximizing: bool, a: Player, b: Player)
    requires IsBoard(g) && a != b
    requires !(IsWinner(g, a) && IsWinner(g, b))
    ensures Value(g, maximizing, a, b) == -Value(g, !maximizing, b, a)
    decreases |AvailableMoves(g)|, 2
  {
    if !IsWinner(g, a) && !IsWinner(g, b) && !IsBoardFull(g) {
      FullIffNoMoves(g);
      BestSwap(g, AvailableMoves(g), maximizing, a, b, Sentinel(maximizing));
    }
  }

  lemma {:induction false} BestSwap(g: Grid, moves: seq<Move>, maximizing: bool, a: Player, b: Player, acc: int)
    requires IsBoard(g) && a != b
    requires !IsWinner(g, a) && !IsWinner(g, b)
    requires forall m :: m in moves ==> IsEmptyAt(g, m)
    requires -1 <= acc <= 1 || acc == Sentinel(maximizing)
    ensures Best(g, moves, maximizing, a, b, acc) == -Best(g, moves, !maximizing, b, a, -acc)
    decreases |AvailableMoves(g)|, 1, |moves|
  {
    if moves != [] {
      var m := moves[0];
      ChildSwap(g, m, maximizing, a, b);
      var s := ChildValue(g, m, maximizing, a, b);
      var s' := ChildValue(g, m, !maximizing, b, a);
      var acc' := if maximizing then Max(acc, s) else Min(acc, s);
      var acc'' := if !maximizing then Max(-acc, s') else Min(-acc, s');
      assert acc'' == -acc';
      assert forall m' :: m' in moves[1..] ==> m' in moves;
      BestSwap(g, moves[1..], maximizing, a, b, acc');
      assert Best(g, moves, maximizing, a, b, acc) == Best(g, moves[1..], maximizing, a, b, acc');
      assert Best(g, moves, !maximizing, b, a, -acc) == Best(g, moves[1..], !maximizing, b, a, acc'');
    }
  }

  lemma {:induction false} ChildSwap(g: Grid, m: Move, maximizing: bool, a: Player, b: Player)
    requires IsBoard(g) && a != b && IsEmptyAt(g, m)
    requires !IsWinner(g, a) && !IsWinner(g, b)
    ensures ChildValue(g, m, maximizing, a, b) == -ChildValue(g, m, !maximizing, b, a)
    decreases |AvailableMoves(g)|, 0
  {
    var p := Mover(maximizing, a, b);
    PlaceShrinksMoves(g, m, p);
    PlaceKeepsOtherLoser(g, m, p, if p == a then b else a);
    ValueSwap(Place(g, m, p), !maximizing, a, b);
  }

  /** One round of the search loop: the running best score absorbs the value of moves[k]. */
  lemma BestStep(g: Grid, moves: seq<Move>, k: nat, maximizing: bool, ai: Player, human: Player, acc: int)
    requires IsBoard(g)
    requires forall m :: m in moves ==> IsEmptyAt(g, m)
    requires k < |moves|
    requires -1 <= acc <= 1 || acc == Sentinel(maximizing)
    ensures var s := ChildValue(g, moves[k], maximizing, ai, human);
      Best(g, moves[k..], maximizing, ai, human, acc)
      == Best(g, moves[k + 1..], maximizing, ai, human, if maximizing then Max(acc, s) else Min(acc, s))
  {
    assert moves[k..][0] == moves[k];
    assert moves[k..][1..] == moves[k + 1..];
  }

  /** minimax(board, depth, is_maximizing, ai, human): tries every available move in place,
      writing the mover's mark, recursing and writing " " back. The depth argument is
      carried along but never consulted. */
  method Minimax(board: array2<Cell>, depth: int, isMaximizing: bool, ai: Player, human: Player)
    returns (score: int)
    requires board.Length0 == board.Length1
    modifies board
    ensures score == Value(old(Snapshot(board)), isMaximizing, ai, human)
    ensures Snapshot(board) == old(Snapshot(board))
    decreases |AvailableMoves(Snapshot(board))|
  {
    ghost var g := Snapshot(board);
    if IsWinner(Snapshot(board), ai) {
      return 1;
    }
    if IsWinner(Snapshot(board), human) {
      return -1;
    }
    if IsBoardFull(Snapshot(board)) {
      return 0;
    }
    var moves := AvailableMoves(Snapshot(board));
    AvailableMovesSpec(g);
    var mover := Mover(isMaximizing, ai, human);
    var best := Sentinel(isMaximizing);
    for k := 0 to |moves|
      invariant Snapshot(board) == g
      invariant -1 <= best <= 1 || best == Sentinel(isMaximizing)
      invariant Best(g, moves[k..], isMaximizing, ai, human, best) == Value(g, isMaximizing, ai, human)
    {
      var m := moves[k];
      assert m in moves;
      BestStep(g, moves, k, isMaximizing, ai, human, best);
      PlaceShrinksMoves(g, m, mover);
      SetCell(board, m, Mark(mover));
      var s := Minimax(board, depth + 1, !isMaximizing, ai, human);
      assert s == ChildValue(g, m, isMaximizing, ai, human);
      SetCell(board, m, Empty);
      UndoPlace(g, m, mover);
      best := if isMaximizing then Max(best, s) else Min(best, s);
    }
    assert moves[|moves|..] == [];
    return best;
  }
}
