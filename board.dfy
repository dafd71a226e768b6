/** The N x N board, its cells and moves, and the pure queries over it:
    initialize_board, get_available_moves, is_winner and is_board_full. */
module Board {

  datatype Option<T> = None | Some(value: T)

  /** The two symbols, "X" and "O". */
  datatype Player = X | O

  /** A cell is " " (Empty) or holds one player's symbol. */
  datatype Cell = Empty | Mark(player: Player)

  /** A (row, col) coordinate, 0-indexed. */
  datatype Move = Move(row: nat, col: nat)

  /** A board as the list of its rows. */
  type Grid = seq<seq<Cell>>

  function Other(p: Player): (q: Player)
    ensures q != p
  {
    if p == X then O else X
  }

  /** Every board the game builds is square. */
  predicate IsBoard(g: Grid)
  {
    forall i :: 0 <= i < |g| ==> |g[i]| == |g|
  }

  predicate InBounds(g: Grid, m: Move)
  {
    m.row < |g| && m.col < |g[m.row]|
  }

  predicate IsEmptyAt(g: Grid, m: Move)
  {
    InBounds(g, m) && g[m.row][m.col] == Empty
  }

  /** `board[i][j] = p`: the board with player p's mark written at m. */
  function Place(g: Grid, m: Move, p: Player): (g': Grid)
    requires InBounds(g, m)
    ensures |g'| == |g| && (IsBoard(g) ==> IsBoard(g'))
    ensures forall i :: 0 <= i < |g| ==> |g'[i]| == |g[i]|
    ensures g'[m.row][m.col] == Mark(p)
    ensures forall i, j :: 0 <= i < |g| && 0 <= j < |g[i]| && (i != m.row || j != m.col) ==> g'[i][j] == g[i][j]
  {
    g[m.row := g[m.row][m.col := Mark(p)]]
  }

  // ---------------------------------------------------------------------------
  // initialize_board

  /** A fresh size x size board of empty cells. */
  function InitializeBoard(size: nat): (g: Grid)
    ensures IsBoard(g) && |g| == size
    ensures forall m :: IsEmptyAt(g, m) <==> m.row < size && m.col < size
    ensures size > 0 ==> !IsWinner(g, X) && !IsWinner(g, O)
    ensures size > 0 <==> !IsBoardFull(g)
  {
    var g := seq(size, _ => seq(size, _ => Empty));
    assert IsBoard(g);
    assert forall i, p :: 0 <= i < size ==> !RowFilled(g, i, p) && !ColFilled(g, i, p) by {
      forall i, p | 0 <= i < size ensures !RowFilled(g, i, p) && !ColFilled(g, i, p) {
        assert g[i][0] == Empty && g[0][i] == Empty;
      }
    }
    assert size > 0 ==> g[0][size - 1] == Empty;
    g
  }

  // ---------------------------------------------------------------------------
  // get_available_moves: the comprehension over i, then j, keeping the " " cells

  /** The moves (i, k), j <= k < |row|, whose cell in `row` is empty, in order of k. */
  function RowMoves(row: seq<Cell>, i: nat, j: nat): seq<Move>
    requires j <= |row|
    decreases |row| - j
  {
    if j == |row| then []
    else (if row[j] == Empty then [Move(i, j)] else []) + RowMoves(row, i, j + 1)
  }

  /** The empty cells of rows i, i+1, ..., in row-major order. */
  function MovesFrom(g: Grid, i: nat): seq<Move>
    requires i <= |g|
    decreases |g| - i
  {
    if i == |g| then [] else RowMoves(g[i], i, 0) + MovesFrom(g, i + 1)
  }

  function AvailableMoves(g: Grid): (ms: seq<Move>)
    requires IsBoard(g)
    ensures forall m :: m in ms ==> IsEmptyAt(g, m)
  {
    MovesFromSpec(g, 0);
    MovesFrom(g, 0)
  }

  /** Row-major order: a comes strictly before b. */
  predicate Before(a: Move, b: Move)
  {
    a.row < b.row || (a.row == b.row && a.col < b.col)
  }

  /** Strictly increasing in row-major order; in particular no move occurs twice. */
  predicate RowMajor(ms: seq<Move>)
  {
    forall a, b :: 0 <= a < b < |ms| ==> Before(ms[a], ms[b])
  }

  lemma RowMajorConcat(xs: seq<Move>, ys: seq<Move>)
    requires RowMajor(xs) && RowMajor(ys)
    requires forall x, y :: x in xs && y in ys ==> Before(x, y)
    ensures RowMajor(xs + ys)
  {
    var zs := xs + ys;
    forall a, b | 0 <= a < b < |zs| ensures Before(zs[a], zs[b]) {
      if b < |xs| {
        assert zs[a] == xs[a] && zs[b] == xs[b];
      } else if a >= |xs| {
        assert zs[a] == ys[a - |xs|] && zs[b] == ys[b - |xs|];
      } else {
        assert zs[a] == xs[a] && zs[b] == ys[b - |xs|];
        assert xs[a] in xs && ys[b - |xs|] in ys;
      }
    }
  }

  lemma {:induction false} RowMovesSpec(row: seq<Cell>, i: nat, j: nat)
    requires j <= |row|
    ensures forall m :: m in RowMoves(row, i, j) <==> m.row == i && j <= m.col < |row| && row[m.col] == Empty
    ensures RowMajor(RowMoves(row, i, j))
    decreases |row| - j
  {
    if j < |row| {
      RowMovesSpec(row, i, j + 1);
      var head := if row[j] == Empty then [Move(i, j)] else [];
      RowMajorConcat(head, RowMoves(row, i, j + 1));
    }
  }

  lemma {:induction false} MovesFromSpec(g: Grid, i: nat)
    requires i <= |g|
    ensures forall m :: m in MovesFrom(g, i) <==> i <= m.row < |g| && m.col < |g[m.row]| && g[m.row][m.col] == Empty
    ensures RowMajor(MovesFrom(g, i))
    decreases |g| - i
  {
    if i < |g| {
      RowMovesSpec(g[i], i, 0);
      MovesFromSpec(g, i + 1);
      RowMajorConcat(RowMoves(g[i], i, 0), MovesFrom(g, i + 1));
    }
  }

  /** get_available_moves lists exactly the empty cells, each once, in row-major order. */
  lemma AvailableMovesSpec(g: Grid)
    requires IsBoard(g)
    ensures forall m :: m in AvailableMoves(g) <==> IsEmptyAt(g, m)
    ensures RowMajor(AvailableMoves(g))
  {
    MovesFromSpec(g, 0);
  }

  lemma {:induction false} RowMovesPlaceCount(row: seq<Cell>, i: nat, j: nat, c: nat, v: Cell)
    requires j <= |row| && c < |row| && row[c] == Empty && v != Empty
    ensures |RowMoves(row[c := v], i, j)| == |RowMoves(row, i, j)| - (if j <= c then 1 else 0)
    decreases |row| - j
  {
    if j < |row| {
      RowMovesPlaceCount(row, i, j + 1, c, v);
    }
  }

  lemma {:induction false} MovesFromPlaceCount(g: Grid, i: nat, m: Move, p: Player)
    requires i <= |g| && IsEmptyAt(g, m)
    ensures |MovesFrom(Place(g, m, p), i)| == |MovesFrom(g, i)| - (if i <= m.row then 1 else 0)
    decreases |g| - i
  {
    if i < |g| {
      MovesFromPlaceCount(g, i + 1, m, p);
      var g' := Place(g, m, p);
      if i == m.row {
        assert g'[i] == g[i][m.col := Mark(p)];
        RowMovesPlaceCount(g[i], i, 0, m.col, Mark(p));
      } else {
        assert g'[i] == g[i];
      }
    }
  }

  /** Applying a move on an empty cell removes exactly one available move. */
  lemma PlaceShrinksMoves(g: Grid, m: Move, p: Player)
    requires IsBoard(g) && IsEmptyAt(g, m)
    ensures IsBoard(Place(g, m, p))
    ensures |AvailableMoves(Place(g, m, p))| == |AvailableMoves(g)| - 1
    ensures m !in AvailableMoves(Place(g, m, p)) && m in AvailableMoves(g)
  {
    MovesFromPlaceCount(g, 0, m, p);
    AvailableMovesSpec(g);
    AvailableMovesSpec(Place(g, m, p));
  }

  // ---------------------------------------------------------------------------
  // is_winner and is_board_full

  /** Row i is all p's (`all(cell == player for cell in row)`). */
  predicate RowFilled(g: Grid, i: nat, p: Player)
    requires i < |g|
  {
    forall j :: 0 <= j < |g[i]| ==> g[i][j] == Mark(p)
  }

  predicate ColFilled(g: Grid, c: nat, p: Player)
    requires IsBoard(g) && c < |g|
  {
    forall r :: 0 <= r < |g| ==> g[r][c] == Mark(p)
  }

  predicate DiagFilled(g: Grid, p: Player)
    requires IsBoard(g)
  {
    forall i :: 0 <= i < |g| ==> g[i][i] == Mark(p)
  }

  predicate AntiDiagFilled(g: Grid, p: Player)
    requires IsBoard(g)
  {
    forall i :: 0 <= i < |g| ==> g[i][|g| - i - 1] == Mark(p)
  }

  /** Some row, some column, the main diagonal or the anti-diagonal is entirely p's. */
  predicate IsWinner(g: Grid, p: Player)
    requires IsBoard(g)
  {
    (exists i :: 0 <= i < |g| && RowFilled(g, i, p))
    || (exists c :: 0 <= c < |g| && ColFilled(g, c, p))
    || DiagFilled(g, p)
    || AntiDiagFilled(g, p)
  }

  /** No cell of any row is " ". */
  predicate IsBoardFull(g: Grid)
  {
    forall i, j :: 0 <= i < |g| && 0 <= j < |g[i]| ==> g[i][j] != Empty
  }

  /** is_board_full(board) holds exactly when get_available_moves(board) is empty. */
  lemma FullIffNoMoves(g: Grid)
    requires IsBoard(g)
    ensures IsBoardFull(g) <==> AvailableMoves(g) == []
  {
    AvailableMovesSpec(g);
    if !IsBoardFull(g) {
      var i, j :| 0 <= i < |g| && 0 <= j < |g[i]| && g[i][j] == Empty;
      assert Move(i, j) in AvailableMoves(g);
    }
    if AvailableMoves(g) != [] {
      var m := AvailableMoves(g)[0];
      assert m in AvailableMoves(g);
      assert g[m.row][m.col] == Empty;
    }
  }

  // ---------------------------------------------------------------------------
  // The shared board as a two-dimensional array, and its value as a Grid

  /** The contents of the array as a list of rows. */
  function Snapshot(a: array2<Cell>): (g: Grid)
    reads a
    ensures |g| == a.Length0
    ensures forall i :: 0 <= i < a.Length0 ==> |g[i]| == a.Length1
    ensures forall i, j :: 0 <= i < a.Length0 && 0 <= j < a.Length1 ==> g[i][j] == a[i, j]
  {
    seq(a.Length0, i requires 0 <= i < a.Length0 reads a =>
      seq(a.Length1, j requires 0 <= j < a.Length1 reads a => a[i, j]))
  }

  lemma SnapshotIs(a: array2<Cell>, g: Grid)
    requires |g| == a.Length0
    requires forall i :: 0 <= i < |g| ==> |g[i]| == a.Length1
    requires forall i, j :: 0 <= i < a.Length0 && 0 <= j < a.Length1 ==> a[i, j] == g[i][j]
    ensures Snapshot(a) == g
  {
    var s := Snapshot(a);
    forall i | 0 <= i < |g| ensures s[i] == g[i] {
      assert |s[i]| == |g[i]|;
      forall j | 0 <= j < |g[i]| ensures s[i][j] == g[i][j] {
      }
    }
  }

  /** `board[i][j] = c` on the shared array, seen through Snapshot. */
  method SetCell(board: array2<Cell>, m: Move, c: Cell)
    requires m.row < board.Length0 && m.col < board.Length1
    modifies board
    ensures Snapshot(board) == old(Snapshot(board))[m.row := old(Snapshot(board))[m.row][m.col := c]]
  {
    ghost var g := Snapshot(board);
    ghost var g' := g[m.row := g[m.row][m.col := c]];
    board[m.row, m.col] := c;
    forall i, j | 0 <= i < board.Length0 && 0 <= j < board.Length1 ensures board[i, j] == g'[i][j] {
      if i != m.row || j != m.col {
        assert board[i, j] == old(board[i, j]);
      }
    }
    SnapshotIs(board, g');
  }

  /** Writing " " back over a trial move gives back the board it was played on. */
  lemma UndoPlace(g: Grid, m: Move, p: Player)
    requires IsEmptyAt(g, m)
    ensures var t := Place(g, m, p); t[m.row := t[m.row][m.col := Empty]] == g
  {
    var t := Place(g, m, p);
    assert t[m.row][m.col := Empty] == g[m.row];
  }
}
