/** The lines of an N x N board as lists of coordinates, the line-based reading
    of is_winner, and the win_cells extraction of highlight_winner. */
module WinLines {
  import opened Board

  function RowLine(n: nat, i: nat): (l: seq<Move>)
  {
    seq(n, j requires 0 <= j < n => Move(i, j))
  }

  function ColLine(n: nat, c: nat): (l: seq<Move>)
  {
    seq(n, j requires 0 <= j < n => Move(j, c))
  }

  function DiagLine(n: nat): (l: seq<Move>)
  {
    seq(n, j requires 0 <= j < n => Move(j, j))
  }

  function AntiDiagLine(n: nat): (l: seq<Move>)
  {
    seq(n, j requires 0 <= j < n => Move(j, n - j - 1))
  }

  /** L is one full row, one full column, the main diagonal or the anti-diagonal of an n x n board. */
  predicate IsLine(n: nat, l: seq<Move>)
  {
    (exists i :: 0 <= i < n && l == RowLine(n, i))
    || (exists c :: 0 <= c < n && l == ColLine(n, c))
    || l == DiagLine(n)
    || l == AntiDiagLine(n)
  }

  /** Every cell named in l is on the board and holds p. */
  predicate Holds(g: Grid, l: seq<Move>, p: Player)
  {
    forall k :: 0 <= k < |l| ==> InBounds(g, l[k]) && g[l[k].row][l[k].col] == Mark(p)
  }

  lemma LineLength(n: nat, l: seq<Move>)
    requires IsLine(n, l)
    ensures |l| == n
  {
  }

  /** is_winner holds exactly when some line of the board is entirely the player's. */
  lemma WinnerIffLine(g: Grid, p: Player)
    requires IsBoard(g)
    ensures IsWinner(g, p) <==> exists l :: IsLine(|g|, l) && Holds(g, l, p)
  {
    var n := |g|;
    if IsWinner(g, p) {
      if i :| 0 <= i < n && RowFilled(g, i, p) {
        assert IsLine(n, RowLine(n, i)) && Holds(g, RowLine(n, i), p);
      } else if c :| 0 <= c < n && ColFilled(g, c, p) {
        assert IsLine(n, ColLine(n, c)) && Holds(g, ColLine(n, c), p);
      } else if DiagFilled(g, p) {
        assert IsLine(n, DiagLine(n)) && Holds(g, DiagLine(n), p);
      } else {
        assert IsLine(n, AntiDiagLine(n)) && Holds(g, AntiDiagLine(n), p);
      }
    }
    if l: seq<Move> :| IsLine(n, l) && Holds(g, l, p) {
      if i :| 0 <= i < n && l == RowLine(n, i) {
        forall j | 0 <= j < |g[i]| ensures g[i][j] == Mark(p) {
          assert l[j] == Move(i, j);
        }
        assert RowFilled(g, i, p);
      } else if c :| 0 <= c < n && l == ColLine(n, c) {
        forall r | 0 <= r < n ensures g[r][c] == Mark(p) {
          assert l[r] == Move(r, c);
        }
        assert ColFilled(g, c, p);
      } else if l == DiagLine(n) {
        forall i | 0 <= i < n ensures g[i][i] == Mark(p) {
          assert l[i] == Move(i, i);
        }
        assert DiagFilled(g, p);
      } else {
        forall i | 0 <= i < n ensures g[i][n - i - 1] == Mark(p) {
          assert l[i] == Move(i, n - i - 1);
        }
        assert AntiDiagFilled(g, p);
      }
    }
  }

  /** Writing p's mark never completes a line for another player. */
  lemma PlaceKeepsOtherLoser(g: Grid, m: Move, p: Player, q: Player)
    requires IsBoard(g) && IsEmptyAt(g, m) && p != q
    ensures IsWinner(Place(g, m, p), q) ==> IsWinner(g, q)
  {
    var g' := Place(g, m, p);
    if IsWinner(g', q) {
      WinnerIffLine(g', q);
      var l: seq<Move> :| IsLine(|g'|, l) && Holds(g', l, q);
      forall k | 0 <= k < |l| ensures InBounds(g, l[k]) && g[l[k].row][l[k].col] == Mark(q) {
        assert g'[l[k].row][l[k].col] == Mark(q);
      }
      assert Holds(g, l, q);
      WinnerIffLine(g, q);
    }
  }

  // ---------------------------------------------------------------------------
  // highlight_winner's scan: row i and column i for each i, then the two diagonals

  /** The lines scanned by the first i rounds of the loop: row 0, column 0, ..., row i-1, column i-1. */
  function ScanPrefix(n: nat, i: nat): seq<seq<Move>>
  {
    if i == 0 then [] else ScanPrefix(n, i - 1) + [RowLine(n, i - 1), ColLine(n, i - 1)]
  }

  /** Every line in the order highlight_winner tests it. */
  function ScanOrder(n: nat): seq<seq<Move>>
  {
    ScanPrefix(n, n) + [DiagLine(n), AntiDiagLine(n)]
  }

  lemma {:induction false} ScanPrefixLines(n: nat, i: nat)
    requires i <= n
    ensures forall l :: l in ScanPrefix(n, i) <==>
      exists r :: 0 <= r < i && (l == RowLine(n, r) || l == ColLine(n, r))
  {
    if i > 0 {
      ScanPrefixLines(n, i - 1);
      forall l | l in ScanPrefix(n, i)
        ensures exists r :: 0 <= r < i && (l == RowLine(n, r) || l == ColLine(n, r))
      {
        if l !in ScanPrefix(n, i - 1) {
          assert l == RowLine(n, i - 1) || l == ColLine(n, i - 1);
        }
      }
    }
  }

  /** The scan visits exactly the lines of the board. */
  lemma ScanOrderIsLines(n: nat)
    ensures forall l :: l in ScanOrder(n) <==> IsLine(n, l)
  {
    ScanPrefixLines(n, n);
    forall l | IsLine(n, l) ensures l in ScanOrder(n) {
      if i :| 0 <= i < n && l == RowLine(n, i) {
        assert l in ScanPrefix(n, n);
      } else if c :| 0 <= c < n && l == ColLine(n, c) {
        assert l in ScanPrefix(n, n);
      }
    }
  }

  /** cells is the last line of `lines` that is entirely p's, or [] when there is none. */
  predicate LastHolding(g: Grid, lines: seq<seq<Move>>, p: Player, cells: seq<Move>)
  {
    (cells == [] && forall k :: 0 <= k < |lines| ==> !Holds(g, lines[k], p))
    || exists k :: 0 <= k < |lines| && cells == lines[k] && Holds(g, lines[k], p)
         && forall t :: k < t < |lines| ==> !Holds(g, lines[t], p)
  }

  lemma LastHoldingExtend(g: Grid, lines: seq<seq<Move>>, p: Player, cells: seq<Move>, l: seq<Move>)
    requires LastHolding(g, lines, p, cells)
    ensures LastHolding(g, lines + [l], p, if Holds(g, l, p) then l else cells)
  {
    var lines' := lines + [l];
    if Holds(g, l, p) {
      assert lines'[|lines|] == l;
    } else if k :| 0 <= k < |lines| && cells == lines[k] && Holds(g, lines[k], p)
                 && forall t :: k < t < |lines| ==> !Holds(g, lines[t], p) {
      assert lines'[k] == lines[k];
      assert forall t :: k < t < |lines'| ==> lines'[t] == l || lines'[t] == lines[t];
    } else {
      assert forall t :: 0 <= t < |lines'| ==> lines'[t] == l || lines'[t] == lines[t];
    }
  }

  /** The win_cells computed by highlight_winner: every scanned line that is entirely the
      player's overwrites the previous choice, so the last one in scan order is kept. */
  method WinCells(g: Grid, player: Player) returns (cells: seq<Move>)
    requires IsBoard(g)
    ensures LastHolding(g, ScanOrder(|g|), player, cells)
    ensures IsWinner(g, player) ==> |cells| == |g| && IsLine(|g|, cells) && Holds(g, cells, player)
    ensures !IsWinner(g, player) ==> cells == []
  {
    var n := |g|;
    cells := [];
    ghost var scanned: seq<seq<Move>> := [];
    for i := 0 to n
      invariant scanned == ScanPrefix(n, i)
      invariant LastHolding(g, scanned, player, cells)
    {
      LastHoldingExtend(g, scanned, player, cells, RowLine(n, i));
      if Holds(g, RowLine(n, i), player) {
        cells := RowLine(n, i);
      }
      scanned := scanned + [RowLine(n, i)];
      LastHoldingExtend(g, scanned, player, cells, ColLine(n, i));
      if Holds(g, ColLine(n, i), player) {
        cells := ColLine(n, i);
      }
      scanned := scanned + [ColLine(n, i)];
    }
    LastHoldingExtend(g, scanned, player, cells, DiagLine(n));
    if Holds(g, DiagLine(n), player) {
      cells := DiagLine(n);
    }
    scanned := scanned + [DiagLine(n)];
    LastHoldingExtend(g, scanned, player, cells, AntiDiagLine(n));
    if Holds(g, AntiDiagLine(n), player) {
      cells := AntiDiagLine(n);
    }
    scanned := scanned + [AntiDiagLine(n)];
    assert scanned == ScanOrder(n);
    ScanOrderIsLines(n);
    WinnerIffLine(g, player);
    if IsWinner(g, player) {
      var l: seq<Move> :| IsLine(n, l) && Holds(g, l, player);
      assert l in scanned;
      assert cells in scanned;
      LineLength(n, cells);
    }
  }
}
