// calculateWinner: scan the fixed table of eight lines and report the mark of
// the first line whose three squares hold the same mark.

module WinEvaluator {
  import opened Marks

  /** A line of the board: three square indices. */
  type Line = (Cell, Cell, Cell)

  /** The table of winning lines, in the order the evaluator scans it:
      three rows, three columns, the main diagonal, the anti-diagonal. */
  const Lines: seq<Line> :=
    [(0, 1, 2), (3, 4, 5), (6, 7, 8),
     (0, 3, 6), (1, 4, 7), (2, 5, 8),
     (0, 4, 8), (2, 4, 6)]

  /** The test applied to each line: the first square is occupied and the
      other two hold the same mark as it. */
  predicate Matches(b: Squares, line: Line)
  {
    b[line.0] != Empty && b[line.0] == b[line.1] && b[line.0] == b[line.2]
  }

  /** Some line of the table, at position `i` or later, matches. */
  predicate SomeLineFrom(b: Squares, i: nat)
  {
    exists k :: i <= k < |Lines| && Matches(b, Lines[k])
  }

  /** `k` is the first matching line at or after `i` and `m` is its mark. */
  predicate FirstMatchFrom(b: Squares, i: nat, k: int, m: Mark)
  {
    i <= k < |Lines| && Matches(b, Lines[k]) && b[Lines[k].0] == m
    && forall j :: i <= j < k ==> !Matches(b, Lines[j])
  }

  /** The result of scanning the table from position `i` on. */
  function WinnerFrom(b: Squares, i: nat): (r: Mark)
    requires i <= |Lines|
    ensures r != Empty <==> SomeLineFrom(b, i)
    ensures r != Empty ==> exists k :: FirstMatchFrom(b, i, k, r)
    decreases |Lines| - i
  {
    if i == |Lines| then Empty
    else if Matches(b, Lines[i]) then
      assert FirstMatchFrom(b, i, i, b[Lines[i].0]);
      b[Lines[i].0]
    else
      var r := WinnerFrom(b, i + 1);
      assert r != Empty ==> exists k :: FirstMatchFrom(b, i, k, r) by {
        if r != Empty {
          var k :| FirstMatchFrom(b, i + 1, k, r);
          assert FirstMatchFrom(b, i, k, r);
        }
      }
      r
  }

  /** The value `calculateWinner` returns, with `Empty` standing for `null`:
      the mark of the first matching line of the table, `Empty` when no line matches. */
  function Winner(b: Squares): (r: Mark)
    ensures r == Empty <==> !SomeLineFrom(b, 0)
    ensures r != Empty ==> exists k :: FirstMatchFrom(b, 0, k, r)
  {
    WinnerFrom(b, 0)
  }

  /** `calculateWinner` as written: a loop over the table that returns on the first match. */
  method CalculateWinner(squares: Squares) returns (winner: Mark)
    ensures winner == Winner(squares)
  {
    var i := 0;
    while i < |Lines|
      invariant 0 <= i <= |Lines|
      invariant Winner(squares) == WinnerFrom(squares, i)
    {
      var (a, b, c) := Lines[i];
      if squares[a] != Empty && squares[a] == squares[b] && squares[a] == squares[c] {
        return squares[a];
      }
      i := i + 1;
    }
    return Empty;
  }

  // An independent description of a win, by the geometry of the 3x3 grid.

  /** The square in row `row` and column `col`. */
  function At(b: Squares, row: int, col: int): Mark
    requires 0 <= row < 3 && 0 <= col < 3
  {
    b[3 * row + col]
  }

  predicate RowFull(b: Squares, row: int, m: Mark)
    requires 0 <= row < 3
  {
    forall col :: 0 <= col < 3 ==> At(b, row, col) == m
  }

  predicate ColumnFull(b: Squares, col: int, m: Mark)
    requires 0 <= col < 3
  {
    forall row :: 0 <= row < 3 ==> At(b, row, col) == m
  }

  predicate MainDiagonalFull(b: Squares, m: Mark)
  {
    forall k :: 0 <= k < 3 ==> At(b, k, k) == m
  }

  /** The square in row `k` of the anti-diagonal. */
  function AntiAt(b: Squares, k: int): Mark
    requires 0 <= k < 3
  {
    At(b, k, 2 - k)
  }

  predicate AntiDiagonalFull(b: Squares, m: Mark)
  {
    forall k :: 0 <= k < 3 ==> AntiAt(b, k) == m
  }

  /** Player `m` holds a full row, column or diagonal. */
  predicate Wins(b: Squares, m: Mark)
  {
    m != Empty &&
    ((exists row :: 0 <= row < 3 && RowFull(b, row, m)) ||
     (exists col :: 0 <= col < 3 && ColumnFull(b, col, m)) ||
     MainDiagonalFull(b, m) || AntiDiagonalFull(b, m))
  }

  /** Each matching line of the table is a full row, column or diagonal of its mark. */
  lemma TableLineWins(b: Squares, k: int)
    requires 0 <= k < |Lines| && Matches(b, Lines[k])
    ensures Wins(b, b[Lines[k].0])
  {
    var m := b[Lines[k].0];
    if k < 3 {
      assert RowFull(b, k, m);
    } else if k < 6 {
      assert ColumnFull(b, k - 3, m);
    } else if k == 6 {
      assert MainDiagonalFull(b, m);
    } else {
      assert AntiDiagonalFull(b, m);
    }
  }

  /** Each full row, column or diagonal is a matching line of the table. */
  lemma WinningLineInTable(b: Squares, m: Mark)
    requires Wins(b, m)
    ensures exists k :: 0 <= k < |Lines| && Matches(b, Lines[k]) && b[Lines[k].0] == m
  {
    if exists row :: 0 <= row < 3 && RowFull(b, row, m) {
      var row :| 0 <= row < 3 && RowFull(b, row, m);
      assert At(b, row, 0) == m && At(b, row, 1) == m && At(b, row, 2) == m;
      assert Matches(b, Lines[row]) && b[Lines[row].0] == m;
    } else if exists col :: 0 <= col < 3 && ColumnFull(b, col, m) {
      var col :| 0 <= col < 3 && ColumnFull(b, col, m);
      assert At(b, 0, col) == m && At(b, 1, col) == m && At(b, 2, col) == m;
      assert Matches(b, Lines[3 + col]) && b[Lines[3 + col].0] == m;
    } else if MainDiagonalFull(b, m) {
      assert At(b, 0, 0) == m && At(b, 1, 1) == m && At(b, 2, 2) == m;
      assert Matches(b, Lines[6]) && b[Lines[6].0] == m;
    } else {
      assert AntiAt(b, 0) == m && AntiAt(b, 1) == m && AntiAt(b, 2) == m;
      assert Matches(b, Lines[7]) && b[Lines[7].0] == m;
    }
  }

  /** A reported winner holds a full row, column or diagonal. */
  lemma WinnerWins(b: Squares)
    requires Winner(b) != Empty
    ensures Wins(b, Winner(b))
  {
    var k :| FirstMatchFrom(b, 0, k, Winner(b));
    TableLineWins(b, k);
  }

  /** `calculateWinner` reports no winner exactly when nobody holds a full
      row, column or diagonal; a full board with no such line is a draw that
      it reports the same way as a game still in progress. */
  lemma NoWinnerIffNoLine(b: Squares)
    ensures Winner(b) == Empty <==> !Wins(b, X) && !Wins(b, Zero)
  {
    if Winner(b) != Empty {
      WinnerWins(b);
    }
    if Wins(b, X) {
      WinningLineInTable(b, X);
    }
    if Wins(b, Zero) {
      WinningLineInTable(b, Zero);
    }
  }

  /** When only one player holds a line, that player is the one reported. */
  lemma SoleWinnerReported(b: Squares, m: Mark)
    requires Wins(b, m)
    requires forall o :: o != m ==> !Wins(b, o)
    ensures Winner(b) == m
  {
    NoWinnerIffNoLine(b);
    WinnerWins(b);
  }

  /** When both players hold a line, the one whose line comes first in the
      table is reported: X's first row beats the second player's middle row. */
  lemma TableOrderDecidesTies()
    ensures var b: Squares := [X, X, X, Zero, Zero, Zero, Empty, Empty, Empty];
            Wins(b, X) && Wins(b, Zero) && Winner(b) == X
  {
    var b: Squares := [X, X, X, Zero, Zero, Zero, Empty, Empty, Empty];
    assert RowFull(b, 0, X);
    assert RowFull(b, 1, Zero);
  }
}
