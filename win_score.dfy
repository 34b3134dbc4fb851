/** How checkWin and score agree: a piece that checkWin reports as a win lies
    in four in a row on one of the lines score() visits, so that line earns
    its owner the win bonus. */
module WinScore {
  import opened Board
  import opened WinCheck
  import opened BoardLines
  import opened Scoring

  /** Four consecutive cells of p from index j make four in a row. */
  lemma FourOnLine(s: seq<Cell>, j: int, p: Cell)
    requires 0 <= j && j + 4 <= |s|
    requires s[j] == p && s[j + 1] == p && s[j + 2] == p && s[j + 3] == p
    ensures HasFour(s, p)
  {
    assert FourAt(s, j, p);
  }

  /** The cell k steps of (dr, dc) from (row, col), at (r, c), holds p. */
  lemma MatchesCell(g: Grid, row: int, col: int, dr: int, dc: int, k: int, p: Cell, r: int, c: int)
    requires WellFormed(g) && Matches(g, row, col, dr, dc, k, p)
    requires r == row + Scale(k, dr) && c == col + Scale(k, dc)
    ensures InBounds(r, c) && g[r][c] == p
  {
  }

  /** Four in a row along a row (direction (0, 1)) lies on row line `row`. */
  lemma RowFour(g: Grid, row: int, col: int, lo: int, p: Cell) returns (k: int)
    requires WellFormed(g) && FourFrom(g, row, col, 0, 1, lo, p)
    ensures 0 <= k < 37 && HasFour(LineCells(g, k), p)
  {
    MatchesCell(g, row, col, 0, 1, lo, p, row, col + lo);
    MatchesCell(g, row, col, 0, 1, lo + 1, p, row, col + (lo + 1));
    MatchesCell(g, row, col, 0, 1, lo + 2, p, row, col + (lo + 2));
    MatchesCell(g, row, col, 0, 1, lo + 3, p, row, col + (lo + 3));
    k := row;
    var s := RowCells(g, row);
    var j := col + lo;
    FourOnLine(s, j, p);
    assert LineCells(g, k) == s;
  }

  /** Four in a row along a column (direction (1, 0)) lies on column line `col`. */
  lemma ColumnFour(g: Grid, row: int, col: int, lo: int, p: Cell) returns (k: int)
    requires WellFormed(g) && FourFrom(g, row, col, 1, 0, lo, p)
    ensures 0 <= k < 37 && HasFour(LineCells(g, k), p)
  {
    MatchesCell(g, row, col, 1, 0, lo, p, row + lo, col);
    MatchesCell(g, row, col, 1, 0, lo + 1, p, row + (lo + 1), col);
    MatchesCell(g, row, col, 1, 0, lo + 2, p, row + (lo + 2), col);
    MatchesCell(g, row, col, 1, 0, lo + 3, p, row + (lo + 3), col);
    k := ROWS + col;
    var s := ColumnCells(g, col);
    var j := row + lo;
    FourOnLine(s, j, p);
    assert LineCells(g, k) == s;
  }

  /** Four in a row along direction (-1, -1), right of the main diagonal,
      lies on the negative slope diagonal that starts at column col - row of
      the top row. */
  lemma NegDiagTopFour(g: Grid, row: int, col: int, lo: int, p: Cell) returns (k: int)
    requires WellFormed(g) && FourFrom(g, row, col, -1, -1, lo, p) && col > row
    ensures 0 <= k < 37 && HasFour(LineCells(g, k), p)
  {
    MatchesCell(g, row, col, -1, -1, lo + 3, p, row - (lo + 3), col - (lo + 3));
    MatchesCell(g, row, col, -1, -1, lo + 2, p, row - (lo + 2), col - (lo + 2));
    MatchesCell(g, row, col, -1, -1, lo + 1, p, row - (lo + 1), col - (lo + 1));
    MatchesCell(g, row, col, -1, -1, lo, p, row - lo, col - lo);
    var d := col - row;
    k := ROWS + COLS + d - 1;
    var s := NegDiagFromTop(g, d);
    var j := row - (lo + 3);
    FourOnLine(s, j, p);
    assert LineCells(g, k) == s;
  }

  /** Four in a row along direction (-1, -1), on or left of the main
      diagonal, lies on the negative slope diagonal that starts at row
      row - col of the left column. */
  lemma NegDiagLeftFour(g: Grid, row: int, col: int, lo: int, p: Cell) returns (k: int)
    requires WellFormed(g) && FourFrom(g, row, col, -1, -1, lo, p) && col <= row
    ensures 0 <= k < 37 && HasFour(LineCells(g, k), p)
  {
    MatchesCell(g, row, col, -1, -1, lo + 3, p, row - (lo + 3), col - (lo + 3));
    MatchesCell(g, row, col, -1, -1, lo + 2, p, row - (lo + 2), col - (lo + 2));
    MatchesCell(g, row, col, -1, -1, lo + 1, p, row - (lo + 1), col - (lo + 1));
    MatchesCell(g, row, col, -1, -1, lo, p, row - lo, col - lo);
    var d := row - col;
    k := 19 + d;
    var s := NegDiagFromLeft(g, d);
    var j := col - (lo + 3);
    FourOnLine(s, j, p);
    assert LineCells(g, k) == s;
  }

  /** Four in a row along direction (-1, 1) with row + col < 6 lies on the
      positive slope diagonal that starts at column row + col of the top row. */
  lemma PosDiagTopFour(g: Grid, row: int, col: int, lo: int, p: Cell) returns (k: int)
    requires WellFormed(g) && FourFrom(g, row, col, -1, 1, lo, p) && row + col < ROWS
    ensures 0 <= k < 37 && HasFour(LineCells(g, k), p)
  {
    MatchesCell(g, row, col, -1, 1, lo + 3, p, row - (lo + 3), col + (lo + 3));
    MatchesCell(g, row, col, -1, 1, lo + 2, p, row - (lo + 2), col + (lo + 2));
    MatchesCell(g, row, col, -1, 1, lo + 1, p, row - (lo + 1), col + (lo + 1));
    MatchesCell(g, row, col, -1, 1, lo, p, row - lo, col + lo);
    var sum := row + col;
    k := 25 + sum;
    var s := PosDiagFromTop(g, sum);
    var j := row - (lo + 3);
    FourOnLine(s, j, p);
    assert LineCells(g, k) == s;
  }

  /** Four in a row along direction (-1, 1) with row + col >= 6 lies on the
      positive slope diagonal that starts at row row + col - 6 of the right
      column. */
  lemma PosDiagRightFour(g: Grid, row: int, col: int, lo: int, p: Cell) returns (k: int)
    requires WellFormed(g) && FourFrom(g, row, col, -1, 1, lo, p) && row + col >= ROWS
    ensures 0 <= k < 37 && HasFour(LineCells(g, k), p)
  {
    MatchesCell(g, row, col, -1, 1, lo + 3, p, row - (lo + 3), col + (lo + 3));
    MatchesCell(g, row, col, -1, 1, lo + 2, p, row - (lo + 2), col + (lo + 2));
    MatchesCell(g, row, col, -1, 1, lo + 1, p, row - (lo + 1), col + (lo + 1));
    MatchesCell(g, row, col, -1, 1, lo, p, row - lo, col + lo);
    var first := row + col - ROWS;
    k := 31 + first;
    var s := PosDiagFromRight(g, first);
    var j := COLS - 1 - col - (lo + 3);
    FourOnLine(s, j, p);
    assert LineCells(g, k) == s;
  }

  /** A piece checkWin reports as a win gives its owner a score of at least
      the win bonus: the four in a row lies on one of score's lines. */
  lemma ConnectedScoresWin(g: Grid, row: int, col: int)
    requires WellFormed(g) && InBounds(row, col) && Connected(g, row, col)
    ensures ScoreOf(g, g[row][col]) >= WIN_BONUS
  {
    var p := g[row][col];
    var i :| 0 <= i < |DIRECTIONS| && FourThrough(g, row, col, DIRECTIONS[i].0, DIRECTIONS[i].1);
    var (dr, dc) := DIRECTIONS[i];
    var lo :| -3 <= lo <= 0 && FourFrom(g, row, col, dr, dc, lo, p);
    var k;
    if i == 0 {
      k := RowFour(g, row, col, lo, p);
    } else if i == 1 {
      k := ColumnFour(g, row, col, lo, p);
    } else if i == 2 && row + col < ROWS {
      k := PosDiagTopFour(g, row, col, lo, p);
    } else if i == 2 {
      k := PosDiagRightFour(g, row, col, lo, p);
    } else if col > row {
      k := NegDiagTopFour(g, row, col, lo, p);
    } else {
      k := NegDiagLeftFour(g, row, col, lo, p);
    }
    ScoreWinIff(g, p);
  }
}
