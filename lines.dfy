/** The lines that score() reads (game.py:115-139), as lists of cell
    coordinates in the order the source visits them. */
module BoardLines {
  import opened Board

  /** A cell position (row, column). */
  type Pos = (int, int)

  predicate OnBoard(p: Pos) {
    InBounds(p.0, p.1)
  }

  /** The six rows, left to right. */
  function RowLines(): seq<seq<Pos>> {
    seq(ROWS, r => seq(COLS, c => (r, c)))
  }

  /** The seven columns, top to bottom (board[:, col]). */
  function ColumnLines(): seq<seq<Pos>> {
    seq(COLS, c => seq(ROWS, r => (r, c)))
  }

  /** Negative-slope diagonals: first those starting at (0, col) for col 1 .. 6
      ([board[i - col, i] for i in range(col, 7)]), then those starting at
      (row, 0) for row 0 .. 5 ([board[i, i - row] for i in range(row, 6)]). */
  function NegDiagLines(): seq<seq<Pos>> {
    seq(COLS - 1, k requires 0 <= k < COLS - 1 => seq(COLS - 1 - k, j => (j, j + k + 1)))
    + seq(ROWS, row requires 0 <= row < ROWS => seq(ROWS - row, j => (row + j, j)))
  }

  /** Positive-slope diagonals: first those whose cells sum to col for col
      0 .. 5, from the top row down ([board[col - i, i] for i in range(col, -1, -1)]),
      then those whose cells sum to 6 + row for row 0 .. 5
      ([board[i, 6 - i + row] for i in range(row, 6)]). */
  function PosDiagLines(): seq<seq<Pos>> {
    seq(ROWS, col requires 0 <= col < ROWS => seq(col + 1, j => (j, col - j)))
    + seq(ROWS, row requires 0 <= row < ROWS => seq(ROWS - row, j => (row + j, COLS - 1 - j)))
  }

  /** Every line score() visits, in its order. */
  function AllLines(): (lines: seq<seq<Pos>>)
    ensures |lines| == 37
    ensures forall i, j :: 0 <= i < |lines| && 0 <= j < |lines[i]| ==> OnBoard(lines[i][j])
    ensures forall i :: 0 <= i < |lines| ==> 1 <= |lines[i]| <= COLS
  {
    RowLines() + ColumnLines() + NegDiagLines() + PosDiagLines()
  }

  /** The cells of a line of coordinates. */
  function LineAt(g: Grid, line: seq<Pos>): (cells: seq<Cell>)
    requires WellFormed(g)
    requires forall j :: 0 <= j < |line| ==> OnBoard(line[j])
    ensures |cells| == |line|
    ensures forall j :: 0 <= j < |line| ==> OnBoard(line[j]) && cells[j] == g[line[j].0][line[j].1]
  {
    seq(|line|, j requires 0 <= j < |line| => assert OnBoard(line[j]); g[line[j].0][line[j].1])
  }

  /** board[row]: the cells of a row, left to right. */
  function RowCells(g: Grid, row: int): seq<Cell>
    requires WellFormed(g) && 0 <= row < ROWS
  {
    g[row]
  }

  /** board[:, col]: the cells of a column, top to bottom. */
  function ColumnCells(g: Grid, col: int): seq<Cell>
    requires WellFormed(g) && 0 <= col < COLS
  {
    seq(ROWS, i requires 0 <= i < ROWS => g[i][col])
  }

  /** [board[i - col, i] for i in range(col, 7)]: the negative-slope diagonal
      starting at (0, col). */
  function NegDiagFromTop(g: Grid, col: int): seq<Cell>
    requires WellFormed(g) && 1 <= col < COLS
  {
    seq(COLS - col, i requires 0 <= i < COLS - col => g[i][i + col])
  }

  /** [board[i, i - row] for i in range(row, 6)]: the negative-slope diagonal
      starting at (row, 0). */
  function NegDiagFromLeft(g: Grid, row: int): seq<Cell>
    requires WellFormed(g) && 0 <= row < ROWS
  {
    seq(ROWS - row, i requires 0 <= i < ROWS - row => g[row + i][i])
  }

  /** [board[col - i, i] for i in range(col, -1, -1)]: the positive-slope
      diagonal from (0, col) down to (col, 0). */
  function PosDiagFromTop(g: Grid, col: int): seq<Cell>
    requires WellFormed(g) && 0 <= col < ROWS
  {
    seq(col + 1, i requires 0 <= i < col + 1 => g[i][col - i])
  }

  /** [board[i, 6 - i + row] for i in range(row, 6)]: the positive-slope
      diagonal from (row, 6) down to the bottom row. */
  function PosDiagFromRight(g: Grid, row: int): seq<Cell>
    requires WellFormed(g) && 0 <= row < ROWS
  {
    seq(ROWS - row, i requires 0 <= i < ROWS - row => g[row + i][COLS - 1 - i])
  }

  /** The cells of the k-th line score() visits. */
  function LineCells(g: Grid, k: int): (cells: seq<Cell>)
    requires WellFormed(g) && 0 <= k < 37
    ensures |cells| == LineLength(k) && 1 <= |cells| <= COLS
  {
    if k < ROWS then RowCells(g, k)
    else if k < ROWS + COLS then ColumnCells(g, k - ROWS)
    else if k < 19 then NegDiagFromTop(g, k - (ROWS + COLS) + 1)
    else if k < 25 then NegDiagFromLeft(g, k - 19)
    else if k < 31 then PosDiagFromTop(g, k - 25)
    else PosDiagFromRight(g, k - 31)
  }

  /** The cell contents of every line score() visits, in its order. */
  function Lines(g: Grid): (lines: seq<seq<Cell>>)
    requires WellFormed(g)
    ensures |lines| == |AllLines()|
  {
    seq(37, k requires 0 <= k < 37 => LineCells(g, k))
  }

  /** Line k of AllLines in closed form: its length and its j-th cell. */
  function LineLength(k: int): int {
    if k < 6 then COLS
    else if k < 13 then ROWS
    else if k < 19 then COLS - 1 - (k - 13)
    else if k < 25 then ROWS - (k - 19)
    else if k < 31 then (k - 25) + 1
    else ROWS - (k - 31)
  }

  function LinePos(k: int, j: int): Pos {
    if k < 6 then (k, j)
    else if k < 13 then (j, k - 6)
    else if k < 19 then (j, j + (k - 13) + 1)
    else if k < 25 then ((k - 19) + j, j)
    else if k < 31 then (j, (k - 25) - j)
    else ((k - 31) + j, COLS - 1 - j)
  }

  lemma AllLinesAt(k: int, j: int)
    requires 0 <= k < 37
    ensures |AllLines()[k]| == LineLength(k)
    ensures 0 <= j < LineLength(k) ==> AllLines()[k][j] == LinePos(k, j)
  {
    var rows, cols, negs, poss := RowLines(), ColumnLines(), NegDiagLines(), PosDiagLines();
    assert AllLines() == rows + cols + negs + poss;
    if k < 6 {
      assert AllLines()[k] == rows[k];
    } else if k < 13 {
      assert AllLines()[k] == cols[k - 6];
    } else if k < 25 {
      assert AllLines()[k] == negs[k - 13];
      NegDiagAt(k - 13, j);
    } else {
      assert AllLines()[k] == poss[k - 25];
      PosDiagAt(k - 25, j);
    }
  }

  /** Where a cell sits among the negative-slope diagonals: (line, position). */
  function NegDiagSlot(r: int, c: int): Pos {
    if c - r >= 1 then (c - r - 1, r) else (COLS - 1 + (r - c), c)
  }

  /** Where a cell sits among the positive-slope diagonals: (line, position). */
  function PosDiagSlot(r: int, c: int): Pos {
    if r + c < ROWS then (r + c, r) else (r + c, COLS - 1 - c)
  }

  /** The cells of the negative-slope diagonals in closed form. */
  lemma NegDiagAt(k: int, j: int)
    requires 0 <= k < 12
    ensures |NegDiagLines()| == 12
    ensures |NegDiagLines()[k]| == if k < COLS - 1 then COLS - 1 - k else ROWS - (k - (COLS - 1))
    ensures 0 <= j < |NegDiagLines()[k]| ==>
      NegDiagLines()[k][j] == if k < COLS - 1 then (j, j + k + 1) else (k - (COLS - 1) + j, j)
  {
    var first := seq(COLS - 1, k requires 0 <= k < COLS - 1 => seq(COLS - 1 - k, j => (j, j + k + 1)));
    var second := seq(ROWS, row requires 0 <= row < ROWS => seq(ROWS - row, j => (row + j, j)));
    assert NegDiagLines() == first + second;
    if k >= COLS - 1 {
      assert NegDiagLines()[k] == second[k - (COLS - 1)];
    }
  }

  /** The cells of the positive-slope diagonals in closed form. */
  lemma PosDiagAt(k: int, j: int)
    requires 0 <= k < 12
    ensures |PosDiagLines()| == 12
    ensures |PosDiagLines()[k]| == if k < ROWS then k + 1 else ROWS - (k - ROWS)
    ensures 0 <= j < |PosDiagLines()[k]| ==>
      PosDiagLines()[k][j] == if k < ROWS then (j, k - j) else (k - ROWS + j, COLS - 1 - j)
  {
    var first := seq(ROWS, col requires 0 <= col < ROWS => seq(col + 1, j => (j, col - j)));
    var second := seq(ROWS, row requires 0 <= row < ROWS => seq(ROWS - row, j => (row + j, COLS - 1 - j)));
    assert PosDiagLines() == first + second;
    if k >= ROWS {
      assert PosDiagLines()[k] == second[k - ROWS];
    }
  }

  /** Each cell lies on exactly one negative-slope diagonal, once: NegDiagSlot
      and the diagonals are inverse to each other. */
  lemma NegDiagsPartition()
    ensures |NegDiagLines()| == 12
    ensures forall r, c :: InBounds(r, c) ==>
      var s := NegDiagSlot(r, c);
      0 <= s.0 < |NegDiagLines()| && 0 <= s.1 < |NegDiagLines()[s.0]| && NegDiagLines()[s.0][s.1] == (r, c)
    ensures forall k, j :: 0 <= k < |NegDiagLines()| && 0 <= j < |NegDiagLines()[k]| ==>
      OnBoard(NegDiagLines()[k][j]) && NegDiagSlot(NegDiagLines()[k][j].0, NegDiagLines()[k][j].1) == (k, j)
  {
    NegDiagAt(0, 0);
    forall r, c | InBounds(r, c)
      ensures var s := NegDiagSlot(r, c);
        0 <= s.0 < |NegDiagLines()| && 0 <= s.1 < |NegDiagLines()[s.0]| && NegDiagLines()[s.0][s.1] == (r, c)
    {
      NegDiagSlotHits(r, c);
    }
    forall k, j | 0 <= k < |NegDiagLines()| && 0 <= j < |NegDiagLines()[k]|
      ensures OnBoard(NegDiagLines()[k][j]) && NegDiagSlot(NegDiagLines()[k][j].0, NegDiagLines()[k][j].1) == (k, j)
    {
      NegDiagSlotInverse(k, j);
    }
  }

  /** The slot of a cell on a diagonal is where it sits on that diagonal. */
  lemma NegDiagSlotInverse(k: int, j: int)
    requires 0 <= k < |NegDiagLines()| && 0 <= j < |NegDiagLines()[k]|
    ensures OnBoard(NegDiagLines()[k][j]) && NegDiagSlot(NegDiagLines()[k][j].0, NegDiagLines()[k][j].1) == (k, j)
  {
    NegDiagAt(k, j);
  }

  /** The slot of a cell names that cell. */
  lemma NegDiagSlotHits(r: int, c: int)
    requires InBounds(r, c)
    ensures var s := NegDiagSlot(r, c);
      0 <= s.0 < |NegDiagLines()| && 0 <= s.1 < |NegDiagLines()[s.0]| && NegDiagLines()[s.0][s.1] == (r, c)
  {
    var s := NegDiagSlot(r, c);
    NegDiagAt(s.0, s.1);
  }

  /** Each cell lies on exactly one positive-slope diagonal, once. */
  lemma PosDiagsPartition()
    ensures |PosDiagLines()| == 12
    ensures forall r, c :: InBounds(r, c) ==>
      var s := PosDiagSlot(r, c);
      0 <= s.0 < |PosDiagLines()| && 0 <= s.1 < |PosDiagLines()[s.0]| && PosDiagLines()[s.0][s.1] == (r, c)
    ensures forall k, j :: 0 <= k < |PosDiagLines()| && 0 <= j < |PosDiagLines()[k]| ==>
      OnBoard(PosDiagLines()[k][j]) && PosDiagSlot(PosDiagLines()[k][j].0, PosDiagLines()[k][j].1) == (k, j)
  {
    PosDiagAt(0, 0);
    forall r, c | InBounds(r, c)
      ensures var s := PosDiagSlot(r, c);
        0 <= s.0 < |PosDiagLines()| && 0 <= s.1 < |PosDiagLines()[s.0]| && PosDiagLines()[s.0][s.1] == (r, c)
    {
      PosDiagSlotHits(r, c);
    }
    forall k, j | 0 <= k < |PosDiagLines()| && 0 <= j < |PosDiagLines()[k]|
      ensures OnBoard(PosDiagLines()[k][j]) && PosDiagSlot(PosDiagLines()[k][j].0, PosDiagLines()[k][j].1) == (k, j)
    {
      PosDiagSlotInverse(k, j);
    }
  }

  /** The slot of a cell on a diagonal is where it sits on that diagonal. */
  lemma PosDiagSlotInverse(k: int, j: int)
    requires 0 <= k < |PosDiagLines()| && 0 <= j < |PosDiagLines()[k]|
    ensures OnBoard(PosDiagLines()[k][j]) && PosDiagSlot(PosDiagLines()[k][j].0, PosDiagLines()[k][j].1) == (k, j)
  {
    PosDiagAt(k, j);
  }

  /** The slot of a cell names that cell. */
  lemma PosDiagSlotHits(r: int, c: int)
    requires InBounds(r, c)
    ensures var s := PosDiagSlot(r, c);
      0 <= s.0 < |PosDiagLines()| && 0 <= s.1 < |PosDiagLines()[s.0]| && PosDiagLines()[s.0][s.1] == (r, c)
  {
    var s := PosDiagSlot(r, c);
    PosDiagAt(s.0, s.1);
  }

  /** Each cell lies on exactly one row and one column, once. */
  lemma RowsAndColumnsPartition()
    ensures forall r, c :: InBounds(r, c) ==> RowLines()[r][c] == (r, c) && ColumnLines()[c][r] == (r, c)
    ensures forall k, j :: 0 <= k < |RowLines()| && 0 <= j < |RowLines()[k]| ==> RowLines()[k][j] == (k, j)
    ensures forall k, j :: 0 <= k < |ColumnLines()| && 0 <= j < |ColumnLines()[k]| ==> ColumnLines()[k][j] == (j, k)
  {
  }

  /** Line k of the board, given cell by cell in closed form, holds the cells
      at the coordinates of line k. */
  lemma LineAtClosedForm(g: Grid, k: int, cells: seq<Cell>)
    requires WellFormed(g) && 0 <= k < 37
    requires |cells| == LineLength(k)
    requires forall j :: 0 <= j < |cells| ==> OnBoard(LinePos(k, j)) && cells[j] == g[LinePos(k, j).0][LinePos(k, j).1]
    ensures LineAt(g, AllLines()[k]) == cells
  {
    var line := AllLines()[k];
    forall j | 0 <= j < |cells| ensures cells[j] == LineAt(g, line)[j] {
      AllLinesAt(k, j);
    }
    AllLinesAt(k, 0);
  }

  /** The lines score() builds hold exactly the cells at the coordinates of
      AllLines: every line of the board, once each. */
  lemma LinesAreAllLines(g: Grid, k: int)
    requires WellFormed(g) && 0 <= k < 37
    ensures Lines(g)[k] == LineAt(g, AllLines()[k])
  {
    LineAtClosedForm(g, k, LineCells(g, k));
  }
}
