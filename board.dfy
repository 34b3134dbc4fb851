/** The 6 x 7 grid, its cells and the gravity drop (game.py: placePiece,
    isColumnFilled, inBounds). Row 0 is the top row, row 5 the bottom one. */
module Board {

  /** A cell: "*" (empty), "X" (the computer) or "O" (the human). */
  datatype Cell = Empty | X | O

  const ROWS: int := 6
  const COLS: int := 7

  /** The board as a value: six rows of seven cells each. */
  type Grid = seq<seq<Cell>>

  ghost predicate WellFormed(g: Grid) {
    |g| == ROWS && forall r :: 0 <= r < ROWS ==> |g[r]| == COLS
  }

  /** A board held in place, as the game and the search hold it. */
  predicate IsBoard(board: array2<Cell>) {
    board.Length0 == ROWS && board.Length1 == COLS
  }

  /** inBounds: (row, col) names a cell of the board. */
  predicate InBounds(row: int, col: int) {
    row >= 0 && col >= 0 && row < ROWS && col < COLS
  }

  /** The board's current contents as a value. */
  function Snapshot(board: array2<Cell>): (g: Grid)
    requires IsBoard(board)
    reads board
    ensures WellFormed(g)
    ensures forall r, c :: 0 <= r < ROWS && 0 <= c < COLS ==> g[r][c] == board[r, c]
  {
    seq(ROWS, r requires 0 <= r < ROWS reads board =>
      seq(COLS, c requires 0 <= c < COLS reads board => board[r, c]))
  }

  /** Two well-formed grids with the same cells are the same grid. */
  lemma GridExtensionality(g: Grid, h: Grid)
    requires WellFormed(g) && WellFormed(h)
    requires forall r, c :: 0 <= r < ROWS && 0 <= c < COLS ==> g[r][c] == h[r][c]
    ensures g == h
  {
    forall r | 0 <= r < ROWS ensures g[r] == h[r] {
      assert forall c :: 0 <= c < COLS ==> g[r][c] == h[r][c];
    }
  }

  /** np.array(board): a fresh board with the same contents. */
  method CopyBoard(board: array2<Cell>) returns (copy: array2<Cell>)
    requires IsBoard(board)
    ensures fresh(copy) && IsBoard(copy)
    ensures Snapshot(copy) == Snapshot(board)
  {
    copy := new Cell[ROWS, COLS]((r, c) requires 0 <= r < ROWS && 0 <= c < COLS reads board => board[r, c]);
    GridExtensionality(Snapshot(copy), Snapshot(board));
  }

  /** isColumnFilled: the top cell of the column is occupied. A column that
      is not filled has room for one more piece. */
  predicate IsColumnFilled(g: Grid, col: int)
    requires WellFormed(g) && 0 <= col < COLS
    ensures !IsColumnFilled(g, col) ==> HasRoom(g, col)
  {
    g[0][col] != Empty
  }

  /** Some cell of the column is still empty. */
  ghost predicate HasRoom(g: Grid, col: int)
    requires WellFormed(g) && 0 <= col < COLS
  {
    exists r :: 0 <= r < ROWS && g[r][col] == Empty
  }

  /** Gravity: within a column every empty cell is above every occupied one. */
  ghost predicate Gravity(g: Grid)
    requires WellFormed(g)
  {
    forall r, k, c :: 0 <= r < k < ROWS && 0 <= c < COLS && g[r][c] != Empty ==> g[k][c] != Empty
  }

  /** The lowest empty cell of a column, scanning up from row `row`. */
  function LowestEmptyFrom(g: Grid, col: int, row: int): (r: int)
    requires WellFormed(g) && 0 <= col < COLS && 0 <= row < ROWS
    requires exists k :: 0 <= k <= row && g[k][col] == Empty
    ensures 0 <= r <= row && g[r][col] == Empty
    ensures forall k :: r < k <= row ==> g[k][col] != Empty
    decreases row
  {
    if g[row][col] == Empty then row else LowestEmptyFrom(g, col, row - 1)
  }

  /** The row a piece dropped into `col` lands on: the lowest empty cell. */
  function LowestEmpty(g: Grid, col: int): (r: int)
    requires WellFormed(g) && 0 <= col < COLS && HasRoom(g, col)
    ensures 0 <= r < ROWS && g[r][col] == Empty
    ensures forall k :: r < k < ROWS ==> g[k][col] != Empty
  {
    LowestEmptyFrom(g, col, ROWS - 1)
  }

  /** The board after dropping `piece` into `col`. */
  function Place(g: Grid, col: int, piece: Cell): (h: Grid)
    requires WellFormed(g) && 0 <= col < COLS && HasRoom(g, col)
    ensures WellFormed(h)
  {
    var row := LowestEmpty(g, col);
    g[row := g[row][col := piece]]
  }

  /** placePiece: scan up from the bottom row to the first empty cell of the
      column, write `piece` there, and return its coordinates. */
  method PlacePiece(board: array2<Cell>, col: int, piece: Cell) returns (row: int, column: int)
    requires IsBoard(board) && 0 <= col < COLS
    requires HasRoom(Snapshot(board), col)
    modifies board
    ensures column == col && 0 <= row < ROWS
    ensures old(board[row, col]) == Empty && board[row, col] == piece
    ensures forall r :: row < r < ROWS ==> board[r, col] != Empty
    ensures forall r, c :: 0 <= r < ROWS && 0 <= c < COLS && (r, c) != (row, col) ==> board[r, c] == old(board[r, c])
    ensures Snapshot(board) == Place(old(Snapshot(board)), col, piece)
  {
    ghost var before := Snapshot(board);
    row := ROWS - 1;
    while board[row, col] != Empty
      invariant 0 <= row < ROWS
      invariant exists k :: 0 <= k <= row && board[k, col] == Empty
      invariant forall r :: row < r < ROWS ==> board[r, col] != Empty
      decreases row
    {
      row := row - 1;
    }
    board[row, col] := piece;
    column := col;
    assert row == LowestEmpty(before, col);
    GridExtensionality(Snapshot(board), Place(before, col, piece));
  }

  /** On a board that obeys gravity, a column is filled exactly when it has no
      empty cell left, so the scan of PlacePiece stays on the board exactly
      when the column is not filled. */
  lemma ColumnFilledIffNoRoom(g: Grid, col: int)
    requires WellFormed(g) && Gravity(g) && 0 <= col < COLS
    ensures IsColumnFilled(g, col) <==> !HasRoom(g, col)
  {
  }

  /** Dropping a piece into a board that obeys gravity keeps gravity. */
  lemma PlaceKeepsGravity(g: Grid, col: int, piece: Cell)
    requires WellFormed(g) && Gravity(g) && 0 <= col < COLS && HasRoom(g, col)
    requires piece != Empty
    ensures Gravity(Place(g, col, piece))
  {
  }

  /** On a board that obeys gravity the dropped piece lands on top of its
      column: every cell above it is still empty, every cell below it occupied. */
  lemma PlaceLandsOnTop(g: Grid, col: int)
    requires WellFormed(g) && Gravity(g) && 0 <= col < COLS && HasRoom(g, col)
    ensures var row := LowestEmpty(g, col);
      (forall k :: 0 <= k < row ==> g[k][col] == Empty) &&
      (forall k :: row < k < ROWS ==> g[k][col] != Empty)
  {
  }

  /** The cell with the two players exchanged. */
  function SwapCell(c: Cell): (d: Cell)
    ensures (c == Empty) == (d == Empty)
  {
    match c
    case Empty => Empty
    case X => O
    case O => X
  }

  /** The board with every X turned into O and every O into X. */
  function SwapGrid(g: Grid): (h: Grid)
    requires WellFormed(g)
    ensures WellFormed(h)
    ensures forall r, c :: 0 <= r < ROWS && 0 <= c < COLS ==> h[r][c] == SwapCell(g[r][c])
  {
    seq(ROWS, r requires 0 <= r < ROWS => seq(COLS, c requires 0 <= c < COLS => SwapCell(g[r][c])))
  }
}
