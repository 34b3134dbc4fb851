/** Win detection by ray casting through the piece just placed (game.py:
    checkWin). */
module WinCheck {
  import opened Board

  /** The four direction vectors of checkWin, in its order: horizontal,
      vertical, positive slope, negative slope. */
  const DIRECTIONS: seq<(int, int)> := [(0, 1), (1, 0), (-1, 1), (-1, -1)]

  /** A single step to a neighbouring cell. */
  predicate IsStep(dr: int, dc: int) {
    -1 <= dr <= 1 && -1 <= dc <= 1 && (dr != 0 || dc != 0)
  }

  /** How many more steps of sign `d` stay within 0 .. n - 1 from x. */
  function Reach(x: int, d: int, n: int): int {
    if d > 0 then n - x else if d < 0 then x + 1 else 0
  }

  /** k * d for a step component d in -1 .. 1. */
  function Scale(k: int, d: int): int {
    if d > 0 then k else if d < 0 then -k else 0
  }

  /** The cell k steps of (dr, dc) away from (row, col) is on the board and holds p. */
  ghost predicate Matches(g: Grid, row: int, col: int, dr: int, dc: int, k: int, p: Cell)
    requires WellFormed(g)
  {
    InBounds(row + Scale(k, dr), col + Scale(k, dc)) && g[row + Scale(k, dr)][col + Scale(k, dc)] == p
  }

  /** The number of consecutive cells holding p met when walking from
      (row, col) along (dr, dc) until a mismatch or the edge of the board. */
  function Ray(g: Grid, row: int, col: int, dr: int, dc: int, p: Cell): nat
    requires WellFormed(g) && IsStep(dr, dc)
    decreases Reach(row, dr, ROWS) + Reach(col, dc, COLS)
  {
    if InBounds(row, col) && g[row][col] == p then 1 + Ray(g, row + dr, col + dc, dr, dc, p) else 0
  }

  /** The length of the chain through (row, col) along (dr, dc): the cell itself
      plus the walks in the reverse and in the forward direction. */
  function ChainLength(g: Grid, row: int, col: int, dr: int, dc: int): nat
    requires WellFormed(g) && InBounds(row, col) && IsStep(dr, dc)
  {
    var p := g[row][col];
    1 + Ray(g, row - dr, col - dc, -dr, -dc, p) + Ray(g, row + dr, col + dc, dr, dc, p)
  }

  /** The four cells at offsets lo .. lo + 3 along (dr, dc) all hold p. */
  ghost predicate FourFrom(g: Grid, row: int, col: int, dr: int, dc: int, lo: int, p: Cell)
    requires WellFormed(g)
  {
    forall k :: lo <= k < lo + 4 ==> Matches(g, row, col, dr, dc, k, p)
  }

  /** (row, col) is one of four cells in a row, along (dr, dc), that all hold its piece. */
  ghost predicate FourThrough(g: Grid, row: int, col: int, dr: int, dc: int)
    requires WellFormed(g) && InBounds(row, col)
  {
    exists lo :: -3 <= lo <= 0 && FourFrom(g, row, col, dr, dc, lo, g[row][col])
  }

  /** The piece at (row, col) completes four in a row along one of the four directions. */
  ghost predicate Connected(g: Grid, row: int, col: int)
    requires WellFormed(g) && InBounds(row, col)
  {
    g[row][col] != Empty &&
    exists i :: 0 <= i < |DIRECTIONS| && FourThrough(g, row, col, DIRECTIONS[i].0, DIRECTIONS[i].1)
  }

  /** One step along the direction shifts every offset by one. */
  lemma MatchesShift(g: Grid, row: int, col: int, dr: int, dc: int, k: int, p: Cell)
    requires WellFormed(g) && IsStep(dr, dc)
    ensures Matches(g, row + dr, col + dc, dr, dc, k, p) == Matches(g, row, col, dr, dc, k + 1, p)
  {
    assert row + dr + Scale(k, dr) == row + Scale(k + 1, dr);
    assert col + dc + Scale(k, dc) == col + Scale(k + 1, dc);
  }

  /** Walking backwards from the neighbour behind (row, col) meets the cells at
      negative offsets from (row, col). */
  lemma MatchesReverse(g: Grid, row: int, col: int, dr: int, dc: int, k: int, p: Cell)
    requires WellFormed(g) && IsStep(dr, dc)
    ensures Matches(g, row - dr, col - dc, -dr, -dc, k, p) == Matches(g, row, col, dr, dc, -k - 1, p)
  {
    assert row - dr + Scale(k, -dr) == row + Scale(-k - 1, dr);
    assert col - dc + Scale(k, -dc) == col + Scale(-k - 1, dc);
  }

  /** A walk that covers n cells has found p on each of the first n cells of the ray. */
  lemma {:induction false} RayPrefix(g: Grid, row: int, col: int, dr: int, dc: int, p: Cell, n: nat)
    requires WellFormed(g) && IsStep(dr, dc)
    requires Ray(g, row, col, dr, dc, p) >= n
    ensures forall k :: 0 <= k < n ==> Matches(g, row, col, dr, dc, k, p)
    decreases n
  {
    if n > 0 {
      var nextRow, nextCol := row + dr, col + dc;
      RayPrefix(g, nextRow, nextCol, dr, dc, p, n - 1);
      forall k | 0 <= k < n ensures Matches(g, row, col, dr, dc, k, p) {
        if k > 0 {
          MatchesShift(g, row, col, dr, dc, k - 1, p);
        }
      }
    }
  }

  /** When the first n cells of the ray are on the board and hold p, the walk
      covers at least n cells. */
  lemma {:induction false} RayReaches(g: Grid, row: int, col: int, dr: int, dc: int, p: Cell, n: nat)
    requires WellFormed(g) && IsStep(dr, dc)
    requires forall k :: 0 <= k < n ==> Matches(g, row, col, dr, dc, k, p)
    ensures Ray(g, row, col, dr, dc, p) >= n
    decreases n
  {
    if n > 0 {
      assert Matches(g, row, col, dr, dc, 0, p);
      var nextRow, nextCol := row + dr, col + dc;
      forall k | 0 <= k < n - 1 ensures Matches(g, nextRow, nextCol, dr, dc, k, p) {
        MatchesShift(g, row, col, dr, dc, k, p);
      }
      RayReaches(g, nextRow, nextCol, dr, dc, p, n - 1);
    }
  }

  /** The first n cells of the backward ray, which starts at the neighbour
      (backRow, backCol) behind (row, col), are the cells at offsets -n .. -1. */
  lemma BackwardCells(g: Grid, row: int, col: int, dr: int, dc: int, p: Cell, n: int,
                      backRow: int, backCol: int, bdr: int, bdc: int)
    requires WellFormed(g) && IsStep(dr, dc) && 0 <= n
    requires backRow == row - dr && backCol == col - dc && bdr == -dr && bdc == -dc
    ensures (forall j :: 0 <= j < n ==> Matches(g, backRow, backCol, bdr, bdc, j, p))
      <==> (forall k :: -n <= k < 0 ==> Matches(g, row, col, dr, dc, k, p))
  {
    forall j | 0 <= j < n
      ensures Matches(g, backRow, backCol, bdr, bdc, j, p) == Matches(g, row, col, dr, dc, -j - 1, p)
    {
      MatchesReverse(g, row, col, dr, dc, j, p);
    }
    if forall j :: 0 <= j < n ==> Matches(g, backRow, backCol, bdr, bdc, j, p) {
      forall k | -n <= k < 0 ensures Matches(g, row, col, dr, dc, k, p) {
        assert Matches(g, backRow, backCol, bdr, bdc, -k - 1, p);
      }
    }
  }

  /** The first n cells of the forward ray, which starts at the neighbour
      (fwdRow, fwdCol) ahead of (row, col), are the cells at offsets 1 .. n. */
  lemma ForwardCells(g: Grid, row: int, col: int, dr: int, dc: int, p: Cell, n: int,
                     fwdRow: int, fwdCol: int)
    requires WellFormed(g) && IsStep(dr, dc) && 0 <= n
    requires fwdRow == row + dr && fwdCol == col + dc
    ensures (forall j :: 0 <= j < n ==> Matches(g, fwdRow, fwdCol, dr, dc, j, p))
      <==> (forall k :: 1 <= k <= n ==> Matches(g, row, col, dr, dc, k, p))
  {
    forall j | 0 <= j < n
      ensures Matches(g, fwdRow, fwdCol, dr, dc, j, p) == Matches(g, row, col, dr, dc, j + 1, p)
    {
      MatchesShift(g, row, col, dr, dc, j, p);
    }
    if forall j :: 0 <= j < n ==> Matches(g, fwdRow, fwdCol, dr, dc, j, p) {
      forall k | 1 <= k <= n ensures Matches(g, row, col, dr, dc, k, p) {
        assert Matches(g, fwdRow, fwdCol, dr, dc, k - 1, p);
      }
    }
  }

  /** A count of four along one direction puts the cell in four in a row. */
  lemma ChainToFour(g: Grid, row: int, col: int, dr: int, dc: int)
    requires WellFormed(g) && InBounds(row, col) && IsStep(dr, dc)
    requires ChainLength(g, row, col, dr, dc) >= 4
    ensures FourThrough(g, row, col, dr, dc)
  {
    var p := g[row][col];
    var backRow, backCol, bdr, bdc := row - dr, col - dc, -dr, -dc;
    var fwdRow, fwdCol := row + dr, col + dc;
    var back := Ray(g, backRow, backCol, bdr, bdc, p);
    var fwd := Ray(g, fwdRow, fwdCol, dr, dc, p);
    RayPrefix(g, backRow, backCol, bdr, bdc, p, back);
    RayPrefix(g, fwdRow, fwdCol, dr, dc, p, fwd);
    BackwardCells(g, row, col, dr, dc, p, back, backRow, backCol, bdr, bdc);
    ForwardCells(g, row, col, dr, dc, p, fwd, fwdRow, fwdCol);
    assert Matches(g, row, col, dr, dc, 0, p);
    var lo: int := if back < 3 then -(back as int) else -3;
    assert FourFrom(g, row, col, dr, dc, lo, p);
  }

  /** Four in a row through the cell gives a count of at least four. */
  lemma FourToChain(g: Grid, row: int, col: int, dr: int, dc: int)
    requires WellFormed(g) && InBounds(row, col) && IsStep(dr, dc)
    requires FourThrough(g, row, col, dr, dc)
    ensures ChainLength(g, row, col, dr, dc) >= 4
  {
    var p := g[row][col];
    var backRow, backCol, bdr, bdc := row - dr, col - dc, -dr, -dc;
    var fwdRow, fwdCol := row + dr, col + dc;
    var lo :| -3 <= lo <= 0 && FourFrom(g, row, col, dr, dc, lo, p);
    BackwardCells(g, row, col, dr, dc, p, -lo, backRow, backCol, bdr, bdc);
    ForwardCells(g, row, col, dr, dc, p, lo + 3, fwdRow, fwdCol);
    RayReaches(g, backRow, backCol, bdr, bdc, p, -lo);
    RayReaches(g, fwdRow, fwdCol, dr, dc, p, lo + 3);
  }

  /** checkWin's count along one direction reaches four exactly when the cell
      is one of four in a row along that direction. */
  lemma ChainIffFour(g: Grid, row: int, col: int, dr: int, dc: int)
    requires WellFormed(g) && InBounds(row, col) && IsStep(dr, dc)
    ensures ChainLength(g, row, col, dr, dc) >= 4 <==> FourThrough(g, row, col, dr, dc)
  {
    if ChainLength(g, row, col, dr, dc) >= 4 {
      ChainToFour(g, row, col, dr, dc);
    }
    if FourThrough(g, row, col, dr, dc) {
      FourToChain(g, row, col, dr, dc);
    }
  }

  /** One walk of checkWin: step from (row, col) along (dr, dc) while the cell
      is on the board and holds `piece`, counting the steps. */
  method Walk(board: Grid, row: int, col: int, dr: int, dc: int, piece: Cell) returns (steps: nat)
    requires WellFormed(board) && IsStep(dr, dc)
    ensures steps == Ray(board, row, col, dr, dc, piece)
  {
    steps := 0;
    var searchRow, searchCol := row, col;
    while InBounds(searchRow, searchCol) && board[searchRow][searchCol] == piece
      invariant steps + Ray(board, searchRow, searchCol, dr, dc, piece) == Ray(board, row, col, dr, dc, piece)
      decreases Reach(searchRow, dr, ROWS) + Reach(searchCol, dc, COLS)
    {
      steps := steps + 1;
      searchRow, searchCol := searchRow + dr, searchCol + dc;
    }
  }

  /** checkWin: false on an empty cell; otherwise walk both ways along each of
      the four directions, counting same-piece cells from 1, and report
      whether some count reaches four. */
  method CheckWin(board: Grid, row: int, col: int) returns (won: bool)
    requires WellFormed(board) && InBounds(row, col)
    ensures board[row][col] == Empty ==> !won
    ensures won <==> (board[row][col] != Empty &&
      exists i :: 0 <= i < |DIRECTIONS| && ChainLength(board, row, col, DIRECTIONS[i].0, DIRECTIONS[i].1) >= 4)
    ensures won <==> Connected(board, row, col)
  {
    var piece := board[row][col];
    if piece == Empty {
      return false;
    }
    var lengths := [1, 1, 1, 1];
    for index := 0 to |DIRECTIONS|
      invariant |lengths| == 4
      invariant forall i :: 0 <= i < index ==> lengths[i] == ChainLength(board, row, col, DIRECTIONS[i].0, DIRECTIONS[i].1)
      invariant forall i :: index <= i < 4 ==> lengths[i] == 1
    {
      var (dr, dc) := DIRECTIONS[index];
      // reverse direction first, then forward
      var back := Walk(board, row - dr, col - dc, -dr, -dc, piece);
      var forward := Walk(board, row + dr, col + dc, dr, dc, piece);
      lengths := lengths[index := lengths[index] + back + forward];
    }
    forall i | 0 <= i < |DIRECTIONS|
      ensures ChainLength(board, row, col, DIRECTIONS[i].0, DIRECTIONS[i].1) >= 4
          <==> FourThrough(board, row, col, DIRECTIONS[i].0, DIRECTIONS[i].1)
    {
      ChainIffFour(board, row, col, DIRECTIONS[i].0, DIRECTIONS[i].1);
    }
    for i := 0 to |lengths|
      invariant forall j :: 0 <= j < i ==> lengths[j] < 4
    {
      if lengths[i] >= 4 {
        return true;
      }
    }
    return false;
  }
}
