# Connect Four decision engine in Dafny

A model of the engine in `game.py`, a human-versus-computer Connect Four game
on a board of 6 rows and 7 columns. Row 0 is the top row. A cell holds `"*"`
(`Cell.Empty`), `"X"` (the computer) or `"O"` (the human). The model has six
modules, each in its own file:

- `Board` (`board.dfy`): the grid, its cells, and the gravity drop.
  - `placePiece` is a method on an `array2<Cell>` that scans up from the bottom row and writes one cell in place.
  - `isColumnFilled` and `inBounds` are predicates.
  - `np.array(board)` becomes `CopyBoard`.
- `WinCheck` (`win_check.dfy`): `checkWin`, four pairs of ray walks through the piece just placed.
- `BoardLines` (`lines.dfy`): the 37 lines that `score` reads, in its order. There are 6 rows, 7 columns, 12 negative-slope diagonals and 12 positive-slope diagonals.
- `Scoring` (`scoring.dfy`): `square_sum_chains` (a run accumulator over one line), `score` (the sum over all lines) and `heuristic`.
- `Search` (`search.dfy`): `minimaxSearch` and `cpuTurn`.
  - The search copies the board, drops an `"X"` and recurses to `MAX_DEPTH = 2`.
  - It is proved against the recursive specification `Minimax`.
- `WinScore` (`win_score.dfy`): ties `checkWin` to `score`. A winning piece lies on a line that earns its owner the win bonus.

Every loop of the source is a Dafny loop with its invariants. The drop scan,
the ray walks, the run accumulator, the line sum and the column loop of the
search are each proved against a function that specifies them, and the
properties of the game are then proved about those functions.

The model follows the code as written:

- The search drops `"X"` at every depth; it never places an `"O"`.
- `(-1 ** depth)` parses as `-(1 ** depth)`, which is −1 at every depth (`DepthSign`). Every child score is therefore negated.
- There is no alpha-beta pruning, no depth penalty for wins and no early exit on a win.
- The evaluator is the cube-of-run-length scheme with a bonus of 10000 per run of four or more. It is not a sliding 4-cell window.
- `score` visits every diagonal, including those shorter than four cells. They contribute cubes like any other line.

The source's comments describe more than its code does. The comments at game.py:43-44 and game.py:52-54 say odd depths are the human's turn and should minimise while even depths maximise. The code instead drops `"X"` and negates at every depth. The model follows the code.

## Model

| member | source | states |
|---|---|---|
| Board.PlacePiece | game.py:60-65 | On a column with room, writes `piece` into exactly the lowest empty cell. It returns that cell's (row, col). Every cell below it in the column is occupied, and no other cell changes. The new board equals `Place` of the old one. |
| Board.Place | game.py:60-65 | The board after a drop is again a well-formed 6×7 board. |
| Board.LowestEmpty | game.py:61-63 | The row the scan stops at is empty, and every cell below it in the column is occupied. |
| Board.LowestEmptyFrom | game.py:61-63 | Scanning up from `row` reaches an empty cell at or above `row` with only occupied cells between. |
| Board.ColumnFilledIffNoRoom | game.py:149-150 | On a board that obeys gravity, `isColumnFilled` (top cell occupied) holds exactly when the column has no empty cell. So the drop scan stays on the board exactly when the column is not filled. |
| Board.PlaceKeepsGravity | game.py:60-65 | Dropping a piece into a board that obeys gravity yields a board that obeys gravity. |
| Board.PlaceLandsOnTop | game.py:61-64 | Under gravity the dropped piece lands with only empty cells above it and only occupied cells below it. |
| Board.CopyBoard | game.py:41 | `np.array(board)`: a fresh array with the same contents as the board. |
| Board.SwapGrid | game.py:110-111 | The board with X and O exchanged, cell by cell. Empty cells stay empty. |
| Board.InBounds | game.py:153-154 | `inBounds`: (row, col) names one of the 6 × 7 cells. It carries no contract of its own; `Walk` guards every read with it, and `Matches` requires it of every cell of a four in a row. |
| Board.IsColumnFilled | game.py:149-150 | `isColumnFilled`: the top cell of the column is occupied. A column that is not filled has an empty cell, so a drop into it has room. The converse holds under gravity (`ColumnFilledIffNoRoom`). |
| WinCheck.Walk | game.py:92-95 | One `while inBounds(...) and board[...] == piece` walk counts exactly `Ray`, the number of consecutive same-piece cells before a mismatch or the edge. Every cell it reads is on the board. |
| WinCheck.CheckWin | game.py:78-107 | Returns false on an empty cell. Otherwise it returns true exactly when, for one of the four directions, 1 plus both walks reaches 4, which is exactly when the piece is one of four in a row along that direction (`Connected`). |
| WinCheck.ChainIffFour | game.py:83-107 | For one direction, the count 1 + back walk + forward walk is at least 4 exactly when four consecutive cells through (row, col) along that direction hold its piece. |
| WinCheck.ChainToFour | game.py:88-102 | A count of four along a direction gives four in a row through the cell along it. |
| WinCheck.FourToChain | game.py:88-102 | Four in a row through the cell along a direction gives a count of at least four. |
| WinCheck.RayPrefix | game.py:92-95 | A walk that counted n steps saw p on the first n cells of its ray, all on the board. |
| WinCheck.RayReaches | game.py:99-102 | When the first n cells of a ray are on the board and hold p, the walk counts at least n. |
| WinCheck.BackwardCells | game.py:89-95 | The reverse walk, which starts at (row − dr, col − dc), visits the cells at offsets −1, −2, … from the piece. |
| WinCheck.ForwardCells | game.py:96-102 | The forward walk, which starts at (row + dr, col + dc), visits the cells at offsets 1, 2, … from the piece. |
| WinCheck.MatchesShift | game.py:101-102 | Stepping once along the direction shifts every offset by one. |
| WinCheck.MatchesReverse | game.py:94-95 | Walking back from the neighbour behind the piece meets the negative offsets of the forward direction. |
| WinCheck.Ray | game.py:92-102 | The count of one walk: the consecutive cells holding p from a start cell along a direction, up to a mismatch or the edge. `Walk` computes it; `RayPrefix` and `RayReaches` characterise it. |
| WinCheck.ChainLength | game.py:83-102 | `lengths[index]` after both walks: 1 plus the reverse walk plus the forward walk. `ChainIffFour` proves it reaches 4 exactly when the piece is one of four in a row along that direction. |
| WinCheck.Connected | game.py:78-107 | The win condition as a property of the board: the cell is occupied, and it is one of four in a row of its piece along one of checkWin's four directions. `CheckWin` returns exactly this. |
| BoardLines.AllLines | game.py:115-139 | The lines `score` visits are 37. Every coordinate on them is on the board, and each line has 1 to 7 cells. |
| BoardLines.LineAt | game.py:115-139 | The cells of a coordinate line, one per coordinate, in order. |
| BoardLines.LineCells | game.py:117-137 | The k-th line `score` builds has the length of line k of `AllLines` and 1 to 7 cells. |
| BoardLines.Lines | game.py:115-139 | `score` builds one cell line per line of `AllLines`. |
| BoardLines.AllLinesAt | game.py:117-137 | Line k of `AllLines` in closed form: its length and the coordinates of its j-th cell. |
| BoardLines.NegDiagAt | game.py:125-131 | The negative-slope diagonals in closed form. The first six start at (0, col) for col 1 to 6; the next six start at (row, 0) for row 0 to 5. |
| BoardLines.PosDiagAt | game.py:133-137 | The positive-slope diagonals in closed form. The first six run from (0, col) down-left for col 0 to 5; the next six run from (row, 6) down-left for row 0 to 5. |
| BoardLines.NegDiagsPartition | game.py:125-131 | Every cell of the board lies on exactly one negative-slope diagonal, at exactly one position. `NegDiagSlot` and the diagonals are mutually inverse. |
| BoardLines.PosDiagsPartition | game.py:133-137 | Every cell of the board lies on exactly one positive-slope diagonal, at exactly one position. |
| BoardLines.NegDiagSlotHits | game.py:125-131 | The slot computed for an on-board cell names a position on the negative-slope diagonals that holds that cell. |
| BoardLines.NegDiagSlotInverse | game.py:125-131 | Each position on the negative-slope diagonals is on the board, and its slot is that position. |
| BoardLines.PosDiagSlotHits | game.py:133-137 | The slot computed for an on-board cell names a position on the positive-slope diagonals that holds that cell. |
| BoardLines.PosDiagSlotInverse | game.py:133-137 | Each position on the positive-slope diagonals is on the board, and its slot is that position. |
| BoardLines.RowsAndColumnsPartition | game.py:117-123 | Every cell lies on exactly one row and one column, at its column and row index respectively. |
| BoardLines.LineAtClosedForm | game.py:117-137 | Any cell sequence that matches line k cell by cell is the content of line k. |
| BoardLines.LinesAreAllLines | game.py:115-139 | The cell lines `score` builds are exactly the contents of the coordinate lines of `AllLines`. |
| BoardLines.RowCells | game.py:118-119 | `for row in board`: the cells of row `row`, left to right. `LinesAreAllLines` proves it is line `row` of `AllLines`. |
| BoardLines.ColumnCells | game.py:122-123 | `board[:, col]`: the cells of column `col`, top to bottom; line 6 + col of `AllLines` (`LinesAreAllLines`). |
| BoardLines.NegDiagFromTop | game.py:127-128 | `[board[i - col, i] for i in range(col, 7)]`: the negative-slope diagonal from (0, col) to the right edge; line 12 + col of `AllLines` (`LinesAreAllLines`). |
| BoardLines.NegDiagFromLeft | game.py:130-131 | `[board[i, i - row] for i in range(row, 6)]`: the negative-slope diagonal from (row, 0) to the bottom row; line 19 + row of `AllLines` (`LinesAreAllLines`). |
| BoardLines.PosDiagFromTop | game.py:134-135 | `[board[col - i, i] for i in range(col, -1, -1)]`: the positive-slope diagonal from (0, col) down to (col, 0); line 25 + col of `AllLines` (`LinesAreAllLines`). |
| BoardLines.PosDiagFromRight | game.py:136-137 | `[board[i, 6 - i + row] for i in range(row, 6)]`: the positive-slope diagonal from (row, 6) down to the bottom row; line 31 + row of `AllLines` (`LinesAreAllLines`). |
| Scoring.TrailRun | game.py:157-178 | The length of the run of p at the end of a line: those cells hold p, and the cell before them does not. |
| Scoring.ChainSum | game.py:157-178 | The sum over maximal runs of p of length³, plus 10000 for runs of four or more. It is never negative. |
| Scoring.SquareSumChains | game.py:157-178 | `square_sum_chains` returns `ChainSum`. This includes a run that ends at the last index. |
| Scoring.AddChain | game.py:168-170 | Closing a run adds `RunValue(length)`. A run of four or more adds at least 10000 + 64. |
| Scoring.ChainSumStep | game.py:161-176 | One step of the scan: a cell of another piece leaves the sum unchanged and closes the trailing run; a p extends the trailing run by one. The run before cell `index` is non-empty exactly when cell `index − 1` holds p. |
| Scoring.ChainSumExtendOther | game.py:171-176 | Appending a cell other than p leaves the sum unchanged and the trailing run empty. |
| Scoring.ChainSumExtendSame | game.py:162-165 | Appending p lengthens the trailing run by one. It changes the sum only through that run's value. |
| Scoring.ChainSumAbsent | game.py:157-178 | A line without p scores 0. |
| Scoring.ChainSumWin | game.py:157-178 | A line holding four consecutive p scores at least 10000. |
| Scoring.ChainSumNoWin | game.py:157-178 | A line without four consecutive p scores at most 9 per cell. |
| Scoring.ChainSumWinIff | game.py:157-178 | On a line of at most 7 cells, the score reaches 10000 exactly when the line holds four consecutive p. |
| Scoring.ChainSumBound | game.py:157-178 | A line of at most 7 cells scores at most the value of one run as long as the line. |
| Scoring.RunValueSuperadditive | game.py:168-176 | Two runs never score more than one run of their combined length, within 7 cells. |
| Scoring.LongTrailWins | game.py:167-170 | A trailing run of four or more already earns the win bonus. |
| Scoring.ShortTrailKeepsFour | game.py:157-178 | A four in a row survives removing a trailing run shorter than four. |
| Scoring.FourAtPrefix | game.py:157-178 | A four in a row within a prefix stays a four in a row of that prefix. |
| Scoring.ChainSumDropTrail | game.py:157-178 | The line's score is the value of its trailing run plus the score of the rest. |
| Scoring.SwapLine | game.py:110-111 | A line with X and O exchanged, cell by cell. |
| Scoring.SwapLinePrefix | game.py:110-111 | Swapping commutes with taking a prefix. |
| Scoring.TrailRunSwap | game.py:110-111 | The trailing run of p in a line equals the trailing run of the swapped piece in the swapped line. |
| Scoring.ChainSumSwap | game.py:110-111 | A line scores for p what its swapped line scores for the swapped piece. |
| Scoring.Score | game.py:115-139 | `score` returns `ScoreOf`: the sum of `square_sum_chains` over the 37 lines, in the source's order. |
| Scoring.SumChains | game.py:115-139 | A sum of line scores is never negative. |
| Scoring.SumChainsPrefix | game.py:118-137 | Adding one more line adds its line score. |
| Scoring.AddLine | game.py:118-137 | One pass of the line loop adds the k-th line's score to the total. |
| Scoring.SumChainsAtLeast | game.py:115-139 | The total is at least any single line's score. |
| Scoring.SumChainsAtMost | game.py:115-139 | The total of lines each scoring at most b is at most (number of lines) × b. |
| Scoring.LineBound | game.py:115-139 | No line scores more than 7³ + 10000. |
| Scoring.ScoreBounds | game.py:115-139 | 0 ≤ `score` ≤ 37 × (7³ + 10000). |
| Scoring.ScoreWinIff | game.py:115-139 | `score(board, p)` reaches 10000 exactly when some line holds four consecutive p. |
| Scoring.LineCellsSwap | game.py:115-139 | Each line of the swapped board is the swapped line. |
| Scoring.SumChainsSwap | game.py:115-139 | Swapped lines sum, for the swapped piece, to the original total. |
| Scoring.ScoreSwap | game.py:115-139 | `score` of the swapped board for the swapped piece equals `score` of the board for the piece. |
| Scoring.HeuristicSwap | game.py:110-111 | Exchanging every X with O negates `heuristic`. |
| Scoring.HeuristicBounds | game.py:110-111 | `heuristic` lies between −37 × (7³ + 10000) and 37 × (7³ + 10000). |
| Scoring.EvalHeuristic | game.py:110-111 | Returns `score(X) − score(O)`, both computed by `Score`. |
| Scoring.ScoreOf | game.py:115-139 | `score(board, p)` as a value: the sum of `ChainSum` over the 37 lines of `Lines`. It is never negative. `Score` computes it; `ScoreBounds` and `ScoreWinIff` state its range and when it includes a win bonus. |
| Scoring.Heuristic | game.py:110-111 | `score(X) − score(O)` as a value, so it lies between −score(O) and score(X). `HeuristicSwap` proves that exchanging X and O negates it. |
| Search.DepthSign | game.py:45 | `(-1 ** depth)` is −1 at every depth. |
| Search.Power | game.py:45 | `1 ** e` is 1. |
| Search.TimesDepthSign | game.py:45 | Multiplying by `(-1 ** depth)` negates. |
| Search.Children | game.py:39-45 | There is one entry per column. |
| Search.ChildrenAt | game.py:40-45 | Column c has no score when it is filled. Otherwise its score is the negated search of the board with an X dropped into c. |
| Search.Consider | game.py:46-48 | One comparison: the best (move, score) changes only to (col, score) and only when the score is strictly higher. A strictly higher score always replaces it. |
| Search.BestOfChoice | game.py:37-49 | The column loop from `col` on either keeps the incoming best, when no later column beats it, or picks a scored column s. In that case s beats the incoming best, no column scores more, and every column to its left scores strictly less. |
| Search.BestOfSentinel | game.py:37-49 | When every scored column beats the initial best, the loop keeps (0, −100000000) only if no column is scored. Otherwise it picks the leftmost column with the highest score. |
| Search.LastPlyBound | game.py:33-49 | One ply above the limit, the search scores at most 37 × (7³ + 10000). |
| Search.ChildBeatsSentinel | game.py:37-45 | Every open column scores above −100000000, so the first open column always replaces the initial best. |
| Search.MinimaxChoice | game.py:33-49 | Below the limit: with every column filled the result is (0, −100000000). Otherwise the move is a non-full column and the score is that column's score. No non-full column scores more, and every non-full column to its left scores strictly less. |
| Search.MinimaxSearch | game.py:33-49 | Returns `Minimax` of the board, and (−1, heuristic(board)) at depth `MAX_DEPTH`. It declares no `modifies` clause, so the input board is unchanged. |
| Search.TryColumn | game.py:40-48 | One pass of the column loop is exactly one `Consider` step on that column's score. A filled column is skipped. |
| Search.SearchChild | game.py:41-45 | Copying the board, dropping an X into an open column and searching one ply deeper yields that column's score. |
| Search.CpuTurn | game.py:29-30 | Returns the move of `minimaxSearch(board, 0)`. That move is a non-full column whenever one exists. |
| Search.Minimax | game.py:33-49 | `minimaxSearch` as a value. At `MAX_DEPTH` the move is −1. Below it the move is a column index 0 to 6 and the score is at least −100000000. `MinimaxChoice` states which column and score. |
| Search.ChildScore | game.py:41-45 | The score the loop gives an open column: the negated score of the search one ply deeper, on the board with an X dropped there. `SearchChild` computes it; `ChildBeatsSentinel` proves it beats −100000000. |
| Search.BestOf | game.py:39-48 | The column loop from column `col` on, given the best move and score so far. The best score never drops, and a move that is a column stays a column. `BestOfChoice` and `BestOfSentinel` state which column wins. |
| WinScore.ConnectedScoresWin | game.py:115-139 | A piece that `checkWin` reports as a win gives its owner a `score` of at least 10000. |
| WinScore.RowFour | game.py:118-119 | Four in a row along a row lies on that row's line. |
| WinScore.ColumnFour | game.py:122-123 | Four in a row along a column lies on that column's line. |
| WinScore.NegDiagTopFour | game.py:127-128 | Four in a row along direction (−1, −1), right of the main diagonal, lies on the diagonal that starts on the top row. |
| WinScore.NegDiagLeftFour | game.py:130-131 | Four in a row along direction (−1, −1), on or left of the main diagonal, lies on the diagonal that starts on the left column. |
| WinScore.PosDiagTopFour | game.py:134-135 | Four in a row along direction (−1, 1) with row + col < 6 lies on the diagonal that starts on the top row. |
| WinScore.PosDiagRightFour | game.py:136-137 | Four in a row along direction (−1, 1) with row + col ≥ 6 lies on the diagonal that starts on the right column. |
| WinScore.FourOnLine | game.py:157-178 | Four consecutive p cells in a line make a four in a row of that line. |
| WinScore.MatchesCell | game.py:92-102 | A matching cell k steps along a direction is on the board and holds the piece. |

## Left out

- `playerTurn` (game.py:10-26) reads and validates console input and re-prompts. It is I/O.
- `printBoard` (game.py:142-147) renders text only.
- The top-level game loop and `quit()` (game.py:180-196) are left out.
- The module-global `board` (game.py:8) is left out. The board is an explicit parameter of `CpuTurn` and `MinimaxSearch`.
- The numpy construction and slicing (`np.array`, `board[:, col]`) are modelled as plain 2-D indexing and copying. The unused `random` import is left out.
- Board.PlacePiece: requires an empty cell in the column. On a full column the source's scan runs into negative indices, which Python wraps to rows counted from the bottom, and stops with an `IndexError`. No call in the source reaches that case. The human's column is checked by `isColumnFilled` in `playerTurn` (game.py:23). The search drops only into columns it has checked (game.py:40). The computer's column at game.py:192 is not checked, but it is open: `CpuTurn` returns an open column whenever one exists, and one always does on the computer's turn. The human moves first and the board has an even number of cells, so after the human's move an odd number of cells is filled.
- WinCheck.CheckWin: takes the board as a value, because it only reads it. The two walks per direction are calls of one `Walk` method.
- Scoring.Score: takes the board as a value. The six loops of `score` are one loop over the 37 lines in the same order; `LineCells` picks the row, column or diagonal of each pass.
- Scoring.SquareSumChains: the two statements that close a run (`score += length ** 3` and the bonus) are one `AddChain` call.
- Search.MinimaxSearch: the body of its column loop is the method `TryColumn`, and the copy-drop-recurse part of that body is the method `SearchChild`.
- Python's unbounded integers are modelled by Dafny's `int`, so no overflow exists on either side.
