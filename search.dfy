/** The computer's move choice (game.py: minimaxSearch, cpuTurn): a
    fixed-depth search that drops an "X" into every open column, scores the
    boards two plies down with heuristic, and keeps the first column with the
    highest negated child score. */
module Search {
  import opened Board
  import opened Scoring

  datatype Option<T> = None | Some(value: T)

  /** How many plies the search looks ahead. */
  const MAX_DEPTH: nat := 2

  /** The starting best_score, below anything a real move can score. */
  const INITIAL_BEST: int := -100000000

  /** b ** e. */
  function Power(b: int, e: nat): (r: int)
    ensures b == 1 ==> r == 1
  {
    if e == 0 then 1 else b * Power(b, e - 1)
  }

  /** The factor `(-1 ** depth)` of minimaxSearch. Exponentiation binds
      tighter than unary minus, so this is -(1 ** depth): -1 at every depth. */
  function DepthSign(depth: nat): (sign: int)
    ensures sign == -1
  {
    -Power(1, depth)
  }

  /** minimaxSearch(board, depth) as a value: (best_move, best_score), or
      (-1, heuristic(board)) at the depth limit. */
  function Minimax(g: Grid, depth: nat): (r: (int, int))
    requires WellFormed(g) && depth <= MAX_DEPTH
    ensures depth == MAX_DEPTH ==> r.0 == -1
    ensures depth < MAX_DEPTH ==> 0 <= r.0 < COLS && r.1 >= INITIAL_BEST
    decreases MAX_DEPTH - depth, 2
  {
    if depth == MAX_DEPTH then (-1, Heuristic(g))
    else BestOf(Children(g, depth), 0, 0, INITIAL_BEST)
  }

  /** The score minimaxSearch gives the move into column `col`: the child's
      score times (-1 ** depth), which is -1 (DepthSign). */
  function ChildScore(g: Grid, depth: nat, col: int): int
    requires WellFormed(g) && depth < MAX_DEPTH && 0 <= col < COLS && !IsColumnFilled(g, col)
    decreases MAX_DEPTH - depth, 0
  {
    -Minimax(Place(g, col, X), depth + 1).1
  }

  /** Multiplying by DepthSign negates. */
  lemma TimesDepthSign(depth: nat, x: int)
    ensures DepthSign(depth) * x == -x
  {
  }

  /** Every column's score, or None for a filled column, which the search skips. */
  function Children(g: Grid, depth: nat): (children: seq<Option<int>>)
    requires WellFormed(g) && depth < MAX_DEPTH
    ensures |children| == COLS
    decreases MAX_DEPTH - depth, 1
  {
    seq(COLS, c requires 0 <= c < COLS =>
      if IsColumnFilled(g, c) then None else Some(ChildScore(g, depth, c)))
  }

  /** One pass of minimaxSearch's loop over column `col`, given that
      column's score (None when it is filled): a strictly higher score
      replaces the best move and score so far. */
  function Consider(child: Option<int>, col: int, move: int, best: int): (r: (int, int))
    ensures r == (move, best) || (child.Some? && r == (col, child.value) && child.value > best)
    ensures child.Some? && child.value > best ==> r == (col, child.value)
  {
    match child
    case None => (move, best)
    case Some(score) => if score > best then (col, score) else (move, best)
  }

  /** The loop of minimaxSearch from column `col` on, with (move, best) the
      best move and score so far. The best score never drops, and the move
      stays a column. */
  function BestOf(children: seq<Option<int>>, col: int, move: int, best: int): (r: (int, int))
    requires 0 <= col <= |children|
    ensures r.1 >= best
    ensures 0 <= move < |children| ==> 0 <= r.0 < |children|
    decreases |children| - col
  {
    if col == |children| then (move, best)
    else
      var (m, b) := Consider(children[col], col, move, best);
      BestOf(children, col + 1, m, b)
  }

  /** Children at one column: None exactly when the column is filled. */
  lemma ChildrenAt(g: Grid, depth: nat, col: int)
    requires WellFormed(g) && depth < MAX_DEPTH && 0 <= col < COLS
    ensures Children(g, depth)[col] ==
      if IsColumnFilled(g, col) then None else Some(ChildScore(g, depth, col))
  {
  }

  /** What the loop from `col` on returns: either the incoming (move, best),
      when no column from `col` on scores higher, or the first column with
      the highest score, together with that score. */
  lemma {:induction false} BestOfChoice(children: seq<Option<int>>, col: int, move: int, best: int)
    requires 0 <= col <= |children|
    ensures var (m, s) := BestOf(children, col, move, best);
      ((m, s) == (move, best) &&
        forall c :: col <= c < |children| && children[c].Some? ==> children[c].value <= best)
      ||
      (col <= m < |children| && children[m] == Some(s) && s > best &&
        (forall c :: col <= c < |children| && children[c].Some? ==> children[c].value <= s) &&
        (forall c :: col <= c < m && children[c].Some? ==> children[c].value < s))
    decreases |children| - col
  {
    if col < |children| {
      var (m, b) := Consider(children[col], col, move, best);
      BestOfChoice(children, col + 1, m, b);
    }
  }

  /** When every column with a score beats `best`, the loop from column 0
      keeps (move, best) only if no column has a score, and otherwise picks
      a scored column holding the highest score, the leftmost such one. */
  lemma BestOfSentinel(children: seq<Option<int>>, move: int, best: int)
    requires forall c :: 0 <= c < |children| && children[c].Some? ==> children[c].value > best
    ensures (forall c :: 0 <= c < |children| ==> children[c].None?) ==>
      BestOf(children, 0, move, best) == (move, best)
    ensures (exists c :: 0 <= c < |children| && children[c].Some?) ==>
      var (m, s) := BestOf(children, 0, move, best);
      0 <= m < |children| && children[m] == Some(s) &&
      (forall c :: 0 <= c < |children| && children[c].Some? ==> children[c].value <= s) &&
      (forall c :: 0 <= c < m && children[c].Some? ==> children[c].value < s)
  {
    BestOfChoice(children, 0, move, best);
  }

  /** One ply above the depth limit, the search scores at most SCORE_MAX:
      it returns either INITIAL_BEST or a negated heuristic. */
  lemma LastPlyBound(g: Grid)
    requires WellFormed(g)
    ensures Minimax(g, MAX_DEPTH - 1).1 <= SCORE_MAX
  {
    var children := Children(g, MAX_DEPTH - 1);
    BestOfChoice(children, 0, 0, INITIAL_BEST);
    var m := Minimax(g, MAX_DEPTH - 1).0;
    if 0 <= m < COLS && children[m].Some? {
      HeuristicBounds(Place(g, m, X));
    }
  }

  /** Every open column scores above INITIAL_BEST, so the first open column
      always replaces the initial best_score. */
  lemma ChildBeatsSentinel(g: Grid, depth: nat, col: int)
    requires WellFormed(g) && depth < MAX_DEPTH && 0 <= col < COLS && !IsColumnFilled(g, col)
    ensures ChildScore(g, depth, col) > INITIAL_BEST
  {
    var child := Place(g, col, X);
    if depth + 1 == MAX_DEPTH {
      HeuristicBounds(child);
    } else {
      LastPlyBound(child);
    }
  }

  /** minimaxSearch's answer below the depth limit: with every column filled
      it is (0, INITIAL_BEST); otherwise its move is an open column, its score
      is that column's score, no open column scores higher, and every open
      column to its left scores strictly lower (ties go to the leftmost). */
  lemma MinimaxChoice(g: Grid, depth: nat)
    requires WellFormed(g) && depth < MAX_DEPTH
    ensures (forall c :: 0 <= c < COLS ==> IsColumnFilled(g, c)) ==> Minimax(g, depth) == (0, INITIAL_BEST)
    ensures (exists c :: 0 <= c < COLS && !IsColumnFilled(g, c)) ==>
      var (m, s) := Minimax(g, depth);
      0 <= m < COLS && !IsColumnFilled(g, m) && s == ChildScore(g, depth, m) &&
      (forall c :: 0 <= c < COLS && !IsColumnFilled(g, c) ==> ChildScore(g, depth, c) <= s) &&
      (forall c :: 0 <= c < m && !IsColumnFilled(g, c) ==> ChildScore(g, depth, c) < s)
  {
    var children := Children(g, depth);
    forall c | 0 <= c < COLS
      ensures children[c] == if IsColumnFilled(g, c) then None else Some(ChildScore(g, depth, c))
    {
      ChildrenAt(g, depth, c);
    }
    forall c | 0 <= c < COLS && children[c].Some?
      ensures children[c].value > INITIAL_BEST
    {
      ChildBeatsSentinel(g, depth, c);
    }
    BestOfSentinel(children, 0, INITIAL_BEST);
  }

  /** minimaxSearch: at the depth limit return (-1, heuristic(board));
      otherwise try every column in turn (TryColumn) and keep the first one
      whose negated child score is strictly the highest. The board itself is
      left as it was. */
  method MinimaxSearch(board: array2<Cell>, depth: nat) returns (bestMove: int, bestScore: int)
    requires IsBoard(board) && depth <= MAX_DEPTH
    ensures (bestMove, bestScore) == Minimax(Snapshot(board), depth)
    ensures depth == MAX_DEPTH ==> (bestMove, bestScore) == (-1, Heuristic(Snapshot(board)))
    decreases MAX_DEPTH - depth, 2
  {
    if depth == MAX_DEPTH {
      var value := EvalHeuristic(Snapshot(board));
      return -1, value;
    }
    bestScore := INITIAL_BEST;
    bestMove := 0;
    for col := 0 to COLS
      invariant BestOf(Children(Snapshot(board), depth), col, bestMove, bestScore) == Minimax(Snapshot(board), depth)
    {
      bestMove, bestScore := TryColumn(board, depth, col, bestMove, bestScore);
    }
  }

  /** One pass of minimaxSearch's loop: when the column is not filled, score
      it (SearchChild) and replace the best move and score when that score is
      strictly higher. */
  method TryColumn(board: array2<Cell>, depth: nat, col: int, bestMove: int, bestScore: int)
    returns (move: int, score: int)
    requires IsBoard(board) && depth < MAX_DEPTH && 0 <= col < COLS
    ensures (move, score) == Consider(Children(Snapshot(board), depth)[col], col, bestMove, bestScore)
    decreases MAX_DEPTH - depth, 1
  {
    ChildrenAt(Snapshot(board), depth, col);
    move, score := bestMove, bestScore;
    if !IsColumnFilled(Snapshot(board), col) {
      var newScore := SearchChild(board, depth, col);
      if newScore > score {
        score := newScore;
        move := col;
      }
    }
  }

  /** The score of the move into an open column: drop an "X" into a copy of
      the board (np.array(board) and placePiece), search the copy one ply
      deeper, and multiply the child's score by (-1 ** depth). */
  method SearchChild(board: array2<Cell>, depth: nat, col: int) returns (newScore: int)
    requires IsBoard(board) && depth < MAX_DEPTH && 0 <= col < COLS
    requires !IsColumnFilled(Snapshot(board), col)
    ensures newScore == ChildScore(Snapshot(board), depth, col)
    decreases MAX_DEPTH - depth, 0
  {
    assert Snapshot(board)[0][col] == Empty;
    var newBoard := CopyBoard(board);
    var _, _ := PlacePiece(newBoard, col, X);
    var _, childScore := MinimaxSearch(newBoard, depth + 1);
    newScore := DepthSign(depth) * childScore;
    TimesDepthSign(depth, childScore);
  }

  /** cpuTurn: the move minimaxSearch picks from depth 0. */
  method CpuTurn(board: array2<Cell>) returns (col: int)
    requires IsBoard(board)
    ensures col == Minimax(Snapshot(board), 0).0
    ensures (exists c :: 0 <= c < COLS && !IsColumnFilled(Snapshot(board), c)) ==>
      0 <= col < COLS && !IsColumnFilled(Snapshot(board), col)
  {
    var score;
    col, score := MinimaxSearch(board, 0);
    MinimaxChoice(Snapshot(board), 0);
  }
}
