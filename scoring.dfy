/** The board evaluation of game.py: square_sum_chains over one line, score
    over every line of the board, and heuristic, the computer's advantage. */
module Scoring {
  import opened Board
  import opened BoardLines

  /** What a run of four or more adds on top of its cube. */
  const WIN_BONUS: int := 10000

  /** What one maximal run of n pieces contributes: n cubed, plus the win bonus
      when the run is four or longer. */
  function RunValue(n: int): int {
    Cube(n) + (if n >= 4 then WIN_BONUS else 0)
  }

  /** n ** 3. */
  function Cube(n: int): int {
    n * n * n
  }

  /** Multiplying by a non-negative factor keeps an inequality. */
  lemma MulMonotone(x: int, y: int, z: nat)
    requires x <= y
    ensures x * z <= y * z
  {
  }

  /** One more factor of b. */
  lemma MulSucc(n: int, b: int)
    ensures (n + 1) * b == n * b + b
  {
  }

  /** Cubes grow with their base. */
  lemma CubeMonotone(a: nat, b: nat)
    requires a <= b
    ensures 0 <= Cube(a) <= Cube(b)
  {
    MulMonotone(a, b, a);
    MulMonotone(a, b, b);
    var aa, bb := a * a, b * b;
    assert 0 <= aa <= bb;
    MulMonotone(aa, bb, a);
    MulMonotone(a, b, bb);
    assert aa * a <= bb * a <= bb * b;
  }

  /** The length of the run of p at the end of s. */
  function TrailRun(s: seq<Cell>, p: Cell): (n: nat)
    ensures n <= |s|
    ensures forall j :: |s| - n <= j < |s| ==> s[j] == p
    ensures n < |s| ==> s[|s| - n - 1] != p
  {
    if s == [] || s[|s| - 1] != p then 0 else 1 + TrailRun(s[..|s| - 1], p)
  }

  /** The sum, over the maximal runs of p in s, of RunValue of the run's length. */
  function ChainSum(s: seq<Cell>, p: Cell): (total: int)
    ensures total >= 0
    decreases |s|
  {
    if s == [] then 0
    else
      var n := TrailRun(s, p);
      if n == 0 then ChainSum(s[..|s| - 1], p) else RunValue(n) + ChainSum(s[..|s| - n], p)
  }

  /** Cells i .. i + 3 of s all hold p. */
  ghost predicate FourAt(s: seq<Cell>, i: int, p: Cell)
    requires 0 <= i && i + 4 <= |s|
  {
    forall j :: i <= j < i + 4 ==> s[j] == p
  }

  /** s holds four consecutive cells of p. */
  ghost predicate HasFour(s: seq<Cell>, p: Cell) {
    exists i :: 0 <= i && i + 4 <= |s| && FourAt(s, i, p)
  }

  /** Extending a line by a cell other than p closes the trailing run, which
      ChainSum already counts. */
  lemma ChainSumExtendOther(t: seq<Cell>, x: Cell, p: Cell)
    requires x != p
    ensures TrailRun(t + [x], p) == 0 && ChainSum(t + [x], p) == ChainSum(t, p)
  {
    var s := t + [x];
    assert s[..|s| - 1] == t;
  }

  /** Extending a line by a p lengthens its trailing run by one. */
  lemma ChainSumExtendSame(t: seq<Cell>, p: Cell)
    ensures TrailRun(t + [p], p) == TrailRun(t, p) + 1
    ensures ChainSum(t + [p], p) - RunValue(TrailRun(t + [p], p)) == ChainSum(t, p) - RunValue(TrailRun(t, p))
  {
    var s := t + [p];
    assert s[..|s| - 1] == t;
    var n := TrailRun(t, p);
    assert s[..|s| - (n + 1)] == t[..|t| - n];
    if n == 0 {
      assert t[..|t|] == t;
    }
  }

  /** One step of square_sum_chains' scan, in terms of the prefixes before and
      after cell `index`. */
  lemma ChainSumStep(line: seq<Cell>, index: int, p: Cell)
    requires 0 <= index < |line|
    ensures TrailRun(line[..index], p) > 0 <==> index > 0 && line[index - 1] == p
    ensures line[index] != p ==>
      TrailRun(line[..index + 1], p) == 0 && ChainSum(line[..index + 1], p) == ChainSum(line[..index], p)
    ensures line[index] == p ==> TrailRun(line[..index + 1], p) == TrailRun(line[..index], p) + 1
    ensures line[index] == p ==>
      ChainSum(line[..index + 1], p) - RunValue(TrailRun(line[..index + 1], p))
      == ChainSum(line[..index], p) - RunValue(TrailRun(line[..index], p))
  {
    assert line[..index + 1] == line[..index] + [line[index]];
    if line[index] == p {
      ChainSumExtendSame(line[..index], p);
    } else {
      ChainSumExtendOther(line[..index], line[index], p);
    }
    if index > 0 {
      assert line[..index][index - 1] == line[index - 1];
    }
  }

  /** The two statements square_sum_chains runs when a run ends: add its
      length cubed, and the win bonus for four or more. */
  method AddChain(score: int, length: int) returns (total: int)
    ensures total == score + RunValue(length)
    ensures length >= 4 ==> total >= score + WIN_BONUS + 64
  {
    total := score + Cube(length);
    if length >= 4 {
      total := total + WIN_BONUS;
      CubeMonotone(4, length);
    }
  }

  /** square_sum_chains: walk the line remembering where the current run of
      `player` began; when a run ends, at a different cell or at the end of the
      line, add its length cubed and, for four or more, the win bonus. */
  method SquareSumChains(line: seq<Cell>, player: Cell) returns (score: int)
    ensures score == ChainSum(line, player)
  {
    score := 0;
    var startIndex := 0;
    for index := 0 to |line|
      invariant 0 <= startIndex <= index
      invariant index > 0 && line[index - 1] == player ==> startIndex == index - TrailRun(line[..index], player)
      invariant score == ChainSum(line[..index], player) -
        (if index < |line| then RunValue(TrailRun(line[..index], player)) else 0)
    {
      ghost var before := line[..index];
      ChainSumStep(line, index, player);
      var value := line[index];
      if value == player {
        if index == 0 || line[index - 1] != player {
          startIndex := index;
        }
        if index == |line| - 1 {
          var length := index - startIndex + 1;
          assert length == TrailRun(line[..index + 1], player);
          score := AddChain(score, length);
        }
      }
      if value != player {
        if index > 0 && line[index - 1] == player {
          var length := index - startIndex;
          assert length == TrailRun(before, player);
          score := AddChain(score, length);
        }
      }
    }
    assert line[..|line|] == line;
  }

  /** A line without the player's piece is worth nothing to them. */
  lemma {:induction false} ChainSumAbsent(s: seq<Cell>, p: Cell)
    requires forall j :: 0 <= j < |s| ==> s[j] != p
    ensures ChainSum(s, p) == 0
    decreases |s|
  {
    if s != [] {
      ChainSumAbsent(s[..|s| - 1], p);
    }
  }

  /** A four in a row that ends by cell k survives cutting the line at k. */
  lemma FourAtPrefix(s: seq<Cell>, k: int, i: int, p: Cell)
    requires 0 <= i && i + 4 <= k <= |s| && FourAt(s, i, p)
    ensures FourAt(s[..k], i, p)
  {
  }

  /** A line's score is what its trailing run is worth plus the score of the
      line without that run (without the last cell when it is not p). */
  lemma ChainSumDropTrail(s: seq<Cell>, p: Cell)
    requires s != []
    ensures var n := TrailRun(s, p);
      ChainSum(s, p) == RunValue(n) + ChainSum(if n == 0 then s[..|s| - 1] else s[..|s| - n], p)
    ensures var n := TrailRun(s, p);
      ChainSum(s, p) >= ChainSum(if n == 0 then s[..|s| - 1] else s[..|s| - n], p)
  {
    CubeMonotone(0, TrailRun(s, p));
  }

  /** A trailing run of four or more already earns the win bonus. */
  lemma LongTrailWins(s: seq<Cell>, p: Cell)
    requires TrailRun(s, p) >= 4
    ensures ChainSum(s, p) >= WIN_BONUS
  {
    CubeMonotone(0, TrailRun(s, p));
  }

  /** Cutting off a trailing run shorter than four, or a last cell other than
      p, keeps every four in a row of the line. */
  lemma ShortTrailKeepsFour(s: seq<Cell>, p: Cell, i: int) returns (k: int)
    requires 0 <= i && i + 4 <= |s| && FourAt(s, i, p)
    requires TrailRun(s, p) < 4
    ensures k == (if TrailRun(s, p) == 0 then |s| - 1 else |s| - TrailRun(s, p))
    ensures i + 4 <= k && FourAt(s[..k], i, p)
  {
    var n := TrailRun(s, p);
    k := if n == 0 then |s| - 1 else |s| - n;
    FourAtPrefix(s, k, i, p);
  }

  /** A four in a row earns the win bonus. */
  lemma {:induction false} ChainSumWin(s: seq<Cell>, p: Cell)
    requires HasFour(s, p)
    ensures ChainSum(s, p) >= WIN_BONUS
    decreases |s|
  {
    var n := TrailRun(s, p);
    if n >= 4 {
      LongTrailWins(s, p);
    } else {
      var i :| 0 <= i && i + 4 <= |s| && FourAt(s, i, p);
      var k := ShortTrailKeepsFour(s, p, i);
      ChainSumWin(s[..k], p);
      ChainSumDropTrail(s, p);
    }
  }

  /** Without a four in a row every run is at most three long, so a line is
      worth at most 9 per cell. */
  lemma {:induction false} ChainSumNoWin(s: seq<Cell>, p: Cell)
    requires !HasFour(s, p)
    ensures ChainSum(s, p) <= 9 * |s|
    decreases |s|
  {
    if s != [] {
      var n := TrailRun(s, p);
      if n >= 4 {
        assert FourAt(s, |s| - 4, p);
        assert false;
      }
      var t := if n == 0 then s[..|s| - 1] else s[..|s| - n];
      if HasFour(t, p) {
        var i :| 0 <= i && i + 4 <= |t| && FourAt(t, i, p);
        assert FourAt(s, i, p);
        assert false;
      }
      ChainSumNoWin(t, p);
      assert n == 0 || n == 1 || n == 2 || n == 3;
    }
  }

  /** On a line of the board (at most seven cells) the win bonus is reached
      exactly when the line holds four in a row. */
  lemma ChainSumWinIff(s: seq<Cell>, p: Cell)
    requires |s| <= COLS
    ensures ChainSum(s, p) >= WIN_BONUS <==> HasFour(s, p)
  {
    if HasFour(s, p) {
      ChainSumWin(s, p);
    } else {
      ChainSumNoWin(s, p);
    }
  }

  /** Two runs are worth no more than one run of their combined length, as long
      as that fits on a line of the board (only one of them can then reach four). */
  lemma RunValueSuperadditive(a: nat, b: nat)
    requires a + b <= COLS
    ensures RunValue(a) + RunValue(b) <= RunValue(a + b)
  {
    assert (a + b) * (a + b) * (a + b) == a * a * a + b * b * b + 3 * a * b * (a + b);
    assert a * b * (a + b) >= 0;
  }

  /** A line of at most seven cells is worth no more than one unbroken run
      covering all of it. */
  lemma {:induction false} ChainSumBound(s: seq<Cell>, p: Cell)
    requires |s| <= COLS
    ensures ChainSum(s, p) <= RunValue(|s|)
    decreases |s|
  {
    if s != [] {
      var n := TrailRun(s, p);
      var t := if n == 0 then s[..|s| - 1] else s[..|s| - n];
      ChainSumBound(t, p);
      if n == 0 {
        RunValueSuperadditive(|t|, 1);
      } else {
        RunValueSuperadditive(n, |t|);
      }
    }
  }

  /** A line with the two players exchanged, cell by cell. */
  function SwapLine(s: seq<Cell>): (t: seq<Cell>)
    ensures |t| == |s| && forall j :: 0 <= j < |s| ==> t[j] == SwapCell(s[j])
  {
    seq(|s|, j requires 0 <= j < |s| => SwapCell(s[j]))
  }

  /** Exchanging the players maps prefixes to prefixes. */
  lemma SwapLinePrefix(s: seq<Cell>, k: int)
    requires 0 <= k <= |s|
    ensures SwapLine(s)[..k] == SwapLine(s[..k])
  {
  }

  /** Exchanging the players in a line and in the player asked about leaves
      the trailing run unchanged. */
  lemma {:induction false} TrailRunSwap(s: seq<Cell>, p: Cell)
    ensures TrailRun(SwapLine(s), SwapCell(p)) == TrailRun(s, p)
    decreases |s|
  {
    if s != [] {
      var t := SwapLine(s);
      SwapLinePrefix(s, |s| - 1);
      TrailRunSwap(s[..|s| - 1], p);
      assert (t[|t| - 1] == SwapCell(p)) == (s[|s| - 1] == p);
    }
  }

  /** Exchanging the players in a line and in the player asked about leaves
      the score unchanged: square_sum_chains treats both players alike. */
  lemma {:induction false} ChainSumSwap(s: seq<Cell>, p: Cell)
    ensures ChainSum(SwapLine(s), SwapCell(p)) == ChainSum(s, p)
    decreases |s|
  {
    if s != [] {
      TrailRunSwap(s, p);
      var n := TrailRun(s, p);
      var k := if n == 0 then |s| - 1 else |s| - n;
      SwapLinePrefix(s, k);
      ChainSumSwap(s[..k], p);
    }
  }

  /** The sum of ChainSum over a list of lines, first to last. */
  function SumChains(lines: seq<seq<Cell>>, p: Cell): (total: int)
    ensures total >= 0
  {
    if lines == [] then 0 else SumChains(lines[..|lines| - 1], p) + ChainSum(lines[|lines| - 1], p)
  }

  /** score(board, player): the sum of square_sum_chains over every line of the board. */
  function ScoreOf(g: Grid, p: Cell): (total: int)
    requires WellFormed(g)
    ensures total >= 0
  {
    SumChains(Lines(g), p)
  }

  /** heuristic(board): the computer's score minus the human's. */
  function Heuristic(g: Grid): (h: int)
    requires WellFormed(g)
    ensures -ScoreOf(g, O) <= h <= ScoreOf(g, X)
  {
    ScoreOf(g, X) - ScoreOf(g, O)
  }

  /** Adding one more line to a running SumChains. */
  lemma SumChainsPrefix(lines: seq<seq<Cell>>, k: int, p: Cell)
    requires 0 <= k < |lines|
    ensures SumChains(lines[..k + 1], p) == SumChains(lines[..k], p) + ChainSum(lines[k], p)
  {
    assert lines[..k + 1][..k] == lines[..k];
  }

  /** One step of score()'s loops: adding the line it builds to the running
      total is adding the next line of the board. */
  lemma AddLine(g: Grid, k: int, p: Cell)
    requires WellFormed(g) && 0 <= k < 37
    ensures SumChains(Lines(g)[..k + 1], p) == SumChains(Lines(g)[..k], p) + ChainSum(LineCells(g, k), p)
  {
    SumChainsPrefix(Lines(g), k, p);
  }

  /** score: square_sum_chains over every line of the board, in score()'s
      order: the rows, the columns, the negative-slope diagonals (those
      starting in the top row, then those starting in the first column) and
      the positive-slope diagonals (those starting in the top row, then those
      starting in the last column). LineCells(board, k) is the line that
      score()'s loops build k-th. */
  method Score(board: Grid, player: Cell) returns (score: int)
    requires WellFormed(board)
    ensures score == ScoreOf(board, player)
  {
    score := 0;
    for k := 0 to 37
      invariant score == SumChains(Lines(board)[..k], player)
    {
      var s := SquareSumChains(LineCells(board, k), player);
      AddLine(board, k, player);
      score := score + s;
    }
    assert Lines(board)[..37] == Lines(board);
  }

  /** A list of lines is worth at least what any one of them is worth. */
  lemma {:induction false} SumChainsAtLeast(lines: seq<seq<Cell>>, i: int, p: Cell)
    requires 0 <= i < |lines|
    ensures SumChains(lines, p) >= ChainSum(lines[i], p)
    decreases |lines|
  {
    if i < |lines| - 1 {
      SumChainsAtLeast(lines[..|lines| - 1], i, p);
    }
  }

  /** A list of lines each worth at most `bound` is worth at most |lines| * bound. */
  lemma {:induction false} SumChainsAtMost(lines: seq<seq<Cell>>, p: Cell, bound: nat)
    requires forall i :: 0 <= i < |lines| ==> ChainSum(lines[i], p) <= bound
    ensures SumChains(lines, p) <= |lines| * bound
    decreases |lines|
  {
    if lines != [] {
      var init := lines[..|lines| - 1];
      assert forall i :: 0 <= i < |init| ==> init[i] == lines[i];
      SumChainsAtMost(init, p, bound);
      MulSucc(|init|, bound);
    }
  }

  /** The most a single line of the board can be worth: seven in a row. */
  const LINE_MAX: int := 7 * 7 * 7 + WIN_BONUS

  /** The most score() can return: every one of the 37 lines at its maximum. */
  const SCORE_MAX: int := 37 * LINE_MAX

  /** A line of the board is worth at most seven in a row. */
  lemma LineBound(g: Grid, k: int, p: Cell)
    requires WellFormed(g) && 0 <= k < 37
    ensures ChainSum(LineCells(g, k), p) <= LINE_MAX
  {
    var n := |LineCells(g, k)|;
    ChainSumBound(LineCells(g, k), p);
    CubeMonotone(n, COLS);
  }

  /** score() is never negative and never exceeds SCORE_MAX. */
  lemma ScoreBounds(g: Grid, p: Cell)
    requires WellFormed(g)
    ensures 0 <= ScoreOf(g, p) <= SCORE_MAX
  {
    var lines := Lines(g);
    forall i | 0 <= i < |lines| ensures ChainSum(lines[i], p) <= LINE_MAX {
      LineBound(g, i, p);
    }
    SumChainsAtMost(lines, p, LINE_MAX);
  }

  /** score() reaches the win bonus exactly when one of the lines it visits
      holds four in a row of the player's pieces. */
  lemma ScoreWinIff(g: Grid, p: Cell)
    requires WellFormed(g)
    ensures ScoreOf(g, p) >= WIN_BONUS <==> exists k :: 0 <= k < 37 && HasFour(LineCells(g, k), p)
  {
    var lines := Lines(g);
    if exists k :: 0 <= k < 37 && HasFour(LineCells(g, k), p) {
      var k :| 0 <= k < 37 && HasFour(LineCells(g, k), p);
      ChainSumWin(lines[k], p);
      SumChainsAtLeast(lines, k, p);
    } else {
      forall i | 0 <= i < |lines| ensures ChainSum(lines[i], p) <= 9 * COLS {
        assert !HasFour(LineCells(g, i), p);
        ChainSumNoWin(lines[i], p);
      }
      SumChainsAtMost(lines, p, 9 * COLS);
    }
  }

  /** Exchanging the players on the board exchanges them on every line. */
  lemma LineCellsSwap(g: Grid, k: int)
    requires WellFormed(g) && 0 <= k < 37
    ensures LineCells(SwapGrid(g), k) == SwapLine(LineCells(g, k))
  {
  }

  /** SumChains after exchanging the players line by line. */
  lemma {:induction false} SumChainsSwap(lines: seq<seq<Cell>>, swapped: seq<seq<Cell>>, p: Cell)
    requires |swapped| == |lines|
    requires forall i :: 0 <= i < |lines| ==> swapped[i] == SwapLine(lines[i])
    ensures SumChains(swapped, SwapCell(p)) == SumChains(lines, p)
    decreases |lines|
  {
    if lines != [] {
      var n := |lines| - 1;
      SumChainsSwap(lines[..n], swapped[..n], p);
      ChainSumSwap(lines[n], p);
    }
  }

  /** Exchanging the players on the board and in the player asked about
      leaves score() unchanged. */
  lemma ScoreSwap(g: Grid, p: Cell)
    requires WellFormed(g)
    ensures ScoreOf(SwapGrid(g), SwapCell(p)) == ScoreOf(g, p)
  {
    forall k | 0 <= k < 37 ensures Lines(SwapGrid(g))[k] == SwapLine(Lines(g)[k]) {
      LineCellsSwap(g, k);
    }
    SumChainsSwap(Lines(g), Lines(SwapGrid(g)), p);
  }

  /** heuristic is antisymmetric: exchanging the two players negates it. */
  lemma HeuristicSwap(g: Grid)
    requires WellFormed(g)
    ensures Heuristic(SwapGrid(g)) == -Heuristic(g)
  {
    ScoreSwap(g, X);
    ScoreSwap(g, O);
  }

  /** heuristic stays within SCORE_MAX of zero either way. */
  lemma HeuristicBounds(g: Grid)
    requires WellFormed(g)
    ensures -SCORE_MAX <= Heuristic(g) <= SCORE_MAX
  {
    ScoreBounds(g, X);
    ScoreBounds(g, O);
  }

  /** heuristic: the computer's score minus the human's. */
  method EvalHeuristic(board: Grid) returns (value: int)
    requires WellFormed(board)
    ensures value == Heuristic(board)
  {
    var mine := Score(board, X);
    var theirs := Score(board, O);
    value := mine - theirs;
  }
}
