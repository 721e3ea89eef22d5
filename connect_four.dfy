/** The ConnectFour engine of Lab1/main.py (lines 13-190): a grid the
    methods change in place, the search that tries each playable column by
    dropping a piece, recursing and restoring the saved grid, and the
    one-ply choice of the easy opponent. Each method is proved against the
    functions of Board and Search. */
module ConnectFourGame {
  import opened Options
  import opened Board
  import opened Bounds
  import opened GameTrees
  import opened Search

  /** The window the scoring loops of lines 92-115 build for outer index a
      and inner index k: a slice of row a, a slice of column a, or the
      cells of a diagonal; it is the run of four `WindowOf` names. */
  function LoopWindow(b: Grid, d: Direction, a: int, k: int): (w: seq<int>)
    requires WellFormed(b) && 0 <= a < Outer(d) && 0 <= k < Inner(d)
    ensures w == WindowOf(b, d, a, k)
  {
    match d
    case Horizontal =>
      HorizontalWindow(b, a, k);
      b[a][k..k + 4]
    case Vertical =>
      VerticalWindow(b, a, k);
      seq(ROW_COUNT, r requires 0 <= r < ROW_COUNT => b[r][a])[k..k + 4]
    case Rising =>
      RisingWindow(b, a, k);
      seq(4, i requires 0 <= i < 4 => b[a + i][k + i])
    case Falling =>
      FallingWindow(b, a, k);
      seq(4, i requires 0 <= i < 4 => b[a + 3 - i][k + i])
  }

  lemma HorizontalWindow(b: Grid, a: int, k: int)
    requires WellFormed(b) && 0 <= a < Outer(Horizontal) && 0 <= k < Inner(Horizontal)
    ensures b[a][k..k + 4] == WindowOf(b, Horizontal, a, k)
  {
  }

  lemma VerticalWindow(b: Grid, a: int, k: int)
    requires WellFormed(b) && 0 <= a < Outer(Vertical) && 0 <= k < Inner(Vertical)
    ensures seq(ROW_COUNT, r requires 0 <= r < ROW_COUNT => b[r][a])[k..k + 4] == WindowOf(b, Vertical, a, k)
  {
  }

  lemma RisingWindow(b: Grid, a: int, k: int)
    requires WellFormed(b) && 0 <= a < Outer(Rising) && 0 <= k < Inner(Rising)
    ensures seq(4, i requires 0 <= i < 4 => b[a + i][k + i]) == WindowOf(b, Rising, a, k)
  {
  }

  lemma FallingWindow(b: Grid, a: int, k: int)
    requires WellFormed(b) && 0 <= a < Outer(Falling) && 0 <= k < Inner(Falling)
    ensures seq(4, i requires 0 <= i < 4 => b[a + 3 - i][k + i]) == WindowOf(b, Falling, a, k)
  {
  }

  /** One more window in the inner loop, one more row or column in the
      outer loop. */
  lemma InnerSumNext(b: Grid, piece: int, d: Direction, a: int, k: int)
    requires WellFormed(b) && 0 <= a < Outer(d) && 0 <= k < Inner(d)
    ensures InnerSum(b, piece, d, a, k + 1) == InnerSum(b, piece, d, a, k) + EvaluateWindow(WindowOf(b, d, a, k), piece)
  {
  }

  lemma OuterSumNext(b: Grid, piece: int, d: Direction, a: int)
    requires WellFormed(b) && 0 <= a < Outer(d)
    ensures OuterSum(b, piece, d, a + 1) == OuterSum(b, piece, d, a) + InnerSum(b, piece, d, a, Inner(d))
  {
  }

  class ConnectFour {
    var board: Grid
    var gameOver: bool
    var turn: int

    predicate Valid()
      reads this
    {
      WellFormed(board)
    }

    /** Lines 14-19: an empty 6 x 7 grid, the game not over, turn 0. */
    constructor ()
      ensures Valid() && board == EmptyBoard() && !gameOver && turn == 0
    {
      board := EmptyBoard();
      gameOver := false;
      turn := 0;
    }

    /** Lines 24-25. */
    method DropPiece(row: int, col: int, piece: int)
      requires Valid() && InGrid(row, col)
      modifies this
      ensures Valid() && board == Drop(old(board), row, col, piece)
      ensures gameOver == old(gameOver) && turn == old(turn)
    {
      board := board[row := board[row][col := piece]];
    }

    /** Lines 27-28: the top cell of the column is empty. */
    method IsValidLocation(col: int) returns (v: bool)
      requires Valid() && 0 <= col < COLUMN_COUNT
      ensures v <==> board[ROW_COUNT - 1][col] == 0
      ensures v == Board.IsValidLocation(board, col)
    {
      v := board[ROW_COUNT - 1][col] == 0;
    }

    /** Lines 30-33: the lowest empty row of the column, scanning upwards;
        None where the Python loop falls off its end (a full column). */
    method GetNextOpenRow(col: int) returns (row: Option<int>)
      requires Valid() && 0 <= col < COLUMN_COUNT
      ensures row == OpenRow(board, col)
      ensures row.Some? ==> (0 <= row.value < ROW_COUNT && board[row.value][col] == 0 &&
        forall r :: 0 <= r < row.value ==> board[r][col] != 0)
      ensures row.None? ==> forall r :: 0 <= r < ROW_COUNT ==> board[r][col] != 0
    {
      OpenRowFacts(board, col);
      var r := 0;
      while r < ROW_COUNT
        invariant 0 <= r <= ROW_COUNT
        invariant FirstOpen(board, col, r) == OpenRow(board, col)
      {
        if board[r][col] == 0 {
          return Some(r);
        }
        r := r + 1;
      }
      return None;
    }

    /** One of the four loop nests of lines 39-65: columns outside, rows
        inside, stopping at the first run of four. */
    method FindRun(piece: int, d: Direction) returns (found: bool)
      requires Valid()
      ensures found <==> exists r, c :: Starts(d, r, c) && RunAt(board, piece, d, r, c)
    {
      var rowFrom := if d == Falling then 3 else 0;
      var rowTo := if d == Horizontal || d == Falling then ROW_COUNT else ROW_COUNT - 3;
      var colTo := if d == Vertical then COLUMN_COUNT else COLUMN_COUNT - 3;
      var c := 0;
      while c < colTo
        invariant 0 <= c <= colTo
        invariant forall r', c' :: Starts(d, r', c') && c' < c ==> !RunAt(board, piece, d, r', c')
      {
        var r := rowFrom;
        while r < rowTo
          invariant rowFrom <= r <= rowTo
          invariant forall r', c' :: Starts(d, r', c') && (c' < c || (c' == c && r' < r)) ==> !RunAt(board, piece, d, r', c')
        {
          if RunAt(board, piece, d, r, c) {
            return true;
          }
          r := r + 1;
        }
        c := c + 1;
      }
      return false;
    }

    /** Lines 38-65: the piece has four in a row in some direction (the
        Python method returns None, which is falsy, when it has not). */
    method WinningMove(piece: int) returns (w: bool)
      requires Valid()
      ensures w == HasFour(board, piece)
    {
      w := FindRun(piece, Horizontal);
      if w { return; }
      w := FindRun(piece, Vertical);
      if w { return; }
      w := FindRun(piece, Rising);
      if w { return; }
      w := FindRun(piece, Falling);
    }

    /** The windows of one scoring loop nest of lines 92-115, built as the
        source builds them: a slice of the row or of the column, or the
        four cells of a diagonal. */
    method SumWindows(piece: int, d: Direction) returns (sum: int)
      requires Valid()
      ensures sum == DirectionScore(board, piece, d)
    {
      var b := board;
      sum := 0;
      var a := 0;
      while a < Outer(d)
        invariant 0 <= a <= Outer(d)
        invariant sum == OuterSum(b, piece, d, a)
      {
        var k := 0;
        while k < Inner(d)
          invariant 0 <= k <= Inner(d)
          invariant sum == OuterSum(b, piece, d, a) + InnerSum(b, piece, d, a, k)
        {
          var window := LoopWindow(b, d, a, k);
          InnerSumNext(b, piece, d, a, k);
          sum := sum + EvaluateWindow(window, piece);
          k := k + 1;
        }
        OuterSumNext(b, piece, d, a);
        a := a + 1;
      }
    }

    /** Lines 83-117. */
    method ScorePosition(piece: int) returns (score: int)
      requires Valid()
      ensures score == ScoreOf(board, piece)
    {
      score := Count(CenterColumn(board), piece) * 3;
      var s := SumWindows(piece, Horizontal);
      score := score + s;
      s := SumWindows(piece, Vertical);
      score := score + s;
      s := SumWindows(piece, Rising);
      score := score + s;
      s := SumWindows(piece, Falling);
      score := score + s;
    }

    /** Lines 169-174: the playable columns in ascending order. */
    method GetValidLocations() returns (validLocations: seq<int>)
      requires Valid()
      ensures validLocations == ValidLocations(board)
    {
      validLocations := [];
      var col := 0;
      while col < COLUMN_COUNT
        invariant 0 <= col <= COLUMN_COUNT
        invariant validLocations == ValidBelow(board, col)
      {
        var v := IsValidLocation(col);
        if v {
          validLocations := validLocations + [col];
        }
        col := col + 1;
      }
    }

    /** Lines 119-120. */
    method IsTerminalNode() returns (t: bool)
      requires Valid()
      ensures t == IsTerminal(board)
    {
      t := WinningMove(1);
      if t { return; }
      t := WinningMove(2);
      if t { return; }
      var validLocations := GetValidLocations();
      t := |validLocations| == 0;
    }

    /** Lines 122-167: a position the search does not expand scores as
        `Static` says; otherwise each playable column is tried in
        ascending order (`MaxSearch`, `MinSearch`). The result is that of
        alpha-beta on the game tree of the grid, and the grid is as
        before. */
    method Minimax(depth: nat, alpha: Bound, beta: Bound, maximizingPlayer: bool)
      returns (column: Option<int>, value: Bound)
      requires Valid()
      modifies this
      ensures Valid() && board == old(board) && gameOver == old(gameOver) && turn == old(turn)
      ensures (column, value) == MinimaxResult(old(board), depth, alpha, beta, maximizingPlayer)
      decreases depth, 2
    {
      var validLocations := GetValidLocations();
      var isTerminal := IsTerminalNode();
      if depth == 0 || isTerminal {
        if isTerminal {
          var win2 := WinningMove(2);
          if win2 {
            return None, Fin(WIN_SCORE);
          }
          var win1 := WinningMove(1);
          if win1 {
            return None, Fin(LOSS_SCORE);
          }
          return None, Fin(0);
        }
        var score := ScorePosition(2);
        return None, Fin(score);
      }
      GameTreeExpands(board, depth, maximizingPlayer);
      if maximizingPlayer {
        column, value := MaxSearch(validLocations, depth, alpha, beta, GameTree(board, depth, true));
      } else {
        column, value := MinSearch(validLocations, depth, alpha, beta, GameTree(board, depth, false));
      }
    }

    /** Lines 135-150. The initial `random.choice` is the first playable
        column, which `InitialColumnIrrelevant` shows never shows in the
        result. */
    method MaxSearch(validLocations: seq<int>, depth: nat, alpha: Bound, beta: Bound, ghost t: Tree)
      returns (column: Option<int>, value: Bound)
      requires Valid() && validLocations == ValidLocations(board) && Expands(board, depth, true, t)
      modifies this
      ensures Valid() && board == old(board) && gameOver == old(gameOver) && turn == old(turn)
      ensures (column, value) == AlphaBeta(t, alpha, beta, true)
      decreases depth, 1
    {
      ghost var b := board;
      ExpandsColumn(b, depth, true, t, 0);
      var a := alpha;
      value := NegInf;
      var col0 := validLocations[0];
      var best := col0;
      var i := 0;
      while i < |validLocations|
        invariant Valid() && board == b && gameOver == old(gameOver) && turn == old(turn)
        invariant 0 <= i <= |validLocations|
        invariant MaxLoop(t, i, a, beta, value, best) == MaxLoop(t, 0, alpha, beta, NegInf, col0)
      {
        var col := validLocations[i];
        var newScore := ChildScore(validLocations, i, depth, a, beta, true, t);
        if Less(value, newScore) {
          value := newScore;
          best := col;
        }
        a := Max(a, value);
        if !Less(a, beta) {
          break;
        }
        i := i + 1;
      }
      column := Some(best);
    }

    /** Lines 152-167. */
    method MinSearch(validLocations: seq<int>, depth: nat, alpha: Bound, beta: Bound, ghost t: Tree)
      returns (column: Option<int>, value: Bound)
      requires Valid() && validLocations == ValidLocations(board) && Expands(board, depth, false, t)
      modifies this
      ensures Valid() && board == old(board) && gameOver == old(gameOver) && turn == old(turn)
      ensures (column, value) == AlphaBeta(t, alpha, beta, false)
      decreases depth, 1
    {
      ghost var b := board;
      ExpandsColumn(b, depth, false, t, 0);
      var bt := beta;
      value := PosInf;
      var col0 := validLocations[0];
      var best := col0;
      var i := 0;
      while i < |validLocations|
        invariant Valid() && board == b && gameOver == old(gameOver) && turn == old(turn)
        invariant 0 <= i <= |validLocations|
        invariant MinLoop(t, i, alpha, bt, value, best) == MinLoop(t, 0, alpha, beta, PosInf, col0)
      {
        var col := validLocations[i];
        var newScore := ChildScore(validLocations, i, depth, alpha, bt, false, t);
        if Less(newScore, value) {
          value := newScore;
          best := col;
        }
        bt := Min(bt, value);
        if !Less(alpha, bt) {
          break;
        }
        i := i + 1;
      }
      column := Some(best);
    }

    /** Lines 139-143 and 156-160: drop the player's piece into the i-th
        playable column, search one level down and put the saved grid
        back; the score is that of the i-th subtree. */
    method ChildScore(validLocations: seq<int>, i: nat, depth: nat, alpha: Bound, beta: Bound,
                      maximizingPlayer: bool, ghost t: Tree)
      returns (newScore: Bound)
      requires Valid() && validLocations == ValidLocations(board) && i < |validLocations|
      requires Expands(board, depth, maximizingPlayer, t)
      modifies this
      ensures Valid() && board == old(board) && gameOver == old(gameOver) && turn == old(turn)
      ensures t.moves[i].column == validLocations[i]
      ensures newScore == AlphaBeta(t.moves[i].next, alpha, beta, !maximizingPlayer).1
      decreases depth, 0
    {
      var col := validLocations[i];
      var piece := PieceOf(maximizingPlayer);
      assert col == PlayableAt(board, i);
      assert t.moves[i] == Move(col, GameTree(Next(board, i, piece), depth - 1, !maximizingPlayer));
      var row := GetNextOpenRow(col);
      ValidHasOpenRow(board, col);
      var saved := board;
      DropPiece(row.value, col, PieceOf(maximizingPlayer));
      var _, s := Minimax(depth - 1, alpha, beta, !maximizingPlayer);
      newScore := s;
      board := saved;
    }

    /** Lines 181-185: drop the piece into the column, score the grid and
        put the saved grid back. */
    method ScoreDrop(col: int, piece: int) returns (score: int)
      requires Valid() && 0 <= col < COLUMN_COUNT && Board.IsValidLocation(board, col)
      modifies this
      ensures Valid() && board == old(board) && gameOver == old(gameOver) && turn == old(turn)
      ensures score == ScoreAfter(old(board), col, piece)
    {
      var row := GetNextOpenRow(col);
      ValidHasOpenRow(board, col);
      var saved := board;
      DropPiece(row.value, col, piece);
      score := ScorePosition(piece);
      board := saved;
    }

    /** Lines 176-190: each playable column is tried by dropping the piece,
        scoring the grid and restoring it; a column replaces the best so
        far only with a strictly greater score. None where `random.choice`
        of an empty list raises; the initial choice is the first playable
        column (`PickInitialIrrelevant`). */
    method PickBestMove(piece: int) returns (bestCol: Option<int>)
      requires Valid()
      modifies this
      ensures Valid() && board == old(board) && gameOver == old(gameOver) && turn == old(turn)
      ensures bestCol == Search.PickBestMove(old(board), piece)
    {
      ghost var b := board;
      var validLocations := GetValidLocations();
      var bestScore := -10000;
      if |validLocations| == 0 {
        return None;
      }
      var best := validLocations[0];
      ghost var scores := Scores(b, piece);
      var i := 0;
      while i < |validLocations|
        invariant Valid() && board == b && gameOver == old(gameOver) && turn == old(turn)
        invariant 0 <= i <= |validLocations|
        invariant PickFrom(validLocations, scores, i, bestScore, best) ==
          PickFrom(validLocations, scores, 0, -10000, validLocations[0])
      {
        var col := validLocations[i];
        assert col == PlayableAt(b, i);
        var score := ScoreDrop(col, piece);
        ScoresAt(b, piece, i);
        if score > bestScore {
          bestScore := score;
          best := col;
        }
        i := i + 1;
      }
      bestCol := Some(best);
    }
  }
}
