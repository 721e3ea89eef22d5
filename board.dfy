/** The Connect Four grid of Lab1/main.py: six rows of seven cells, row 0
    at the bottom, each cell 0 (empty), 1 or 2. These are the functions
    the methods of the ConnectFour class are proved against. */
module Board {
  import opened Options

  const ROW_COUNT := 6
  const COLUMN_COUNT := 7

  type Grid = seq<seq<int>>

  /** Six rows of seven cells. */
  predicate WellFormed(b: Grid)
  {
    |b| == ROW_COUNT && forall r :: 0 <= r < ROW_COUNT ==> |b[r]| == COLUMN_COUNT
  }

  predicate InGrid(r: int, c: int)
  {
    0 <= r < ROW_COUNT && 0 <= c < COLUMN_COUNT
  }

  /** Lines 21-22: the all-zero grid. */
  function EmptyBoard(): (b: Grid)
    ensures WellFormed(b)
    ensures forall r, c :: InGrid(r, c) ==> b[r][c] == 0
  {
    seq(ROW_COUNT, _ => seq(COLUMN_COUNT, _ => 0))
  }

  /** Lines 24-25: the grid with one cell overwritten. */
  function Drop(b: Grid, row: int, col: int, piece: int): (d: Grid)
    requires WellFormed(b) && InGrid(row, col)
    ensures WellFormed(d)
  {
    b[row := b[row][col := piece]]
  }

  /** Dropping writes the piece into its cell and changes no other cell. */
  lemma DropFrame(b: Grid, row: int, col: int, piece: int)
    requires WellFormed(b) && InGrid(row, col)
    ensures Drop(b, row, col, piece)[row][col] == piece
    ensures forall r, c :: InGrid(r, c) && (r != row || c != col) ==> Drop(b, row, col, piece)[r][c] == b[r][c]
  {
  }

  /** Lines 27-28: the top cell of the column is empty. */
  predicate IsValidLocation(b: Grid, col: int)
    requires WellFormed(b) && 0 <= col < COLUMN_COUNT
  {
    b[ROW_COUNT - 1][col] == 0
  }

  /** The lowest empty row of the column at or above r. */
  function FirstOpen(b: Grid, col: int, r: int): (o: Option<int>)
    requires WellFormed(b) && 0 <= col < COLUMN_COUNT && 0 <= r <= ROW_COUNT
    ensures o.Some? ==> r <= o.value < ROW_COUNT
    decreases ROW_COUNT - r
  {
    if r == ROW_COUNT then None
    else if b[r][col] == 0 then Some(r)
    else FirstOpen(b, col, r + 1)
  }

  /** Lines 30-33: the lowest empty row of the column, or nothing when the
      column is full. */
  function OpenRow(b: Grid, col: int): (o: Option<int>)
    requires WellFormed(b) && 0 <= col < COLUMN_COUNT
    ensures o.Some? ==> 0 <= o.value < ROW_COUNT
  {
    FirstOpen(b, col, 0)
  }

  lemma {:induction false} FirstOpenFacts(b: Grid, col: int, r: int)
    requires WellFormed(b) && 0 <= col < COLUMN_COUNT && 0 <= r <= ROW_COUNT
    ensures var o := FirstOpen(b, col, r);
      (o.Some? ==> b[o.value][col] == 0 && forall k :: r <= k < o.value ==> b[k][col] != 0) &&
      (o.None? ==> forall k :: r <= k < ROW_COUNT ==> b[k][col] != 0)
    decreases ROW_COUNT - r
  {
    if r < ROW_COUNT && b[r][col] != 0 {
      FirstOpenFacts(b, col, r + 1);
    }
  }

  /** The open row is empty and every row below it is occupied; a column
      without an open row is full. */
  lemma OpenRowFacts(b: Grid, col: int)
    requires WellFormed(b) && 0 <= col < COLUMN_COUNT
    ensures var o := OpenRow(b, col);
      (o.Some? ==> b[o.value][col] == 0 && forall k :: 0 <= k < o.value ==> b[k][col] != 0) &&
      (o.None? ==> forall k :: 0 <= k < ROW_COUNT ==> b[k][col] != 0)
  {
    FirstOpenFacts(b, col, 0);
  }

  /** A playable column has an open row. */
  lemma ValidHasOpenRow(b: Grid, col: int)
    requires WellFormed(b) && 0 <= col < COLUMN_COUNT && IsValidLocation(b, col)
    ensures OpenRow(b, col).Some?
  {
    OpenRowFacts(b, col);
  }

  /** The gravity invariant: a piece sits on a piece or on row 0. */
  predicate Stacked(b: Grid)
    requires WellFormed(b)
  {
    forall r, c :: 0 < r < ROW_COUNT && 0 <= c < COLUMN_COUNT && b[r][c] != 0 ==> Supported(b, r, c)
  }

  /** The cell below (r, c) is occupied. */
  predicate Supported(b: Grid, r: int, c: int)
    requires WellFormed(b) && 0 < r < ROW_COUNT && 0 <= c < COLUMN_COUNT
  {
    b[r - 1][c] != 0
  }

  /** On a stacked grid a column is playable exactly when it has an open
      row. */
  lemma ValidIffOpen(b: Grid, col: int)
    requires WellFormed(b) && Stacked(b) && 0 <= col < COLUMN_COUNT
    ensures IsValidLocation(b, col) <==> OpenRow(b, col).Some?
  {
    OpenRowFacts(b, col);
    if OpenRow(b, col).Some? {
      var r := OpenRow(b, col).value;
      EmptyAbove(b, col, r, ROW_COUNT - 1);
    }
  }

  lemma {:induction false} EmptyAbove(b: Grid, col: int, r: int, k: int)
    requires WellFormed(b) && Stacked(b) && 0 <= col < COLUMN_COUNT
    requires 0 <= r <= k < ROW_COUNT && b[r][col] == 0
    ensures b[k][col] == 0
    decreases k - r
  {
    if k > r {
      EmptyAbove(b, col, r, k - 1);
    }
  }

  /** Lines 139-141: dropping a piece into the open row keeps every column
      stacked from row 0. */
  lemma DropKeepsStacked(b: Grid, col: int, piece: int)
    requires WellFormed(b) && Stacked(b) && 0 <= col < COLUMN_COUNT && piece != 0
    requires OpenRow(b, col).Some?
    ensures Stacked(Drop(b, OpenRow(b, col).value, col, piece))
  {
    var row := OpenRow(b, col).value;
    var d := Drop(b, row, col, piece);
    OpenRowFacts(b, col);
    DropFrame(b, row, col, piece);
    forall r, c | 0 < r < ROW_COUNT && 0 <= c < COLUMN_COUNT && d[r][c] != 0
      ensures Supported(d, r, c)
    {
      if c != col || r != row {
        assert Supported(b, r, c);
      }
    }
  }

  /** The playable columns below n, in ascending order. */
  function ValidBelow(b: Grid, n: int): seq<int>
    requires WellFormed(b) && 0 <= n <= COLUMN_COUNT
  {
    if n == 0 then []
    else ValidBelow(b, n - 1) + (if IsValidLocation(b, n - 1) then [n - 1] else [])
  }

  /** Lines 169-174. */
  function ValidLocations(b: Grid): seq<int>
    requires WellFormed(b)
  {
    ValidBelow(b, COLUMN_COUNT)
  }

  /** The list holds exactly the playable columns below n, ascending. */
  lemma {:induction false} ValidBelowFacts(b: Grid, n: int)
    requires WellFormed(b) && 0 <= n <= COLUMN_COUNT
    ensures forall c :: c in ValidBelow(b, n) <==> 0 <= c < n && IsValidLocation(b, c)
    ensures forall i, j :: 0 <= i < j < |ValidBelow(b, n)| ==> ValidBelow(b, n)[i] < ValidBelow(b, n)[j]
  {
    if n > 0 {
      ValidBelowFacts(b, n - 1);
      var s, t := ValidBelow(b, n - 1), ValidBelow(b, n);
      forall i, j | 0 <= i < j < |t| ensures t[i] < t[j] {
        if j >= |s| {
          assert t[i] == s[i] && s[i] in s;
        }
      }
    }
  }

  lemma ValidLocationsFacts(b: Grid)
    requires WellFormed(b)
    ensures forall c :: c in ValidLocations(b) <==> 0 <= c < COLUMN_COUNT && IsValidLocation(b, c)
    ensures forall i, j :: 0 <= i < j < |ValidLocations(b)| ==> ValidLocations(b)[i] < ValidLocations(b)[j]
  {
    ValidBelowFacts(b, COLUMN_COUNT);
  }

  /** Column i of the list of playable columns. */
  function PlayableAt(b: Grid, i: int): (col: int)
    requires WellFormed(b) && 0 <= i < |ValidLocations(b)|
    ensures 0 <= col < COLUMN_COUNT && IsValidLocation(b, col)
  {
    ValidLocationsFacts(b);
    assert ValidLocations(b)[i] in ValidLocations(b);
    ValidLocations(b)[i]
  }

  /** The grid after the piece drops into a playable column (lines 138-140
      and 180-182). */
  function Child(b: Grid, col: int, piece: int): (c: Grid)
    requires WellFormed(b) && 0 <= col < COLUMN_COUNT && IsValidLocation(b, col)
    ensures WellFormed(c)
  {
    ValidHasOpenRow(b, col);
    Drop(b, OpenRow(b, col).value, col, piece)
  }

  /** The four directions of a run of four (lines 39-65). */
  datatype Direction = Horizontal | Vertical | Rising | Falling

  /** The cells where a run may start in each direction, as the loops of
      `winning_move` enumerate them. */
  predicate Starts(d: Direction, r: int, c: int)
  {
    match d
    case Horizontal => 0 <= r < ROW_COUNT && 0 <= c < COLUMN_COUNT - 3
    case Vertical => 0 <= r < ROW_COUNT - 3 && 0 <= c < COLUMN_COUNT
    case Rising => 0 <= r < ROW_COUNT - 3 && 0 <= c < COLUMN_COUNT - 3
    case Falling => 3 <= r < ROW_COUNT && 0 <= c < COLUMN_COUNT - 3
  }

  /** Cell i of the run that starts at (r, c). */
  function Cell(b: Grid, d: Direction, r: int, c: int, i: int): int
    requires WellFormed(b) && Starts(d, r, c) && 0 <= i < 4
  {
    match d
    case Horizontal => b[r][c + i]
    case Vertical => b[r + i][c]
    case Rising => b[r + i][c + i]
    case Falling => b[r - i][c + i]
  }

  /** All four cells of the run hold the piece. */
  predicate RunAt(b: Grid, piece: int, d: Direction, r: int, c: int)
    requires WellFormed(b) && Starts(d, r, c)
  {
    Cell(b, d, r, c, 0) == piece && Cell(b, d, r, c, 1) == piece &&
    Cell(b, d, r, c, 2) == piece && Cell(b, d, r, c, 3) == piece
  }

  /** Some run of four in some direction holds the piece. */
  ghost predicate HasFour(b: Grid, piece: int)
    requires WellFormed(b)
  {
    exists d, r, c :: Starts(d, r, c) && RunAt(b, piece, d, r, c)
  }

  /** The empty grid has no run of a piece. */
  lemma EmptyHasNoFour(piece: int)
    requires piece != 0
    ensures !HasFour(EmptyBoard(), piece)
  {
  }

  /** The four cells of a run, in order. */
  function Window(b: Grid, d: Direction, r: int, c: int): (w: seq<int>)
    requires WellFormed(b) && Starts(d, r, c)
    ensures |w| == 4
  {
    [Cell(b, d, r, c, 0), Cell(b, d, r, c, 1), Cell(b, d, r, c, 2), Cell(b, d, r, c, 3)]
  }

  /** `list.count`. */
  function Count(s: seq<int>, x: int): (n: nat)
    ensures n <= |s|
  {
    if s == [] then 0 else Count(s[..|s| - 1], x) + (if s[|s| - 1] == x then 1 else 0)
  }

  /** Line 69. */
  function Opponent(piece: int): int
  {
    if piece == 2 then 1 else 2
  }

  /** Lines 67-81. */
  function EvaluateWindow(window: seq<int>, piece: int): int
  {
    var own, empty, opp := Count(window, piece), Count(window, 0), Count(window, Opponent(piece));
    (if own == 4 then 100
     else if own == 3 && empty == 1 then 5
     else if own == 2 && empty == 2 then 2
     else 0)
    - (if opp == 3 && empty == 1 then 4 else 0)
  }

  /** The counts of three different values in a window add up to at most
      its length. */
  lemma {:induction false} CountsBounded(s: seq<int>, x: int, y: int, z: int)
    requires x != y && y != z && x != z
    ensures Count(s, x) + Count(s, y) + Count(s, z) <= |s|
  {
    if s != [] {
      CountsBounded(s[..|s| - 1], x, y, z);
    }
  }

  /** A window of four cells scores one of 100, 5, 2, -4 and 0: the bonus
      for the own pieces and the penalty for the opponent's never both
      apply, and a window holding pieces of both players scores 0. */
  lemma EvaluateWindowFacts(window: seq<int>, piece: int)
    requires |window| == 4 && (piece == 1 || piece == 2)
    ensures var own, empty, opp := Count(window, piece), Count(window, 0), Count(window, Opponent(piece));
      var s := EvaluateWindow(window, piece);
      (own == 4 ==> s == 100) &&
      (own == 3 && empty == 1 ==> s == 5) &&
      (own == 2 && empty == 2 ==> s == 2) &&
      (opp == 3 && empty == 1 ==> s == -4) &&
      (own >= 1 && opp >= 1 ==> s == 0) &&
      (s == 100 || s == 5 || s == 2 || s == -4 || s == 0)
  {
    CountsBounded(window, piece, 0, Opponent(piece));
  }

  /** Every window scores at least -4. */
  lemma EvaluateWindowLow(window: seq<int>, piece: int)
    ensures EvaluateWindow(window, piece) >= -4
  {
  }

  /** The number of outer and inner iterations of each scoring loop
      (lines 92-115), and the window each pair of indices gives. */
  function Outer(d: Direction): nat
  {
    match d
    case Horizontal => ROW_COUNT
    case Vertical => COLUMN_COUNT
    case Rising => ROW_COUNT - 3
    case Falling => ROW_COUNT - 3
  }

  function Inner(d: Direction): nat
  {
    match d
    case Horizontal => COLUMN_COUNT - 3
    case Vertical => ROW_COUNT - 3
    case Rising => COLUMN_COUNT - 3
    case Falling => COLUMN_COUNT - 3
  }

  /** The horizontal loop runs over rows then columns, the vertical one
      over columns then rows, and the falling diagonal starts three rows
      up (`board[r+3-i][c+i]`). */
  function WindowOf(b: Grid, d: Direction, a: int, k: int): (w: seq<int>)
    requires WellFormed(b) && 0 <= a < Outer(d) && 0 <= k < Inner(d)
    ensures |w| == 4
  {
    match d
    case Horizontal => Window(b, d, a, k)
    case Vertical => Window(b, d, k, a)
    case Rising => Window(b, d, a, k)
    case Falling => Window(b, d, a + 3, k)
  }

  /** The inner loop's sum for outer index a after n iterations. */
  function InnerSum(b: Grid, piece: int, d: Direction, a: int, n: int): int
    requires WellFormed(b) && 0 <= a < Outer(d) && 0 <= n <= Inner(d)
  {
    if n == 0 then 0 else InnerSum(b, piece, d, a, n - 1) + EvaluateWindow(WindowOf(b, d, a, n - 1), piece)
  }

  /** The nested loops' sum after m outer iterations. */
  function OuterSum(b: Grid, piece: int, d: Direction, m: int): int
    requires WellFormed(b) && 0 <= m <= Outer(d)
  {
    if m == 0 then 0 else OuterSum(b, piece, d, m - 1) + InnerSum(b, piece, d, m - 1, Inner(d))
  }

  function DirectionScore(b: Grid, piece: int, d: Direction): int
    requires WellFormed(b)
  {
    OuterSum(b, piece, d, Outer(d))
  }

  /** Line 87: the centre column, bottom to top. */
  function CenterColumn(b: Grid): (s: seq<int>)
    requires WellFormed(b)
    ensures |s| == ROW_COUNT
  {
    seq(ROW_COUNT, r requires 0 <= r < ROW_COUNT => b[r][COLUMN_COUNT / 2])
  }

  /** Lines 83-117: three points per own piece in the centre column plus
      the score of every window of four, in the loops' order. */
  function ScoreOf(b: Grid, piece: int): int
    requires WellFormed(b)
  {
    Count(CenterColumn(b), piece) * 3
    + DirectionScore(b, piece, Horizontal) + DirectionScore(b, piece, Vertical)
    + DirectionScore(b, piece, Rising) + DirectionScore(b, piece, Falling)
  }

  /** Every cell is empty. */
  ghost predicate AllEmpty(b: Grid)
    requires WellFormed(b)
  {
    forall r, c :: InGrid(r, c) ==> b[r][c] == 0
  }

  lemma {:induction false} CountInZeros(s: seq<int>, x: int)
    requires forall i :: 0 <= i < |s| ==> s[i] == 0
    ensures Count(s, x) == if x == 0 then |s| else 0
  {
    if s != [] {
      CountInZeros(s[..|s| - 1], x);
    }
  }

  /** An empty window scores 0 for either player. */
  lemma EmptyWindow(b: Grid, piece: int, d: Direction, a: int, k: int)
    requires WellFormed(b) && AllEmpty(b) && (piece == 1 || piece == 2)
    requires 0 <= a < Outer(d) && 0 <= k < Inner(d)
    ensures EvaluateWindow(WindowOf(b, d, a, k), piece) == 0
  {
    var w := WindowOf(b, d, a, k);
    assert forall i :: 0 <= i < |w| ==> w[i] == 0;
    CountInZeros(w, piece);
    CountInZeros(w, 0);
    CountInZeros(w, Opponent(piece));
  }

  /** The inner and outer sums over windows of an empty grid are 0. */
  lemma {:induction false} EmptyInnerSum(b: Grid, piece: int, d: Direction, a: int, n: int)
    requires WellFormed(b) && AllEmpty(b) && (piece == 1 || piece == 2)
    requires 0 <= a < Outer(d) && 0 <= n <= Inner(d)
    ensures InnerSum(b, piece, d, a, n) == 0
  {
    if n > 0 {
      EmptyInnerSum(b, piece, d, a, n - 1);
      EmptyWindow(b, piece, d, a, n - 1);
    }
  }

  lemma {:induction false} EmptyOuterSum(b: Grid, piece: int, d: Direction, m: int)
    requires WellFormed(b) && (piece == 1 || piece == 2)
    requires forall a :: 0 <= a < Outer(d) ==> InnerSum(b, piece, d, a, Inner(d)) == 0
    requires 0 <= m <= Outer(d)
    ensures OuterSum(b, piece, d, m) == 0
  {
    if m > 0 {
      EmptyOuterSum(b, piece, d, m - 1);
    }
  }

  lemma EmptyRows(b: Grid, piece: int, d: Direction)
    requires WellFormed(b) && AllEmpty(b) && (piece == 1 || piece == 2)
    ensures forall a :: 0 <= a < Outer(d) ==> InnerSum(b, piece, d, a, Inner(d)) == 0
  {
    forall a | 0 <= a < Outer(d) ensures InnerSum(b, piece, d, a, Inner(d)) == 0 {
      EmptyInnerSum(b, piece, d, a, Inner(d));
    }
  }

  /** The empty grid scores 0 for either player. */
  lemma EmptyBoardScore(b: Grid, piece: int)
    requires WellFormed(b) && AllEmpty(b) && (piece == 1 || piece == 2)
    ensures ScoreOf(b, piece) == 0
  {
    EmptyRows(b, piece, Horizontal);
    EmptyOuterSum(b, piece, Horizontal, Outer(Horizontal));
    EmptyRows(b, piece, Vertical);
    EmptyOuterSum(b, piece, Vertical, Outer(Vertical));
    EmptyRows(b, piece, Rising);
    EmptyOuterSum(b, piece, Rising, Outer(Rising));
    EmptyRows(b, piece, Falling);
    EmptyOuterSum(b, piece, Falling, Outer(Falling));
    CountInZeros(CenterColumn(b), piece);
  }

  /** Each window costs at most 4 points, and there are 24 + 21 + 12 + 12
      of them, so no grid scores below -276. */
  lemma {:induction false} InnerSumLow(b: Grid, piece: int, d: Direction, a: int, n: int)
    requires WellFormed(b) && 0 <= a < Outer(d) && 0 <= n <= Inner(d)
    ensures InnerSum(b, piece, d, a, n) >= -4 * n
  {
    if n > 0 {
      InnerSumLow(b, piece, d, a, n - 1);
      EvaluateWindowLow(WindowOf(b, d, a, n - 1), piece);
    }
  }

  lemma {:induction false} OuterSumLow(b: Grid, piece: int, d: Direction, m: int)
    requires WellFormed(b) && 0 <= m <= Outer(d)
    ensures OuterSum(b, piece, d, m) >= -4 * Inner(d) * m
  {
    if m > 0 {
      OuterSumLow(b, piece, d, m - 1);
      var n := Inner(d);
      InnerSumLow(b, piece, d, m - 1, n);
      assert -4 * n * m == -4 * n * (m - 1) - 4 * n;
    }
  }

  lemma ScoreLow(b: Grid, piece: int)
    requires WellFormed(b)
    ensures ScoreOf(b, piece) >= -276
  {
    OuterSumLow(b, piece, Horizontal, Outer(Horizontal));
    OuterSumLow(b, piece, Vertical, Outer(Vertical));
    OuterSumLow(b, piece, Rising, Outer(Rising));
    OuterSumLow(b, piece, Falling, Outer(Falling));
  }
}
