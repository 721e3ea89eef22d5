/** The game tree the search of Lab1/main.py (lines 119-167) explores from
    a grid, and the one-ply choice of `pick_best_move` (lines 176-190). The
    maximiser drops piece 2 (the computer), the minimiser piece 1. */
module Search {
  import opened Options
  import opened Board
  import opened Bounds
  import opened GameTrees

  const WIN_SCORE := 100000000000000
  const LOSS_SCORE := -10000000000000

  /** Lines 119-120: a player has four in a row, or the grid is full. */
  ghost predicate IsTerminal(b: Grid)
    requires WellFormed(b)
  {
    HasFour(b, 1) || HasFour(b, 2) || |ValidLocations(b)| == 0
  }

  /** Lines 125-134: the score of a node the search does not expand (a win
      for piece 2, a win for piece 1, a full grid, or depth 0), or None
      when it expands it. */
  ghost function Static(b: Grid, depth: nat): (o: Option<int>)
    requires WellFormed(b)
    ensures o.None? <==> depth > 0 && !IsTerminal(b)
  {
    if IsTerminal(b) then
      Some(if HasFour(b, 2) then WIN_SCORE else if HasFour(b, 1) then LOSS_SCORE else 0)
    else if depth == 0 then Some(ScoreOf(b, 2))
    else None
  }

  /** The grid below the i-th playable column. */
  function Next(b: Grid, i: int, piece: int): (c: Grid)
    requires WellFormed(b) && 0 <= i < |ValidLocations(b)|
    ensures WellFormed(c)
  {
    Child(b, PlayableAt(b, i), piece)
  }

  /** The piece the player to move drops (lines 140 and 157). */
  function PieceOf(maximizing: bool): int
  {
    if maximizing then 2 else 1
  }

  /** The tree `minimax(depth, ..., maximizing)` explores: a leaf with the
      static score, or one move per playable column, in ascending order. */
  ghost function GameTree(b: Grid, depth: nat, maximizing: bool): Tree
    requires WellFormed(b)
    decreases depth
  {
    match Static(b, depth)
    case Some(v) => Leaf(v)
    case None =>
      Branch(seq(|ValidLocations(b)|, i requires 0 <= i < |ValidLocations(b)| =>
        Move(PlayableAt(b, i), GameTree(Next(b, i, PieceOf(maximizing)), depth - 1, !maximizing))))
  }

  /** Every expanded node has a playable column. */
  lemma {:induction false} GameTreePlayable(b: Grid, depth: nat, maximizing: bool)
    requires WellFormed(b)
    ensures Playable(GameTree(b, depth, maximizing))
    decreases depth
  {
    if Static(b, depth).None? {
      var t := GameTree(b, depth, maximizing);
      forall i | 0 <= i < |t.moves| ensures Playable(t.moves[i].next) {
        GameTreePlayable(Next(b, i, PieceOf(maximizing)), depth - 1, !maximizing);
      }
    }
  }

  /** t is the tree of an expanded node of b: one move per playable
      column, in ascending order, each with the tree of the grid below
      that column. */
  ghost predicate Expands(b: Grid, depth: nat, maximizing: bool, t: Tree)
    requires WellFormed(b)
  {
    depth > 0 && Playable(t) && t.Branch? && |t.moves| == |ValidLocations(b)| &&
    forall i {:trigger Next(b, i, PieceOf(maximizing))} :: 0 <= i < |t.moves| ==>
      t.moves[i] == Move(PlayableAt(b, i), GameTree(Next(b, i, PieceOf(maximizing)), depth - 1, !maximizing))
  }

  /** The i-th move of such a tree is the i-th playable column. */
  lemma ExpandsColumn(b: Grid, depth: nat, maximizing: bool, t: Tree, i: nat)
    requires WellFormed(b) && Expands(b, depth, maximizing, t) && i < |t.moves|
    ensures t.moves[i].column == ValidLocations(b)[i]
  {
    assert t.moves[i].next == GameTree(Next(b, i, PieceOf(maximizing)), depth - 1, !maximizing);
  }

  /** The game tree of an expanded node is such a tree. */
  lemma GameTreeExpands(b: Grid, depth: nat, maximizing: bool)
    requires WellFormed(b) && Static(b, depth).None?
    ensures Expands(b, depth, maximizing, GameTree(b, depth, maximizing))
  {
    GameTreePlayable(b, depth, maximizing);
  }

  /** What `minimax` returns on a grid. */
  ghost function MinimaxResult(b: Grid, depth: nat, alpha: Bound, beta: Bound, maximizing: bool): (Option<int>, Bound)
    requires WellFormed(b)
  {
    GameTreePlayable(b, depth, maximizing);
    AlphaBeta(GameTree(b, depth, maximizing), alpha, beta, maximizing)
  }

  /** The plain minimax value of a grid (reference definition). */
  ghost function MinimaxValue(b: Grid, depth: nat, maximizing: bool): Bound
    requires WellFormed(b)
  {
    GameTreePlayable(b, depth, maximizing);
    Minimax(GameTree(b, depth, maximizing), maximizing)
  }

  /** `minimax` returns no column exactly at depth 0 or in a terminal
      position, and otherwise a playable column; its value is always a
      score, never an infinity. */
  lemma MinimaxColumn(b: Grid, depth: nat, alpha: Bound, beta: Bound, maximizing: bool)
    requires WellFormed(b)
    ensures var r := MinimaxResult(b, depth, alpha, beta, maximizing);
      (r.0.None? <==> depth == 0 || IsTerminal(b)) &&
      (r.0.Some? ==> 0 <= r.0.value < COLUMN_COUNT && IsValidLocation(b, r.0.value)) &&
      r.1.Fin?
  {
    var t := GameTree(b, depth, maximizing);
    GameTreePlayable(b, depth, maximizing);
    ColumnIsMove(t, alpha, beta, maximizing);
    AlphaBetaFinite(t, alpha, beta, maximizing);
    if t.Branch? {
      var j :| 0 <= j < |t.moves| && t.moves[j].column == AlphaBeta(t, alpha, beta, maximizing).0.value;
      assert t.moves[j].column == PlayableAt(b, j);
    }
  }

  /** The top-level call `minimax(5, -inf, +inf, True)`: alpha-beta
      returns the plain minimax value, and the column it returns is an
      optimal move, one whose grid has that value for the minimiser. */
  lemma BestColumnOptimal(b: Grid, depth: nat)
    requires WellFormed(b) && depth > 0 && !IsTerminal(b)
    ensures var r := MinimaxResult(b, depth, NegInf, PosInf, true);
      r.1 == MinimaxValue(b, depth, true) &&
      r.0.Some? && 0 <= r.0.value < COLUMN_COUNT && IsValidLocation(b, r.0.value) &&
      MinimaxValue(Child(b, r.0.value, 2), depth - 1, false) == r.1
  {
    var t := GameTree(b, depth, true);
    GameTreePlayable(b, depth, true);
    FullWindow(t, true);
    BestMoveOptimal(t);
    var c := AlphaBeta(t, NegInf, PosInf, true).0.value;
    var j :| 0 <= j < |t.moves| && t.moves[j].column == c &&
      Minimax(t.moves[j].next, false) == Minimax(t, true);
    assert t.moves[j] == Move(PlayableAt(b, j), GameTree(Next(b, j, 2), depth - 1, false));
  }

  /** The static score of the grid after `piece` drops into column col. */
  function ScoreAfter(b: Grid, col: int, piece: int): int
    requires WellFormed(b) && 0 <= col < COLUMN_COUNT && IsValidLocation(b, col)
  {
    ScoreOf(Child(b, col, piece), piece)
  }

  /** The grids after `piece` drops into each of the first n playable
      columns. */
  function ChildrenBelow(b: Grid, piece: int, n: nat): (s: seq<Grid>)
    requires WellFormed(b) && n <= |ValidLocations(b)|
    ensures |s| == n && forall j :: 0 <= j < n ==> WellFormed(s[j])
  {
    if n == 0 then [] else ChildrenBelow(b, piece, n - 1) + [Next(b, n - 1, piece)]
  }

  lemma {:induction false} ChildrenBelowAt(b: Grid, piece: int, n: nat, j: nat)
    requires WellFormed(b) && j < n <= |ValidLocations(b)|
    ensures ChildrenBelow(b, piece, n)[j] == Next(b, j, piece)
  {
    if j < n - 1 {
      ChildrenBelowAt(b, piece, n - 1, j);
    }
  }

  /** The static score of each grid, in order. */
  function ScoresOf(grids: seq<Grid>, piece: int): (s: seq<int>)
    requires forall j :: 0 <= j < |grids| ==> WellFormed(grids[j])
    ensures |s| == |grids|
  {
    if grids == [] then [] else ScoresOf(grids[..|grids| - 1], piece) + [ScoreOf(grids[|grids| - 1], piece)]
  }

  lemma {:induction false} ScoresOfAt(grids: seq<Grid>, piece: int, j: nat)
    requires forall k :: 0 <= k < |grids| ==> WellFormed(grids[k])
    requires j < |grids|
    ensures ScoresOf(grids, piece)[j] == ScoreOf(grids[j], piece)
  {
    if j < |grids| - 1 {
      ScoresOfAt(grids[..|grids| - 1], piece, j);
    }
  }

  /** The score after each playable column, in the order of
      `get_valid_locations`. */
  function Scores(b: Grid, piece: int): (s: seq<int>)
    requires WellFormed(b)
    ensures |s| == |ValidLocations(b)|
  {
    ScoresOf(ChildrenBelow(b, piece, |ValidLocations(b)|), piece)
  }

  /** Entry j is the score after the j-th playable column. */
  lemma ScoresAt(b: Grid, piece: int, j: nat)
    requires WellFormed(b) && j < |ValidLocations(b)|
    ensures Scores(b, piece)[j] == ScoreAfter(b, PlayableAt(b, j), piece)
  {
    var children := ChildrenBelow(b, piece, |ValidLocations(b)|);
    ChildrenBelowAt(b, piece, |ValidLocations(b)|, j);
    ScoresOfAt(children, piece, j);
  }

  /** No playable column scores below -276 (`ScoreLow`). */
  lemma ScoresLow(b: Grid, piece: int)
    requires WellFormed(b)
    ensures forall j :: 0 <= j < |Scores(b, piece)| ==> Scores(b, piece)[j] >= -276
  {
    forall j | 0 <= j < |Scores(b, piece)| ensures Scores(b, piece)[j] >= -276 {
      ScoreLow(Child(b, PlayableAt(b, j), piece), piece);
      ScoresAt(b, piece, j);
    }
  }

  /** Lines 179-188 from the i-th column on: the best score so far is
      replaced only by a strictly greater one. */
  function PickFrom(cols: seq<int>, scores: seq<int>, i: nat, bestScore: int, bestCol: int): int
    requires |cols| == |scores| && i <= |cols|
    decreases |cols| - i
  {
    if i == |cols| then bestCol
    else if scores[i] > bestScore then PickFrom(cols, scores, i + 1, scores[i], cols[i])
    else PickFrom(cols, scores, i + 1, bestScore, bestCol)
  }

  /** Lines 176-190: None where `random.choice` of an empty list raises;
      the initial choice is taken as the first playable column, which
      `PickInitialIrrelevant` shows makes no difference. */
  function PickBestMove(b: Grid, piece: int): Option<int>
    requires WellFormed(b)
  {
    var vl := ValidLocations(b);
    if |vl| == 0 then None
    else Some(PickFrom(vl, Scores(b, piece), 0, -10000, vl[0]))
  }

  /** No grid scores -10000 or less, so the first column always replaces
      the initial choice. */
  lemma PickInitialIrrelevant(b: Grid, piece: int, c1: int, c2: int)
    requires WellFormed(b) && |ValidLocations(b)| > 0
    ensures PickFrom(ValidLocations(b), Scores(b, piece), 0, -10000, c1) ==
            PickFrom(ValidLocations(b), Scores(b, piece), 0, -10000, c2)
  {
    ScoresLow(b, piece);
  }

  /** The index the loop of lines 182-188 ends on, when the best column
      so far is at index k. */
  function PickIndex(scores: seq<int>, i: nat, k: nat): (q: nat)
    requires k < |scores| && i <= |scores|
    ensures q < |scores|
    decreases |scores| - i
  {
    if i == |scores| then k
    else if scores[i] > scores[k] then PickIndex(scores, i + 1, i)
    else PickIndex(scores, i + 1, k)
  }

  /** Tracking the best column is tracking its index. */
  lemma {:induction false} PickFromIndex(cols: seq<int>, scores: seq<int>, i: nat, k: nat)
    requires |cols| == |scores| && k < |cols| && i <= |cols|
    ensures PickFrom(cols, scores, i, scores[k], cols[k]) == cols[PickIndex(scores, i, k)]
    decreases |cols| - i
  {
    if i < |cols| {
      if scores[i] > scores[k] {
        PickFromIndex(cols, scores, i + 1, i);
      } else {
        PickFromIndex(cols, scores, i + 1, k);
      }
    }
  }

  /** The index the loop ends on holds a greatest score of those from i on,
      and the first one: every index before it from i on scores less. */
  lemma {:induction false} PickIndexFacts(scores: seq<int>, i: nat, k: nat)
    requires k < i <= |scores|
    ensures var q := PickIndex(scores, i, k);
      (q == k || i <= q) && scores[k] <= scores[q] && (q == k || scores[k] < scores[q]) &&
      (forall j :: i <= j < |scores| ==> scores[j] <= scores[q]) &&
      (forall j :: i <= j < q ==> scores[j] < scores[q])
    decreases |scores| - i
  {
    if i < |scores| {
      if scores[i] > scores[k] {
        PickIndexFacts(scores, i + 1, i);
      } else {
        PickIndexFacts(scores, i + 1, k);
      }
    }
  }

  /** `pick_best_move` returns a playable column whose score is the
      greatest over all playable columns, the leftmost such column, and
      fails only when no column is playable (`ScoresAt` says what the
      scores are). */
  lemma PickBestMoveFacts(b: Grid, piece: int)
    requires WellFormed(b)
    ensures PickBestMove(b, piece).None? <==> |ValidLocations(b)| == 0
    ensures var r, vl, sc := PickBestMove(b, piece), ValidLocations(b), Scores(b, piece);
      r.Some? ==>
        r.value in vl &&
        forall j, q :: 0 <= j < |vl| && 0 <= q < |vl| && vl[q] == r.value ==>
          sc[j] <= sc[q] && (j < q ==> sc[j] < sc[q])
  {
    var vl, sc := ValidLocations(b), Scores(b, piece);
    if |vl| > 0 {
      ScoresLow(b, piece);
      ValidLocationsFacts(b);
      PickFromBest(vl, sc);
    }
  }

  /** The scan over columns in ascending order, started below every score,
      ends on a column of greatest score, the leftmost one. */
  lemma PickFromBest(cols: seq<int>, scores: seq<int>)
    requires |cols| == |scores| > 0
    requires forall i, j :: 0 <= i < j < |cols| ==> cols[i] < cols[j]
    requires forall j :: 0 <= j < |scores| ==> scores[j] > -10000
    ensures var r := PickFrom(cols, scores, 0, -10000, cols[0]);
      r in cols &&
      forall j, q :: 0 <= j < |cols| && 0 <= q < |cols| && cols[q] == r ==>
        scores[j] <= scores[q] && (j < q ==> scores[j] < scores[q])
  {
    assert PickFrom(cols, scores, 0, -10000, cols[0]) == PickFrom(cols, scores, 1, scores[0], cols[0]);
    PickFromIndex(cols, scores, 1, 0);
    PickIndexFacts(scores, 1, 0);
    var q := PickIndex(scores, 1, 0);
    forall j, q' | 0 <= j < |cols| && 0 <= q' < |cols| && cols[q'] == cols[q]
      ensures scores[j] <= scores[q'] && (j < q' ==> scores[j] < scores[q'])
    {
      if q' != q {
        assert false;
      }
    }
  }
}
