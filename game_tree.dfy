/** Depth-limited minimax with alpha-beta pruning (Lab1/main.py, lines
    122-167) on an explicit game tree: a leaf holds the score the search
    gives an unexpanded node, a branch the playable columns in order, each
    with the tree below it. The players alternate from level to level. */
module GameTrees {
  import opened Options
  import opened Bounds

  datatype Tree = Leaf(score: int) | Branch(moves: seq<Move>)
  datatype Move = Move(column: int, next: Tree)

  /** Every branch has a move: a node without playable columns is terminal,
      so the search never expands it. */
  predicate Playable(t: Tree)
    decreases t
  {
    match t
    case Leaf(_) => true
    case Branch(ms) => |ms| > 0 && forall i :: 0 <= i < |ms| ==> Playable(ms[i].next)
  }

  /** Lines 122-167: the column and the value `minimax` returns for the
      window (alpha, beta). The first move's column stands for the initial
      `random.choice`; `InitialColumnIrrelevant` shows the choice never
      shows in the result. */
  function AlphaBeta(t: Tree, alpha: Bound, beta: Bound, maximizing: bool): (Option<int>, Bound)
    requires Playable(t)
    decreases t, 1
  {
    match t
    case Leaf(v) => (None, Fin(v))
    case Branch(ms) =>
      if maximizing then MaxLoop(t, 0, alpha, beta, NegInf, ms[0].column)
      else MinLoop(t, 0, alpha, beta, PosInf, ms[0].column)
  }

  /** Lines 137-150, from move i on: a child's score replaces the value only
      when it is strictly greater, alpha follows the value, and the loop
      stops once alpha reaches beta. */
  function MaxLoop(t: Tree, i: nat, alpha: Bound, beta: Bound, value: Bound, column: int): (Option<int>, Bound)
    requires t.Branch? && Playable(t) && i <= |t.moves|
    decreases t, 0, |t.moves| - i
  {
    if i == |t.moves| then (Some(column), value)
    else
      var s := AlphaBeta(t.moves[i].next, alpha, beta, false).1;
      var value' := if Less(value, s) then s else value;
      var column' := if Less(value, s) then t.moves[i].column else column;
      var alpha' := Max(alpha, value');
      if !Less(alpha', beta) then (Some(column'), value')
      else MaxLoop(t, i + 1, alpha', beta, value', column')
  }

  /** Lines 154-167, from move i on. */
  function MinLoop(t: Tree, i: nat, alpha: Bound, beta: Bound, value: Bound, column: int): (Option<int>, Bound)
    requires t.Branch? && Playable(t) && i <= |t.moves|
    decreases t, 0, |t.moves| - i
  {
    if i == |t.moves| then (Some(column), value)
    else
      var s := AlphaBeta(t.moves[i].next, alpha, beta, true).1;
      var value' := if Less(s, value) then s else value;
      var column' := if Less(s, value) then t.moves[i].column else column;
      var beta' := Min(beta, value');
      if !Less(alpha, beta') then (Some(column'), value')
      else MinLoop(t, i + 1, alpha, beta', value', column')
  }

  /** Plain minimax without pruning (reference definition). */
  function Minimax(t: Tree, maximizing: bool): Bound
    requires Playable(t)
    decreases t, 1
  {
    match t
    case Leaf(v) => Fin(v)
    case Branch(_) => if maximizing then MaxOf(t, 0, NegInf) else MinOf(t, 0, PosInf)
  }

  /** The greatest of `value` and the minimax values of moves i onwards. */
  function MaxOf(t: Tree, i: nat, value: Bound): Bound
    requires t.Branch? && Playable(t) && i <= |t.moves|
    decreases t, 0, |t.moves| - i
  {
    if i == |t.moves| then value
    else MaxOf(t, i + 1, Max(value, Minimax(t.moves[i].next, false)))
  }

  function MinOf(t: Tree, i: nat, value: Bound): Bound
    requires t.Branch? && Playable(t) && i <= |t.moves|
    decreases t, 0, |t.moves| - i
  {
    if i == |t.moves| then value
    else MinOf(t, i + 1, Min(value, Minimax(t.moves[i].next, true)))
  }

  /** A fold of Max is the maximum of its start and the fold from -inf. */
  lemma {:induction false} MaxOfShift(t: Tree, i: nat, value: Bound)
    requires t.Branch? && Playable(t) && i <= |t.moves|
    ensures MaxOf(t, i, value) == Max(value, MaxOf(t, i, NegInf))
    decreases |t.moves| - i
  {
    if i < |t.moves| {
      var m := Minimax(t.moves[i].next, false);
      MaxOfShift(t, i + 1, Max(value, m));
      MaxOfShift(t, i + 1, Max(NegInf, m));
      MaxAssociative(value, m, MaxOf(t, i + 1, NegInf));
    }
  }

  lemma {:induction false} MinOfShift(t: Tree, i: nat, value: Bound)
    requires t.Branch? && Playable(t) && i <= |t.moves|
    ensures MinOf(t, i, value) == Min(value, MinOf(t, i, PosInf))
    decreases |t.moves| - i
  {
    if i < |t.moves| {
      var m := Minimax(t.moves[i].next, true);
      MinOfShift(t, i + 1, Min(value, m));
      MinOfShift(t, i + 1, Min(PosInf, m));
      MinAssociative(value, m, MinOf(t, i + 1, PosInf));
    }
  }

  /** The fail-soft alpha-beta theorem: for a window alpha < beta, a value
      at or below alpha bounds the minimax value from above, one at or
      above beta bounds it from below, and one inside the window is the
      minimax value. */
  lemma {:induction false} AlphaBetaWindow(t: Tree, alpha: Bound, beta: Bound, maximizing: bool)
    requires Playable(t) && Less(alpha, beta)
    ensures FailSoft(AlphaBeta(t, alpha, beta, maximizing).1, Minimax(t, maximizing), alpha, beta)
    decreases t, 1
  {
    if t.Branch? {
      if maximizing {
        MaxLoopWindow(t, 0, alpha, beta, NegInf, t.moves[0].column);
      } else {
        MinLoopWindow(t, 0, alpha, beta, PosInf, t.moves[0].column);
      }
    }
  }

  /** The invariant of the loop of lines 137-150: the value stays at most
      alpha, and alpha below beta while the loop runs. */
  lemma {:induction false} MaxLoopWindow(t: Tree, i: nat, alpha: Bound, beta: Bound, value: Bound, column: int)
    requires t.Branch? && Playable(t) && i <= |t.moves|
    requires AtMost(value, alpha) && Less(alpha, beta)
    ensures MaxLoopFacts(MaxLoop(t, i, alpha, beta, value, column).1, MaxOf(t, i, value), value, alpha, beta)
    decreases t, 0, |t.moves| - i
  {
    if i < |t.moves| {
      var child := t.moves[i].next;
      var s := AlphaBeta(child, alpha, beta, false).1;
      var m := Minimax(child, false);
      AlphaBetaWindow(child, alpha, beta, false);
      var value' := if Less(value, s) then s else value;
      var column' := if Less(value, s) then t.moves[i].column else column;
      var alpha' := Max(alpha, value');
      var rest := MaxOf(t, i + 1, NegInf);
      MaxOfShift(t, i + 1, Max(value, m));
      if Less(alpha', beta) {
        MaxLoopWindow(t, i + 1, alpha', beta, value', column');
        MaxOfShift(t, i + 1, value');
        MaxContinue(alpha, beta, value, s, m, rest, MaxLoop(t, i + 1, alpha', beta, value', column').1);
      } else {
        MaxCutoff(alpha, beta, value, s, m, rest);
      }
    }
  }

  /** The invariant of the loop of lines 154-167. */
  lemma {:induction false} MinLoopWindow(t: Tree, i: nat, alpha: Bound, beta: Bound, value: Bound, column: int)
    requires t.Branch? && Playable(t) && i <= |t.moves|
    requires AtMost(beta, value) && Less(alpha, beta)
    ensures MinLoopFacts(MinLoop(t, i, alpha, beta, value, column).1, MinOf(t, i, value), value, alpha, beta)
    decreases t, 0, |t.moves| - i
  {
    if i < |t.moves| {
      var child := t.moves[i].next;
      var s := AlphaBeta(child, alpha, beta, true).1;
      var m := Minimax(child, true);
      AlphaBetaWindow(child, alpha, beta, true);
      var value' := if Less(s, value) then s else value;
      var column' := if Less(s, value) then t.moves[i].column else column;
      var beta' := Min(beta, value');
      var rest := MinOf(t, i + 1, PosInf);
      MinOfShift(t, i + 1, Min(value, m));
      if Less(alpha, beta') {
        MinLoopWindow(t, i + 1, alpha, beta', value', column');
        MinOfShift(t, i + 1, value');
        MinContinue(alpha, beta, value, s, m, rest, MinLoop(t, i + 1, alpha, beta', value', column').1);
      } else {
        MinCutoff(alpha, beta, value, s, m, rest);
      }
    }
  }

  /** With the full window of the top-level call (-inf, +inf) pruning does
      not change the value. */
  lemma FullWindow(t: Tree, maximizing: bool)
    requires Playable(t)
    ensures AlphaBeta(t, NegInf, PosInf, maximizing).1 == Minimax(t, maximizing)
  {
    AlphaBetaWindow(t, NegInf, PosInf, maximizing);
    FullWindowExact(AlphaBeta(t, NegInf, PosInf, maximizing).1, Minimax(t, maximizing));
  }

  /** The value of a playable tree is a score, never an infinity. */
  lemma {:induction false} AlphaBetaFinite(t: Tree, alpha: Bound, beta: Bound, maximizing: bool)
    requires Playable(t)
    ensures AlphaBeta(t, alpha, beta, maximizing).1.Fin?
    decreases t, 1
  {
    if t.Branch? {
      if maximizing {
        MaxLoopFinite(t, 0, alpha, beta, NegInf, t.moves[0].column);
      } else {
        MinLoopFinite(t, 0, alpha, beta, PosInf, t.moves[0].column);
      }
    }
  }

  lemma {:induction false} MaxLoopFinite(t: Tree, i: nat, alpha: Bound, beta: Bound, value: Bound, column: int)
    requires t.Branch? && Playable(t) && i <= |t.moves|
    requires !value.PosInf? && (value.Fin? || i < |t.moves|)
    ensures MaxLoop(t, i, alpha, beta, value, column).1.Fin?
    decreases t, 0, |t.moves| - i
  {
    if i < |t.moves| {
      var s := AlphaBeta(t.moves[i].next, alpha, beta, false).1;
      AlphaBetaFinite(t.moves[i].next, alpha, beta, false);
      var value' := if Less(value, s) then s else value;
      var column' := if Less(value, s) then t.moves[i].column else column;
      var alpha' := Max(alpha, value');
      if Less(alpha', beta) {
        MaxLoopFinite(t, i + 1, alpha', beta, value', column');
      }
    }
  }

  lemma {:induction false} MinLoopFinite(t: Tree, i: nat, alpha: Bound, beta: Bound, value: Bound, column: int)
    requires t.Branch? && Playable(t) && i <= |t.moves|
    requires !value.NegInf? && (value.Fin? || i < |t.moves|)
    ensures MinLoop(t, i, alpha, beta, value, column).1.Fin?
    decreases t, 0, |t.moves| - i
  {
    if i < |t.moves| {
      var s := AlphaBeta(t.moves[i].next, alpha, beta, true).1;
      AlphaBetaFinite(t.moves[i].next, alpha, beta, true);
      var value' := if Less(s, value) then s else value;
      var column' := if Less(s, value) then t.moves[i].column else column;
      var beta' := Min(beta, value');
      if Less(alpha, beta') {
        MinLoopFinite(t, i + 1, alpha, beta', value', column');
      }
    }
  }

  /** The first child's score always beats the infinite start value, so
      the column picked before the loop is always overwritten: no initial
      choice changes what the search returns. */
  lemma InitialColumnIrrelevant(t: Tree, alpha: Bound, beta: Bound, c1: int, c2: int)
    requires t.Branch? && Playable(t)
    ensures MaxLoop(t, 0, alpha, beta, NegInf, c1) == MaxLoop(t, 0, alpha, beta, NegInf, c2)
    ensures MinLoop(t, 0, alpha, beta, PosInf, c1) == MinLoop(t, 0, alpha, beta, PosInf, c2)
  {
    AlphaBetaFinite(t.moves[0].next, alpha, beta, false);
    AlphaBetaFinite(t.moves[0].next, alpha, beta, true);
  }

  /** The column of one of the moves. */
  ghost predicate IsMove(t: Tree, c: int)
    requires t.Branch?
  {
    exists j :: 0 <= j < |t.moves| && t.moves[j].column == c
  }

  /** A leaf yields no column; a branch yields the column of one of its
      moves. */
  lemma ColumnIsMove(t: Tree, alpha: Bound, beta: Bound, maximizing: bool)
    requires Playable(t)
    ensures AlphaBeta(t, alpha, beta, maximizing).0.None? <==> t.Leaf?
    ensures t.Branch? ==> IsMove(t, AlphaBeta(t, alpha, beta, maximizing).0.value)
  {
    if t.Branch? {
      if maximizing {
        MaxLoopColumn(t, 0, alpha, beta, NegInf, t.moves[0].column);
      } else {
        MinLoopColumn(t, 0, alpha, beta, PosInf, t.moves[0].column);
      }
    }
  }

  lemma {:induction false} MaxLoopColumn(t: Tree, i: nat, alpha: Bound, beta: Bound, value: Bound, column: int)
    requires t.Branch? && Playable(t) && i <= |t.moves|
    ensures var r := MaxLoop(t, i, alpha, beta, value, column).0;
      r.Some? && (r.value == column || exists j :: i <= j < |t.moves| && t.moves[j].column == r.value)
    decreases |t.moves| - i
  {
    if i < |t.moves| {
      var s := AlphaBeta(t.moves[i].next, alpha, beta, false).1;
      var value' := if Less(value, s) then s else value;
      var column' := if Less(value, s) then t.moves[i].column else column;
      var alpha' := Max(alpha, value');
      if Less(alpha', beta) {
        MaxLoopColumn(t, i + 1, alpha', beta, value', column');
      }
    }
  }

  lemma {:induction false} MinLoopColumn(t: Tree, i: nat, alpha: Bound, beta: Bound, value: Bound, column: int)
    requires t.Branch? && Playable(t) && i <= |t.moves|
    ensures var r := MinLoop(t, i, alpha, beta, value, column).0;
      r.Some? && (r.value == column || exists j :: i <= j < |t.moves| && t.moves[j].column == r.value)
    decreases |t.moves| - i
  {
    if i < |t.moves| {
      var s := AlphaBeta(t.moves[i].next, alpha, beta, true).1;
      var value' := if Less(s, value) then s else value;
      var column' := if Less(s, value) then t.moves[i].column else column;
      var beta' := Min(beta, value');
      if Less(alpha, beta') {
        MinLoopColumn(t, i + 1, alpha, beta', value', column');
      }
    }
  }

  /** At the root, searched with the full window, the column returned is an
      optimal move: the minimax value of the tree below it is the minimax
      value of the root. */
  lemma BestMoveOptimal(t: Tree)
    requires t.Branch? && Playable(t)
    ensures var r := AlphaBeta(t, NegInf, PosInf, true);
      r.0.Some? &&
      exists j :: 0 <= j < |t.moves| && t.moves[j].column == r.0.value &&
        Minimax(t.moves[j].next, false) == Minimax(t, true)
  {
    MaxLoopChoice(t, 0, NegInf, t.moves[0].column);
    FullWindow(t, true);
    AlphaBetaFinite(t, NegInf, PosInf, true);
  }

  /** With beta = +inf and alpha equal to the value (as at the root) the
      loop never cuts off, and a column it picks is one whose child's score
      was searched inside the window, hence exact. */
  lemma {:induction false} MaxLoopChoice(t: Tree, i: nat, value: Bound, column: int)
    requires t.Branch? && Playable(t) && i <= |t.moves| && !value.PosInf?
    ensures var r := MaxLoop(t, i, value, PosInf, value, column);
      r.0.Some? &&
      ((r.0.value == column && r.1 == value) ||
       exists j :: i <= j < |t.moves| && t.moves[j].column == r.0.value &&
         Minimax(t.moves[j].next, false) == r.1)
    decreases |t.moves| - i
  {
    if i < |t.moves| {
      var child := t.moves[i].next;
      var s := AlphaBeta(child, value, PosInf, false).1;
      AlphaBetaFinite(child, value, PosInf, false);
      AlphaBetaWindow(child, value, PosInf, false);
      if Less(value, s) {
        assert Max(value, s) == s;
        MaxLoopChoice(t, i + 1, s, t.moves[i].column);
      } else {
        assert Max(value, value) == value;
        MaxLoopChoice(t, i + 1, value, column);
      }
    }
  }
}
