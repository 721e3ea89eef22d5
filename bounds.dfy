/** Scores extended with Python's float infinities, as the search of
    Lab1/main.py compares them (lines 136, 145-148, 153, 162-165). */
module Bounds {
  /** A score, or -inf / +inf. */
  datatype Bound = NegInf | Fin(v: int) | PosInf

  /** The order of the extended integers. */
  predicate Less(x: Bound, y: Bound)
  {
    match x
    case NegInf => !y.NegInf?
    case Fin(a) => y.PosInf? || (y.Fin? && a < y.v)
    case PosInf => false
  }

  predicate AtMost(x: Bound, y: Bound)
  {
    !Less(y, x)
  }

  /** Python's `max(alpha, value)`: the first argument unless the second is
      greater. */
  function Max(x: Bound, y: Bound): (m: Bound)
    ensures AtMost(x, m) && AtMost(y, m) && (m == x || m == y)
  {
    if Less(x, y) then y else x
  }

  /** Python's `min(beta, value)`. */
  function Min(x: Bound, y: Bound): (m: Bound)
    ensures AtMost(m, x) && AtMost(m, y) && (m == x || m == y)
  {
    if Less(y, x) then y else x
  }

  lemma MaxAssociative(x: Bound, y: Bound, z: Bound)
    ensures Max(Max(x, y), z) == Max(x, Max(y, z))
  {
  }

  lemma MinAssociative(x: Bound, y: Bound, z: Bound)
    ensures Min(Min(x, y), z) == Min(x, Min(y, z))
  {
  }

  /** The relation between the value v a pruned search returns in the
      window (alpha, beta) and the exact value m: a value at or below alpha
      bounds m from above, one at or above beta bounds it from below, and
      one inside the window is exact. */
  predicate FailSoft(v: Bound, m: Bound, alpha: Bound, beta: Bound)
  {
    (AtMost(v, alpha) ==> AtMost(m, v)) &&
    (Less(alpha, v) && Less(v, beta) ==> m == v) &&
    (AtMost(beta, v) ==> AtMost(v, m))
  }

  /** What the maximising loop returns (v) against the maximum p of its
      start value and the exact values of the remaining children. */
  predicate MaxLoopFacts(v: Bound, p: Bound, value: Bound, alpha: Bound, beta: Bound)
  {
    AtMost(value, v) && (Less(v, beta) ==> AtMost(p, v)) && FailSoft(v, p, alpha, beta)
  }

  predicate MinLoopFacts(v: Bound, p: Bound, value: Bound, alpha: Bound, beta: Bound)
  {
    AtMost(v, value) && (Less(alpha, v) ==> AtMost(v, p)) && FailSoft(v, p, alpha, beta)
  }

  /** A step of the maximising loop that makes alpha reach beta: the loop
      stops, and what it returns is a lower bound. */
  lemma MaxCutoff(alpha: Bound, beta: Bound, value: Bound, s: Bound, m: Bound, rest: Bound)
    requires AtMost(value, alpha) && Less(alpha, beta) && FailSoft(s, m, alpha, beta)
    requires !Less(Max(alpha, if Less(value, s) then s else value), beta)
    ensures MaxLoopFacts(if Less(value, s) then s else value, Max(Max(value, m), rest), value, alpha, beta)
  {
  }

  /** A step of the maximising loop that keeps alpha below beta. */
  lemma MaxContinue(alpha: Bound, beta: Bound, value: Bound, s: Bound, m: Bound, rest: Bound, v: Bound)
    requires AtMost(value, alpha) && Less(alpha, beta) && FailSoft(s, m, alpha, beta)
    requires var value' := if Less(value, s) then s else value;
      Less(Max(alpha, value'), beta) &&
      MaxLoopFacts(v, Max(value', rest), value', Max(alpha, value'), beta)
    ensures MaxLoopFacts(v, Max(Max(value, m), rest), value, alpha, beta)
  {
  }

  lemma MinCutoff(alpha: Bound, beta: Bound, value: Bound, s: Bound, m: Bound, rest: Bound)
    requires AtMost(beta, value) && Less(alpha, beta) && FailSoft(s, m, alpha, beta)
    requires !Less(alpha, Min(beta, if Less(s, value) then s else value))
    ensures MinLoopFacts(if Less(s, value) then s else value, Min(Min(value, m), rest), value, alpha, beta)
  {
  }

  lemma MinContinue(alpha: Bound, beta: Bound, value: Bound, s: Bound, m: Bound, rest: Bound, v: Bound)
    requires AtMost(beta, value) && Less(alpha, beta) && FailSoft(s, m, alpha, beta)
    requires var value' := if Less(s, value) then s else value;
      Less(alpha, Min(beta, value')) &&
      MinLoopFacts(v, Min(value', rest), value', alpha, Min(beta, value'))
    ensures MinLoopFacts(v, Min(Min(value, m), rest), value, alpha, beta)
  {
  }

  /** In the full window the bounds collapse to equality. */
  lemma FullWindowExact(v: Bound, m: Bound)
    requires FailSoft(v, m, NegInf, PosInf)
    ensures v == m
  {
  }
}
