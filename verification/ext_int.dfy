/**
  Search scores: a finite integer or one of the two infinities that the search
  starts its running maximum and minimum from (`-Infinity` and `Infinity` in
  scripts/chess.js).
 */
module ExtendedInt {

  datatype ExtInt = NegInf | Fin(n: int) | PosInf

  /** The numeric order, with NegInf below and PosInf above every integer. */
  predicate Le(a: ExtInt, b: ExtInt) {
    a.NegInf? || b.PosInf? || (a.Fin? && b.Fin? && a.n <= b.n)
  }

  predicate Lt(a: ExtInt, b: ExtInt) {
    !Le(b, a)
  }

  /** `Math.max` on two scores. */
  function Max(a: ExtInt, b: ExtInt): (r: ExtInt)
    ensures Le(a, r) && Le(b, r)
    ensures r == a || r == b
  {
    if Le(a, b) then b else a
  }

  /** `Math.min` on two scores. */
  function Min(a: ExtInt, b: ExtInt): (r: ExtInt)
    ensures Le(r, a) && Le(r, b)
    ensures r == a || r == b
  {
    if Le(a, b) then a else b
  }

  lemma LeTrans(a: ExtInt, b: ExtInt, c: ExtInt)
    requires Le(a, b) && Le(b, c)
    ensures Le(a, c)
  {
  }

  /** The maximum of a sequence of scores, folded from the left starting at NegInf. */
  function MaxOf(s: seq<ExtInt>): (m: ExtInt)
    ensures forall k :: 0 <= k < |s| ==> Le(s[k], m)
    ensures |s| == 0 ==> m == NegInf
    ensures |s| > 0 ==> m in s
  {
    if |s| == 0 then NegInf else Max(MaxOf(s[..|s| - 1]), s[|s| - 1])
  }

  /** The minimum of a sequence of scores, folded from the left starting at PosInf. */
  function MinOf(s: seq<ExtInt>): (m: ExtInt)
    ensures forall k :: 0 <= k < |s| ==> Le(m, s[k])
    ensures |s| == 0 ==> m == PosInf
    ensures |s| > 0 ==> m in s
  {
    if |s| == 0 then PosInf else Min(MinOf(s[..|s| - 1]), s[|s| - 1])
  }

  /**
    What a fail-soft alpha-beta search promises about the score `v` it returns
    for a node whose true minimax value is `t`, searched with window (alpha, beta):
    inside the window the score is exact, at or below alpha it is an upper bound,
    at or above beta a lower bound.
   */
  ghost predicate FailSoft(v: ExtInt, t: ExtInt, alpha: ExtInt, beta: ExtInt) {
    && (Le(v, alpha) ==> Le(t, v))
    && (Le(beta, v) ==> Le(v, t))
    && (Lt(alpha, v) && Lt(v, beta) ==> v == t)
  }

  /** With the full window (-Infinity, +Infinity) the fail-soft score is exact. */
  lemma FullWindowExact(v: ExtInt, t: ExtInt)
    requires FailSoft(v, t, NegInf, PosInf)
    ensures v == t
  {
  }
}
