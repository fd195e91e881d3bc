/** Extended integer scores.  The search seeds its running values and its
    alpha/beta window with minus and plus infinity, so a score is an integer
    or one of the two infinite sentinels. */
module Scores {

  datatype Score = NegInf | Fin(n: int) | PosInf

  /** The order of the extended integers: -inf below every integer, +inf above. */
  predicate Le(a: Score, b: Score) {
    match (a, b)
    case (NegInf, _) => true
    case (_, PosInf) => true
    case (Fin(x), Fin(y)) => x <= y
    case _ => false
  }

  predicate Lt(a: Score, b: Score) {
    !Le(b, a)
  }

  function Max(a: Score, b: Score): (m: Score)
    ensures Le(a, m) && Le(b, m)
    ensures m == a || m == b
  {
    if Le(b, a) then a else b
  }

  function Min(a: Score, b: Score): (m: Score)
    ensures Le(m, a) && Le(m, b)
    ensures m == a || m == b
  {
    if Le(a, b) then a else b
  }

  lemma LeTotalOrder(a: Score, b: Score, c: Score)
    ensures Le(a, a)
    ensures Le(a, b) || Le(b, a)
    ensures Le(a, b) && Le(b, a) ==> a == b
    ensures Le(a, b) && Le(b, c) ==> Le(a, c)
  {
  }
}
