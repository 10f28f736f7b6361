/** Search scores: the Python code mixes `-np.inf`, `np.inf` and the integers the
    evaluation returns; this module gives them one ordered type. */
module Scores {

  datatype Score = NegInf | Fin(n: int) | PosInf

  /** The order Python's `<=` gives on `-inf`, integers and `+inf`. */
  predicate Le(a: Score, b: Score)
  {
    match (a, b)
    case (NegInf, _) => true
    case (_, PosInf) => true
    case (Fin(x), Fin(y)) => x <= y
    case _ => false
  }

  predicate Lt(a: Score, b: Score)
  {
    Le(a, b) && a != b
  }

  /** Python's two-argument `max(a, b)`: `b` only when it is strictly greater. */
  function Max(a: Score, b: Score): (r: Score)
    ensures Le(a, r) && Le(b, r)
    ensures r == a || r == b
  {
    if Lt(a, b) then b else a
  }

  /** Python's two-argument `min(a, b)`: `b` only when it is strictly smaller. */
  function Min(a: Score, b: Score): (r: Score)
    ensures Le(r, a) && Le(r, b)
    ensures r == a || r == b
  {
    if Lt(b, a) then b else a
  }

  lemma LeTransitive(a: Score, b: Score, c: Score)
    requires Le(a, b) && Le(b, c)
    ensures Le(a, c)
  {
  }
}
