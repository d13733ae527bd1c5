/** Difference bounds as mathematical objects.

    A bound `<c`, `<=c` or `<inf` limits a difference of two clocks. The values
    are reals, so that the same algebra also serves the boxes around a single
    valuation that the simulation test reasons about; the integers stored by the
    program embed into it (module `Encoding`). */
module Bounds {

  datatype Bound = Inf | Fin(value: real, le: bool)

  const ZERO: Bound := Fin(0.0, true)

  /** `d` respects the bound. */
  predicate Meets(d: real, b: Bound) {
    match b
    case Inf => true
    case Fin(c, le) => if le then d <= c else d < c
  }

  /** Order of tightness: `<c` before `<=c` before `<c'` for `c < c'`, `<inf` last. */
  predicate Le(a: Bound, b: Bound) {
    match (a, b)
    case (_, Inf) => true
    case (Inf, Fin(_, _)) => false
    case (Fin(c, le), Fin(d, le')) => c < d || (c == d && (le ==> le'))
  }

  predicate Lt(a: Bound, b: Bound) {
    !Le(b, a)
  }

  function Plus(a: Bound, b: Bound): Bound {
    match (a, b)
    case (Fin(c, le), Fin(d, le')) => Fin(c + d, le && le')
    case (_, _) => Inf
  }

  function Min(a: Bound, b: Bound): Bound {
    if Lt(a, b) then a else b
  }

  lemma PlusMono(a: Bound, a': Bound, b: Bound, b': Bound)
    requires Le(a, a') && Le(b, b')
    ensures Le(Plus(a, b), Plus(a', b'))
  {}

  lemma PlusAssoc(a: Bound, b: Bound, c: Bound)
    ensures Plus(Plus(a, b), c) == Plus(a, Plus(b, c))
  {}

  lemma MeetsPlus(d: real, a: Bound, e: real, b: Bound)
    requires Meets(d, a) && Meets(e, b)
    ensures Meets(d + e, Plus(a, b))
  {}

  /** A bound from above and one from below leave room for a point exactly when their sum is not negative. */
  lemma Between(lo: Bound, hi: Bound) returns (t: real)
    requires Le(ZERO, Plus(lo, hi))
    ensures Meets(-t, lo) && Meets(t, hi)
  {
    match (lo, hi)
    case (Inf, Inf) => t := 0.0;
    case (Inf, Fin(c, _)) => t := c - 1.0;
    case (Fin(c, _), Inf) => t := 1.0 - c;
    case (Fin(c, _), Fin(d, _)) => t := (d - c) / 2.0;
  }
}
