/** Difference bounds as the program stores them: one integer, value shifted left, comparator in the lowest bit.

    The order of the bounds is the order of the integers, and every operation that leaves the
    representable range raises an exception, modelled by `None`. */
module Encoding {
  import opened Wrappers
  import opened Bounds

  datatype Comparator = LT | LE

  // Half of the range of a 32-bit integer, the default width.
  const INF_VALUE: int := 0x3fff_ffff
  const MAX_VALUE: int := INF_VALUE - 1
  const MIN_VALUE: int := -0x4000_0000

  const LT_ZERO: int := 0
  const LE_ZERO: int := 1
  const LT_INFINITY: int := 2 * INF_VALUE

  predicate InRange(value: int) {
    MIN_VALUE <= value <= MAX_VALUE
  }

  /** Division by two rounds down, as the arithmetic shift does. */
  type Db = c: int | c == LT_INFINITY || InRange(c / 2) witness LE_ZERO

  function Make(cmp: Comparator, value: int): (r: Option<Db>)
  {
    if InRange(value) then Some(2 * value + if cmp.LE? then 1 else 0) else None
  }

  function Value(d: Db): int {
    d / 2
  }

  function Cmp(d: Db): Comparator {
    if d % 2 == 1 then LE else LT
  }

  function Sum(d: Db, e: Db): (r: Option<Db>) {
    if d == LT_INFINITY || e == LT_INFINITY then Some(LT_INFINITY)
    else Make(if Cmp(d).LE? && Cmp(e).LE? then LE else LT, Value(d) + Value(e))
  }

  function Add(d: Db, value: int): (r: Option<Db>) {
    if d == LT_INFINITY then Some(LT_INFINITY) else Make(Cmp(d), Value(d) + value)
  }

  function Min(d: Db, e: Db): Db {
    if d < e then d else e
  }

  /** The variants compiled when range checking is off. */
  function SumUnchecked(d: Db, e: Db): int {
    if d == LT_INFINITY || e == LT_INFINITY then LT_INFINITY
    else d + e - if d % 2 == 1 || e % 2 == 1 then 1 else 0
  }

  function AddUnchecked(d: Db, value: int): int {
    if d == LT_INFINITY then LT_INFINITY else d + 2 * value
  }

  /** The bound that an integer stands for. */
  function Decode(d: Db): Bound {
    if d == LT_INFINITY then Inf else Fin(Value(d) as real, Cmp(d).LE?)
  }

  /** The value of a bound fits the encoding. */
  predicate Fits(b: Bound) {
    b.Fin? ==> MIN_VALUE as real <= b.value <= MAX_VALUE as real
  }

  /** The encoding is an order embedding: comparing integers compares bounds. */
  lemma OrderEmbedding(d: Db, e: Db)
    ensures d <= e <==> Le(Decode(d), Decode(e))
    ensures d == e <==> Decode(d) == Decode(e)
  {
    Halves(d);
    Halves(e);
  }

  lemma Halves(d: Db)
    ensures d == 2 * Value(d) + d % 2 && 0 <= d % 2 <= 1
    ensures d == LT_INFINITY || d <= 2 * MAX_VALUE + 1
  {
    assert d != LT_INFINITY ==> InRange(d / 2);
  }

  /** `Make` encodes what it is told, and refuses exactly what does not fit. */
  lemma MakeExact(cmp: Comparator, value: int)
    ensures var r := Make(cmp, value);
            if InRange(value) then r.Some? && Decode(r.value) == Fin(value as real, cmp.LE?) else r.None?
  {}

  /** The sum is the sum of the bounds, refused exactly when that does not fit; the unchecked variant computes the same integer. */
  lemma SumExact(d: Db, e: Db)
    ensures var r := Sum(d, e);
            && (r.Some? <==> Fits(Plus(Decode(d), Decode(e))))
            && (r.Some? ==> Decode(r.value) == Plus(Decode(d), Decode(e)) && r.value == SumUnchecked(d, e))
  {
    if d != LT_INFINITY && e != LT_INFINITY {
      MakeExact(if Cmp(d).LE? && Cmp(e).LE? then LE else LT, Value(d) + Value(e));
      assert d == 2 * Value(d) + d % 2 && e == 2 * Value(e) + e % 2;
    }
  }

  lemma AddExact(d: Db, value: int)
    ensures var r := Add(d, value);
            && (r.Some? <==> Fits(Plus(Decode(d), Fin(value as real, true))))
            && (r.Some? ==> Decode(r.value) == Plus(Decode(d), Fin(value as real, true)) && r.value == AddUnchecked(d, value))
  {
    if d != LT_INFINITY {
      MakeExact(Cmp(d), Value(d) + value);
      assert d == 2 * Value(d) + d % 2;
    }
  }

  lemma MinExact(d: Db, e: Db)
    ensures Decode(Min(d, e)) == Bounds.Min(Decode(d), Decode(e))
  {
    OrderEmbedding(e, d);
  }
}
