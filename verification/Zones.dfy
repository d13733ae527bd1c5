/** Matrices of bounds, the zones they denote, and when such a zone is inhabited.

    `m[i][j]` bounds the difference `v[i] - v[j]`; clock 0 is the constant zero. */
module Zones {
  import opened Bounds

  ghost predicate Square(m: seq<seq<Bound>>) {
    |m| >= 1 && forall i :: 0 <= i < |m| ==> |m[i]| == |m|
  }

  type Matrix = m: seq<seq<Bound>> | Square(m) witness [[ZERO]]

  type Valuation = seq<real>

  predicate Clock(m: Matrix, x: int) {
    0 <= x < |m|
  }

  /** `v` respects the bound on the difference of clocks `i` and `j`. */
  ghost predicate SatAt(m: Matrix, v: Valuation, i: int, j: int)
    requires |v| == |m| && Clock(m, i) && Clock(m, j)
  {
    Meets(v[i] - v[j], m[i][j])
  }

  ghost predicate Sat(m: Matrix, v: Valuation) {
    && |v| == |m|
    && forall i, j :: Clock(m, i) && Clock(m, j) ==> SatAt(m, v, i, j)
  }

  /** The zone of a matrix: clock 0 is zero and every difference respects its bound. */
  ghost predicate In(m: Matrix, v: Valuation) {
    Sat(m, v) && v[0] == 0.0
  }

  ghost predicate Included(m: Matrix, m': Matrix) {
    forall v: Valuation :: In(m, v) ==> In(m', v)
  }

  ghost predicate SameZone(m: Matrix, m': Matrix) {
    Included(m, m') && Included(m', m)
  }

  /** The same differences are allowed, wherever the reference clock stands. */
  ghost predicate Equivalent(m: Matrix, m': Matrix) {
    forall v: Valuation :: Sat(m, v) <==> Sat(m', v)
  }

  ghost predicate Unsatisfiable(m: Matrix) {
    forall v: Valuation :: !Sat(m, v)
  }

  predicate Consistent(m: Matrix) {
    forall i :: 0 <= i < |m| ==> m[i][i] == ZERO
  }

  ghost predicate Positive(m: Matrix) {
    forall i :: 0 <= i < |m| ==> Le(m[0][i], ZERO)
  }

  /** The bound on `i - j` is no looser than going through `k`. */
  ghost predicate TightAt(m: Matrix, i: int, k: int, j: int)
    requires Clock(m, i) && Clock(m, j) && Clock(m, k)
  {
    Le(m[i][j], Plus(m[i][k], m[k][j]))
  }

  ghost predicate Tight(m: Matrix) {
    forall i, k, j :: Clock(m, i) && Clock(m, j) && Clock(m, k) ==> TightAt(m, i, k, j)
  }

  ghost predicate LeAt(m: Matrix, m': Matrix, i: int, j: int)
    requires |m| == |m'| && Clock(m, i) && Clock(m, j)
  {
    Le(m[i][j], m'[i][j])
  }

  ghost predicate Entrywise(m: Matrix, m': Matrix) {
    |m| == |m'| && forall i, j :: Clock(m, i) && Clock(m, j) ==> LeAt(m, m', i, j)
  }

  ghost predicate SameAt(m: Matrix, m': Matrix, i: int, j: int)
    requires |m| == |m'| && Clock(m, i) && Clock(m, j)
  {
    m[i][j] == m'[i][j]
  }

  lemma SameEntries(m: Matrix, m': Matrix)
    requires |m| == |m'| && forall i, j :: Clock(m, i) && Clock(m, j) ==> SameAt(m, m', i, j)
    ensures m == m'
  {
    forall i | 0 <= i < |m|
      ensures m[i] == m'[i]
    {
      forall j | 0 <= j < |m[i]|
        ensures m[i][j] == m'[i][j]
      {
        assert SameAt(m, m', i, j);
      }
    }
  }

  lemma EntrywiseIncludes(m: Matrix, m': Matrix)
    requires Entrywise(m, m')
    ensures Included(m, m')
    ensures forall v: Valuation :: Sat(m, v) ==> Sat(m', v)
  {
    forall v: Valuation | Sat(m, v)
      ensures Sat(m', v)
    {
      forall i, j | Clock(m, i) && Clock(m, j)
        ensures SatAt(m', v, i, j)
      {
        assert SatAt(m, v, i, j) && LeAt(m, m', i, j);
      }
    }
  }

  // ----- one clock against the others -----

  /** What clock `i`, at value `a`, demands of the value of clock `x`: `0 - x` and `x - 0` are bounded by these. */
  ghost function LowerBy(m: Matrix, i: int, a: real, x: int): Bound
    requires Clock(m, i) && Clock(m, x)
  {
    Plus(m[i][x], Fin(-a, true))
  }

  ghost function UpperBy(m: Matrix, i: int, a: real, x: int): Bound
    requires Clock(m, i) && Clock(m, x)
  {
    Plus(m[x][i], Fin(a, true))
  }

  /** Differences among the clocks of `s` respect their bounds. */
  ghost predicate SatOn(m: Matrix, v: Valuation, s: set<int>) {
    && |v| == |m|
    && (forall i :: i in s ==> Clock(m, i))
    && forall i, j :: i in s && j in s ==> SatAt(m, v, i, j)
  }

  /** Finitely many pairwise compatible bounds on one value have a common tightest pair. */
  lemma {:induction false} Tightest(m: Matrix, v: Valuation, s: set<int>, x: int) returns (lo: Bound, hi: Bound)
    requires Tight(m) && SatOn(m, v, s) && Clock(m, x)
    ensures forall i :: i in s ==> Le(lo, LowerBy(m, i, v[i], x)) && Le(hi, UpperBy(m, i, v[i], x))
    ensures lo == Inf || exists i :: i in s && lo == LowerBy(m, i, v[i], x)
    ensures hi == Inf || exists i :: i in s && hi == UpperBy(m, i, v[i], x)
  {
    if i :| i in s {
      var lo', hi' := Tightest(m, v, s - {i}, x);
      lo := Min(lo', LowerBy(m, i, v[i], x));
      hi := Min(hi', UpperBy(m, i, v[i], x));
    } else {
      lo, hi := Inf, Inf;
    }
  }

  lemma Compatible(m: Matrix, v: Valuation, s: set<int>, x: int, i: int, j: int)
    requires Tight(m) && SatOn(m, v, s) && Clock(m, x) && i in s && j in s
    ensures Le(ZERO, Plus(LowerBy(m, i, v[i], x), UpperBy(m, j, v[j], x)))
  {
    assert TightAt(m, i, x, j) && SatAt(m, v, i, j);
  }

  /** A valuation of some clocks that respects a tight matrix extends to one more clock. */
  lemma ExtendOne(m: Matrix, v: Valuation, s: set<int>, x: int) returns (v': Valuation)
    requires Tight(m) && Consistent(m) && SatOn(m, v, s) && Clock(m, x) && x !in s
    ensures SatOn(m, v', s + {x}) && forall i :: 0 <= i < |m| && i != x ==> v'[i] == v[i]
  {
    var lo, hi := Tightest(m, v, s, x);
    if lo != Inf && hi != Inf {
      var i :| i in s && lo == LowerBy(m, i, v[i], x);
      var j :| j in s && hi == UpperBy(m, j, v[j], x);
      Compatible(m, v, s, x, i, j);
    }
    var t := Between(lo, hi);
    v' := v[x := t];
    forall i | i in s
      ensures Meets(v[i] - t, m[i][x]) && Meets(t - v[i], m[x][i])
    {
      assert Le(lo, LowerBy(m, i, v[i], x)) && Le(hi, UpperBy(m, i, v[i], x));
    }
  }

  /** ... and so to all clocks. */
  lemma {:induction false} Extend(m: Matrix, v: Valuation, s: set<int>) returns (v': Valuation)
    requires Tight(m) && Consistent(m) && SatOn(m, v, s)
    ensures Sat(m, v') && forall i :: i in s ==> v'[i] == v[i]
    decreases (set i | 0 <= i < |m| && Clock(m, i)) - s
  {
    if x :| Clock(m, x) && x !in s {
      var w := ExtendOne(m, v, s, x);
      v' := Extend(m, w, s + {x});
    } else {
      v' := v;
    }
  }

  function Zeros(n: nat): (v: Valuation)
    ensures |v| == n && forall i :: 0 <= i < n ==> v[i] == 0.0
  {
    seq(n, _ => 0.0)
  }

  /** A tight consistent matrix denotes a non-empty zone. */
  lemma Inhabited(m: Matrix) returns (v: Valuation)
    requires Tight(m) && Consistent(m)
    ensures In(m, v)
  {
    v := Extend(m, Zeros(|m|), {0});
  }

  /** Moving every clock by the same amount keeps all differences. */
  lemma Normalise(m: Matrix, v: Valuation) returns (v': Valuation)
    requires Sat(m, v)
    ensures In(m, v') && forall i :: 0 <= i < |m| ==> v'[i] == v[i] - v[0]
  {
    v' := seq(|v|, i requires 0 <= i < |v| => v[i] - v[0]);
    forall i, j | Clock(m, i) && Clock(m, j)
      ensures SatAt(m, v', i, j)
    {
      assert SatAt(m, v, i, j);
      assert v'[i] - v'[j] == v[i] - v[j];
    }
  }

  /** Every difference that the two opposite bounds of a tight matrix allow is taken by some valuation of its zone. */
  lemma Attained(m: Matrix, x: int, y: int, d: real) returns (v: Valuation)
    requires Tight(m) && Consistent(m) && Clock(m, x) && Clock(m, y) && x != y
    requires Meets(d, m[x][y]) && Meets(-d, m[y][x])
    ensures In(m, v) && v[x] - v[y] == d
  {
    var v0 := Zeros(|m|)[x := d];
    var w := Extend(m, v0, {x, y});
    v := Normalise(m, w);
  }

  /** A tight matrix is canonical: it is below another one exactly when its zone is inside. */
  lemma Canonical(m: Matrix, m': Matrix)
    requires Tight(m) && Consistent(m) && Consistent(m') && |m| == |m'|
    ensures Included(m, m') <==> Entrywise(m, m')
  {
    if Entrywise(m, m') {
      EntrywiseIncludes(m, m');
    } else {
      var x, y :| Clock(m, x) && Clock(m, y) && !LeAt(m, m', x, y);
      assert x != y;
      assert TightAt(m, x, y, x) && TightAt(m, y, x, y);
      var c := m'[x][y];
      // a difference that m allows and m' does not
      var d := Between(if c.le then Fin(-c.value, false) else Fin(-c.value, true), m[x][y]);
      var d' := Between(m[y][x], m[x][y]);
      var e := if d < d' then d' else d;
      var v := Attained(m, x, y, e);
      assert In(m, v) && !SatAt(m', v, x, y);
    }
  }

  lemma CanonicalForm(m: Matrix, m': Matrix)
    requires Tight(m) && Consistent(m) && Tight(m') && Consistent(m') && |m| == |m'|
    ensures SameZone(m, m') <==> m == m'
  {
    if SameZone(m, m') {
      Canonical(m, m');
      Canonical(m', m);
      forall i, j | Clock(m, i) && Clock(m, j)
        ensures SameAt(m, m', i, j)
      {
        assert LeAt(m, m', i, j) && LeAt(m', m, i, j);
      }
      SameEntries(m, m');
    }
  }
}
