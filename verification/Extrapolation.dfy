/** The extrapolations: bounds beyond the clock bounds are relaxed, then the matrix is tightened again. */
module Extrapolation {
  import opened Bounds
  import opened Zones
  import opened FloydWarshall
  import opened Encoding
  import opened LuSimulation

  // ----- relaxation -----

  /** A lower bound of clock `j` above what any upper guard compares with. */
  function RelaxLower(b: Bound, c: int): Bound
    requires b.Fin?
  {
    if -b.value <= c as real then b else if c == -INF_VALUE then ZERO else Fin(-(c as real), false)
  }

  function RelaxLuEntry(b: Bound, i: int, j: int, li: int, uj: int): Bound {
    if i == j || b.Inf? then b
    else if i == 0 then RelaxLower(b, uj)
    else if b.value > li as real then Inf
    else if -b.value > uj as real then if uj == -INF_VALUE then Inf else Fin(-(uj as real), false)
    else b
  }

  /** `bi`, `bj` are the lower bounds of clocks `i` and `j`. */
  function RelaxLuPlusEntry(b: Bound, bi: Bound, bj: Bound, i: int, j: int, li: int, uj: int): Bound
    requires bi.Fin? && bj.Fin?
  {
    if i == j || b.Inf? then b
    else if i == 0 then RelaxLower(b, uj)
    else if -bi.value > li as real || b.value > li as real || -bj.value > uj as real then Inf
    else b
  }

  ghost function RelaxLu(m: Matrix, l: seq<int>, u: seq<int>): (e: Matrix)
    requires |m| == |l| == |u|
    ensures |e| == |m|
  {
    seq(|m|, i requires 0 <= i < |m| => seq(|m|, j requires 0 <= j < |m| => RelaxLuEntry(m[i][j], i, j, l[i], u[j])))
  }

  ghost predicate LowerBounded(m: Matrix) {
    forall i :: 0 <= i < |m| ==> m[0][i].Fin?
  }

  ghost function RelaxLuPlus(m: Matrix, l: seq<int>, u: seq<int>): (e: Matrix)
    requires |m| == |l| == |u| && LowerBounded(m)
    ensures |e| == |m|
  {
    seq(|m|, i requires 0 <= i < |m| => seq(|m|, j requires 0 <= j < |m| =>
      RelaxLuPlusEntry(m[i][j], m[0][i], m[0][j], i, j, l[i], u[j])))
  }

  lemma PositiveLowerBounded(m: Matrix)
    requires Positive(m)
    ensures LowerBounded(m)
  {}

  /** What a zone must be for the extrapolations: tight, not empty, and without negative clocks. */
  ghost predicate Normal(m: Matrix) {
    Tight(m) && Consistent(m) && Positive(m) && LowerBounded(m)
  }

  // ----- the zone only grows, and less with larger bounds -----

  /** Any entry is at most its relaxation, and the plain relaxation is at most the strong one. */
  lemma RelaxOrder(m: Matrix, l: seq<int>, u: seq<int>, i: int, j: int)
    requires Normal(m) && ClockBounds(l, |m|) && ClockBounds(u, |m|) && Clock(m, i) && Clock(m, j)
    ensures LeAt(m, RelaxLu(m, l, u), i, j) && LeAt(RelaxLu(m, l, u), RelaxLuPlus(m, l, u), i, j)
  {
    assert TightAt(m, 0, i, j);
    assert Le(m[0][i], ZERO) && Le(m[0][j], ZERO);
  }

  lemma RelaxMonotone(m: Matrix, l: seq<int>, u: seq<int>, l': seq<int>, u': seq<int>, i: int, j: int)
    requires Normal(m) && ClockBounds(l, |m|) && ClockBounds(u, |m|) && Clock(m, i) && Clock(m, j)
    requires ClockBounds(l', |m|) && ClockBounds(u', |m|) && forall x :: 0 <= x < |m| ==> l'[x] <= l[x] && u'[x] <= u[x]
    ensures LeAt(RelaxLu(m, l, u), RelaxLu(m, l', u'), i, j)
    ensures LeAt(RelaxLuPlus(m, l, u), RelaxLuPlus(m, l', u'), i, j)
  {
    assert Le(m[0][j], ZERO);
  }

  // ----- the image is finite -----

  /** All clock bounds are at most `k`. */
  predicate Capped(l: seq<int>, k: nat) {
    forall x :: 0 <= x < |l| ==> l[x] <= k
  }

  lemma RelaxedWithin(m: Matrix, l: seq<int>, u: seq<int>, k: nat, i: int, j: int)
    requires Normal(m) && ClockBounds(l, |m|) && ClockBounds(u, |m|) && Capped(l, k) && Capped(u, k)
    requires Clock(m, i) && Clock(m, j)
    ensures SmallAt(RelaxLu(m, l, u), i, j, k as real) && SmallAt(RelaxLuPlus(m, l, u), i, j, k as real)
  {
    assert TightAt(m, 0, i, j);
    assert Le(m[0][i], ZERO) && Le(m[0][j], ZERO);
    assert ClockBound(u[j]) && ClockBound(l[i]);
  }

  lemma RelaxedAllWithin(m: Matrix, l: seq<int>, u: seq<int>, k: nat)
    requires Normal(m) && ClockBounds(l, |m|) && ClockBounds(u, |m|) && Capped(l, k) && Capped(u, k)
    ensures Within(RelaxLu(m, l, u), k as real) && Within(RelaxLuPlus(m, l, u), k as real)
  {
    hide RelaxLu, RelaxLuPlus, Tight;
    var e, e' := RelaxLu(m, l, u), RelaxLuPlus(m, l, u);
    var r := k as real;
    forall i, j | Clock(m, i) && Clock(m, j)
      ensures SmallAt(e, i, j, r) && SmallAt(e', i, j, r)
    {
      RelaxedWithin(m, l, u, k, i, j);
    }
  }

  ghost function ExtraLu(m: Matrix, l: seq<int>, u: seq<int>): Matrix
    requires |m| == |l| == |u|
  {
    Phases(RelaxLu(m, l, u), |m|)
  }

  ghost function ExtraLuPlus(m: Matrix, l: seq<int>, u: seq<int>): Matrix
    requires |m| == |l| == |u| && LowerBounded(m)
  {
    Phases(RelaxLuPlus(m, l, u), |m|)
  }

  /** Tightening a relaxation of a proper zone cannot fail, and gives a proper zone again. */
  lemma CloseRelaxed(m: Matrix, e: Matrix, k: real)
    requires Normal(m) && Entrywise(m, e) && Consistent(e) && Positive(e) && Within(e, k)
    ensures ConsistentThrough(e, |e|) && Normal(Phases(e, |e|)) && Equivalent(e, Phases(e, |e|))
    ensures Within(Phases(e, |e|), Times(|e| - 1, k))
  {
    hide Phases, Times;
    EntrywiseIncludes(m, e);
    var v := Inhabited(m);
    assert Sat(e, v);
    PhasesDecide(e);
    PhasesClose(e);
    PhasesWithin(e, |e|, k);
    forall i | 0 <= i < |e|
      ensures Le(Phases(e, |e|)[0][i], ZERO)
    {
      PhasesShrink(e, |e|, 0, i);
    }
    PositiveLowerBounded(Phases(e, |e|));
  }

  lemma RelaxedShape(m: Matrix, l: seq<int>, u: seq<int>)
    requires Normal(m) && ClockBounds(l, |m|) && ClockBounds(u, |m|)
    ensures Consistent(RelaxLu(m, l, u)) && Positive(RelaxLu(m, l, u))
    ensures Consistent(RelaxLuPlus(m, l, u)) && Positive(RelaxLuPlus(m, l, u))
  {}

  /** Both extrapolations yield tight, consistent, positive zones that contain the original one;
      plain is inside strong; and every finite entry is at most `dim - 1` times the largest clock bound. */
  lemma ExtrapolationsProper(m: Matrix, l: seq<int>, u: seq<int>, k: nat)
    requires Normal(m) && ClockBounds(l, |m|) && ClockBounds(u, |m|) && Capped(l, k) && Capped(u, k)
    ensures ConsistentThrough(RelaxLu(m, l, u), |m|) && ConsistentThrough(RelaxLuPlus(m, l, u), |m|)
    ensures Normal(ExtraLu(m, l, u)) && Normal(ExtraLuPlus(m, l, u))
    ensures Included(m, ExtraLu(m, l, u)) && Included(ExtraLu(m, l, u), ExtraLuPlus(m, l, u))
    ensures Within(ExtraLu(m, l, u), Times(|m| - 1, k as real))
    ensures Within(ExtraLuPlus(m, l, u), Times(|m| - 1, k as real))
  {
    hide Phases, Times, RelaxLu, RelaxLuPlus, Tight;
    var e, e' := RelaxLu(m, l, u), RelaxLuPlus(m, l, u);
    var r := k as real;
    forall i, j | Clock(m, i) && Clock(m, j)
      ensures LeAt(m, e, i, j) && LeAt(e, e', i, j) && LeAt(m, e', i, j)
    {
      RelaxOrder(m, l, u, i, j);
    }
    RelaxedAllWithin(m, l, u, k);
    RelaxedShape(m, l, u);
    CloseRelaxed(m, e, r);
    CloseRelaxed(m, e', r);
    EntrywiseIncludes(m, e);
    EntrywiseIncludes(e, e');
  }

  /** Larger clock bounds extrapolate less: in particular, with `l, u <= m`, the variants by maximal constants
      are inside those by lower and upper bounds. */
  lemma ExtrapolationsMonotone(m: Matrix, l: seq<int>, u: seq<int>, l': seq<int>, u': seq<int>)
    requires Normal(m) && ClockBounds(l, |m|) && ClockBounds(u, |m|)
    requires ClockBounds(l', |m|) && ClockBounds(u', |m|) && forall x :: 0 <= x < |m| ==> l'[x] <= l[x] && u'[x] <= u[x]
    ensures Included(ExtraLu(m, l, u), ExtraLu(m, l', u'))
    ensures Included(ExtraLuPlus(m, l, u), ExtraLuPlus(m, l', u'))
  {
    hide Phases, Times, RelaxLu, RelaxLuPlus, Tight;
    var e, e' := RelaxLu(m, l, u), RelaxLu(m, l', u');
    var f, f' := RelaxLuPlus(m, l, u), RelaxLuPlus(m, l', u');
    forall i, j | Clock(m, i) && Clock(m, j)
      ensures LeAt(e, e', i, j) && LeAt(f, f', i, j)
    {
      RelaxMonotone(m, l, u, l', u', i, j);
    }
    EntrywiseIncludes(e, e');
    EntrywiseIncludes(f, f');
    SameAsRelaxed(m, l, u);
    SameAsRelaxed(m, l', u');
  }

  lemma SameAsRelaxed(m: Matrix, l: seq<int>, u: seq<int>)
    requires Normal(m) && ClockBounds(l, |m|) && ClockBounds(u, |m|)
    ensures Equivalent(RelaxLu(m, l, u), ExtraLu(m, l, u)) && Equivalent(RelaxLuPlus(m, l, u), ExtraLuPlus(m, l, u))
  {
    hide Phases, Times, RelaxLu, RelaxLuPlus, Tight;
    ExtrapolationsProper(m, l, u, MAX_VALUE);
    forall v: Valuation
      ensures Sat(RelaxLu(m, l, u), v) <==> Sat(ExtraLu(m, l, u), v)
      ensures Sat(RelaxLuPlus(m, l, u), v) <==> Sat(ExtraLuPlus(m, l, u), v)
    {
      PhasesSat(RelaxLu(m, l, u), |m|, v);
      PhasesSat(RelaxLuPlus(m, l, u), |m|, v);
    }
  }

  // ----- extrapolation stays inside the abstraction -----

  lemma RelaxedCompatible(m: Matrix, l: seq<int>, u: seq<int>, v: Valuation, x: int, y: int)
    requires Normal(m) && ClockBounds(l, |m|) && ClockBounds(u, |m|) && Clock(m, x) && Clock(m, y)
    requires In(RelaxLuPlus(m, l, u), v)
    ensures BoxCompatible(m, LowerSides(l, v), UpperSides(u, v), x, y)
  {
    var e := RelaxLuPlus(m, l, u);
    assert SatAt(e, v, 0, x) && SatAt(e, v, y, x) && SatAt(e, v, 0, y);
    assert TightAt(m, 0, y, x);
    assert Le(m[0][x], ZERO) && Le(m[0][y], ZERO);
    assert ClockBound(l[y]) && ClockBound(u[x]);
  }

  /** No extrapolated zone leaves the abstraction of the original: the simulation test never tells them apart. */
  lemma ExtrapolationSimulated(m: Matrix, l: seq<int>, u: seq<int>)
    requires Normal(m) && ClockBounds(l, |m|) && ClockBounds(u, |m|)
    ensures AluLe(ExtraLuPlus(m, l, u), m, l, u) && AluLe(m, ExtraLuPlus(m, l, u), l, u)
    ensures AluLe(ExtraLu(m, l, u), m, l, u) && AluLe(m, ExtraLu(m, l, u), l, u)
  {
    hide Phases, Times, RelaxLu, RelaxLuPlus, BoxCompatible, AluLe;
    var e := RelaxLuPlus(m, l, u);
    var x, x' := ExtraLuPlus(m, l, u), ExtraLu(m, l, u);
    ExtrapolationsProper(m, l, u, MAX_VALUE);
    SameAsRelaxed(m, l, u);
    forall v: Valuation | In(x, v)
      ensures Simulated(m, l, u, v)
    {
      assert In(e, v);
      forall i, j | Clock(m, i) && Clock(m, j)
        ensures BoxCompatible(m, LowerSides(l, v), UpperSides(u, v), i, j)
      {
        RelaxedCompatible(m, l, u, v, i, j);
      }
      CompatibleSimulated(m, l, u, v);
    }
    AluExact(x, m, l, u);
    AluExact(x', m, l, u);
    AluExact(m, x, l, u);
    AluExact(m, x', l, u);
    IncludedSimIncluded(m, x', l, u);
    IncludedSimIncluded(x', x, l, u);
    IncludedSimIncluded(m, x, l, u);
    SimIncludedTransitive(x', x, m, l, u);
  }
}
