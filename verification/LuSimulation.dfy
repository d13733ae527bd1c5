/** The simulation preorder induced by lower and upper clock bounds, and the matrix test for
    "every valuation of the first zone is simulated by some valuation of the second". */
module LuSimulation {
  import opened Bounds
  import opened Zones
  import opened ZoneOps
  import opened Encoding

  /** A clock bound is a non-negative constant, or `-INF_VALUE` when the clock is never compared. */
  predicate ClockBound(c: int) {
    c == -INF_VALUE || 0 <= c <= MAX_VALUE
  }

  predicate ClockBounds(l: seq<int>, n: nat) {
    |l| == n >= 1 && l[0] == 0 && forall x :: 0 <= x < n ==> ClockBound(l[x])
  }

  /** The value `t` is beyond the bound: no constant compared with the clock lies above it. */
  predicate Beyond(c: int, t: real) {
    c == -INF_VALUE || c as real < t
  }

  /** `w` simulates `v` on clock `x`: it may be smaller only where no lower bound can tell, and greater only where no upper bound can. */
  predicate BelowAt(l: seq<int>, u: seq<int>, v: Valuation, w: Valuation, x: int)
    requires 0 <= x < |v| == |w| == |l| == |u|
  {
    (w[x] < v[x] ==> Beyond(l[x], w[x])) && (w[x] > v[x] ==> Beyond(u[x], v[x]))
  }

  ghost predicate Below(l: seq<int>, u: seq<int>, v: Valuation, w: Valuation) {
    |v| == |w| == |l| == |u| && forall x :: 0 <= x < |v| ==> BelowAt(l, u, v, w, x)
  }

  /** `v` belongs to the abstraction of the zone of `m`. */
  ghost predicate Simulated(m: Matrix, l: seq<int>, u: seq<int>, v: Valuation) {
    exists w: Valuation :: In(m, w) && Below(l, u, v, w)
  }

  ghost predicate SimIncluded(m1: Matrix, m2: Matrix, l: seq<int>, u: seq<int>) {
    forall v: Valuation :: In(m1, v) ==> Simulated(m2, l, u, v)
  }

  // ----- the preorder -----

  lemma BelowTransitive(l: seq<int>, u: seq<int>, v: Valuation, w: Valuation, t: Valuation)
    requires Below(l, u, v, w) && Below(l, u, w, t)
    ensures Below(l, u, v, t)
  {
    forall x | 0 <= x < |v|
      ensures BelowAt(l, u, v, t, x)
    {
      assert BelowAt(l, u, v, w, x) && BelowAt(l, u, w, t, x);
    }
  }

  lemma SimIncludedTransitive(m1: Matrix, m2: Matrix, m3: Matrix, l: seq<int>, u: seq<int>)
    requires SimIncluded(m1, m2, l, u) && SimIncluded(m2, m3, l, u)
    ensures SimIncluded(m1, m3, l, u)
  {
    forall v: Valuation | In(m1, v)
      ensures Simulated(m3, l, u, v)
    {
      var w :| In(m2, w) && Below(l, u, v, w);
      assert Simulated(m3, l, u, w);
      var t :| In(m3, t) && Below(l, u, w, t);
      BelowTransitive(l, u, v, w, t);
    }
  }

  lemma IncludedSimIncluded(m1: Matrix, m2: Matrix, l: seq<int>, u: seq<int>)
    requires Included(m1, m2) && |m1| == |m2| == |l| == |u|
    ensures SimIncluded(m1, m2, l, u)
  {
    forall v: Valuation | In(m1, v)
      ensures Simulated(m2, l, u, v)
    {
      assert forall x :: 0 <= x < |v| ==> BelowAt(l, u, v, v, x);
      assert Below(l, u, v, v);
    }
  }

  // ----- the valuations that simulate a given one form a box -----

  function LowerSide(c: int, t: real): Bound {
    if c == -INF_VALUE then Inf else if t <= c as real then Fin(-t, true) else Fin(-(c as real), false)
  }

  function UpperSide(c: int, t: real): Bound {
    if Beyond(c, t) then Inf else Fin(t, true)
  }

  lemma BoxIsBelow(l: seq<int>, u: seq<int>, v: Valuation, w: Valuation, x: int)
    requires 0 <= x < |v| == |w| == |l| == |u|
    ensures BelowAt(l, u, v, w, x) <==> Meets(-w[x], LowerSide(l[x], v[x])) && Meets(w[x], UpperSide(u[x], v[x]))
  {}

  /** Going from the lower side of `y` over the matrix to the upper side of `x` is not negative. */
  ghost predicate BoxCompatible(m: Matrix, lo: seq<Bound>, hi: seq<Bound>, x: int, y: int)
    requires |lo| == |hi| == |m| && Clock(m, x) && Clock(m, y)
  {
    Le(ZERO, Plus(Plus(lo[y], m[y][x]), hi[x]))
  }

  ghost predicate AllCompatible(m: Matrix, lo: seq<Bound>, hi: seq<Bound>) {
    && |lo| == |hi| == |m| && lo[0] == ZERO == hi[0]
    && forall x, y :: Clock(m, x) && Clock(m, y) ==> BoxCompatible(m, lo, hi, x, y)
  }

  /** Constraining one more clock of the box leaves the rest of it reachable. */
  lemma NarrowUpper(m: Matrix, lo: seq<Bound>, hi: seq<Bound>, k: int)
    requires Tight(m) && Consistent(m) && AllCompatible(m, lo, hi) && Clock(m, k)
    ensures var e := Squeeze(m, k, 0, hi[k]); Tight(e) && Consistent(e) && AllCompatible(e, lo, hi)
  {
    var e := Squeeze(m, k, 0, hi[k]);
    assert BoxCompatible(m, lo, hi, k, 0);
    SqueezeTight(m, k, 0, hi[k]);
    forall x, y | Clock(e, x) && Clock(e, y)
      ensures BoxCompatible(e, lo, hi, x, y)
    {
      assert BoxCompatible(m, lo, hi, x, y) && BoxCompatible(m, lo, hi, k, y) && BoxCompatible(m, lo, hi, x, 0);
    }
  }

  lemma NarrowLower(m: Matrix, lo: seq<Bound>, hi: seq<Bound>, k: int)
    requires Tight(m) && Consistent(m) && AllCompatible(m, lo, hi) && Clock(m, k)
    ensures var e := Squeeze(m, 0, k, lo[k]); Tight(e) && Consistent(e) && AllCompatible(e, lo, hi)
  {
    var e := Squeeze(m, 0, k, lo[k]);
    assert BoxCompatible(m, lo, hi, 0, k);
    SqueezeTight(m, 0, k, lo[k]);
    forall x, y | Clock(e, x) && Clock(e, y)
      ensures BoxCompatible(e, lo, hi, x, y)
    {
      assert BoxCompatible(m, lo, hi, x, y) && BoxCompatible(m, lo, hi, x, k) && BoxCompatible(m, lo, hi, 0, y);
    }
  }

  /** A tight zone meets a box as soon as no two sides of the box exclude each other. */
  lemma {:induction false} MeetsBox(m: Matrix, lo: seq<Bound>, hi: seq<Bound>, k: nat) returns (w: Valuation)
    requires Tight(m) && Consistent(m) && AllCompatible(m, lo, hi) && k <= |m|
    ensures In(m, w) && forall x :: k <= x < |m| ==> Meets(-w[x], lo[x]) && Meets(w[x], hi[x])
    decreases |m| - k
  {
    hide Squeeze, Tight, AllCompatible;
    if k == |m| {
      w := Inhabited(m);
    } else {
      NarrowUpper(m, lo, hi, k);
      var e := Squeeze(m, k, 0, hi[k]);
      NarrowLower(e, lo, hi, k);
      var e' := Squeeze(e, 0, k, lo[k]);
      w := MeetsBox(e', lo, hi, k + 1);
      SqueezeSat(e, 0, k, lo[k], w);
      SqueezeSat(m, k, 0, hi[k], w);
    }
  }

  ghost function LowerSides(l: seq<int>, v: Valuation): (r: seq<Bound>)
    requires |l| == |v|
    ensures |r| == |v| && forall x :: 0 <= x < |v| ==> r[x] == LowerSide(l[x], v[x])
  {
    seq(|v|, x requires 0 <= x < |v| => LowerSide(l[x], v[x]))
  }

  ghost function UpperSides(u: seq<int>, v: Valuation): (r: seq<Bound>)
    requires |u| == |v|
    ensures |r| == |v| && forall x :: 0 <= x < |v| ==> r[x] == UpperSide(u[x], v[x])
  {
    seq(|v|, x requires 0 <= x < |v| => UpperSide(u[x], v[x]))
  }

  lemma CompatibleSimulated(m: Matrix, l: seq<int>, u: seq<int>, v: Valuation)
    requires Tight(m) && Consistent(m) && |v| == |m| == |l| == |u| && v[0] == 0.0 && l[0] == 0 == u[0]
    requires forall x, y :: Clock(m, x) && Clock(m, y) ==> BoxCompatible(m, LowerSides(l, v), UpperSides(u, v), x, y)
    ensures Simulated(m, l, u, v)
  {
    hide Tight;
    var lo, hi := LowerSides(l, v), UpperSides(u, v);
    var w := MeetsBox(m, lo, hi, 0);
    forall x | 0 <= x < |v|
      ensures BelowAt(l, u, v, w, x)
    {
      BoxIsBelow(l, u, v, w, x);
    }
    assert Below(l, u, v, w);
  }

  // ----- the test -----

  /** Clocks `x` and `y` witness that the zone of `m1` is not inside the abstraction of that of `m2`. */
  ghost predicate Violation(m1: Matrix, m2: Matrix, l: seq<int>, u: seq<int>, x: int, y: int)
    requires |m1| == |m2| == |l| == |u| && Clock(m1, x) && Clock(m1, y)
  {
    && x != y && u[x] != -INF_VALUE && l[y] != -INF_VALUE
    && Le(Fin(-(u[x] as real), true), m1[0][x])
    && Lt(m2[y][x], m1[y][x])
    && Lt(Plus(m2[y][x], Fin(-(l[y] as real), false)), m1[0][x])
  }

  ghost predicate AluLe(m1: Matrix, m2: Matrix, l: seq<int>, u: seq<int>)
    requires |m1| == |m2| == |l| == |u|
  {
    forall x, y :: Clock(m1, x) && Clock(m1, y) ==> !Violation(m1, m2, l, u, x, y)
  }

  lemma NoViolationCompatible(m1: Matrix, m2: Matrix, l: seq<int>, u: seq<int>, v: Valuation, x: int, y: int)
    requires |m1| == |m2| == |l| == |u| && Clock(m1, x) && Clock(m1, y) && Consistent(m2)
    requires In(m1, v) && !Violation(m1, m2, l, u, x, y)
    ensures BoxCompatible(m2, LowerSides(l, v), UpperSides(u, v), x, y)
  {
    assert SatAt(m1, v, 0, x) && SatAt(m1, v, y, x);
  }

  /** No violation: every valuation of the first zone is simulated. */
  lemma AluSound(m1: Matrix, m2: Matrix, l: seq<int>, u: seq<int>)
    requires |m1| == |m2| && ClockBounds(l, |m1|) && ClockBounds(u, |m1|)
    requires Tight(m2) && Consistent(m2) && AluLe(m1, m2, l, u)
    ensures SimIncluded(m1, m2, l, u)
  {
    forall v: Valuation | In(m1, v)
      ensures Simulated(m2, l, u, v)
    {
      forall x, y | Clock(m2, x) && Clock(m2, y)
        ensures BoxCompatible(m2, LowerSides(l, v), UpperSides(u, v), x, y)
      {
        NoViolationCompatible(m1, m2, l, u, v, x, y);
      }
      CompatibleSimulated(m2, l, u, v);
    }
  }

  /** From a violation: a valuation of the first zone that nothing in the second simulates. */
  lemma Separating(m1: Matrix, m2: Matrix, l: seq<int>, u: seq<int>, x: int, y: int) returns (v: Valuation)
    requires |m1| == |m2| && ClockBounds(l, |m1|) && ClockBounds(u, |m1|) && Clock(m1, x) && Clock(m1, y)
    requires Tight(m1) && Consistent(m1) && Violation(m1, m2, l, u, x, y)
    ensures In(m1, v) && v[x] <= u[x] as real && v[x] <= l[y] as real - m2[y][x].value
    ensures !Meets(v[y] - v[x], m2[y][x])
  {
    hide Tight;
    var c := m2[y][x];
    var b := Bounds.Min(Fin(u[x] as real, true), Fin(l[y] as real - c.value, true));
    SqueezeTight(m1, x, 0, b);
    var e := Squeeze(m1, x, 0, b);
    var far := Fin(-c.value, !c.le);
    SqueezeTight(e, x, y, far);
    v := Inhabited(Squeeze(e, x, y, far));
    SqueezeSat(e, x, y, far, v);
    SqueezeSat(m1, x, 0, b, v);
  }

  lemma NotSimulated(m2: Matrix, l: seq<int>, u: seq<int>, x: int, y: int, v: Valuation)
    requires |v| == |m2| == |l| == |u| && Clock(m2, x) && Clock(m2, y) && m2[y][x].Fin?
    requires u[x] != -INF_VALUE && l[y] != -INF_VALUE
    requires v[x] <= u[x] as real && v[x] <= l[y] as real - m2[y][x].value && !Meets(v[y] - v[x], m2[y][x])
    ensures !Simulated(m2, l, u, v)
  {
    forall w: Valuation | In(m2, w)
      ensures !Below(l, u, v, w)
    {
      assert SatAt(m2, w, y, x);
      assert !(BelowAt(l, u, v, w, x) && BelowAt(l, u, v, w, y));
    }
  }

  /** The test is exact: it holds if and only if the first zone is inside the abstraction of the second. */
  lemma AluExact(m1: Matrix, m2: Matrix, l: seq<int>, u: seq<int>)
    requires |m1| == |m2| && ClockBounds(l, |m1|) && ClockBounds(u, |m1|)
    requires Tight(m1) && Consistent(m1) && Tight(m2) && Consistent(m2)
    ensures AluLe(m1, m2, l, u) <==> SimIncluded(m1, m2, l, u)
  {
    if AluLe(m1, m2, l, u) {
      AluSound(m1, m2, l, u);
    } else {
      var x, y :| Clock(m1, x) && Clock(m1, y) && Violation(m1, m2, l, u, x, y);
      var v := Separating(m1, m2, l, u, x, y);
      NotSimulated(m2, l, u, x, y, v);
    }
  }

  /** The test is a preorder, implied by inclusion of zones: used in both directions it is an equivalence. */
  lemma AluPreorder(m1: Matrix, m2: Matrix, m3: Matrix, l: seq<int>, u: seq<int>)
    requires |m1| == |m2| == |m3| && ClockBounds(l, |m1|) && ClockBounds(u, |m1|)
    requires Tight(m1) && Consistent(m1) && Tight(m2) && Consistent(m2) && Tight(m3) && Consistent(m3)
    ensures AluLe(m1, m1, l, u)
    ensures AluLe(m1, m2, l, u) && AluLe(m2, m3, l, u) ==> AluLe(m1, m3, l, u)
    ensures Included(m1, m2) ==> AluLe(m1, m2, l, u)
  {
    hide AluLe, SimIncluded, Tight, Consistent;
    AluExact(m1, m1, l, u);
    AluExact(m1, m2, l, u);
    AluExact(m2, m3, l, u);
    AluExact(m1, m3, l, u);
    IncludedSimIncluded(m1, m1, l, u);
    if Included(m1, m2) {
      IncludedSimIncluded(m1, m2, l, u);
    }
    if SimIncluded(m1, m2, l, u) && SimIncluded(m2, m3, l, u) {
      SimIncludedTransitive(m1, m2, m3, l, u);
    }
  }

  // ----- negative clock bounds -----

  /** What constraints with negative constants lead to: a negative bound that is not `-INF_VALUE`. */
  predicate LooseBound(c: int) {
    -INF_VALUE <= c <= MAX_VALUE
  }

  predicate LooseBounds(l: seq<int>, n: nat) {
    |l| == n >= 1 && l[0] == 0 && forall x :: 0 <= x < n ==> LooseBound(l[x])
  }

  function Clip(c: int): int {
    if c < 0 then -INF_VALUE else c
  }

  function Clipped(l: seq<int>): (r: seq<int>)
    ensures |r| == |l| && forall x :: 0 <= x < |l| ==> r[x] == Clip(l[x])
  {
    seq(|l|, x requires 0 <= x < |l| => Clip(l[x]))
  }

  lemma ClippedBounds(l: seq<int>, n: nat)
    requires LooseBounds(l, n)
    ensures ClockBounds(Clipped(l), n)
  {
    forall x | 0 <= x < n ensures ClockBound(Clipped(l)[x]) {
      assert LooseBound(l[x]);
    }
  }

  /** Clocks are never negative, so that a negative bound says as little as none. */
  lemma ClippedViolation(m1: Matrix, m2: Matrix, l: seq<int>, u: seq<int>, x: int, y: int)
    requires |m1| == |m2| && LooseBounds(l, |m1|) && LooseBounds(u, |m1|) && Clock(m1, x) && Clock(m1, y)
    requires Tight(m2) && Consistent(m1) && Consistent(m2) && Positive(m1) && Positive(m2)
    ensures Violation(m1, m2, Clipped(l), Clipped(u), x, y) ==> Violation(m1, m2, l, u, x, y)
    ensures Violation(m1, m2, l, u, x, y) ==>
              Violation(m1, m2, Clipped(l), Clipped(u), x, y) || Violation(m1, m2, Clipped(l), Clipped(u), x, 0)
  {
    assert LooseBound(l[y]) && LooseBound(u[x]) && Clock(m1, 0);
    assert Le(m1[0][x], ZERO) && Le(m2[0][y], ZERO);
    assert TightAt(m2, 0, y, x) && TightAt(m2, 0, y, 0);
  }

  lemma ClippedBelow(l: seq<int>, u: seq<int>, v: Valuation, w: Valuation)
    requires |v| == |w| == |l| == |u| && forall x :: 0 <= x < |v| ==> v[x] >= 0.0 && w[x] >= 0.0
    ensures Below(l, u, v, w) <==> Below(Clipped(l), Clipped(u), v, w)
  {
    forall x | 0 <= x < |v|
      ensures BelowAt(l, u, v, w, x) <==> BelowAt(Clipped(l), Clipped(u), v, w, x)
    {
      assert v[x] >= 0.0 && w[x] >= 0.0;
    }
  }

  lemma PositiveValues(m: Matrix, v: Valuation)
    requires Positive(m) && In(m, v)
    ensures forall x :: 0 <= x < |v| ==> v[x] >= 0.0
  {
    forall x | 0 <= x < |v| ensures v[x] >= 0.0 {
      assert SatAt(m, v, 0, x) && Le(m[0][x], ZERO);
    }
  }

  lemma ClippedIncluded(m1: Matrix, m2: Matrix, l: seq<int>, u: seq<int>)
    requires |m1| == |m2| == |l| == |u| && Positive(m1) && Positive(m2)
    ensures SimIncluded(m1, m2, l, u) <==> SimIncluded(m1, m2, Clipped(l), Clipped(u))
  {
    forall v: Valuation | In(m1, v)
      ensures Simulated(m2, l, u, v) <==> Simulated(m2, Clipped(l), Clipped(u), v)
    {
      PositiveValues(m1, v);
      forall w: Valuation | In(m2, w)
        ensures Below(l, u, v, w) <==> Below(Clipped(l), Clipped(u), v, w)
      {
        PositiveValues(m2, w);
        ClippedBelow(l, u, v, w);
      }
    }
  }

  /** So the test is exact for such bounds as well. */
  lemma LooseExact(m1: Matrix, m2: Matrix, l: seq<int>, u: seq<int>)
    requires |m1| == |m2| && LooseBounds(l, |m1|) && LooseBounds(u, |m1|)
    requires Tight(m1) && Consistent(m1) && Tight(m2) && Consistent(m2) && Positive(m1) && Positive(m2)
    ensures AluLe(m1, m2, l, u) <==> SimIncluded(m1, m2, l, u)
  {
    hide Violation, Tight, Consistent, Positive, SimIncluded, Below;
    forall x, y | Clock(m1, x) && Clock(m1, y)
      ensures Violation(m1, m2, Clipped(l), Clipped(u), x, y) ==> Violation(m1, m2, l, u, x, y)
      ensures Violation(m1, m2, l, u, x, y) ==>
                Violation(m1, m2, Clipped(l), Clipped(u), x, y) || Violation(m1, m2, Clipped(l), Clipped(u), x, 0)
    {
      ClippedViolation(m1, m2, l, u, x, y);
    }
    assert Clock(m1, 0);
    ClippedBounds(l, |m1|);
    ClippedBounds(u, |m1|);
    AluExact(m1, m2, Clipped(l), Clipped(u));
    ClippedIncluded(m1, m2, l, u);
  }
}
