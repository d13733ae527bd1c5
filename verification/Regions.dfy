/** Zones with integer bounds: the smallest one that holds a valuation, and what holds two zones. */
module Regions {
  import opened Bounds
  import opened Zones
  import opened ZoneOps
  import opened LuSimulation
  import opened Extrapolation
  import opened Integrality

  // ----- the tightest integer bound on one difference -----

  function IntBound(d: real): Bound {
    if d == d.Floor as real then Fin(d, true) else Fin(d.Floor as real + 1.0, false)
  }

  lemma IntBoundMet(d: real)
    ensures Meets(d, IntBound(d)) && Whole(IntBound(d)) && IntBound(d).Fin?
  {
    assert Equals(d.Floor as real, d.Floor) && Equals(d.Floor as real + 1.0, d.Floor + 1);
  }

  lemma LeastInteger(d: real, f: int, k: int, le: bool)
    requires f as real <= d < f as real + 1.0 && (if le then d <= k as real else d < k as real)
    ensures f <= k
    ensures d != f as real ==> f + 1 <= k
    ensures !le ==> f + 1 <= k
  {}

  /** Every integer bound that a difference meets is at least as large. */
  lemma IntBoundLeast(d: real, b: Bound)
    requires Whole(b) && Meets(d, b)
    ensures Le(IntBound(d), b)
  {
    if b.Fin? {
      var k: int :| Equals(b.value, k);
      LeastInteger(d, d.Floor, k, b.le);
    }
  }

  lemma IntBoundMonotone(d: real, e: real)
    requires d <= e
    ensures Le(IntBound(d), IntBound(e))
  {
    IntBoundMet(e);
    IntBoundLeast(d, IntBound(e));
  }

  lemma IntBoundPlus(d: real, e: real)
    ensures Le(IntBound(d + e), Plus(IntBound(d), IntBound(e)))
  {
    IntBoundMet(d);
    IntBoundMet(e);
    WholePlus(IntBound(d), IntBound(e));
    MeetsPlus(d, IntBound(d), e, IntBound(e));
    IntBoundLeast(d + e, Plus(IntBound(d), IntBound(e)));
  }

  lemma FloorShift(d: real, k: int)
    ensures (d + k as real).Floor == d.Floor + k
  {
    var f, g := d.Floor, (d + k as real).Floor;
    assert f as real <= d < f as real + 1.0 && g as real <= d + k as real < g as real + 1.0;
    assert (g - k) as real < f as real + 1.0 && f as real < (g - k) as real + 1.0;
  }

  lemma IntBoundShift(d: real, k: int)
    ensures IntBound(d + k as real) == Plus(IntBound(d), Fin(k as real, true))
  {
    FloorShift(d, k);
  }

  /** A difference within the same integer bounds in both directions meets the same integer bounds. */
  lemma SameBounds(d: real, e: real, b: Bound)
    requires Meets(e, IntBound(d)) && Meets(-e, IntBound(-d)) && Whole(b)
    ensures Meets(d, b) <==> Meets(e, b)
  {
    if Meets(d, b) {
      IntBoundLeast(d, b);
    }
    if Meets(e, b) && !Meets(d, b) {
      var c := Fin(-b.value, !b.le);
      var k: int :| Equals(b.value, k);
      assert Equals(-b.value, -k);
      IntBoundLeast(-d, c);
    }
  }

  // ----- the smallest integral zone around a valuation -----

  function Region(w: Valuation): (m: Matrix)
    requires |w| >= 1
    ensures |m| == |w|
  {
    seq(|w|, i requires 0 <= i < |w| => seq(|w|, j requires 0 <= j < |w| => IntBound(w[i] - w[j])))
  }

  predicate NonNegative(v: Valuation) {
    |v| >= 1 && v[0] == 0.0 && forall x :: 0 <= x < |v| ==> v[x] >= 0.0
  }

  lemma NegativeBound(d: real)
    requires d <= 0.0
    ensures Le(IntBound(d), ZERO)
  {
    assert Equals(0.0, 0);
    IntBoundLeast(d, ZERO);
  }

  lemma RegionNormal(w: Valuation)
    requires NonNegative(w)
    ensures Normal(Region(w)) && Integral(Region(w)) && In(Region(w), w)
  {
    hide IntBound, Whole;
    var m := Region(w);
    forall i, j | Clock(m, i) && Clock(m, j)
      ensures SatAt(m, w, i, j) && WholeAt(m, i, j) && m[i][j].Fin?
    {
      IntBoundMet(w[i] - w[j]);
    }
    forall i, k, j | Clock(m, i) && Clock(m, k) && Clock(m, j) ensures TightAt(m, i, k, j) {
      IntBoundPlus(w[i] - w[k], w[k] - w[j]);
      assert w[i] - w[k] + (w[k] - w[j]) == w[i] - w[j];
    }
    forall i | 0 <= i < |m| ensures m[i][i] == ZERO && Le(m[0][i], ZERO) && m[0][i].Fin? {
      SelfBound();
      NegativeBound(w[0] - w[i]);
      IntBoundMet(w[0] - w[i]);
    }
  }

  lemma SelfBound()
    ensures IntBound(0.0) == ZERO
  {}

  /** It lies in every integral zone that holds the valuation. */
  lemma RegionLeast(w: Valuation, m: Matrix)
    requires |w| >= 1 && Integral(m) && In(m, w)
    ensures Included(Region(w), m)
  {
    hide IntBound;
    forall i, j | Clock(m, i) && Clock(m, j) ensures LeAt(Region(w), m, i, j) {
      assert WholeAt(m, i, j) && SatAt(m, w, i, j);
      IntBoundLeast(w[i] - w[j], m[i][j]);
    }
    EntrywiseIncludes(Region(w), m);
  }

  /** No integer bound on a difference can tell the valuations of a region apart. */
  lemma RegionAlike(w: Valuation, t: Valuation, i: int, j: int, b: Bound)
    requires |w| >= 1 && In(Region(w), t) && 0 <= i < |w| && 0 <= j < |w| && Whole(b)
    ensures Meets(w[i] - w[j], b) <==> Meets(t[i] - t[j], b)
  {
    hide IntBound;
    assert SatAt(Region(w), t, i, j) && SatAt(Region(w), t, j, i);
    assert w[j] - w[i] == -(w[i] - w[j]) && t[j] - t[i] == -(t[i] - t[j]);
    SameBounds(w[i] - w[j], t[i] - t[j], b);
  }

  /** Assigning a constant turns regions into regions. */
  lemma RegionAssigned(w: Valuation, x: int, c: nat)
    requires NonNegative(w) && 1 <= x < |w|
    ensures Reset(Region(w), x, 0, c as real) == Region(Assign(w, x, 0, c as real))
  {
    hide IntBound;
    var m, e := Reset(Region(w), x, 0, c as real), Region(Assign(w, x, 0, c as real));
    var k: int := c;
    forall i, j | Clock(m, i) && Clock(m, j) ensures SameAt(m, e, i, j) {
      AssignedAt(w, x, k, i, j);
    }
    SameEntries(m, e);
  }

  lemma AssignedAt(w: Valuation, x: int, c: int, i: int, j: int)
    requires NonNegative(w) && 1 <= x < |w| && 0 <= i < |w| && 0 <= j < |w|
    ensures Reset(Region(w), x, 0, c as real)[i][j] == Region(Assign(w, x, 0, c as real))[i][j]
  {
    hide IntBound;
    var d := w[Source(i, x, 0)] - w[Source(j, x, 0)];
    var k := (if i == x then c else 0) - (if j == x then c else 0);
    assert Shift(i, x, c as real) - Shift(j, x, c as real) == k as real;
    IntBoundShift(d, k);
    var v := Assign(w, x, 0, c as real);
    assert v[i] - v[j] == d + k as real;
  }

  // ----- the zone around two zones -----

  function Larger(a: Bound, b: Bound): Bound {
    if Le(a, b) then b else a
  }

  function Join(m: Matrix, m': Matrix): (e: Matrix)
    requires |m| == |m'|
    ensures |e| == |m|
  {
    seq(|m|, i requires 0 <= i < |m| => seq(|m|, j requires 0 <= j < |m| => Larger(m[i][j], m'[i][j])))
  }

  /** Of every two bounds the larger one: the result holds both zones, and is again tight and integral. */
  lemma JoinNormal(m: Matrix, m': Matrix)
    requires |m| == |m'| && Normal(m) && Normal(m') && Integral(m) && Integral(m')
    ensures Normal(Join(m, m')) && Integral(Join(m, m')) && Included(m, Join(m, m')) && Included(m', Join(m, m'))
  {
    hide Whole;
    var e := Join(m, m');
    forall i, j | Clock(m, i) && Clock(m, j)
      ensures LeAt(m, e, i, j) && LeAt(m', e, i, j) && WholeAt(e, i, j)
    {
      assert WholeAt(m, i, j) && WholeAt(m', i, j);
    }
    forall i, k, j | Clock(e, i) && Clock(e, k) && Clock(e, j) ensures TightAt(e, i, k, j) {
      assert TightAt(m, i, k, j) && TightAt(m', i, k, j);
      LargerPlus(m[i][j], m[i][k], m[k][j], m'[i][j], m'[i][k], m'[k][j]);
    }
    EntrywiseIncludes(m, e);
    EntrywiseIncludes(m', e);
  }

  lemma LargerPlus(ij: Bound, ik: Bound, kj: Bound, ij': Bound, ik': Bound, kj': Bound)
    requires Le(ij, Plus(ik, kj)) && Le(ij', Plus(ik', kj'))
    ensures Le(Larger(ij, ij'), Plus(Larger(ik, ik'), Larger(kj, kj')))
  {}

  // ----- the simulation test between such zones -----

  /** When `w` stands for `v`, nothing in the join of their regions violates the test against the region of `w`. */
  lemma JoinNoViolation(l: seq<int>, u: seq<int>, v: Valuation, w: Valuation, x: int, y: int)
    requires NonNegative(v) && NonNegative(w) && Below(l, u, v, w) && 0 <= x < |v| && 0 <= y < |v|
    ensures !Violation(Join(Region(v), Region(w)), Region(w), l, u, x, y)
  {
    hide IntBound;
    assert BelowAt(l, u, v, w, x) && BelowAt(l, u, v, w, y);
    if w[x] > v[x] && u[x] != -Encoding.INF_VALUE {
      // beyond the upper bound, so that the lower sides of both are below it
      BeyondLower(v[x], w[x], u[x]);
    } else if w[x] <= v[x] {
      IntBoundMonotone(-v[x], -w[x]);
      assert v[0] - v[x] == -v[x] && w[0] - w[x] == -w[x];
      if w[y] - w[x] >= v[y] - v[x] {
        IntBoundMonotone(v[y] - v[x], w[y] - w[x]);
      } else if l[y] != -Encoding.INF_VALUE {
        assert w[y] < v[y] && w[y] > l[y] as real;
        NotShort(w[y] - w[x], w[x], l[y]);
      }
    }
  }

  lemma BeyondLower(p: real, q: real, c: int)
    requires p < q && c as real < p
    ensures !Le(Fin(-(c as real), true), Larger(IntBound(0.0 - p), IntBound(0.0 - q)))
  {
    hide IntBound;
    IntBoundMonotone(-q, -p);
    var k: int := -c;
    assert Equals(-(c as real), k);
    assert Whole(Fin(-(c as real), false)) && Meets(-p, Fin(-(c as real), false));
    IntBoundLeast(-p, Fin(-(c as real), false));
    assert 0.0 - p == -p && 0.0 - q == -q;
  }

  lemma NotShort(d: real, q: real, c: int)
    requires d + q > c as real
    ensures !Lt(Plus(IntBound(d), Fin(-(c as real), false)), IntBound(0.0 - q))
  {
    hide IntBound;
    var k: int := -c;
    assert Equals(-(c as real), k);
    IntBoundMet(d);
    var b := Plus(IntBound(d), Fin(-(c as real), false));
    WholePlus(IntBound(d), Fin(-(c as real), false));
    assert Meets(-q, b);
    IntBoundLeast(-q, b);
    assert 0.0 - q == -q;
  }

  /** So the region of `w` stands for everything around both. */
  lemma JoinIncluded(l: seq<int>, u: seq<int>, v: Valuation, w: Valuation)
    requires NonNegative(v) && NonNegative(w) && Below(l, u, v, w) && LooseBounds(l, |v|) && LooseBounds(u, |v|)
    ensures SimIncluded(Join(Region(v), Region(w)), Region(w), l, u)
  {
    hide Region, Join, Violation, SimIncluded, Tight;
    RegionNormal(v);
    RegionNormal(w);
    JoinNormal(Region(v), Region(w));
    var m1, m2 := Join(Region(v), Region(w)), Region(w);
    forall x, y | Clock(m1, x) && Clock(m1, y) ensures !Violation(m1, m2, l, u, x, y) {
      JoinNoViolation(l, u, v, w, x, y);
    }
    LooseExact(m1, m2, l, u);
  }
}
