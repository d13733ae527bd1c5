/** What the extrapolations let go and what they keep, said of sets of valuations: no entry of a matrix is named. */
module ExtrapolationLaws {
  import opened Bounds
  import opened Zones
  import opened FloydWarshall
  import opened Encoding
  import opened LuSimulation
  import opened Extrapolation

  /** Some valuation of the zone has a difference above `t`. */
  ghost predicate Exceeds(m: Matrix, i: int, j: int, t: real)
    requires Clock(m, i) && Clock(m, j)
  {
    exists w: Valuation :: In(m, w) && w[i] - w[j] > t
  }

  /** Some valuation of the zone has a difference of at least `d`: no bound that the zone respects forbids `d`. */
  ghost predicate Attains(m: Matrix, i: int, j: int, d: real)
    requires Clock(m, i) && Clock(m, j)
  {
    exists w: Valuation :: In(m, w) && w[i] - w[j] >= d
  }

  ghost predicate AllAtLeast(m: Matrix, j: int, i: int, e: real)
    requires Clock(m, i) && Clock(m, j)
  {
    forall w: Valuation :: In(m, w) ==> w[j] - w[i] >= e
  }

  /** All valuations of the zone have clock `j` beyond `c`, relative to clock `i`, and stay away from it. */
  ghost predicate Past(m: Matrix, j: int, i: int, c: int)
    requires Clock(m, i) && Clock(m, j)
  {
    exists e: real :: e > c as real && AllAtLeast(m, j, i, e)
  }

  // ----- the extrapolated zones -----

  /** A lower bound of clock `j` is kept unless the zone is past its upper clock bound; then only that is left of it. */
  ghost predicate LowerLaw(m: Matrix, u: seq<int>, v: Valuation, j: int)
    requires |m| == |u| == |v| && Clock(m, j)
  {
    if Past(m, j, 0, u[j]) then v[j] >= 0.0 && Beyond(u[j], v[j]) else Attains(m, 0, j, v[0] - v[j])
  }

  /** The strong extrapolation drops a bound on `i - j` when it exceeds the lower clock bound of `i`, when clock `i` is past that bound,
      and when clock `j` is past its upper clock bound. */
  ghost predicate StrongLaw(m: Matrix, l: seq<int>, u: seq<int>, v: Valuation, i: int, j: int)
    requires |m| == |l| == |u| == |v| && Clock(m, i) && Clock(m, j)
  {
    Exceeds(m, i, j, l[i] as real) || Past(m, i, 0, l[i]) || Past(m, j, 0, u[j]) || Attains(m, i, j, v[i] - v[j])
  }

  /** The plain one drops it when it exceeds the lower clock bound of `i`, and loosens it when the difference is past the upper clock
      bound of `j`. */
  ghost predicate PlainLaw(m: Matrix, l: seq<int>, u: seq<int>, v: Valuation, i: int, j: int)
    requires |m| == |l| == |u| == |v| && Clock(m, i) && Clock(m, j)
  {
    || Exceeds(m, i, j, l[i] as real)
    || if Past(m, j, i, u[j]) then Beyond(u[j], v[j] - v[i]) else Attains(m, i, j, v[i] - v[j])
  }

  ghost predicate InStrong(m: Matrix, l: seq<int>, u: seq<int>, v: Valuation)
    requires |m| == |l| == |u|
  {
    && |v| == |m| && v[0] == 0.0
    && (forall j :: 1 <= j < |m| ==> LowerLaw(m, u, v, j))
    && forall i, j :: 1 <= i < |m| && 0 <= j < |m| && i != j ==> StrongLaw(m, l, u, v, i, j)
  }

  ghost predicate InPlain(m: Matrix, l: seq<int>, u: seq<int>, v: Valuation)
    requires |m| == |l| == |u|
  {
    && |v| == |m| && v[0] == 0.0
    && (forall j :: 1 <= j < |m| ==> LowerLaw(m, u, v, j))
    && forall i, j :: 1 <= i < |m| && 0 <= j < |m| && i != j ==> PlainLaw(m, l, u, v, i, j)
  }

  // ----- what a tight matrix says of these -----

  lemma Difference(m: Matrix, i: int, j: int, d: real) returns (w: Valuation)
    requires Tight(m) && Consistent(m) && Clock(m, i) && Clock(m, j) && i != j && Meets(d, m[i][j])
    ensures In(m, w) && w[i] - w[j] >= d
  {
    assert TightAt(m, i, j, i) && TightAt(m, j, i, j);
    var d' := Between(m[j][i], m[i][j]);
    w := Attained(m, i, j, if d < d' then d' else d);
  }

  lemma AttainsExact(m: Matrix, i: int, j: int, d: real)
    requires Tight(m) && Consistent(m) && Clock(m, i) && Clock(m, j) && i != j
    ensures Attains(m, i, j, d) <==> Meets(d, m[i][j])
  {
    hide Tight;
    if Meets(d, m[i][j]) {
      var w := Difference(m, i, j, d);
    }
    if w: Valuation :| In(m, w) && w[i] - w[j] >= d {
      assert SatAt(m, w, i, j);
    }
  }

  lemma ExceedsExact(m: Matrix, i: int, j: int, t: real)
    requires Tight(m) && Consistent(m) && Clock(m, i) && Clock(m, j) && i != j
    ensures Exceeds(m, i, j, t) <==> m[i][j].Inf? || m[i][j].value > t
  {
    hide Tight;
    if m[i][j].Inf? || m[i][j].value > t {
      var w := Difference(m, i, j, if m[i][j].Inf? then t + 1.0 else (m[i][j].value + t) / 2.0);
    }
    if w: Valuation :| In(m, w) && w[i] - w[j] > t {
      assert SatAt(m, w, i, j);
    }
  }

  lemma PastExact(m: Matrix, j: int, i: int, c: int)
    requires Tight(m) && Consistent(m) && Clock(m, i) && Clock(m, j) && i != j
    ensures Past(m, j, i, c) <==> m[i][j].Fin? && -m[i][j].value > c as real
  {
    hide Tight;
    if m[i][j].Fin? && -m[i][j].value > c as real {
      forall w: Valuation | In(m, w) ensures w[j] - w[i] >= -m[i][j].value {
        assert SatAt(m, w, i, j);
      }
      assert AllAtLeast(m, j, i, -m[i][j].value);
    }
    if e: real :| e > c as real && AllAtLeast(m, j, i, e) {
      ExceedsExact(m, i, j, -e);
    }
  }

  lemma NeverPastZero(m: Matrix, c: int)
    requires Tight(m) && Consistent(m) && c >= 0
    ensures !Past(m, 0, 0, c)
  {
    var w := Inhabited(m);
    assert w[0] - w[0] == 0.0;
  }

  // ----- the laws hold -----

  lemma LowerRelaxed(m: Matrix, l: seq<int>, u: seq<int>, v: Valuation, j: int)
    requires Normal(m) && ClockBounds(l, |m|) && ClockBounds(u, |m|) && |v| == |m| && v[0] == 0.0 && 1 <= j < |m|
    ensures SatAt(RelaxLu(m, l, u), v, 0, j) <==> LowerLaw(m, u, v, j)
    ensures SatAt(RelaxLuPlus(m, l, u), v, 0, j) <==> LowerLaw(m, u, v, j)
  {
    hide Tight, Past, Attains;
    assert ClockBound(u[j]);
    PastExact(m, j, 0, u[j]);
    AttainsExact(m, 0, j, v[0] - v[j]);
  }

  lemma EntryRelaxed(m: Matrix, l: seq<int>, u: seq<int>, v: Valuation, i: int, j: int)
    requires Normal(m) && ClockBounds(l, |m|) && ClockBounds(u, |m|) && |v| == |m| && v[0] == 0.0
    requires 1 <= i < |m| && 0 <= j < |m| && i != j
    ensures SatAt(RelaxLu(m, l, u), v, i, j) <==> PlainLaw(m, l, u, v, i, j)
    ensures SatAt(RelaxLuPlus(m, l, u), v, i, j) <==> StrongLaw(m, l, u, v, i, j)
  {
    hide Tight, Past, Attains, Exceeds;
    ExceedsExact(m, i, j, l[i] as real);
    AttainsExact(m, i, j, v[i] - v[j]);
    PastExact(m, i, 0, l[i]);
    PastExact(m, j, i, u[j]);
    if j == 0 {
      NeverPastZero(m, u[0]);
    } else {
      PastExact(m, j, 0, u[j]);
    }
  }

  lemma DiagonalRelaxed(m: Matrix, l: seq<int>, u: seq<int>, v: Valuation, i: int)
    requires Normal(m) && |l| == |u| == |m| == |v| && Clock(m, i)
    ensures SatAt(RelaxLu(m, l, u), v, i, i) && SatAt(RelaxLuPlus(m, l, u), v, i, i)
  {}

  /** A valuation is in the extrapolated zone exactly when every difference keeps what the law leaves of the zone's bounds. */
  lemma ExtrapolationsExact(m: Matrix, l: seq<int>, u: seq<int>, v: Valuation)
    requires Normal(m) && ClockBounds(l, |m|) && ClockBounds(u, |m|)
    ensures In(ExtraLu(m, l, u), v) <==> InPlain(m, l, u, v)
    ensures In(ExtraLuPlus(m, l, u), v) <==> InStrong(m, l, u, v)
  {
    hide Tight, Phases, RelaxLu, RelaxLuPlus, LowerLaw, PlainLaw, StrongLaw, ClockBound;
    SameAsRelaxed(m, l, u);
    assert Sat(ExtraLu(m, l, u), v) <==> Sat(RelaxLu(m, l, u), v);
    assert Sat(ExtraLuPlus(m, l, u), v) <==> Sat(RelaxLuPlus(m, l, u), v);
    if |v| == |m| && v[0] == 0.0 {
      forall j | 1 <= j < |m|
        ensures LowerLaw(m, u, v, j) == SatAt(RelaxLu(m, l, u), v, 0, j) == SatAt(RelaxLuPlus(m, l, u), v, 0, j)
      {
        LowerRelaxed(m, l, u, v, j);
      }
      forall i, j | 1 <= i < |m| && 0 <= j < |m| && i != j
        ensures PlainLaw(m, l, u, v, i, j) == SatAt(RelaxLu(m, l, u), v, i, j)
        ensures StrongLaw(m, l, u, v, i, j) == SatAt(RelaxLuPlus(m, l, u), v, i, j)
      {
        EntryRelaxed(m, l, u, v, i, j);
      }
      forall i, j | Clock(m, i) && Clock(m, j)
        ensures InPlain(m, l, u, v) ==> SatAt(RelaxLu(m, l, u), v, i, j)
        ensures InStrong(m, l, u, v) ==> SatAt(RelaxLuPlus(m, l, u), v, i, j)
      {
        DiagonalRelaxed(m, l, u, v, i);
      }
    }
  }

  // ----- how much is let go -----

  lemma AttainsLess(m: Matrix, i: int, j: int, d: real, d': real)
    requires Clock(m, i) && Clock(m, j) && Attains(m, i, j, d) && d' <= d
    ensures Attains(m, i, j, d')
  {}

  /** A clock that the zone has past its lower clock bound may grow without end. */
  lemma RaisedStrong(m: Matrix, l: seq<int>, u: seq<int>, v: Valuation, x: int, r: real)
    requires Normal(m) && ClockBounds(l, |m|) && ClockBounds(u, |m|) && 1 <= x < |m| && Past(m, x, 0, l[x])
    requires In(ExtraLuPlus(m, l, u), v) && r >= v[x]
    ensures In(ExtraLuPlus(m, l, u), v[x := r])
  {
    hide Tight, Phases, RelaxLu, RelaxLuPlus, Past, Attains, Exceeds, ExtraLuPlus, Normal;
    ExtrapolationsExact(m, l, u, v);
    var w := v[x := r];
    forall j | 1 <= j < |m| ensures LowerLaw(m, u, w, j) {
      assert LowerLaw(m, u, v, j);
      if !Past(m, j, 0, u[j]) {
        AttainsLess(m, 0, j, v[0] - v[j], w[0] - w[j]);
      }
    }
    forall i, j | 1 <= i < |m| && 0 <= j < |m| && i != j ensures StrongLaw(m, l, u, w, i, j) {
      assert StrongLaw(m, l, u, v, i, j);
      if i != x && Attains(m, i, j, v[i] - v[j]) {
        AttainsLess(m, i, j, v[i] - v[j], w[i] - w[j]);
      }
    }
    ExtrapolationsExact(m, l, u, w);
  }

  ghost predicate AllExceed(m: Matrix, x: int, t: real)
    requires Clock(m, x)
  {
    forall j :: 0 <= j < |m| && j != x ==> Exceeds(m, x, j, t)
  }

  /** So it may in the plain extrapolation when all its differences exceed that bound. */
  lemma RaisedPlain(m: Matrix, l: seq<int>, u: seq<int>, v: Valuation, x: int, r: real)
    requires Normal(m) && ClockBounds(l, |m|) && ClockBounds(u, |m|) && 1 <= x < |m|
    requires AllExceed(m, x, l[x] as real) && In(ExtraLu(m, l, u), v) && r >= v[x]
    ensures In(ExtraLu(m, l, u), v[x := r])
  {
    hide Tight, Phases, RelaxLu, RelaxLuPlus, Past, Attains, Exceeds, ExtraLu, Normal;
    ExtrapolationsExact(m, l, u, v);
    var w := v[x := r];
    forall j | 1 <= j < |m| ensures LowerLaw(m, u, w, j) {
      assert LowerLaw(m, u, v, j);
      if !Past(m, j, 0, u[j]) {
        AttainsLess(m, 0, j, v[0] - v[j], w[0] - w[j]);
      }
    }
    forall i, j | 1 <= i < |m| && 0 <= j < |m| && i != j ensures PlainLaw(m, l, u, w, i, j) {
      assert PlainLaw(m, l, u, v, i, j);
      if i != x && !Exceeds(m, i, j, l[i] as real) && !Past(m, j, i, u[j]) {
        AttainsLess(m, i, j, v[i] - v[j], w[i] - w[j]);
      }
    }
    ExtrapolationsExact(m, l, u, w);
  }

  /** A clock that the zone has past its upper clock bound may be anything else that is beyond it. */
  lemma LoweredStrong(m: Matrix, l: seq<int>, u: seq<int>, v: Valuation, y: int, r: real)
    requires Normal(m) && ClockBounds(l, |m|) && ClockBounds(u, |m|) && 1 <= y < |m| && Past(m, y, 0, u[y])
    requires In(ExtraLuPlus(m, l, u), v) && 0.0 <= r <= v[y] && Beyond(u[y], r)
    ensures In(ExtraLuPlus(m, l, u), v[y := r])
  {
    hide Tight, Phases, RelaxLu, RelaxLuPlus, Past, Attains, Exceeds, ExtraLuPlus, Normal;
    ExtrapolationsExact(m, l, u, v);
    var w := v[y := r];
    forall j | 1 <= j < |m| ensures LowerLaw(m, u, w, j) {
      assert LowerLaw(m, u, v, j);
    }
    forall i, j | 1 <= i < |m| && 0 <= j < |m| && i != j ensures StrongLaw(m, l, u, w, i, j) {
      assert StrongLaw(m, l, u, v, i, j);
      if j != y && Attains(m, i, j, v[i] - v[j]) {
        AttainsLess(m, i, j, v[i] - v[j], w[i] - w[j]);
      }
    }
    ExtrapolationsExact(m, l, u, w);
  }
}
