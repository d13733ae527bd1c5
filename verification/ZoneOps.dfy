/** What each zone operation computes on matrices, and the set of valuations it denotes. */
module ZoneOps {
  import opened Bounds
  import opened Zones
  import opened FloydWarshall

  // ----- one more constraint -----

  /** The tight matrix `m` with the additional bound `b` on `x - y`: every pair may also go through that edge. */
  ghost function Squeeze(m: Matrix, x: int, y: int, b: Bound): (m': Matrix)
    requires Clock(m, x) && Clock(m, y)
    ensures |m'| == |m|
  {
    seq(|m|, i requires 0 <= i < |m| => seq(|m|, j requires 0 <= j < |m| =>
      Min(Plus(Plus(m[i][x], b), m[y][j]), m[i][j])))
  }

  lemma SqueezeSat(m: Matrix, x: int, y: int, b: Bound, v: Valuation)
    requires Clock(m, x) && Clock(m, y) && Consistent(m) && |v| == |m|
    ensures Sat(Squeeze(m, x, y, b), v) <==> Sat(m, v) && Meets(v[x] - v[y], b)
  {
    var e := Squeeze(m, x, y, b);
    if Sat(m, v) && Meets(v[x] - v[y], b) {
      forall i, j | Clock(m, i) && Clock(m, j)
        ensures SatAt(e, v, i, j)
      {
        assert SatAt(m, v, i, j) && SatAt(m, v, i, x) && SatAt(m, v, y, j);
        MeetsPlus(v[i] - v[x], m[i][x], v[x] - v[y], b);
        MeetsPlus(v[i] - v[y], Plus(m[i][x], b), v[y] - v[j], m[y][j]);
      }
    }
    if Sat(e, v) {
      assert SatAt(e, v, x, y);
      forall i, j | Clock(m, i) && Clock(m, j)
        ensures SatAt(m, v, i, j)
      {
        assert SatAt(e, v, i, j);
      }
    }
  }

  /** Two detours over the same edge are no better than one when the loop they enclose is not negative. */
  lemma TwoDetours(ij: Bound, ik: Bound, kj: Bound, ix: Bound, kx: Bound, yk: Bound, yj: Bound, yx: Bound, b: Bound)
    requires Le(ij, Plus(ik, kj)) && Le(ix, Plus(ik, kx)) && Le(yj, Plus(yk, kj)) && Le(yx, Plus(yk, kx))
    requires Le(ZERO, Plus(b, yx))
    ensures Le(Min(Plus(Plus(ix, b), yj), ij),
               Plus(Min(Plus(Plus(ix, b), yk), ik), Min(Plus(Plus(kx, b), yj), kj)))
  {}

  lemma SqueezeTight(m: Matrix, x: int, y: int, b: Bound)
    requires Clock(m, x) && Clock(m, y) && Tight(m) && Consistent(m) && Le(ZERO, Plus(b, m[y][x]))
    ensures Tight(Squeeze(m, x, y, b)) && Consistent(Squeeze(m, x, y, b))
  {
    var e := Squeeze(m, x, y, b);
    forall i, k, j | Clock(e, i) && Clock(e, j) && Clock(e, k)
      ensures TightAt(e, i, k, j)
    {
      assert TightAt(m, i, k, j) && TightAt(m, i, k, x) && TightAt(m, y, k, j) && TightAt(m, y, k, x);
      TwoDetours(m[i][j], m[i][k], m[k][j], m[i][x], m[k][x], m[y][k], m[y][j], m[y][x], b);
    }
    forall i | 0 <= i < |m|
      ensures e[i][i] == ZERO
    {
      assert TightAt(m, y, i, x);
    }
  }

  lemma SqueezeEmpty(m: Matrix, x: int, y: int, b: Bound)
    requires Clock(m, x) && Clock(m, y) && Lt(Plus(b, m[y][x]), ZERO)
    ensures forall v: Valuation :: !(Sat(m, v) && Meets(v[x] - v[y], b))
  {
    forall v: Valuation | Sat(m, v)
      ensures !Meets(v[x] - v[y], b)
    {
      assert SatAt(m, v, y, x);
    }
  }

  /** A bound that is already implied changes nothing. */
  lemma SqueezeImplied(m: Matrix, x: int, y: int, b: Bound)
    requires Clock(m, x) && Clock(m, y) && Tight(m) && Le(m[x][y], b)
    ensures Squeeze(m, x, y, b) == m
  {
    var e := Squeeze(m, x, y, b);
    forall i, j | Clock(m, i) && Clock(m, j)
      ensures SameAt(e, m, i, j)
    {
      assert TightAt(m, i, x, j) && TightAt(m, x, y, j);
    }
    SameEntries(e, m);
  }

  /** `m` after its bound on `x - y` has been overwritten. */
  function WithEdge(m: Matrix, x: int, y: int, b: Bound): (m': Matrix)
    requires Clock(m, x) && Clock(m, y)
    ensures |m'| == |m|
  {
    m[x := m[x][y := b]]
  }

  lemma WithEdgeSat(m: Matrix, x: int, y: int, b: Bound, v: Valuation)
    requires Clock(m, x) && Clock(m, y) && Le(b, m[x][y]) && |v| == |m|
    ensures Sat(WithEdge(m, x, y, b), v) <==> Sat(m, v) && Meets(v[x] - v[y], b)
  {
    var e := WithEdge(m, x, y, b);
    if Sat(e, v) {
      assert SatAt(e, v, x, y);
      forall i, j | Clock(m, i) && Clock(m, j)
        ensures SatAt(m, v, i, j)
      {
        assert SatAt(e, v, i, j);
      }
    }
    if Sat(m, v) && Meets(v[x] - v[y], b) {
      forall i, j | Clock(m, i) && Clock(m, j)
        ensures SatAt(e, v, i, j)
      {
        assert SatAt(m, v, i, j);
      }
    }
  }

  /** The incremental update refines the full one: lowering one bound of a tight matrix and running
      Floyd-Warshall gives, entry for entry, the squeezed matrix, and fails exactly when the loop is negative. */
  lemma SqueezeIsFloydWarshall(m: Matrix, x: int, y: int, b: Bound)
    requires Clock(m, x) && Clock(m, y) && x != y && Tight(m) && Consistent(m) && Le(b, m[x][y])
    ensures ConsistentThrough(WithEdge(m, x, y, b), |m|) <==> Le(ZERO, Plus(b, m[y][x]))
    ensures ConsistentThrough(WithEdge(m, x, y, b), |m|) ==> Phases(WithEdge(m, x, y, b), |m|) == Squeeze(m, x, y, b)
  {
    hide Phases, ConsistentThrough, Squeeze;
    var w, e := WithEdge(m, x, y, b), Squeeze(m, x, y, b);
    assert Consistent(w);
    forall v: Valuation
      ensures Sat(w, v) <==> Sat(e, v)
    {
      if |v| == |m| {
        WithEdgeSat(m, x, y, b, v);
        SqueezeSat(m, x, y, b, v);
      }
    }
    PhasesDecide(w);
    if Le(ZERO, Plus(b, m[y][x])) {
      SqueezeTight(m, x, y, b);
      var v := Inhabited(e);
      assert Sat(w, v);
      PhasesClose(w);
      CanonicalForm(Phases(w, |m|), e);
    } else {
      SqueezeEmpty(m, x, y, b);
      forall v: Valuation ensures !Sat(w, v) {
        if |v| == |m| {
          WithEdgeSat(m, x, y, b, v);
        }
      }
    }
  }

  // ----- resets -----

  /** The clock that `i` copies in `x := y + c`, and what it adds. */
  function Source(i: int, x: int, y: int): int {
    if i == x then y else i
  }

  function Shift(i: int, x: int, c: real): real {
    if i == x then c else 0.0
  }

  ghost function Reset(m: Matrix, x: int, y: int, c: real): (m': Matrix)
    requires Clock(m, x) && Clock(m, y)
    ensures |m'| == |m|
  {
    seq(|m|, i requires 0 <= i < |m| => seq(|m|, j requires 0 <= j < |m| =>
      Plus(m[Source(i, x, y)][Source(j, x, y)], Fin(Shift(i, x, c) - Shift(j, x, c), true))))
  }

  lemma ResetElsewhere(m: Matrix, x: int, y: int, c: real, p: int, q: int)
    requires Clock(m, x) && Clock(m, y) && Clock(m, p) && Clock(m, q) && p != x && q != x
    ensures Reset(m, x, y, c)[p][q] == m[p][q]
  {}

  lemma ResetCross(m: Matrix, x: int, y: int, c: real, z: int)
    requires Clock(m, x) && Clock(m, y) && Clock(m, z) && Consistent(m)
    ensures var e := Reset(m, x, y, c);
            if z == x then e[x][x] == ZERO
            else e[x][z] == Plus(m[y][z], Fin(c, true)) && e[z][x] == Plus(m[z][y], Fin(-c, true))
  {}

  lemma ResetTight(m: Matrix, x: int, y: int, c: real)
    requires Clock(m, x) && Clock(m, y) && Tight(m) && Consistent(m)
    ensures Tight(Reset(m, x, y, c)) && Consistent(Reset(m, x, y, c))
  {
    var e := Reset(m, x, y, c);
    forall i, k, j | Clock(e, i) && Clock(e, j) && Clock(e, k)
      ensures TightAt(e, i, k, j)
    {
      assert TightAt(m, Source(i, x, y), Source(k, x, y), Source(j, x, y));
    }
  }

  /** The assignment `x := y + c` on valuations. */
  function Assign(v: Valuation, x: int, y: int, c: real): Valuation
    requires 0 <= x < |v| && 0 <= y < |v|
  {
    v[x := v[y] + c]
  }

  lemma ResetForward(m: Matrix, x: int, y: int, c: real, v: Valuation)
    requires Clock(m, x) && Clock(m, y) && Sat(m, v)
    ensures Sat(Reset(m, x, y, c), Assign(v, x, y, c))
  {
    var e, w := Reset(m, x, y, c), Assign(v, x, y, c);
    forall i, j | Clock(m, i) && Clock(m, j)
      ensures SatAt(e, w, i, j)
    {
      assert SatAt(m, v, Source(i, x, y), Source(j, x, y));
      assert w[i] - w[j] == v[Source(i, x, y)] - v[Source(j, x, y)] + (Shift(i, x, c) - Shift(j, x, c));
    }
  }

  lemma ResetBackward(m: Matrix, x: int, y: int, c: real, w: Valuation) returns (v: Valuation)
    requires Clock(m, x) && Clock(m, y) && Tight(m) && Consistent(m) && Sat(Reset(m, x, y, c), w)
    ensures Sat(m, v) && w == Assign(v, x, y, c)
    ensures forall z :: 0 <= z < |m| && z != x ==> v[z] == w[z]
  {
    var e := Reset(m, x, y, c);
    if x == y {
      v := w[x := w[x] - c];
      forall i, j | Clock(m, i) && Clock(m, j)
        ensures SatAt(m, v, i, j)
      {
        assert SatAt(e, w, i, j);
        assert v[i] - v[j] == w[i] - w[j] - (Shift(i, x, c) - Shift(j, x, c));
      }
    } else {
      var s := set i | 0 <= i < |m| && Clock(m, i) && i != x;
      forall i, j | i in s && j in s
        ensures SatAt(m, w, i, j)
      {
        assert SatAt(e, w, i, j);
      }
      v := ExtendOne(m, w, s, x);
      forall i, j | Clock(m, i) && Clock(m, j)
        ensures SatAt(m, v, i, j)
      {
        assert i in s + {x} && j in s + {x};
      }
      assert SatAt(e, w, x, y) && SatAt(e, w, y, x);
      assert w[x] == w[y] + c;
    }
  }

  /** The zone after `x := y + c` is exactly the set of updated valuations. */
  lemma ResetExact(m: Matrix, x: int, y: int, c: real, w: Valuation)
    requires 1 <= x < |m| && Clock(m, y) && Tight(m) && Consistent(m)
    ensures In(Reset(m, x, y, c), w) <==> exists v: Valuation :: In(m, v) && w == Assign(v, x, y, c)
  {
    if In(Reset(m, x, y, c), w) {
      var v := ResetBackward(m, x, y, c, w);
      assert In(m, v);
    }
    if v: Valuation :| In(m, v) && w == Assign(v, x, y, c) {
      ResetForward(m, x, y, c, v);
    }
  }

  // ----- delay -----

  ghost function OpenUp(m: Matrix): (m': Matrix)
    ensures |m'| == |m|
  {
    seq(|m|, i requires 0 <= i < |m| => seq(|m|, j requires 0 <= j < |m| =>
      if i >= 1 && j == 0 then Inf else m[i][j]))
  }

  lemma OpenUpTight(m: Matrix)
    requires Tight(m) && Consistent(m)
    ensures Tight(OpenUp(m)) && Consistent(OpenUp(m))
  {
    var e := OpenUp(m);
    forall i, k, j | Clock(e, i) && Clock(e, j) && Clock(e, k)
      ensures TightAt(e, i, k, j)
    {
      assert TightAt(m, i, k, j);
    }
  }

  /** `d` time units later: every clock but clock 0 has advanced by `d`. */
  function Delay(v: Valuation, d: real): (w: Valuation)
    ensures |w| == |v|
  {
    seq(|v|, i requires 0 <= i < |v| => if i == 0 then v[0] else v[i] + d)
  }

  lemma DelayForward(m: Matrix, v: Valuation, d: real)
    requires In(m, v) && d >= 0.0
    ensures In(OpenUp(m), Delay(v, d))
  {
    var e, w := OpenUp(m), Delay(v, d);
    forall i, j | Clock(m, i) && Clock(m, j)
      ensures SatAt(e, w, i, j)
    {
      assert SatAt(m, v, i, j);
    }
  }

  lemma DelayBackward(m: Matrix, w: Valuation) returns (v: Valuation, d: real)
    requires Tight(m) && Consistent(m) && In(OpenUp(m), w)
    ensures In(m, v) && d >= 0.0 && w == Delay(v, d)
  {
    var e := OpenUp(m);
    var s := set i | 0 <= i < |m| && Clock(m, i) && i != 0;
    forall i, j | i in s && j in s
      ensures SatAt(m, w, i, j)
    {
      assert SatAt(e, w, i, j);
    }
    // the reference clock moved back to where the valuation was in the zone
    var u := ExtendOne(m, w, s, 0);
    forall i, j | Clock(m, i) && Clock(m, j)
      ensures SatAt(m, u, i, j)
    {
      assert i in s + {0} && j in s + {0};
    }
    d, u := ReferenceNotBefore(m, w, u);
    v := Normalise(m, u);
  }

  /** A reference clock that would have to move backwards may as well stay where it is. */
  lemma ReferenceNotBefore(m: Matrix, w: Valuation, u: Valuation) returns (d: real, u': Valuation)
    requires Consistent(m) && In(OpenUp(m), w) && Sat(m, u)
    requires forall i :: 0 < i < |m| ==> u[i] == w[i]
    ensures d >= 0.0 && u' == w[0 := d] && Sat(m, u')
  {
    d := if u[0] < 0.0 then 0.0 else u[0];
    u' := w[0 := d];
    forall i, j | Clock(m, i) && Clock(m, j)
      ensures SatAt(m, u', i, j)
    {
      assert SatAt(m, u, i, j) && SatAt(OpenUp(m), w, i, j);
    }
  }

  /** The zone after letting time pass is exactly the set of delayed valuations. */
  lemma OpenUpExact(m: Matrix, w: Valuation)
    requires Tight(m) && Consistent(m)
    ensures In(OpenUp(m), w) <==> exists v: Valuation, d: real :: In(m, v) && d >= 0.0 && w == Delay(v, d)
  {
    if In(OpenUp(m), w) {
      var v, d := DelayBackward(m, w);
    }
    if v: Valuation, d: real :| In(m, v) && d >= 0.0 && w == Delay(v, d) {
      DelayForward(m, v, d);
    }
  }

  // ----- intersection -----

  ghost function Meet(m: Matrix, m': Matrix): (e: Matrix)
    requires |m| == |m'|
    ensures |e| == |m|
  {
    seq(|m|, i requires 0 <= i < |m| => seq(|m|, j requires 0 <= j < |m| => Min(m[i][j], m'[i][j])))
  }

  lemma MeetExact(m: Matrix, m': Matrix, v: Valuation)
    requires |m| == |m'|
    ensures In(Meet(m, m'), v) <==> In(m, v) && In(m', v)
  {
    var e := Meet(m, m');
    if In(e, v) {
      forall i, j | Clock(m, i) && Clock(m, j)
        ensures SatAt(m, v, i, j) && SatAt(m', v, i, j)
      {
        assert SatAt(e, v, i, j);
      }
    }
    if In(m, v) && In(m', v) {
      forall i, j | Clock(m, i) && Clock(m, j)
        ensures SatAt(e, v, i, j)
      {
        assert SatAt(m, v, i, j) && SatAt(m', v, i, j);
      }
    }
  }
}
