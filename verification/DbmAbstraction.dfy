/** Simulation test and extrapolations, in place on matrices of encoded bounds. */
module DbmAbstraction {
  import opened Wrappers
  import opened Bounds
  import opened Zones
  import opened FloydWarshall
  import opened Encoding
  import opened LuSimulation
  import opened Extrapolation
  import opened ExtrapolationLaws
  import opened Dbm

  // ----- the simulation test -----

  /** Entries and clock bounds within `r`, and room for two of them. */
  ghost predicate RoomForTest(m: Matrix, l: seq<int>, r: real) {
    Within(m, r) && (forall y :: 0 <= y < |l| && l[y] != -INF_VALUE ==> -r <= l[y] as real <= r) && r + r <= MAX_VALUE as real
  }

  lemma TestFits(m: Matrix, l: seq<int>, x: int, y: int)
    requires |l| == |m| && Clock(m, x) && Clock(m, y) && LooseBounds(l, |m|)
    ensures l[y] != -INF_VALUE && !Fits(Plus(m[y][x], Fin(-(l[y] as real), false))) ==>
              forall r: real :: !RoomForTest(m, l, r)
  {
    assert LooseBound(l[y]);
    forall r: real | RoomForTest(m, l, r) && l[y] != -INF_VALUE
      ensures Fits(Plus(m[y][x], Fin(-(l[y] as real), false)))
    {
      assert SmallAt(m, y, x, r);
    }
  }

  /** The second and third condition of a violation, for clock `y`. */
  method TestPair(a1: array2<Db>, a2: array2<Db>, l: seq<int>, u: seq<int>, x: nat, y: nat) returns (r: Option<bool>)
    requires Shape(a1) && Shape(a2) && a1.Length0 == a2.Length0 && x < a1.Length0 && y < a1.Length0 && x != y
    requires LooseBounds(l, a1.Length0) && LooseBounds(u, a1.Length0) && u[x] != -INF_VALUE && l[y] != -INF_VALUE
    requires Le(Fin(-(u[x] as real), true), View(a1)[0][x])
    ensures r.Some? ==> r.value == Violation(View(a1), View(a2), l, u, x, y)
    ensures r.None? ==> forall b: real :: !RoomForTest(View(a2), l, b)
  {
    hide RoomForTest;
    OrderEmbedding(a1[y, x], a2[y, x]);
    if !(a2[y, x] < a1[y, x]) {
      return Some(false);
    }
    assert LooseBound(l[y]);
    MakeExact(LT, -l[y]);
    var d := Make(LT, -l[y]).value;
    SumExact(a2[y, x], d);
    TestFits(View(a2), l, x, y);
    var s := Sum(a2[y, x], d);
    if s.None? {
      return None;
    }
    OrderEmbedding(a1[0, x], s.value);
    return Some(s.value < a1[0, x]);
  }

  /** The test on a row of clocks `y`, for a clock `x` that passes the first condition. */
  method TestClock(a1: array2<Db>, a2: array2<Db>, l: seq<int>, u: seq<int>, x: nat) returns (r: Option<bool>)
    requires Shape(a1) && Shape(a2) && a1.Length0 == a2.Length0 && x < a1.Length0
    requires LooseBounds(l, a1.Length0) && LooseBounds(u, a1.Length0)
    ensures r.Some? && r.value ==> forall y :: Clock(View(a1), y) ==> !Violation(View(a1), View(a2), l, u, x, y)
    ensures r.Some? && !r.value ==> exists y :: Clock(View(a1), y) && Violation(View(a1), View(a2), l, u, x, y)
    ensures r.None? ==> forall b: real :: !RoomForTest(View(a2), l, b)
  {
    hide RoomForTest;
    ghost var m1, m2 := View(a1), View(a2);
    assert LooseBound(u[x]);
    if u[x] == -INF_VALUE {
      return Some(true);
    }
    MakeExact(LE, -u[x]);
    OrderEmbedding(Make(LE, -u[x]).value, a1[0, x]);
    if a1[0, x] < Make(LE, -u[x]).value {
      return Some(true);
    }
    assert Le(Fin(-(u[x] as real), true), m1[0][x]);
    hide View, Violation, LooseBounds;
    for y := 0 to a1.Length0
      invariant forall z :: Clock(m1, z) && z < y ==> !Violation(m1, m2, l, u, x, z)
    {
      if x == y || l[y] == -INF_VALUE {
        NoViolation(m1, m2, l, u, x, y);
        continue;
      }
      var p := TestPair(a1, a2, l, u, x, y);
      if p.None? {
        return None;
      }
      if p.value {
        return Some(false);
      }
    }
    return Some(true);
  }

  lemma NoViolation(m1: Matrix, m2: Matrix, l: seq<int>, u: seq<int>, x: int, y: int)
    requires |m1| == |m2| == |l| == |u| && Clock(m1, x) && Clock(m1, y) && (x == y || l[y] == -INF_VALUE)
    ensures !Violation(m1, m2, l, u, x, y)
  {}

  /** The simulation test decides inclusion in the abstraction. */
  method IsAluLe(a1: array2<Db>, a2: array2<Db>, l: seq<int>, u: seq<int>) returns (r: Option<bool>)
    requires Shape(a1) && Shape(a2) && a1.Length0 == a2.Length0
    requires LooseBounds(l, a1.Length0) && LooseBounds(u, a1.Length0)
    requires Normal(View(a1)) && Normal(View(a2))
    ensures r.Some? ==> (r.value <==> SimIncluded(View(a1), View(a2), l, u))
    ensures r.None? ==> forall b: real :: !RoomForTest(View(a2), l, b)
  {
    hide Violation, RoomForTest, SimIncluded, Tight, Consistent, Positive, LowerBounded;
    ghost var m1, m2 := View(a1), View(a2);
    LooseExact(m1, m2, l, u);
    for x := 0 to a1.Length0
      invariant forall z, y :: Clock(m1, z) && Clock(m1, y) && z < x ==> !Violation(m1, m2, l, u, z, y)
    {
      r := TestClock(a1, a2, l, u, x);
      if r.None? || !r.value {
        return;
      }
      assert View(a1) == m1 && View(a2) == m2;
    }
    return Some(true);
  }

  /** The comparison of nodes: with `subsumption`, false iff the second zone is simulated by the first;
      without, false iff each is simulated by the other. */
  method MyLuPlus(a1: array2<Db>, a2: array2<Db>, l: seq<int>, u: seq<int>, subsumption: bool) returns (r: Option<bool>)
    requires Shape(a1) && Shape(a2) && a1.Length0 == a2.Length0
    requires LooseBounds(l, a1.Length0) && LooseBounds(u, a1.Length0)
    requires Normal(View(a1)) && Normal(View(a2))
    ensures r.Some? && subsumption ==> (!r.value <==> SimIncluded(View(a2), View(a1), l, u))
    ensures r.Some? && !subsumption ==>
      (!r.value <==> SimIncluded(View(a1), View(a2), l, u) && SimIncluded(View(a2), View(a1), l, u))
    ensures r.None? ==> forall b: real :: !(RoomForTest(View(a1), l, b) && RoomForTest(View(a2), l, b))
  {
    hide RoomForTest, SimIncluded, View, Normal;
    if subsumption {
      var p := IsAluLe(a2, a1, l, u);
      return if p.None? then None else Some(!p.value);
    }
    var p := IsAluLe(a1, a2, l, u);
    if p.None? {
      return None;
    }
    if !p.value {
      return Some(true);
    }
    var q := IsAluLe(a2, a1, l, u);
    return if q.None? then None else Some(!q.value);
  }

  // ----- extrapolations -----

  /** The relaxed bound of clock `j` against 0. */
  method RelaxLowerCell(d: Db, c: int) returns (e: Db, changed: bool)
    requires d != LT_INFINITY && ClockBound(c)
    ensures Decode(e) == RelaxLower(Decode(d), c)
    ensures !changed ==> e == d
  {
    if -Value(d) > c {
      MakeExact(LT, -c);
      e := if c == -INF_VALUE then LE_ZERO else Make(LT, -c).value;
      changed := true;
    } else {
      e, changed := d, false;
    }
  }

  /** Row 0 of the extrapolations; the plain ones leave out the bounds `<= 0`. */
  method RelaxFirstRow(a: array2<Db>, u: seq<int>, skipZero: bool, ghost m: Matrix) returns (modified: bool)
    requires Shape(a) && |m| == a.Length0 && ClockBounds(u, |m|) && LowerBounded(m) && Consistent(m)
    requires forall q {:trigger a[0, q]} :: 0 <= q < |m| ==> Decode(a[0, q]) == m[0][q]
    modifies a
    ensures forall q {:trigger a[0, q]} :: 0 <= q < |m| ==>
      Decode(a[0, q]) == if q == 0 then m[0][0] else RelaxLower(m[0][q], u[q])
    ensures forall p, q {:trigger a[p, q]} :: 1 <= p < |m| && 0 <= q < |m| ==> a[p, q] == old(a[p, q])
    ensures !modified ==> forall p, q {:trigger a[p, q]} :: 0 <= p < |m| && 0 <= q < |m| ==> a[p, q] == old(a[p, q])
  {
    modified := false;
    for j := 1 to a.Length1
      invariant forall q {:trigger a[0, q]} :: 0 <= q < |m| ==>
        Decode(a[0, q]) == if 1 <= q < j then RelaxLower(m[0][q], u[q]) else m[0][q]
      invariant forall p, q {:trigger a[p, q]} :: 1 <= p < |m| && 0 <= q < |m| ==> a[p, q] == old(a[p, q])
      invariant !modified ==> forall p, q {:trigger a[p, q]} :: 0 <= p < |m| && 0 <= q < |m| ==> a[p, q] == old(a[p, q])
    {
      assert ClockBound(u[j]) && a[0, j] != LT_INFINITY;
      if skipZero && a[0, j] == LE_ZERO {
        continue;
      }
      var e, changed := RelaxLowerCell(a[0, j], u[j]);
      if changed {
        a[0, j] := e;
        modified := true;
      }
    }
  }

  /** Row `i >= 1` of the plain extrapolation. */
  method RelaxLuRow(a: array2<Db>, i: nat, l: seq<int>, u: seq<int>, ghost m: Matrix) returns (modified: bool)
    requires Shape(a) && |m| == a.Length0 && 1 <= i < |m| && ClockBounds(l, |m|) && ClockBounds(u, |m|)
    requires forall q {:trigger a[i, q]} :: 0 <= q < |m| ==> Decode(a[i, q]) == m[i][q]
    modifies a
    ensures forall q {:trigger a[i, q]} :: 0 <= q < |m| ==> Decode(a[i, q]) == RelaxLuEntry(m[i][q], i, q, l[i], u[q])
    ensures forall p, q {:trigger a[p, q]} :: 0 <= p < |m| && 0 <= q < |m| && p != i ==> a[p, q] == old(a[p, q])
    ensures !modified ==> forall p, q {:trigger a[p, q]} :: 0 <= p < |m| && 0 <= q < |m| ==> a[p, q] == old(a[p, q])
  {
    modified := false;
    for j := 0 to a.Length1
      invariant forall q {:trigger a[i, q]} :: 0 <= q < |m| ==>
        Decode(a[i, q]) == if q < j then RelaxLuEntry(m[i][q], i, q, l[i], u[q]) else m[i][q]
      invariant forall p, q {:trigger a[p, q]} :: 0 <= p < |m| && 0 <= q < |m| && p != i ==> a[p, q] == old(a[p, q])
      invariant !modified ==> forall p, q {:trigger a[p, q]} :: 0 <= p < |m| && 0 <= q < |m| ==> a[p, q] == old(a[p, q])
    {
      assert ClockBound(u[j]);
      if i == j || a[i, j] == LT_INFINITY {
        continue;
      }
      var c := Value(a[i, j]);
      if c > l[i] {
        a[i, j] := LT_INFINITY;
        modified := true;
      } else if -c > u[j] {
        MakeExact(LT, -u[j]);
        a[i, j] := if u[j] == -INF_VALUE then LT_INFINITY else Make(LT, -u[j]).value;
        modified := true;
      }
    }
  }

  /** Row `i >= 1` of the strong extrapolation; row 0 must be intact. */
  method RelaxLuPlusRow(a: array2<Db>, i: nat, l: seq<int>, u: seq<int>, ghost m: Matrix) returns (modified: bool)
    requires Shape(a) && |m| == a.Length0 && 1 <= i < |m| && ClockBounds(l, |m|) && ClockBounds(u, |m|) && LowerBounded(m)
    requires forall q {:trigger a[i, q]} :: 0 <= q < |m| ==> Decode(a[i, q]) == m[i][q]
    requires forall q {:trigger a[0, q]} :: 0 <= q < |m| ==> Decode(a[0, q]) == m[0][q]
    modifies a
    ensures forall q {:trigger a[i, q]} :: 0 <= q < |m| ==>
      Decode(a[i, q]) == RelaxLuPlusEntry(m[i][q], m[0][i], m[0][q], i, q, l[i], u[q])
    ensures forall p, q {:trigger a[p, q]} :: 0 <= p < |m| && 0 <= q < |m| && p != i ==> a[p, q] == old(a[p, q])
    ensures !modified ==> forall p, q {:trigger a[p, q]} :: 0 <= p < |m| && 0 <= q < |m| ==> a[p, q] == old(a[p, q])
  {
    assert a[0, i] != LT_INFINITY;
    if -Value(a[0, i]) > l[i] {
      modified := OpenRow(a, i);
      return;
    }
    modified := false;
    for j := 0 to a.Length1
      invariant forall q {:trigger a[i, q]} :: 0 <= q < |m| ==>
        Decode(a[i, q]) == if q < j then RelaxLuPlusEntry(m[i][q], m[0][i], m[0][q], i, q, l[i], u[q]) else m[i][q]
      invariant forall p, q {:trigger a[p, q]} :: 0 <= p < |m| && 0 <= q < |m| && p != i ==> a[p, q] == old(a[p, q])
      invariant !modified ==> forall p, q {:trigger a[p, q]} :: 0 <= p < |m| && 0 <= q < |m| ==> a[p, q] == old(a[p, q])
    {
      if i == j || a[i, j] == LT_INFINITY {
        continue;
      }
      assert a[0, j] != LT_INFINITY;
      if Value(a[i, j]) > l[i] || -Value(a[0, j]) > u[j] {
        a[i, j] := LT_INFINITY;
        modified := true;
      }
    }
  }

  /** Drops all bounds of row `i`, for a clock that is beyond its lower bound everywhere. */
  method OpenRow(a: array2<Db>, i: nat) returns (modified: bool)
    requires Shape(a) && i < a.Length0
    modifies a
    ensures forall q {:trigger a[i, q]} :: 0 <= q < a.Length1 ==> a[i, q] == if q == i then old(a[i, q]) else LT_INFINITY
    ensures forall p, q {:trigger a[p, q]} :: 0 <= p < a.Length0 && 0 <= q < a.Length1 && p != i ==> a[p, q] == old(a[p, q])
    ensures !modified ==> forall q {:trigger a[i, q]} :: 0 <= q < a.Length1 ==> a[i, q] == old(a[i, q])
  {
    modified := false;
    for j := 0 to a.Length1
      invariant forall q {:trigger a[i, q]} :: 0 <= q < a.Length1 ==>
        a[i, q] == if q == i || q >= j then old(a[i, q]) else LT_INFINITY
      invariant forall p, q {:trigger a[p, q]} :: 0 <= p < a.Length0 && 0 <= q < a.Length1 && p != i ==> a[p, q] == old(a[p, q])
      invariant !modified ==> forall q {:trigger a[i, q]} :: 0 <= q < a.Length1 ==> a[i, q] == old(a[i, q])
    {
      if i == j || a[i, j] == LT_INFINITY {
        continue;
      }
      a[i, j] := LT_INFINITY;
      modified := true;
    }
  }

  /** Row `i >= 1` of the plain extrapolation by maximal constants. */
  method RelaxMRow(a: array2<Db>, i: nat, c: seq<int>, ghost m: Matrix) returns (modified: bool)
    requires Shape(a) && |m| == a.Length0 && 1 <= i < |m| && ClockBounds(c, |m|)
    requires forall q {:trigger a[i, q]} :: 0 <= q < |m| ==> Decode(a[i, q]) == m[i][q]
    modifies a
    ensures forall q {:trigger a[i, q]} :: 0 <= q < |m| ==> Decode(a[i, q]) == RelaxLuEntry(m[i][q], i, q, c[i], c[q])
    ensures forall p, q {:trigger a[p, q]} :: 0 <= p < |m| && 0 <= q < |m| && p != i ==> a[p, q] == old(a[p, q])
    ensures !modified ==> forall p, q {:trigger a[p, q]} :: 0 <= p < |m| && 0 <= q < |m| ==> a[p, q] == old(a[p, q])
  {
    modified := false;
    for j := 0 to a.Length1
      invariant forall q {:trigger a[i, q]} :: 0 <= q < |m| ==>
        Decode(a[i, q]) == if q < j then RelaxLuEntry(m[i][q], i, q, c[i], c[q]) else m[i][q]
      invariant forall p, q {:trigger a[p, q]} :: 0 <= p < |m| && 0 <= q < |m| && p != i ==> a[p, q] == old(a[p, q])
      invariant !modified ==> forall p, q {:trigger a[p, q]} :: 0 <= p < |m| && 0 <= q < |m| ==> a[p, q] == old(a[p, q])
    {
      assert ClockBound(c[j]);
      if i == j || a[i, j] == LT_INFINITY {
        continue;
      }
      var d := Value(a[i, j]);
      if d > c[i] {
        a[i, j] := LT_INFINITY;
        modified := true;
      } else if -d > c[j] {
        MakeExact(LT, -c[j]);
        a[i, j] := if c[j] == -INF_VALUE then LT_INFINITY else Make(LT, -c[j]).value;
        modified := true;
      }
    }
  }

  /** Row `i >= 1` of the strong extrapolation by maximal constants; row 0 must be intact. */
  method RelaxMPlusRow(a: array2<Db>, i: nat, c: seq<int>, ghost m: Matrix) returns (modified: bool)
    requires Shape(a) && |m| == a.Length0 && 1 <= i < |m| && ClockBounds(c, |m|) && LowerBounded(m)
    requires forall q {:trigger a[i, q]} :: 0 <= q < |m| ==> Decode(a[i, q]) == m[i][q]
    requires forall q {:trigger a[0, q]} :: 0 <= q < |m| ==> Decode(a[0, q]) == m[0][q]
    modifies a
    ensures forall q {:trigger a[i, q]} :: 0 <= q < |m| ==>
      Decode(a[i, q]) == RelaxLuPlusEntry(m[i][q], m[0][i], m[0][q], i, q, c[i], c[q])
    ensures forall p, q {:trigger a[p, q]} :: 0 <= p < |m| && 0 <= q < |m| && p != i ==> a[p, q] == old(a[p, q])
    ensures !modified ==> forall p, q {:trigger a[p, q]} :: 0 <= p < |m| && 0 <= q < |m| ==> a[p, q] == old(a[p, q])
  {
    assert a[0, i] != LT_INFINITY;
    if -Value(a[0, i]) > c[i] {
      modified := OpenRow(a, i);
      return;
    }
    modified := false;
    for j := 0 to a.Length1
      invariant forall q {:trigger a[i, q]} :: 0 <= q < |m| ==>
        Decode(a[i, q]) == if q < j then RelaxLuPlusEntry(m[i][q], m[0][i], m[0][q], i, q, c[i], c[q]) else m[i][q]
      invariant forall p, q {:trigger a[p, q]} :: 0 <= p < |m| && 0 <= q < |m| && p != i ==> a[p, q] == old(a[p, q])
      invariant !modified ==> forall p, q {:trigger a[p, q]} :: 0 <= p < |m| && 0 <= q < |m| ==> a[p, q] == old(a[p, q])
    {
      if i == j || a[i, j] == LT_INFINITY {
        continue;
      }
      assert a[0, j] != LT_INFINITY;
      if Value(a[i, j]) > c[i] || -Value(a[0, j]) > c[j] {
        a[i, j] := LT_INFINITY;
        modified := true;
      }
    }
  }

  method RelaxMInPlace(a: array2<Db>, c: seq<int>, ghost m: Matrix) returns (modified: bool)
    requires Holds(a, m) && Normal(m) && ClockBounds(c, |m|)
    modifies a
    ensures Holds(a, RelaxLu(m, c, c)) && (!modified ==> Holds(a, m))
  {
    hide Tight, Positive;
    modified := RelaxFirstRow(a, c, true, m);
    for i := 1 to a.Length0
      invariant forall p, q {:trigger a[p, q]} :: 0 <= p < |m| && 0 <= q < |m| ==>
        Decode(a[p, q]) == if p < i then RelaxLuEntry(m[p][q], p, q, c[p], c[q]) else m[p][q]
      invariant !modified ==> Holds(a, m)
    {
      var changed := RelaxMRow(a, i, c, m);
      modified := modified || changed;
    }
  }

  method RelaxMPlusInPlace(a: array2<Db>, c: seq<int>, ghost m: Matrix) returns (modified: bool)
    requires Holds(a, m) && Normal(m) && ClockBounds(c, |m|)
    modifies a
    ensures Holds(a, RelaxLuPlus(m, c, c)) && (!modified ==> Holds(a, m))
  {
    hide Tight, Positive;
    modified := false;
    for i := 1 to a.Length0
      invariant forall p, q {:trigger a[p, q]} :: 0 <= p < |m| && 0 <= q < |m| ==>
        Decode(a[p, q]) == if 1 <= p < i then RelaxLuPlusEntry(m[p][q], m[0][p], m[0][q], p, q, c[p], c[q]) else m[p][q]
      invariant !modified ==> Holds(a, m)
    {
      var changed := RelaxMPlusRow(a, i, c, m);
      modified := modified || changed;
    }
    var changed := RelaxFirstRow(a, c, false, m);
    modified := modified || changed;
  }

  method RelaxLuInPlace(a: array2<Db>, l: seq<int>, u: seq<int>, ghost m: Matrix) returns (modified: bool)
    requires Holds(a, m) && Normal(m) && ClockBounds(l, |m|) && ClockBounds(u, |m|)
    modifies a
    ensures Holds(a, RelaxLu(m, l, u)) && (!modified ==> Holds(a, m))
  {
    hide Tight, Positive;
    modified := RelaxFirstRow(a, u, true, m);
    ghost var e := RelaxLu(m, l, u);
    for i := 1 to a.Length0
      invariant forall p, q {:trigger a[p, q]} :: 0 <= p < |m| && 0 <= q < |m| ==>
        Decode(a[p, q]) == if p < i then RelaxLuEntry(m[p][q], p, q, l[p], u[q]) else m[p][q]
      invariant !modified ==> Holds(a, m)
    {
      var changed := RelaxLuRow(a, i, l, u, m);
      modified := modified || changed;
    }
  }

  method RelaxLuPlusInPlace(a: array2<Db>, l: seq<int>, u: seq<int>, ghost m: Matrix) returns (modified: bool)
    requires Holds(a, m) && Normal(m) && ClockBounds(l, |m|) && ClockBounds(u, |m|)
    modifies a
    ensures Holds(a, RelaxLuPlus(m, l, u)) && (!modified ==> Holds(a, m))
  {
    hide Tight, Positive;
    modified := false;
    for i := 1 to a.Length0
      invariant forall p, q {:trigger a[p, q]} :: 0 <= p < |m| && 0 <= q < |m| ==>
        Decode(a[p, q]) == if 1 <= p < i then RelaxLuPlusEntry(m[p][q], m[0][p], m[0][q], p, q, l[p], u[q]) else m[p][q]
      invariant !modified ==> Holds(a, m)
    {
      var changed := RelaxLuPlusRow(a, i, l, u, m);
      modified := modified || changed;
    }
    var changed := RelaxFirstRow(a, u, false, m);
    modified := modified || changed;
  }

  /** The tightening that follows a relaxation; its result is ignored, since it cannot be empty. */
  method CloseInPlace(a: array2<Db>, modified: bool, ghost m: Matrix, ghost e: Matrix, l: seq<int>, u: seq<int>) returns (ok: bool)
    requires Holds(a, e) && (!modified ==> Holds(a, m)) && Normal(m) && |m| == |e|
    requires Consistent(e) && ConsistentThrough(e, |e|) && Normal(Phases(e, |e|))
    requires forall k: nat :: Capped(l, k) && Capped(u, k) ==> Within(e, k as real)
    modifies a
    ensures ok ==> View(a) == Phases(e, |e|)
    ensures !ok ==> forall k: nat :: Capped(l, k) && Capped(u, k) ==> Times(2 * (|m| - 1), k as real) > MAX_VALUE as real
  {
    hide Phases, Times, Tight, Positive, View;
    HoldsIsView(a, e);
    PhasesClose(e);
    if !modified {
      HoldsIsView(a, m);
      Settled(m, Phases(m, |m|));
      return true;
    }
    var s := Tighten(a);
    if s == OutOfRange {
      return false;
    }
    NotEmpty(e);
    Settled(View(a), Phases(e, |e|));
    return true;
  }

  lemma NotEmpty(e: Matrix)
    requires Consistent(e) && ConsistentThrough(e, |e|)
    ensures !Unsatisfiable(e)
  {
    PhasesDecide(e);
  }

  lemma Settled(m: Matrix, c: Matrix)
    requires |m| == |c| && Tight(m) && Consistent(m) && Tight(c) && Consistent(c)
    ensures Equivalent(m, c) ==> m == c
  {
    CanonicalForm(m, c);
  }

  method ExtraLuInPlace(a: array2<Db>, l: seq<int>, u: seq<int>) returns (ok: bool)
    requires Shape(a) && Normal(View(a)) && ClockBounds(l, a.Length0) && ClockBounds(u, a.Length0)
    modifies a
    ensures ok ==> View(a) == ExtraLu(old(View(a)), l, u) && Normal(View(a))
    ensures ok ==> forall v: Valuation :: In(View(a), v) <==> InPlain(old(View(a)), l, u, v)
    ensures !ok ==> forall k: nat :: Capped(l, k) && Capped(u, k) ==> Times(2 * (a.Length0 - 1), k as real) > MAX_VALUE as real
  {
    hide Phases, Times, Tight, Positive, RelaxLu, RelaxLuPlus, Within, InPlain;
    ghost var m := View(a);
    forall k: nat | Capped(l, k) && Capped(u, k)
      ensures Within(RelaxLu(m, l, u), k as real)
    {
      RelaxedAllWithin(m, l, u, k);
    }
    RelaxedShape(m, l, u);
    ExtrapolationsProper(m, l, u, MAX_VALUE);
    var modified := RelaxLuInPlace(a, l, u, m);
    ok := CloseInPlace(a, modified, m, RelaxLu(m, l, u), l, u);
    forall v: Valuation ensures In(ExtraLu(m, l, u), v) <==> InPlain(m, l, u, v) {
      ExtrapolationsExact(m, l, u, v);
    }
  }

  method ExtraLuPlusInPlace(a: array2<Db>, l: seq<int>, u: seq<int>) returns (ok: bool)
    requires Shape(a) && Normal(View(a)) && ClockBounds(l, a.Length0) && ClockBounds(u, a.Length0)
    modifies a
    ensures ok ==> View(a) == ExtraLuPlus(old(View(a)), l, u) && Normal(View(a))
    ensures ok ==> forall v: Valuation :: In(View(a), v) <==> InStrong(old(View(a)), l, u, v)
    ensures !ok ==> forall k: nat :: Capped(l, k) && Capped(u, k) ==> Times(2 * (a.Length0 - 1), k as real) > MAX_VALUE as real
  {
    hide Phases, Times, Tight, Positive, RelaxLu, RelaxLuPlus, Within, InStrong;
    ghost var m := View(a);
    forall k: nat | Capped(l, k) && Capped(u, k)
      ensures Within(RelaxLuPlus(m, l, u), k as real)
    {
      RelaxedAllWithin(m, l, u, k);
    }
    RelaxedShape(m, l, u);
    ExtrapolationsProper(m, l, u, MAX_VALUE);
    var modified := RelaxLuPlusInPlace(a, l, u, m);
    ok := CloseInPlace(a, modified, m, RelaxLuPlus(m, l, u), l, u);
    forall v: Valuation ensures In(ExtraLuPlus(m, l, u), v) <==> InStrong(m, l, u, v) {
      ExtrapolationsExact(m, l, u, v);
    }
  }

  /** The variants by maximal constants compute those by lower and upper bounds with the same constants for both. */
  method ExtraMInPlace(a: array2<Db>, c: seq<int>) returns (ok: bool)
    requires Shape(a) && Normal(View(a)) && ClockBounds(c, a.Length0)
    modifies a
    ensures ok ==> View(a) == ExtraLu(old(View(a)), c, c) && Normal(View(a))
    ensures ok ==> forall v: Valuation :: In(View(a), v) <==> InPlain(old(View(a)), c, c, v)
    ensures !ok ==> forall k: nat :: Capped(c, k) ==> Times(2 * (a.Length0 - 1), k as real) > MAX_VALUE as real
  {
    hide Phases, Times, Tight, Positive, RelaxLu, RelaxLuPlus, Within, InPlain;
    ghost var m := View(a);
    forall k: nat | Capped(c, k)
      ensures Within(RelaxLu(m, c, c), k as real)
    {
      RelaxedAllWithin(m, c, c, k);
    }
    RelaxedShape(m, c, c);
    ExtrapolationsProper(m, c, c, MAX_VALUE);
    var modified := RelaxMInPlace(a, c, m);
    ok := CloseInPlace(a, modified, m, RelaxLu(m, c, c), c, c);
    forall v: Valuation ensures In(ExtraLu(m, c, c), v) <==> InPlain(m, c, c, v) {
      ExtrapolationsExact(m, c, c, v);
    }
  }

  method ExtraMPlusInPlace(a: array2<Db>, c: seq<int>) returns (ok: bool)
    requires Shape(a) && Normal(View(a)) && ClockBounds(c, a.Length0)
    modifies a
    ensures ok ==> View(a) == ExtraLuPlus(old(View(a)), c, c) && Normal(View(a))
    ensures ok ==> forall v: Valuation :: In(View(a), v) <==> InStrong(old(View(a)), c, c, v)
    ensures !ok ==> forall k: nat :: Capped(c, k) ==> Times(2 * (a.Length0 - 1), k as real) > MAX_VALUE as real
  {
    hide Phases, Times, Tight, Positive, RelaxLu, RelaxLuPlus, Within, InStrong;
    ghost var m := View(a);
    forall k: nat | Capped(c, k)
      ensures Within(RelaxLuPlus(m, c, c), k as real)
    {
      RelaxedAllWithin(m, c, c, k);
    }
    RelaxedShape(m, c, c);
    ExtrapolationsProper(m, c, c, MAX_VALUE);
    var modified := RelaxMPlusInPlace(a, c, m);
    ok := CloseInPlace(a, modified, m, RelaxLuPlus(m, c, c), c, c);
    forall v: Valuation ensures In(ExtraLuPlus(m, c, c), v) <==> InStrong(m, c, c, v) {
      ExtrapolationsExact(m, c, c, v);
    }
  }
}
