/** The zone operations, in place on a matrix of encoded bounds. */
module Dbm {
  import opened Wrappers
  import opened Bounds
  import opened Zones
  import opened Encoding
  import opened FloydWarshall
  import opened ZoneOps

  /** `OutOfRange` stands for the exception of an unrepresentable bound. */
  datatype Status = EMPTY | NON_EMPTY | MAY_BE_EMPTY | OutOfRange

  ghost predicate Shape(a: array2<Db>) {
    a.Length0 == a.Length1 >= 1
  }

  ghost function View(a: array2<Db>): (m: Matrix)
    requires Shape(a)
    reads a
    ensures |m| == a.Length0
  {
    seq(a.Length0, i requires 0 <= i < a.Length0 reads a =>
      seq(a.Length1, j requires 0 <= j < a.Length1 reads a => Decode(a[i, j])))
  }

  /** The rows before `i`, and of row `i` the columns before `j`, hold `m'`; the others still hold `m`. */
  ghost predicate Mixed(a: array2<Db>, m: Matrix, m': Matrix, i: int, j: int)
    requires Shape(a) && |m| == |m'| == a.Length0
    reads a
  {
    forall p, q {:trigger a[p, q]} :: 0 <= p < |m| && 0 <= q < |m| ==>
      Decode(a[p, q]) == if p < i || (p == i && q < j) then m'[p][q] else m[p][q]
  }

  method RelaxRow(a: array2<Db>, k: nat, i: nat, ghost m: Matrix) returns (ok: bool)
    requires Shape(a) && |m| == a.Length0 && k < a.Length0 && i < a.Length0 && i != k
    requires m[k][k] == ZERO && Mixed(a, m, Step(m, k), i, 0)
    modifies a
    ensures ok ==> Mixed(a, m, Step(m, k), i + 1, 0)
    ensures !ok ==> exists j :: 0 <= j < |m| && !Fits(Plus(m[i][k], m[k][j]))
  {
    var n := a.Length0;
    ghost var m' := Step(m, k);
    for j := 0 to n
      invariant Mixed(a, m, m', i, j)
    {
      StepPivot(m, k, i);
      var s := Sum(a[i, k], a[k, j]);
      SumExact(a[i, k], a[k, j]);
      if s.None? {
        return false;
      }
      MinExact(s.value, a[i, j]);
      a[i, j] := Encoding.Min(s.value, a[i, j]);
    }
    return true;
  }

  ghost predicate Holds(a: array2<Db>, m: Matrix)
    reads a
  {
    && Shape(a) && |m| == a.Length0
    && forall p, q {:trigger a[p, q]} :: 0 <= p < |m| && 0 <= q < |m| ==> Decode(a[p, q]) == m[p][q]
  }

  lemma HoldsIsView(a: array2<Db>, m: Matrix)
    requires Holds(a, m)
    ensures View(a) == m
  {
    forall i, j | Clock(m, i) && Clock(m, j)
      ensures SameAt(View(a), m, i, j)
    {}
    SameEntries(View(a), m);
  }

  lemma SmallSumFits(d: Bound, e: Bound, b: real)
    requires Small(d, b) && Small(e, b) && b + b <= MAX_VALUE as real
    ensures Fits(Plus(d, e))
  {}

  lemma TimesTwice(k: nat, b: real)
    ensures Times(2 * k, b) == Times(k, b) + Times(k, b)
  {}

  /** With entries within `b` and room for `2 * (dim - 1)` of them, no sum of any phase is refused. */
  lemma SumsFit(m: Matrix, k: nat, i: int, j: int, b: real)
    requires k < |m| && ConsistentThrough(m, k) && Clock(m, i) && Clock(m, j)
    requires Within(m, b) && Times(2 * (|m| - 1), b) <= MAX_VALUE as real
    ensures Fits(Plus(Phases(m, k)[i][k], Phases(m, k)[k][j]))
  {
    hide Phases, ConsistentThrough, Times;
    PhasesWithin(m, k, b);
    assert SmallAt(Phases(m, k), i, k, Times(|m| - 1, b)) && SmallAt(Phases(m, k), k, j, Times(|m| - 1, b));
    TimesTwice(|m| - 1, b);
    SmallSumFits(Phases(m, k)[i][k], Phases(m, k)[k][j], Times(|m| - 1, b));
  }

  /** One phase of Floyd-Warshall, stopping at the first negative diagonal entry. */
  method Phase(a: array2<Db>, k: nat, ghost m: Matrix) returns (s: Status)
    requires Holds(a, m) && Consistent(m) && k < |m|
    modifies a
    ensures s == NON_EMPTY ==> Holds(a, Step(m, k)) && Consistent(Step(m, k))
    ensures s == EMPTY ==> a[0, 0] == LT_ZERO && exists i :: 0 <= i < |m| && Lt(Step(m, k)[i][i], ZERO)
    ensures s == OutOfRange ==> exists i, j :: 0 <= i < |m| && 0 <= j < |m| && !Fits(Plus(m[i][k], m[k][j]))
    ensures s != MAY_BE_EMPTY
  {
    var n := a.Length0;
    ghost var m' := Step(m, k);
    for i := 0 to n
      invariant Mixed(a, m, m', i, 0)
      invariant forall l :: 0 <= l < i ==> m'[l][l] == ZERO
    {
      StepPivot(m, k, i);
      if i == k || a[i, k] == LT_INFINITY {
        continue;
      }
      var ok := RelaxRow(a, k, i, m);
      if !ok {
        return OutOfRange;
      }
      assert Decode(a[i, i]) == m'[i][i];
      OrderEmbedding(a[i, i], LE_ZERO);
      OrderEmbedding(LE_ZERO, a[i, i]);
      if a[i, i] < LE_ZERO {
        a[0, 0] := LT_ZERO;
        return EMPTY;
      }
    }
    return NON_EMPTY;
  }

  /** Floyd-Warshall: exact on the set of solutions, and tight when there are any. */
  method Tighten(a: array2<Db>) returns (s: Status)
    requires Shape(a) && Consistent(View(a))
    modifies a
    ensures s == NON_EMPTY ==> Tight(View(a)) && Consistent(View(a)) && Equivalent(old(View(a)), View(a))
    ensures s == EMPTY ==> Unsatisfiable(old(View(a))) && a[0, 0] == LT_ZERO
    ensures s == OutOfRange ==>
      forall b: real :: Within(old(View(a)), b) ==> Times(2 * (a.Length0 - 1), b) > MAX_VALUE as real
    ensures s != MAY_BE_EMPTY
  {
    hide Step, Times;
    var n := a.Length0;
    ghost var m := View(a);
    for k := 0 to n
      invariant Holds(a, Phases(m, k)) && ConsistentThrough(m, k)
    {
      assert Consistent(Phases(m, k));
      s := Phase(a, k, Phases(m, k));
      assert Phases(m, k + 1) == Step(Phases(m, k), k);
      if s == EMPTY {
        ghost var i :| 0 <= i < n && Lt(Phases(m, k + 1)[i][i], ZERO);
        NegativeDiagonal(m, k + 1, i);
        return;
      }
      if s == OutOfRange {
        ghost var i, j :| 0 <= i < n && 0 <= j < n && !Fits(Plus(Phases(m, k)[i][k], Phases(m, k)[k][j]));
        forall b: real | Within(m, b)
          ensures Times(2 * (n - 1), b) > MAX_VALUE as real
        {
          if Times(2 * (n - 1), b) <= MAX_VALUE as real {
            SumsFit(m, k, i, j, b);
          }
        }
        return;
      }
    }
    HoldsIsView(a, Phases(m, n));
    PhasesClose(m);
    return NON_EMPTY;
  }

  // ----- adding one constraint to a tight matrix -----

  /** Row `i` is improved by going through `y`. */
  method ThroughRow(a: array2<Db>, i: nat, y: nat) returns (ok: bool)
    requires Shape(a) && i < a.Length0 && y < a.Length0
    requires i == y ==> a[y, y] < LE_ZERO
    requires i != y ==> a[y, y] == LE_ZERO
    modifies a
    ensures forall p, q :: 0 <= p < a.Length0 && 0 <= q < a.Length0 && p != i ==> a[p, q] == old(a[p, q])
    ensures ok && i != y ==> forall j :: 0 <= j < a.Length0 ==>
      Decode(a[i, j]) == Bounds.Min(Plus(old(Decode(a[i, y])), old(Decode(a[y, j]))), old(Decode(a[i, j])))
    ensures ok && i == y ==> a[y, y] < LE_ZERO
    ensures !ok ==> exists j ::
      && 0 <= j < a.Length0
      && (|| !Fits(Plus(old(Decode(a[i, y])), old(Decode(a[y, j]))))
          || (i == y && j != y && !Fits(Plus(Plus(old(Decode(a[y, y])), old(Decode(a[y, y]))), old(Decode(a[y, j]))))))
  {
    var n := a.Length0;
    ghost var c := Decode(a[i, y]);
    for j := 0 to n
      invariant forall p, q :: 0 <= p < n && 0 <= q < n && (p != i || j <= q) ==> a[p, q] == old(a[p, q])
      invariant i != y ==> forall q :: 0 <= q < j ==>
        Decode(a[i, q]) == Bounds.Min(Plus(c, old(Decode(a[y, q]))), old(Decode(a[i, q])))
      invariant i != y ==> Decode(a[i, y]) == c
      invariant i == y ==> a[y, y] < LE_ZERO && (Decode(a[y, y]) == c || (y < j && Decode(a[y, y]) == Plus(c, c)))
    {
      var t := Sum(a[i, y], a[y, j]);
      SumExact(a[i, y], a[y, j]);
      if t.None? {
        return false;
      }
      MinExact(a[i, j], t.value);
      OrderEmbedding(a[i, j], LE_ZERO);
      OrderEmbedding(LE_ZERO, a[i, j]);
      a[i, j] := Encoding.Min(a[i, j], t.value);
    }
    return true;
  }

  /** Bounds within `r`, and room for five of them. */
  ghost predicate Roomy(m: Matrix, b: Bound, r: real) {
    Within(m, r) && Small(b, r) && 5.0 * r <= MAX_VALUE as real
  }

  /** The bound on `i - y` through the new edge. */
  ghost function Via(m: Matrix, i: int, x: int, b: Bound): Bound
    requires Clock(m, i) && Clock(m, x)
  {
    if i == x then b else Plus(m[i][x], b)
  }

  /** The loop closed by the new edge. */
  lemma LoopOverEdge(m: Matrix, x: int, y: int, b: Bound, i: int)
    requires Clock(m, x) && Clock(m, y) && Clock(m, i) && Tight(m) && Consistent(m)
    ensures Lt(Plus(Via(m, i, x, b), m[y][i]), ZERO) ==> Lt(Plus(b, m[y][x]), ZERO)
  {
    assert TightAt(m, y, i, x);
  }

  /** The rows of `Squeeze` that need no work. */
  lemma SqueezeRows(m: Matrix, x: int, y: int, b: Bound)
    requires Clock(m, x) && Clock(m, y) && x != y && Tight(m) && Consistent(m) && Lt(b, m[x][y])
    ensures Squeeze(m, x, y, b)[x][y] == b
    ensures Le(ZERO, Plus(b, m[y][x])) ==> Squeeze(m, x, y, b)[y] == m[y]
    ensures forall i :: 0 <= i < |m| && Le(m[i][y], Plus(m[i][x], b)) ==> Squeeze(m, x, y, b)[i] == m[i]
  {
    var e := Squeeze(m, x, y, b);
    if Le(ZERO, Plus(b, m[y][x])) {
      forall j | 0 <= j < |m| ensures e[y][j] == m[y][j] {}
    }
    forall i | 0 <= i < |m| && Le(m[i][y], Plus(m[i][x], b))
      ensures e[i] == m[i]
    {
      forall j | 0 <= j < |m|
        ensures e[i][j] == m[i][j]
      {
        assert TightAt(m, i, y, j);
      }
    }
  }

  lemma RoomyFits(m: Matrix, x: int, y: int, b: Bound, i: int, j: int, r: real)
    requires Clock(m, x) && Clock(m, y) && Clock(m, i) && Clock(m, j) && Roomy(m, b, r)
    ensures var c := Via(m, i, x, b);
            Fits(Plus(m[i][x], b)) && Fits(Plus(c, m[y][j])) && Fits(Plus(c, c)) && Fits(Plus(Plus(c, c), m[y][j]))
  {
    assert SmallAt(m, i, x, r) && SmallAt(m, y, j, r);
  }

  lemma AllFit(m: Matrix, x: int, y: int, b: Bound, i: int, r: real)
    requires Clock(m, x) && Clock(m, y) && Clock(m, i) && Roomy(m, b, r)
    ensures var c := Via(m, i, x, b);
            Fits(Plus(c, c)) &&
            forall j :: 0 <= j < |m| ==> Fits(Plus(c, m[y][j])) && Fits(Plus(Plus(c, c), m[y][j]))
  {
    forall j | 0 <= j < |m|
      ensures var c := Via(m, i, x, b);
        Fits(Plus(c, m[y][j])) && Fits(Plus(c, c)) && Fits(Plus(Plus(c, c), m[y][j]))
    {
      RoomyFits(m, x, y, b, i, j, r);
    }
    RoomyFits(m, x, y, b, i, i, r);
  }

  lemma ViaRow(m: Matrix, x: int, y: int, b: Bound, i: int)
    requires Clock(m, x) && Clock(m, y) && Clock(m, i) && x != y && Consistent(m) && Lt(Via(m, i, x, b), m[i][y])
    ensures forall j :: 0 <= j < |m| ==>
      Squeeze(m, x, y, b)[i][j] ==
        Bounds.Min(Plus(Via(m, i, x, b), m[y][j]), if j == y then Via(m, i, x, b) else m[i][j])
  {}

  /** Row `i` holds the bound through the new edge in column `y`, and is otherwise unprocessed. */
  ghost predicate EdgeReady(a: array2<Db>, i: int, x: int, y: int, m: Matrix, b: Bound)
    requires Shape(a) && |m| == a.Length0 && Clock(m, i) && Clock(m, x) && Clock(m, y)
    reads a
  {
    forall p, q {:trigger a[p, q]} :: 0 <= p < |m| && 0 <= q < |m| ==>
      Decode(a[p, q]) == if p < i then Squeeze(m, x, y, b)[p][q]
                         else if p == i then if q == y then Via(m, i, x, b) else m[i][q]
                         else WithEdge(m, x, y, b)[p][q]
  }

  /** Row `y` is as before. */
  lemma TargetRow(a: array2<Db>, i: int, x: int, y: int, m: Matrix, b: Bound)
    requires Shape(a) && |m| == a.Length0 && Clock(m, i) && Clock(m, x) && Clock(m, y) && x != y
    requires Tight(m) && Consistent(m) && Lt(b, m[x][y]) && EdgeReady(a, i, x, y, m, b)
    requires x < i || y < i ==> Le(ZERO, Plus(b, m[y][x]))
    ensures forall j :: 0 <= j < |m| && (i != y || j != y) ==> Decode(a[y, j]) == m[y][j]
  {
    SqueezeRows(m, x, y, b);
  }

  method EdgeRowEnd(a: array2<Db>, i: nat, x: nat, y: nat, ghost m: Matrix, ghost b: Bound) returns (s: Status)
    requires Shape(a) && |m| == a.Length0 && i < |m| && x < |m| && y < |m| && x != y
    requires Tight(m) && Consistent(m) && Lt(b, m[x][y])
    requires EdgeReady(a, i, x, y, m, b)
    requires x < i || y < i ==> Le(ZERO, Plus(b, m[y][x]))
    requires Lt(Via(m, i, x, b), m[i][y])
    modifies a
    ensures s == MAY_BE_EMPTY ==> Mixed(a, WithEdge(m, x, y, b), Squeeze(m, x, y, b), i + 1, 0)
    ensures s == MAY_BE_EMPTY && (i == x || i == y) ==> Le(ZERO, Plus(b, m[y][x]))
    ensures s == EMPTY ==> a[0, 0] == LT_ZERO && Lt(Plus(b, m[y][x]), ZERO)
    ensures s == OutOfRange ==> forall r: real :: !Roomy(m, b, r)
    ensures s != NON_EMPTY
  {
    hide Squeeze, WithEdge;
    ViaRow(m, x, y, b, i);
    TargetRow(a, i, x, y, m, b);
    OrderEmbedding(a[y, y], LE_ZERO);
    OrderEmbedding(LE_ZERO, a[y, y]);
    var ok := ThroughRow(a, i, y);
    if !ok {
      forall r: real ensures !Roomy(m, b, r) {
        if Roomy(m, b, r) {
          AllFit(m, x, y, b, i, r);
        }
      }
      return OutOfRange;
    }
    OrderEmbedding(a[i, i], LE_ZERO);
    OrderEmbedding(LE_ZERO, a[i, i]);
    LoopOverEdge(m, x, y, b, i);
    if a[i, i] < LE_ZERO {
      a[0, 0] := LT_ZERO;
      return EMPTY;
    }
    return MAY_BE_EMPTY;
  }

  method EdgeRow(a: array2<Db>, i: nat, x: nat, y: nat, ghost m: Matrix, ghost b: Bound) returns (s: Status)
    requires Shape(a) && |m| == a.Length0 && i < |m| && x < |m| && y < |m| && x != y
    requires Tight(m) && Consistent(m) && Lt(b, m[x][y])
    requires Mixed(a, WithEdge(m, x, y, b), Squeeze(m, x, y, b), i, 0)
    requires x < i || y < i ==> Le(ZERO, Plus(b, m[y][x]))
    modifies a
    ensures s == MAY_BE_EMPTY ==> Mixed(a, WithEdge(m, x, y, b), Squeeze(m, x, y, b), i + 1, 0)
    ensures s == MAY_BE_EMPTY && (i == x || i == y) ==> Le(ZERO, Plus(b, m[y][x]))
    ensures s == EMPTY ==> a[0, 0] == LT_ZERO && Lt(Plus(b, m[y][x]), ZERO)
    ensures s == OutOfRange ==> forall r: real :: !Roomy(m, b, r)
    ensures s != NON_EMPTY
  {
    SqueezeRows(m, x, y, b);
    if i != x {
      var d := Sum(a[i, x], a[x, y]);
      SumExact(a[i, x], a[x, y]);
      if d.None? {
        forall r: real ensures !Roomy(m, b, r) {
          if Roomy(m, b, r) {
            RoomyFits(m, x, y, b, i, i, r);
          }
        }
        return OutOfRange;
      }
      OrderEmbedding(a[i, y], d.value);
      if d.value >= a[i, y] {
        return MAY_BE_EMPTY;
      }
      a[i, y] := d.value;
    }
    s := EdgeRowEnd(a, i, x, y, m, b);
  }

  /** The incremental tightening after the bound on `x - y` of a tight matrix has been lowered. */
  method TightenEdge(a: array2<Db>, x: nat, y: nat, ghost m: Matrix, ghost b: Bound) returns (s: Status)
    requires Shape(a) && |m| == a.Length0 && x < |m| && y < |m| && x != y
    requires Tight(m) && Consistent(m) && Lt(b, m[x][y]) && Holds(a, WithEdge(m, x, y, b))
    modifies a
    ensures s == MAY_BE_EMPTY ==> Holds(a, Squeeze(m, x, y, b)) && Le(ZERO, Plus(b, m[y][x]))
    ensures s == EMPTY ==> a[0, 0] == LT_ZERO && Lt(Plus(b, m[y][x]), ZERO)
    ensures s == OutOfRange ==> forall r: real :: !Roomy(m, b, r)
    ensures s != NON_EMPTY
  {
    hide Squeeze;
    if a[x, y] == LT_INFINITY {
      return MAY_BE_EMPTY;
    }
    for i := 0 to a.Length0
      invariant Mixed(a, WithEdge(m, x, y, b), Squeeze(m, x, y, b), i, 0)
      invariant x < i || y < i ==> Le(ZERO, Plus(b, m[y][x]))
    {
      s := EdgeRow(a, i, x, y, m, b);
      if s != MAY_BE_EMPTY {
        return;
      }
    }
    return MAY_BE_EMPTY;
  }

  /** The bound of a constraint `cmp value`. */
  function BoundOf(cmp: Comparator, value: int): Bound {
    Fin(value as real, cmp.LE?)
  }

  /** Adding `x - y cmp value` to a tight matrix: exactly the valuations that also satisfy the constraint remain. */
  method Constrain(a: array2<Db>, x: nat, y: nat, cmp: Comparator, value: int) returns (s: Status)
    requires Shape(a) && Tight(View(a)) && Consistent(View(a)) && x < a.Length0 && y < a.Length0
    requires x != y || Le(ZERO, BoundOf(cmp, value))
    modifies a
    ensures s == NON_EMPTY ==> View(a) == Squeeze(old(View(a)), x, y, BoundOf(cmp, value))
    ensures s == NON_EMPTY ==> Tight(View(a)) && Consistent(View(a))
    ensures s == NON_EMPTY ==> forall v: Valuation :: Sat(View(a), v) <==>
      |v| == a.Length0 && Sat(old(View(a)), v) && Meets(v[x] - v[y], BoundOf(cmp, value))
    ensures s == EMPTY ==> a[0, 0] == LT_ZERO && forall v: Valuation :: Sat(old(View(a)), v) ==>
      !Meets(v[x] - v[y], BoundOf(cmp, value))
    ensures s == OutOfRange ==> !InRange(value) || forall r: real ::
      Within(old(View(a)), r) && Small(BoundOf(cmp, value), r) ==> 5.0 * r > MAX_VALUE as real
    ensures s != MAY_BE_EMPTY
  {
    hide Squeeze;
    ghost var m, b := View(a), BoundOf(cmp, value);
    var d := Make(cmp, value);
    MakeExact(cmp, value);
    if d.None? {
      return OutOfRange;
    }
    OrderEmbedding(a[x, y], d.value);
    if d.value >= a[x, y] {
      SqueezeImplied(m, x, y, b);
      s := NON_EMPTY;
    } else {
      a[x, y] := d.value;
      s := TightenEdge(a, x, y, m, b);
      if s == MAY_BE_EMPTY {
        HoldsIsView(a, Squeeze(m, x, y, b));
        SqueezeTight(m, x, y, b);
        s := NON_EMPTY;
      }
    }
    if s == OutOfRange {
      forall r: real | Within(m, r) && Small(b, r) ensures 5.0 * r > MAX_VALUE as real {
        assert !Roomy(m, b, r);
      }
    }
    if s == EMPTY {
      SqueezeEmpty(m, x, y, b);
    }
    forall v: Valuation | |v| == |m| {
      SqueezeSat(m, x, y, b, v);
    }
  }

  // ----- comparison -----

  lemma CellsBelow(a1: array2<Db>, a2: array2<Db>)
    requires Shape(a1) && Shape(a2) && a1.Length0 == a2.Length0
    ensures Entrywise(View(a1), View(a2)) <==>
      forall p, q :: 0 <= p < a1.Length0 && 0 <= q < a1.Length0 ==> a1[p, q] <= a2[p, q]
  {
    var m1, m2 := View(a1), View(a2);
    forall p, q | 0 <= p < a1.Length0 && 0 <= q < a1.Length0
      ensures a1[p, q] <= a2[p, q] <==> Clock(m1, p) && Clock(m1, q) && LeAt(m1, m2, p, q)
    {
      OrderEmbedding(a1[p, q], a2[p, q]);
    }
  }

  lemma CellsSame(a1: array2<Db>, a2: array2<Db>)
    requires Shape(a1) && Shape(a2) && a1.Length0 == a2.Length0
    ensures View(a1) == View(a2) <==>
      forall p, q :: 0 <= p < a1.Length0 && 0 <= q < a1.Length0 ==> a1[p, q] == a2[p, q]
  {
    var m1, m2 := View(a1), View(a2);
    forall p, q | 0 <= p < a1.Length0 && 0 <= q < a1.Length0
      ensures a1[p, q] == a2[p, q] <==> Clock(m1, p) && Clock(m1, q) && SameAt(m1, m2, p, q)
    {
      OrderEmbedding(a1[p, q], a2[p, q]);
    }
    if forall p, q :: 0 <= p < a1.Length0 && 0 <= q < a1.Length0 ==> a1[p, q] == a2[p, q] {
      SameEntries(m1, m2);
    }
  }

  /** Inclusion of zones is decided entry by entry. */
  method IsLe(a1: array2<Db>, a2: array2<Db>) returns (r: bool)
    requires Shape(a1) && Shape(a2) && a1.Length0 == a2.Length0
    requires Tight(View(a1)) && Consistent(View(a1)) && Tight(View(a2)) && Consistent(View(a2))
    ensures r <==> Included(View(a1), View(a2))
  {
    hide View, Included, Entrywise, Tight, Consistent;
    Canonical(View(a1), View(a2));
    CellsBelow(a1, a2);
    for i := 0 to a1.Length0
      invariant forall p, q :: 0 <= p < i && 0 <= q < a1.Length0 ==> a1[p, q] <= a2[p, q]
    {
      for j := 0 to a1.Length1
        invariant forall q :: 0 <= q < j ==> a1[i, q] <= a2[i, q]
      {
        if a1[i, j] > a2[i, j] {
          return false;
        }
      }
    }
    return true;
  }

  /** So is equality. */
  method IsEqual(a1: array2<Db>, a2: array2<Db>) returns (r: bool)
    requires Shape(a1) && Shape(a2) && a1.Length0 == a2.Length0
    requires Tight(View(a1)) && Consistent(View(a1)) && Tight(View(a2)) && Consistent(View(a2))
    ensures r <==> SameZone(View(a1), View(a2))
  {
    hide View, SameZone, Entrywise, Tight, Consistent;
    CanonicalForm(View(a1), View(a2));
    CellsSame(a1, a2);
    for i := 0 to a1.Length0
      invariant forall p, q :: 0 <= p < i && 0 <= q < a1.Length0 ==> a1[p, q] == a2[p, q]
    {
      for j := 0 to a1.Length1
        invariant forall q :: 0 <= q < j ==> a1[i, q] == a2[i, q]
      {
        if a1[i, j] != a2[i, j] {
          return false;
        }
      }
    }
    return true;
  }

  // ----- resets -----

  /** Entries and value within `r`, and room for two of them. */
  ghost predicate RoomForTwo(m: Matrix, value: int, r: real) {
    Within(m, r) && -r <= value as real <= r && r + r <= MAX_VALUE as real
  }

  lemma RoomForTwoFits(m: Matrix, value: int, r: real, d: Bound)
    requires RoomForTwo(m, value, r) && Small(d, r)
    ensures Fits(Plus(d, Fin(value as real, true))) && Fits(Plus(d, Fin(-value as real, true)))
  {}

  lemma EntryFits(m: Matrix, value: int, r: real, i: int, j: int)
    requires RoomForTwo(m, value, r) && Clock(m, i) && Clock(m, j)
    ensures Fits(Plus(m[i][j], Fin(value as real, true))) && Fits(Plus(m[i][j], Fin(-value as real, true)))
  {
    assert SmallAt(m, i, j, r);
  }

  /** Rows and columns other than `x`, and of row and column `x` those from `k` on, still hold `m`;
      the earlier ones of row and column `x` hold `m'`; the entry where they cross is left open. */
  ghost predicate CrossMixed(a: array2<Db>, m: Matrix, m': Matrix, x: int, k: int)
    requires Shape(a) && |m| == |m'| == a.Length0 && Clock(m, x)
    reads a
  {
    forall p, q {:trigger a[p, q]} :: 0 <= p < |m| && 0 <= q < |m| && !(p == q == x) ==>
      Decode(a[p, q]) == if (p == x && q < k) || (q == x && p < k) then m'[p][q] else m[p][q]
  }

  lemma CrossDone(a: array2<Db>, m: Matrix, x: int, y: int, c: real)
    requires Shape(a) && |m| == a.Length0 && Clock(m, x) && Clock(m, y) && Consistent(m)
    requires CrossMixed(a, m, Reset(m, x, y, c), x, |m|) && Decode(a[x, x]) == ZERO
    ensures View(a) == Reset(m, x, y, c)
  {
    hide Reset, Decode;
    var e := Reset(m, x, y, c);
    forall p, q | 0 <= p < |m| && 0 <= q < |m|
      ensures Decode(a[p, q]) == e[p][q]
    {
      ResetCross(m, x, y, c, x);
      if p != x && q != x {
        ResetElsewhere(m, x, y, c, p, q);
      }
    }
    HoldsIsView(a, e);
  }

  /** What the assignment reads is an entry of the original matrix, or has the size of the added value. */
  lemma ReadSmall(a: array2<Db>, m: Matrix, x: int, y: int, value: int, z: int, r: real)
    requires Shape(a) && |m| == a.Length0 && Clock(m, x) && Clock(m, y) && Clock(m, z) && Consistent(m)
    requires CrossMixed(a, m, Reset(m, x, y, value as real), x, z) && RoomForTwo(m, value, r)
    requires z == x == y ==> Decode(a[x, x]) == ZERO
    ensures Small(Decode(a[y, z]), r) && (z == x == y || Small(Decode(a[z, y]), r))
  {
    hide Reset, Decode;
    ResetCross(m, x, y, value as real, y);
    assert SmallAt(m, y, z, r) && SmallAt(m, z, y, r);
  }

  lemma PlusMinus(value: int)
    ensures Plus(Plus(ZERO, Fin(value as real, true)), Fin(-value as real, true)) == ZERO
    ensures Fits(ZERO)
  {}

  method ResetCell(a: array2<Db>, x: nat, y: nat, value: int, z: nat, ghost m: Matrix) returns (ok: bool)
    requires Shape(a) && |m| == a.Length0 && x < |m| && y < |m| && z < |m| && Consistent(m)
    requires CrossMixed(a, m, Reset(m, x, y, value as real), x, z)
    requires y == x ==> Decode(a[x, x]) == ZERO
    modifies a
    ensures ok ==> CrossMixed(a, m, Reset(m, x, y, value as real), x, z + 1)
    ensures ok && y == x ==> Decode(a[x, x]) == ZERO
    ensures !ok ==> forall r: real :: !RoomForTwo(m, value, r)
  {
    hide Reset, Consistent, RoomForTwo, Fits, Small, Decode, Add, Plus;
    ResetCross(m, x, y, value as real, z);
    PlusMinus(value);
    forall r: real | RoomForTwo(m, value, r)
      ensures Fits(Plus(Decode(a[y, z]), Fin(value as real, true)))
      ensures z == x == y || Fits(Plus(Decode(a[z, y]), Fin(-value as real, true)))
    {
      ReadSmall(a, m, x, y, value, z, r);
      RoomForTwoFits(m, value, r, Decode(a[y, z]));
      if !(z == x == y) {
        RoomForTwoFits(m, value, r, Decode(a[z, y]));
      }
    }
    var s := Add(a[y, z], value);
    AddExact(a[y, z], value);
    if s.None? {
      return false;
    }
    a[x, z] := s.value;
    var t := Add(a[z, y], -value);
    AddExact(a[z, y], -value);
    if t.None? {
      return false;
    }
    a[z, x] := t.value;
    return true;
  }

  /** `x := y + value`, also for `x == y` and for the reference clock `y == 0`. */
  method ResetToSum(a: array2<Db>, x: nat, y: nat, value: int) returns (ok: bool)
    requires Shape(a) && Tight(View(a)) && Consistent(View(a)) && 1 <= x < a.Length0 && y < a.Length0 && 0 <= value
    modifies a
    ensures ok ==> View(a) == Reset(old(View(a)), x, y, value as real) && Tight(View(a)) && Consistent(View(a))
    ensures !ok ==> forall r: real :: !RoomForTwo(old(View(a)), value, r)
  {
    ghost var m := View(a);
    ghost var m' := Reset(m, x, y, value as real);
    ResetTight(m, x, y, value as real);
    assert CrossMixed(a, m, m', x, 0);
    hide Reset, Tight, View;
    for z := 0 to a.Length0
      invariant CrossMixed(a, m, m', x, z)
      invariant y == x ==> Decode(a[x, x]) == ZERO
    {
      ok := ResetCell(a, x, y, value, z, m);
      if !ok {
        return;
      }
    }
    a[x, x] := LE_ZERO;
    CrossDone(a, m, x, y, value as real);
    return true;
  }

  method ResetToValue(a: array2<Db>, x: nat, value: int) returns (ok: bool)
    requires Shape(a) && Tight(View(a)) && Consistent(View(a)) && 1 <= x < a.Length0 && 0 <= value
    modifies a
    ensures ok ==> View(a) == Reset(old(View(a)), x, 0, value as real) && Tight(View(a)) && Consistent(View(a))
    ensures !ok ==> forall r: real :: !RoomForTwo(old(View(a)), value, r)
  {
    ghost var m := View(a);
    ghost var m' := Reset(m, x, 0, value as real);
    ResetTight(m, x, 0, value as real);
    hide Reset, Tight;
    var up, down := Make(LE, value), Make(LE, -value);
    MakeExact(LE, value);
    MakeExact(LE, -value);
    if up.None? || down.None? {
      return false;
    }
    ValueColumn(a, x, value, up.value, down.value, m);
    hide View, Decode;
    for y := 1 to a.Length0
      invariant CrossMixed(a, m, m', x, y)
      invariant Decode(a[x, 0]) == Fin(value as real, true) && Decode(a[0, x]) == Fin(-value as real, true)
      invariant Decode(a[x, x]) == ZERO
    {
      ok := ValueCell(a, x, value, y, m);
      if !ok {
        return;
      }
    }
    CrossDone(a, m, x, 0, value as real);
    return true;
  }

  /** Column 0 of the reset: `x == value`. */
  method ValueColumn(a: array2<Db>, x: nat, value: int, up: Db, down: Db, ghost m: Matrix)
    requires Holds(a, m) && 1 <= x < |m| && Consistent(m)
    requires Decode(up) == Fin(value as real, true) && Decode(down) == Fin(-value as real, true)
    modifies a
    ensures CrossMixed(a, m, Reset(m, x, 0, value as real), x, 1) && Decode(a[x, x]) == ZERO
    ensures Decode(a[x, 0]) == Fin(value as real, true) && Decode(a[0, x]) == Fin(-value as real, true)
  {
    ResetCross(m, x, 0, value as real, 0);
    hide Reset;
    a[x, 0] := up;
    a[0, x] := down;
  }

  /** The bounds between `x` and `y` go through clock 0. */
  method ValueCell(a: array2<Db>, x: nat, value: int, y: nat, ghost m: Matrix) returns (ok: bool)
    requires Shape(a) && |m| == a.Length0 && 1 <= x < |m| && 1 <= y < |m| && Consistent(m)
    requires CrossMixed(a, m, Reset(m, x, 0, value as real), x, y) && Decode(a[x, x]) == ZERO
    requires Decode(a[x, 0]) == Fin(value as real, true) && Decode(a[0, x]) == Fin(-value as real, true)
    modifies a
    ensures ok ==> CrossMixed(a, m, Reset(m, x, 0, value as real), x, y + 1) && Decode(a[x, x]) == ZERO
    ensures ok ==> Decode(a[x, 0]) == Fin(value as real, true) && Decode(a[0, x]) == Fin(-value as real, true)
    ensures !ok ==> forall r: real :: !RoomForTwo(m, value, r)
  {
    hide Reset, Consistent, RoomForTwo, Fits, Small, Decode, Sum, Plus;
    ResetCross(m, x, 0, value as real, y);
    PlusCommutes(m[0][y], Fin(value as real, true));
    PlusZero(value);
    assert y != x ==> Decode(a[0, y]) == m[0][y] && Decode(a[y, 0]) == m[y][0];
    forall r: real | RoomForTwo(m, value, r)
      ensures Fits(Plus(m[0][y], Fin(value as real, true))) && Fits(Plus(m[y][0], Fin(-value as real, true)))
    {
      EntryFits(m, value, r, 0, y);
      EntryFits(m, value, r, y, 0);
    }
    var s := Sum(a[x, 0], a[0, y]);
    SumExact(a[x, 0], a[0, y]);
    if s.None? {
      return false;
    }
    a[x, y] := s.value;
    var t := Sum(a[y, 0], a[0, x]);
    SumExact(a[y, 0], a[0, x]);
    if t.None? {
      return false;
    }
    a[y, x] := t.value;
    return true;
  }

  lemma PlusCommutes(d: Bound, e: Bound)
    ensures Plus(d, e) == Plus(e, d)
  {}

  lemma PlusZero(value: int)
    ensures Plus(Fin(value as real, true), Fin(-value as real, true)) == ZERO
    ensures Fits(ZERO)
  {}

  method ResetToClock(a: array2<Db>, x: nat, y: nat)
    requires Shape(a) && Tight(View(a)) && Consistent(View(a)) && 1 <= x < a.Length0 && 1 <= y < a.Length0
    modifies a
    ensures View(a) == Reset(old(View(a)), x, y, 0.0) && Tight(View(a)) && Consistent(View(a))
  {
    ghost var m := View(a);
    ghost var m' := Reset(m, x, y, 0.0);
    ResetTight(m, x, y, 0.0);
    assert CrossMixed(a, m, m', x, 0) && Decode(LE_ZERO) == ZERO;
    hide Reset, Tight, View, Decode;
    for z := 0 to a.Length0
      invariant CrossMixed(a, m, m', x, z)
    {
      CopyCell(a, x, y, z, m);
    }
    a[x, x] := LE_ZERO;
    CrossDone(a, m, x, y, 0.0);
  }

  method CopyCell(a: array2<Db>, x: nat, y: nat, z: nat, ghost m: Matrix)
    requires Shape(a) && |m| == a.Length0 && x < |m| && y < |m| && z < |m| && Consistent(m)
    requires CrossMixed(a, m, Reset(m, x, y, 0.0), x, z)
    modifies a
    ensures CrossMixed(a, m, Reset(m, x, y, 0.0), x, z + 1)
  {
    ResetCross(m, x, y, 0.0, z);
    ResetCross(m, x, y, 0.0, y);
    hide Reset, Decode;
    a[x, z] := a[y, z];
    a[z, x] := a[z, y];
  }

  /** The dispatcher: whichever routine runs, the matrix is that of `x := y + value`. */
  method ResetClock(a: array2<Db>, x: nat, y: nat, value: int) returns (ok: bool)
    requires Shape(a) && Tight(View(a)) && Consistent(View(a)) && 1 <= x < a.Length0 && y < a.Length0 && 0 <= value
    modifies a
    ensures ok ==> View(a) == Reset(old(View(a)), x, y, value as real) && Tight(View(a)) && Consistent(View(a))
    ensures !ok ==> forall r: real :: Within(old(View(a)), r) && value as real <= r ==> r + r > MAX_VALUE as real
  {
    ghost var m := View(a);
    if y == 0 {
      ok := ResetToValue(a, x, value);
    } else if value == 0 {
      ResetToClock(a, x, y);
      ok := true;
    } else {
      ok := ResetToSum(a, x, y, value);
    }
    if !ok {
      forall r: real | Within(m, r) && value as real <= r ensures r + r > MAX_VALUE as real {
        assert !RoomForTwo(m, value, r);
      }
    }
  }

  // ----- delay and intersection -----

  method LetTimePass(a: array2<Db>)
    requires Shape(a) && Tight(View(a)) && Consistent(View(a))
    modifies a
    ensures View(a) == OpenUp(old(View(a))) && Tight(View(a)) && Consistent(View(a))
  {
    ghost var m := View(a);
    for i := 1 to a.Length0
      invariant forall p, q {:trigger a[p, q]} :: 0 <= p < |m| && 0 <= q < |m| ==>
        Decode(a[p, q]) == if 1 <= p < i && q == 0 then Inf else m[p][q]
    {
      a[i, 0] := LT_INFINITY;
    }
    HoldsIsView(a, OpenUp(m));
    OpenUpTight(m);
  }

  /** The matrix of the tighter entries; the result may be one of the operands. */
  method MinInto(a: array2<Db>, a1: array2<Db>, a2: array2<Db>)
    requires Shape(a) && Shape(a1) && Shape(a2) && a.Length0 == a1.Length0 == a2.Length0
    modifies a
    ensures View(a) == Meet(old(View(a1)), old(View(a2)))
  {
    var n := a.Length0;
    for i := 0 to n
      invariant forall p, q :: 0 <= p < i && 0 <= q < n ==> a[p, q] == Encoding.Min(old(a1[p, q]), old(a2[p, q]))
      invariant forall p, q :: i <= p < n && 0 <= q < n ==> a1[p, q] == old(a1[p, q]) && a2[p, q] == old(a2[p, q])
    {
      for j := 0 to n
        invariant forall p, q :: 0 <= p < i && 0 <= q < n ==> a[p, q] == Encoding.Min(old(a1[p, q]), old(a2[p, q]))
        invariant forall q :: 0 <= q < j ==> a[i, q] == Encoding.Min(old(a1[i, q]), old(a2[i, q]))
        invariant forall q :: j <= q < n ==> a1[i, q] == old(a1[i, q]) && a2[i, q] == old(a2[i, q])
        invariant forall p, q :: i < p < n && 0 <= q < n ==> a1[p, q] == old(a1[p, q]) && a2[p, q] == old(a2[p, q])
      {
        a[i, j] := Encoding.Min(a1[i, j], a2[i, j]);
      }
    }
    ghost var e := Meet(old(View(a1)), old(View(a2)));
    forall p, q | 0 <= p < n && 0 <= q < n
      ensures Decode(a[p, q]) == e[p][q]
    {
      MinExact(old(a1[p, q]), old(a2[p, q]));
    }
    HoldsIsView(a, e);
  }

  method Intersection(a: array2<Db>, a1: array2<Db>, a2: array2<Db>) returns (s: Status)
    requires Shape(a) && Shape(a1) && Shape(a2) && a.Length0 == a1.Length0 == a2.Length0
    requires Tight(View(a1)) && Consistent(View(a1)) && Tight(View(a2)) && Consistent(View(a2))
    modifies a
    ensures s == NON_EMPTY ==> Tight(View(a)) && Consistent(View(a))
    ensures s == NON_EMPTY ==>
      forall v: Valuation :: In(View(a), v) <==> In(old(View(a1)), v) && In(old(View(a2)), v)
    ensures s == EMPTY ==>
      forall v: Valuation :: !(In(old(View(a1)), v) && In(old(View(a2)), v))
    ensures s == EMPTY ==> a[0, 0] == LT_ZERO
    ensures s == OutOfRange ==> forall b: real ::
      Within(Meet(old(View(a1)), old(View(a2))), b) ==> Times(2 * (a.Length0 - 1), b) > MAX_VALUE as real
    ensures s != MAY_BE_EMPTY
  {
    ghost var m1, m2 := View(a1), View(a2);
    MinInto(a, a1, a2);
    s := Tighten(a);
    forall v: Valuation
      ensures In(Meet(m1, m2), v) <==> In(m1, v) && In(m2, v)
    {
      MeetExact(m1, m2, v);
    }
  }
}
