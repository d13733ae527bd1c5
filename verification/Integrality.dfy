/** Matrices whose bounds are integers, as those in store are, and the steps that keep them so. */
module Integrality {
  import opened Wrappers
  import opened Bounds
  import opened Zones
  import opened FloydWarshall
  import opened Encoding
  import opened LuSimulation
  import opened ZoneOps
  import opened Extrapolation
  import opened ZoneGraph

  /** The constants of a matrix are integers, as the encoding of bounds has it. */
  ghost predicate Whole(b: Bound) {
    b.Fin? ==> exists k: int :: Equals(b.value, k)
  }

  predicate Equals(r: real, k: int) {
    r == k as real
  }

  ghost predicate WholeAt(m: Matrix, i: int, j: int)
    requires Clock(m, i) && Clock(m, j)
  {
    Whole(m[i][j])
  }

  ghost predicate Integral(m: Matrix) {
    forall i, j :: Clock(m, i) && Clock(m, j) ==> WholeAt(m, i, j)
  }

  lemma WholePlus(b: Bound, c: Bound)
    requires Whole(b) && Whole(c)
    ensures Whole(Plus(b, c)) && Whole(Bounds.Min(b, c))
  {
    if b.Fin? && c.Fin? {
      var i: int :| Equals(b.value, i);
      var j: int :| Equals(c.value, j);
      assert Equals(b.value + c.value, i + j);
    }
  }

  lemma StepIntegral(m: Matrix, k: int)
    requires Integral(m) && Clock(m, k)
    ensures Integral(FloydWarshall.Step(m, k))
  {
    hide Whole;
    forall i, j | Clock(m, i) && Clock(m, j)
      ensures WholeAt(FloydWarshall.Step(m, k), i, j)
    {
      assert WholeAt(m, i, k) && WholeAt(m, k, j) && WholeAt(m, i, j);
      WholePlus(m[i][k], m[k][j]);
      WholePlus(Plus(m[i][k], m[k][j]), m[i][j]);
    }
  }

  lemma {:induction false} PhasesIntegral(m: Matrix, k: nat)
    requires Integral(m) && k <= |m|
    ensures Integral(Phases(m, k))
  {
    hide Integral;
    if k > 0 {
      PhasesIntegral(m, k - 1);
      StepIntegral(Phases(m, k - 1), k - 1);
    }
  }

  lemma RelaxIntegral(m: Matrix, l: seq<int>, u: seq<int>)
    requires Integral(m) && LowerBounded(m) && |m| == |l| == |u|
    ensures Integral(RelaxLuPlus(m, l, u))
  {
    forall i, j | Clock(m, i) && Clock(m, j)
      ensures WholeAt(RelaxLuPlus(m, l, u), i, j)
    {
      assert WholeAt(m, i, j);
      RelaxWhole(m[i][j], m[0][i], m[0][j], i, j, l[i], u[j]);
    }
  }

  lemma RelaxWhole(b: Bound, bi: Bound, bj: Bound, i: int, j: int, li: int, uj: int)
    requires bi.Fin? && bj.Fin? && Whole(b)
    ensures Whole(RelaxLuPlusEntry(b, bi, bj, i, j, li, uj))
  {
    assert Equals(0.0, 0) && Equals(-(uj as real), -uj);
  }

  lemma SqueezeIntegral(m: Matrix, x: int, y: int, b: Bound)
    requires Integral(m) && Clock(m, x) && Clock(m, y) && Whole(b)
    ensures Integral(Squeeze(m, x, y, b))
  {
    hide Whole;
    forall i, j | Clock(m, i) && Clock(m, j)
      ensures WholeAt(Squeeze(m, x, y, b), i, j)
    {
      assert WholeAt(m, i, x) && WholeAt(m, y, j) && WholeAt(m, i, j);
      WholePlus(m[i][x], b);
      WholePlus(Plus(m[i][x], b), m[y][j]);
      WholePlus(Plus(Plus(m[i][x], b), m[y][j]), m[i][j]);
    }
  }

  lemma ResetIntegral(m: Matrix, x: int, y: int, c: int)
    requires Integral(m) && Clock(m, x) && Clock(m, y)
    ensures Integral(Reset(m, x, y, c as real))
  {
    hide Whole, Shift;
    var r := c as real;
    var e := Reset(m, x, y, r);
    forall i, j | Clock(e, i) && Clock(e, j)
      ensures WholeAt(e, i, j)
    {
      ShiftWhole(i, j, x, c);
      assert WholeAt(m, Source(i, x, y), Source(j, x, y));
      WholePlus(m[Source(i, x, y)][Source(j, x, y)], Fin(Shift(i, x, r) - Shift(j, x, r), true));
    }
  }

  lemma ShiftWhole(i: int, j: int, x: int, c: int)
    ensures Whole(Fin(Shift(i, x, c as real) - Shift(j, x, c as real), true))
  {
    var d := (if i == x then c else 0) - (if j == x then c else 0);
    assert Equals(Shift(i, x, c as real) - Shift(j, x, c as real), d);
  }

  lemma OpenUpIntegral(m: Matrix)
    requires Integral(m)
    ensures Integral(OpenUp(m))
  {
    forall i, j | Clock(m, i) && Clock(m, j)
      ensures WholeAt(OpenUp(m), i, j)
    {
      assert WholeAt(m, i, j);
    }
  }

  ghost predicate WholeAction(a: Action) {
    a.Constrain? ==> Whole(a.b)
  }

  ghost predicate AllWhole(acts: seq<Action>) {
    forall i :: 0 <= i < |acts| ==> WholeAction(acts[i])
  }

  lemma ApplyIntegral(m: Matrix, a: Action, l: seq<int>, u: seq<int>)
    requires Proper(m, l, u) && Defined(a, |m|) && WholeAction(a) && Integral(m)
    ensures Apply(m, a, l, u).Some? ==> Integral(Apply(m, a, l, u).value)
  {
    hide Integral, Squeeze, Reset, OpenUp, RelaxLuPlus, Phases, Whole, Tight;
    match a
    case Constrain(x, y, b) => SqueezeIntegral(m, x, y, b);
    case ResetTo(x, y, c) => ResetIntegral(m, x, y, c);
    case Elapse => OpenUpIntegral(m);
    case Extrapolate =>
      RelaxIntegral(m, l, u);
      PhasesIntegral(RelaxLuPlus(m, l, u), |m|);
  }

  /** Steps on integer constants keep zones integral. */
  lemma {:induction false} PostIntegral(m: Matrix, acts: seq<Action>, l: seq<int>, u: seq<int>)
    requires Proper(m, l, u) && AllDefined(acts, |m|) && AllWhole(acts) && Integral(m)
    ensures Post(m, acts, l, u).Some? ==> Integral(Post(m, acts, l, u).value)
    decreases |acts|
  {
    hide Integral, Normal, Apply, Defined, WholeAction;
    if acts != [] {
      ApplyProper(m, acts[0], l, u);
      ApplyIntegral(m, acts[0], l, u);
      var r := Apply(m, acts[0], l, u);
      if r.Some? {
        PostIntegral(r.value, acts[1..], l, u);
      }
    }
  }
}
