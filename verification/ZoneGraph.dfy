/** Sequences of symbolic steps on zones, with extrapolation, against runs of clock valuations. */
module ZoneGraph {
  import opened Wrappers
  import opened Bounds
  import opened Zones
  import opened FloydWarshall
  import opened ZoneOps
  import opened Encoding
  import opened LuSimulation
  import opened Extrapolation

  /** The steps that the computation of a successor zone is made of. */
  datatype Action =
    | Constrain(x: int, y: int, b: Bound)
    | ResetTo(x: int, y: int, c: nat)
    | Elapse
    | Extrapolate

  /** The step makes sense for `n` clocks. */
  predicate Defined(a: Action, n: nat) {
    match a
    case Constrain(x, y, b) => 0 <= x < n && 0 <= y < n && x != y && b.Fin?
    case ResetTo(x, y, _) => 1 <= x < n && 0 <= y < n
    case _ => true
  }

  predicate AllDefined(acts: seq<Action>, n: nat) {
    forall i :: 0 <= i < |acts| ==> Defined(acts[i], n)
  }

  /** Guards and invariants compare one clock with a constant that the clock bounds account for, and resets are to constants. */
  predicate Admissible(a: Action, l: seq<int>, u: seq<int>)
    requires |l| == |u| >= 1
  {
    match a
    case Constrain(x, y, b) =>
      && b.Fin?
      && (|| (1 <= x < |u| && y == 0 && u[x] != -INF_VALUE && b.value <= u[x] as real)
          || (x == 0 && 1 <= y < |l| && l[y] != -INF_VALUE && -b.value <= l[y] as real))
    case ResetTo(x, y, _) => 1 <= x < |l| && y == 0
    case _ => true
  }

  predicate AllAdmissible(acts: seq<Action>, l: seq<int>, u: seq<int>)
    requires |l| == |u| >= 1
  {
    forall i :: 0 <= i < |acts| ==> Admissible(acts[i], l, u)
  }

  ghost predicate Proper(m: Matrix, l: seq<int>, u: seq<int>) {
    Normal(m) && ClockBounds(l, |m|) && ClockBounds(u, |m|)
  }

  /** One symbolic step; `None` when the zone becomes empty. */
  ghost function Apply(m: Matrix, a: Action, l: seq<int>, u: seq<int>): (r: Option<Matrix>)
    requires Proper(m, l, u) && Defined(a, |m|)
  {
    match a
    case Constrain(x, y, b) => if Le(ZERO, Plus(b, m[y][x])) then Some(Squeeze(m, x, y, b)) else None
    case ResetTo(x, y, c) => Some(Reset(m, x, y, c as real))
    case Elapse => Some(OpenUp(m))
    case Extrapolate => Some(ExtraLuPlus(m, l, u))
  }

  lemma ResetRow(m: Matrix, x: int, y: int, c: real, i: int)
    requires 1 <= x < |m| && Clock(m, y) && 0 <= i < |m| && c >= 0.0
    requires m[0][Source(i, x, y)].Fin? && Le(m[0][Source(i, x, y)], ZERO)
    ensures Reset(m, x, y, c)[0][i].Fin? && Le(Reset(m, x, y, c)[0][i], ZERO)
  {}

  lemma ResetProper(m: Matrix, x: int, y: int, c: real, l: seq<int>, u: seq<int>)
    requires Proper(m, l, u) && 1 <= x < |m| && Clock(m, y) && c >= 0.0
    ensures Proper(Reset(m, x, y, c), l, u)
  {
    hide Tight, Consistent, Reset;
    ResetTight(m, x, y, c);
    forall i | 0 <= i < |m| ensures Reset(m, x, y, c)[0][i].Fin? && Le(Reset(m, x, y, c)[0][i], ZERO) {
      ResetRow(m, x, y, c, i);
    }
  }

  /** Every step keeps zones tight, consistent and positive. */
  lemma ApplyProper(m: Matrix, a: Action, l: seq<int>, u: seq<int>)
    requires Proper(m, l, u) && Defined(a, |m|)
    ensures var r := Apply(m, a, l, u); r.Some? ==> Proper(r.value, l, u) && |r.value| == |m|
  {
    hide Phases, Tight, RelaxLuPlus;
    var r := Apply(m, a, l, u);
    if r.Some? {
      match a
      case Constrain(x, y, b) =>
        SqueezeTight(m, x, y, b);
      case ResetTo(x, y, c) =>
        ResetProper(m, x, y, c as real, l, u);
      case Elapse =>
        OpenUpTight(m);
      case Extrapolate =>
        ExtrapolationsProper(m, l, u, MAX_VALUE);
    }
  }

  ghost function Post(m: Matrix, acts: seq<Action>, l: seq<int>, u: seq<int>): (r: Option<Matrix>)
    requires Proper(m, l, u) && AllDefined(acts, |m|)
    ensures r.Some? ==> Proper(r.value, l, u) && |r.value| == |m|
    decreases |acts|
  {
    if acts == [] then Some(m)
    else
      ApplyProper(m, acts[0], l, u);
      var r := Apply(m, acts[0], l, u);
      if r.None? then None else Post(r.value, acts[1..], l, u)
  }

  lemma {:induction false} PostConcat(m: Matrix, x: seq<Action>, y: seq<Action>, l: seq<int>, u: seq<int>)
    requires Proper(m, l, u) && AllDefined(x, |m|) && AllDefined(y, |m|)
    ensures AllDefined(x + y, |m|)
    ensures var r := Post(m, x, l, u); Post(m, x + y, l, u) == if r.None? then None else Post(r.value, y, l, u)
    decreases |x|
  {
    hide Apply, Proper, Defined;
    if x == [] {
      assert x + y == y;
    } else {
      assert (x + y)[1..] == x[1..] + y && (x + y)[0] == x[0];
      ApplyProper(m, x[0], l, u);
      var r := Apply(m, x[0], l, u);
      if r.Some? {
        PostConcat(r.value, x[1..], y, l, u);
      }
    }
  }

  // ----- concrete steps -----

  ghost predicate StepTo(v: Valuation, a: Action, w: Valuation) {
    match a
    case Constrain(x, y, b) => 0 <= x < |v| && 0 <= y < |v| && Meets(v[x] - v[y], b) && w == v
    case ResetTo(x, y, c) => 0 <= x < |v| && 0 <= y < |v| && w == Assign(v, x, y, c as real)
    case Elapse => exists d: real :: d >= 0.0 && w == Delay(v, d)
    case Extrapolate => w == v
  }

  ghost predicate RunsTo(v: Valuation, acts: seq<Action>, w: Valuation)
    decreases |acts|
  {
    if acts == [] then w == v
    else exists t: Valuation :: StepTo(v, acts[0], t) && RunsTo(t, acts[1..], w)
  }

  // ----- the preorder is a simulation -----

  /** A step of a valuation is matched by every valuation that simulates it, and the results are again related. */
  lemma StepSimulated(v: Valuation, w: Valuation, a: Action, v': Valuation, l: seq<int>, u: seq<int>) returns (w': Valuation)
    requires |l| == |u| >= 1 && Below(l, u, v, w) && v[0] == 0.0 == w[0]
    requires Admissible(a, l, u) && StepTo(v, a, v')
    ensures StepTo(w, a, w') && Below(l, u, v', w') && v'[0] == 0.0 == w'[0]
  {
    match a
    case Constrain(x, y, b) =>
      w' := w;
      assert BelowAt(l, u, v, w, x) && BelowAt(l, u, v, w, y);
    case ResetTo(x, _, c) =>
      w' := Assign(w, x, 0, c as real);
      forall z | 0 <= z < |v| ensures BelowAt(l, u, v', w', z) {
        assert BelowAt(l, u, v, w, z);
      }
    case Elapse =>
      var d: real :| d >= 0.0 && v' == Delay(v, d);
      w' := Delay(w, d);
      forall z | 0 <= z < |v| ensures BelowAt(l, u, v', w', z) {
        assert BelowAt(l, u, v, w, z);
      }
    case Extrapolate =>
      w' := w;
  }

  lemma {:induction false} RunSimulated(v: Valuation, w: Valuation, acts: seq<Action>, v': Valuation, l: seq<int>, u: seq<int>)
    returns (w': Valuation)
    requires |l| == |u| >= 1 && Below(l, u, v, w) && v[0] == 0.0 == w[0]
    requires AllAdmissible(acts, l, u) && RunsTo(v, acts, v')
    ensures RunsTo(w, acts, w') && Below(l, u, v', w') && v'[0] == 0.0 == w'[0]
    decreases |acts|
  {
    if acts == [] {
      w' := w;
    } else {
      var t :| StepTo(v, acts[0], t) && RunsTo(t, acts[1..], v');
      var t' := StepSimulated(v, w, acts[0], t, l, u);
      w' := RunSimulated(t, t', acts[1..], v', l, u);
    }
  }

  // ----- one symbolic step -----

  lemma StepSound(m: Matrix, a: Action, l: seq<int>, u: seq<int>, v: Valuation, w: Valuation)
    requires Proper(m, l, u) && Defined(a, |m|) && In(m, v) && StepTo(v, a, w)
    ensures Apply(m, a, l, u).Some? && In(Apply(m, a, l, u).value, w)
  {
    hide Tight, Squeeze, Reset, OpenUp, Phases, RelaxLuPlus;
    match a
    case Constrain(x, y, b) =>
      if !Le(ZERO, Plus(b, m[y][x])) {
        SqueezeEmpty(m, x, y, b);
      }
      SqueezeSat(m, x, y, b, v);
    case ResetTo(x, y, c) =>
      ResetExact(m, x, y, c as real, w);
    case Elapse =>
      OpenUpExact(m, w);
    case Extrapolate =>
      ExtrapolationsProper(m, l, u, MAX_VALUE);
      assert Included(m, ExtraLuPlus(m, l, u)) by {
        assert forall t: Valuation :: In(m, t) ==> In(ExtraLuPlus(m, l, u), t);
      }
  }

  lemma BelowReflexive(l: seq<int>, u: seq<int>, v: Valuation)
    requires |v| == |l| == |u|
    ensures Below(l, u, v, v)
  {
    assert forall x :: 0 <= x < |v| ==> BelowAt(l, u, v, v, x);
  }

  /** Without extrapolation, every valuation of the successor zone is an actual successor. */
  lemma StepExact(m: Matrix, a: Action, l: seq<int>, u: seq<int>, w: Valuation)
    requires Proper(m, l, u) && Defined(a, |m|) && !a.Extrapolate?
    ensures Apply(m, a, l, u).Some? && In(Apply(m, a, l, u).value, w) <==> exists v: Valuation :: In(m, v) && StepTo(v, a, w)
  {
    hide Tight, Squeeze, Reset, OpenUp, Below;
    if v: Valuation :| In(m, v) && StepTo(v, a, w) {
      StepSound(m, a, l, u, v, w);
    }
    if Apply(m, a, l, u).Some? && In(Apply(m, a, l, u).value, w) {
      match a
      case Constrain(x, y, b) =>
        SqueezeSat(m, x, y, b, w);
        assert In(m, w) && StepTo(w, a, w);
      case ResetTo(x, y, c) => ResetExact(m, x, y, c as real, w);
      case Elapse => OpenUpExact(m, w);
    }
  }

  /** Every valuation of the successor zone is simulated by an actual successor. */
  lemma StepComplete(m: Matrix, a: Action, l: seq<int>, u: seq<int>, w: Valuation) returns (v: Valuation, t: Valuation)
    requires Proper(m, l, u) && Defined(a, |m|) && Apply(m, a, l, u).Some? && In(Apply(m, a, l, u).value, w)
    ensures In(m, v) && StepTo(v, a, t) && Below(l, u, w, t) && t[0] == 0.0
  {
    hide Tight, Squeeze, Reset, OpenUp, Phases, RelaxLuPlus, Below;
    if !a.Extrapolate? {
      StepExact(m, a, l, u, w);
      v :| In(m, v) && StepTo(v, a, w);
      t := w;
      BelowReflexive(l, u, w);
    } else {
      var e := ExtraLuPlus(m, l, u);
      ExtrapolationSimulated(m, l, u);
      ExtrapolationsProper(m, l, u, MAX_VALUE);
      AluExact(e, m, l, u);
      assert Simulated(m, l, u, w);
      v :| In(m, v) && Below(l, u, w, v);
      t := v;
    }
  }

  // ----- whole runs -----

  /** Nothing is lost: every concrete run stays inside the symbolic one. */
  lemma {:induction false} RunSound(m: Matrix, acts: seq<Action>, l: seq<int>, u: seq<int>, v: Valuation, w: Valuation)
    requires Proper(m, l, u) && AllDefined(acts, |m|) && In(m, v) && RunsTo(v, acts, w)
    ensures Post(m, acts, l, u).Some? && In(Post(m, acts, l, u).value, w)
    decreases |acts|
  {
    hide Apply, Normal;
    if acts != [] {
      var t :| StepTo(v, acts[0], t) && RunsTo(t, acts[1..], w);
      StepSound(m, acts[0], l, u, v, t);
      ApplyProper(m, acts[0], l, u);
      RunSound(Apply(m, acts[0], l, u).value, acts[1..], l, u, t, w);
    }
  }

  predicate Plain(acts: seq<Action>) {
    forall i :: 0 <= i < |acts| ==> !acts[i].Extrapolate?
  }

  /** Without extrapolation the zone at the end holds exactly the ends of the runs, whatever the guards and resets are. */
  lemma {:induction false} PlainExact(m: Matrix, acts: seq<Action>, l: seq<int>, u: seq<int>, w: Valuation)
    requires Proper(m, l, u) && AllDefined(acts, |m|) && Plain(acts)
    ensures Post(m, acts, l, u).Some? && In(Post(m, acts, l, u).value, w)
       <==> exists v: Valuation :: In(m, v) && RunsTo(v, acts, w)
    decreases |acts|
  {
    hide Apply, Normal;
    if acts == [] {
      assert RunsTo(w, acts, w);
    } else {
      ApplyProper(m, acts[0], l, u);
      if v: Valuation :| In(m, v) && RunsTo(v, acts, w) {
        RunSound(m, acts, l, u, v, w);
      }
      if Post(m, acts, l, u).Some? && In(Post(m, acts, l, u).value, w) {
        var m' := Apply(m, acts[0], l, u).value;
        PlainExact(m', acts[1..], l, u, w);
        var t: Valuation :| In(m', t) && RunsTo(t, acts[1..], w);
        StepExact(m, acts[0], l, u, t);
        var v: Valuation :| In(m, v) && StepTo(v, acts[0], t);
        assert RunsTo(v, acts, w);
      }
    }
  }

  /** So such a sequence of steps survives on the zones if and only if some valuation of the first zone can take it. */
  lemma PlainSurvives(m: Matrix, acts: seq<Action>, l: seq<int>, u: seq<int>)
    requires Proper(m, l, u) && AllDefined(acts, |m|) && Plain(acts)
    ensures Post(m, acts, l, u).Some? <==> exists v: Valuation, w: Valuation :: In(m, v) && RunsTo(v, acts, w)
  {
    hide Normal, Post;
    if Post(m, acts, l, u).Some? {
      var w := SomeValuation(Post(m, acts, l, u).value, l, u);
      PlainExact(m, acts, l, u, w);
    }
    if v: Valuation, w: Valuation :| In(m, v) && RunsTo(v, acts, w) {
      RunSound(m, acts, l, u, v, w);
    }
  }

  /** Nothing is invented: every valuation at the end of a symbolic run is simulated by the end of a concrete run. */
  lemma {:induction false} RunComplete(m: Matrix, acts: seq<Action>, l: seq<int>, u: seq<int>, w: Valuation)
    returns (v: Valuation, t: Valuation)
    requires Proper(m, l, u) && AllDefined(acts, |m|) && AllAdmissible(acts, l, u)
    requires Post(m, acts, l, u).Some? && In(Post(m, acts, l, u).value, w)
    ensures In(m, v) && RunsTo(v, acts, t) && Below(l, u, w, t) && t[0] == 0.0
    decreases |acts|
  {
    hide Apply, Normal, Below;
    if acts == [] {
      v, t := w, w;
      BelowReflexive(l, u, w);
    } else {
      ApplyProper(m, acts[0], l, u);
      var m' := Apply(m, acts[0], l, u).value;
      var v1, t1 := RunComplete(m', acts[1..], l, u, w);
      var s: Valuation;
      v, s := StepComplete(m, acts[0], l, u, v1);
      t := RunSimulated(v1, s, acts[1..], t1, l, u);
      BelowTransitive(l, u, w, t1, t);
    }
  }

  /** Symbolic emptiness is exact: a sequence of steps survives on the zones, extrapolated or not,
      if and only if some valuation of the first zone can take it. */
  lemma RunExact(m: Matrix, acts: seq<Action>, l: seq<int>, u: seq<int>)
    requires Proper(m, l, u) && AllDefined(acts, |m|) && AllAdmissible(acts, l, u)
    ensures Post(m, acts, l, u).Some? <==> exists v: Valuation, w: Valuation :: In(m, v) && RunsTo(v, acts, w)
  {
    hide Normal, Below, Post;
    var p := Post(m, acts, l, u);
    if p.Some? {
      var w := SomeValuation(p.value, l, u);
      var v, t := RunComplete(m, acts, l, u, w);
    }
    if v: Valuation, w: Valuation :| In(m, v) && RunsTo(v, acts, w) {
      RunSound(m, acts, l, u, v, w);
    }
  }

  lemma SomeValuation(m: Matrix, l: seq<int>, u: seq<int>) returns (v: Valuation)
    requires Proper(m, l, u)
    ensures In(m, v)
  {
    v := Inhabited(m);
  }

  /** Subsumption is a simulation on zones: whatever the smaller one can do, the larger one can do as well,
      and the successors are related again. */
  lemma SubsumptionIsSimulation(m1: Matrix, m2: Matrix, acts: seq<Action>, l: seq<int>, u: seq<int>)
    requires Proper(m1, l, u) && Proper(m2, l, u) && AllDefined(acts, |l|) && AllAdmissible(acts, l, u)
    requires SimIncluded(m1, m2, l, u) && Post(m1, acts, l, u).Some?
    ensures Post(m2, acts, l, u).Some? && SimIncluded(Post(m1, acts, l, u).value, Post(m2, acts, l, u).value, l, u)
  {
    hide Normal, Below, Post;
    var p := Post(m1, acts, l, u).value;
    forall v': Valuation | In(p, v')
      ensures Post(m2, acts, l, u).Some? && Simulated(Post(m2, acts, l, u).value, l, u, v')
    {
      var v, t := RunComplete(m1, acts, l, u, v');
      assert Simulated(m2, l, u, v);
      var w: Valuation :| In(m2, w) && Below(l, u, v, w);
      var w' := RunSimulated(v, w, acts, t, l, u);
      RunSound(m2, acts, l, u, w, w');
      BelowTransitive(l, u, v', t, w');
    }
    var z := SomeValuation(p, l, u);
  }
}
