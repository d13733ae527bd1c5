/** The symbolic steps that a transition and the initial state consist of, and what they do to a valuation, in closed form. */
module EdgeRuns {
  import opened Wrappers
  import opened Bounds
  import opened Zones
  import opened ZoneOps
  import opened FloydWarshall
  import opened Encoding
  import opened LuSimulation
  import opened Extrapolation
  import opened ExtrapolationLaws
  import opened ZoneGraph
  import opened LocalBounds
  import Machine

  // ----- the steps -----

  function GuardAction(c: Machine.ClockConstraint): Action {
    Action.Constrain(c.first, c.second, Fin(c.bound as real, !c.strict))
  }

  function GuardActions(cs: seq<Machine.ClockConstraint>): (acts: seq<Action>)
    ensures |acts| == |cs|
  {
    seq(|cs|, i requires 0 <= i < |cs| => GuardAction(cs[i]))
  }

  /** Resets never subtract. */
  predicate NotNegative(rs: seq<Machine.ClockReset>) {
    forall i :: 0 <= i < |rs| ==> rs[i].value >= 0
  }

  function ResetActions(rs: seq<Machine.ClockReset>): (acts: seq<Action>)
    requires NotNegative(rs)
    ensures |acts| == |rs|
  {
    seq(|rs|, i requires 0 <= i < |rs| => ResetTo(rs[i].left, rs[i].right, rs[i].value))
  }

  function DelayActions(delay: bool, inv: seq<Machine.ClockConstraint>): seq<Action> {
    if delay then [Elapse] + GuardActions(inv) else []
  }

  /** The zones of global lower and upper bounds are not extrapolated: the call is disabled there. */
  function ExtrapolateActions(extrapolating: bool): seq<Action> {
    if extrapolating then [Extrapolate] else []
  }

  /** All steps of a transition. */
  function StepsOf(guard: seq<Machine.ClockConstraint>, resets: seq<Machine.ClockReset>, delay: bool,
                   inv: seq<Machine.ClockConstraint>, extrapolating: bool): seq<Action>
    requires NotNegative(resets)
  {
    GuardActions(guard) + ResetActions(resets) + GuardActions(inv) + DelayActions(delay, inv) + ExtrapolateActions(extrapolating)
  }

  function InitialSteps(delay: bool, inv: seq<Machine.ClockConstraint>, extrapolating: bool): seq<Action> {
    GuardActions(inv) + DelayActions(delay, inv) + ExtrapolateActions(extrapolating)
  }

  // ----- their runs -----

  ghost predicate Pass(cs: seq<Machine.ClockConstraint>, v: Valuation) {
    forall i :: 0 <= i < |cs| ==> Holds(cs[i], v)
  }

  predicate AllClocks(rs: seq<Machine.ClockReset>, n: nat) {
    forall i :: 0 <= i < |rs| ==> 0 <= rs[i].left < n && 0 <= rs[i].right < n
  }

  function AfterResets(rs: seq<Machine.ClockReset>, v: Valuation): (w: Valuation)
    requires AllClocks(rs, |v|)
    ensures |w| == |v|
    decreases |rs|
  {
    if rs == [] then v else AfterResets(rs[1..], Assign(v, rs[0].left, rs[0].right, rs[0].value as real))
  }

  lemma {:induction false} RunsConcat(v: Valuation, x: seq<Action>, y: seq<Action>, w: Valuation)
    ensures RunsTo(v, x + y, w) <==> exists t: Valuation :: RunsTo(v, x, t) && RunsTo(t, y, w)
    decreases |x|
  {
    if x == [] {
      assert x + y == y && RunsTo(v, x, v);
    } else {
      assert (x + y)[1..] == x[1..] + y && (x + y)[0] == x[0];
      forall s: Valuation
        ensures RunsTo(s, (x + y)[1..], w) <==> exists t: Valuation :: RunsTo(s, x[1..], t) && RunsTo(t, y, w)
      {
        RunsConcat(s, x[1..], y, w);
      }
      if RunsTo(v, x + y, w) {
        var s: Valuation :| StepTo(v, x[0], s) && RunsTo(s, (x + y)[1..], w);
        var t: Valuation :| RunsTo(s, x[1..], t) && RunsTo(t, y, w);
        assert RunsTo(v, x, t);
      }
      if t: Valuation :| RunsTo(v, x, t) && RunsTo(t, y, w) {
        var s: Valuation :| StepTo(v, x[0], s) && RunsTo(s, x[1..], t);
        assert StepTo(v, (x + y)[0], s) && RunsTo(s, (x + y)[1..], w);
      }
    }
  }

  lemma {:induction false} RunsGuards(v: Valuation, cs: seq<Machine.ClockConstraint>, w: Valuation)
    ensures RunsTo(v, GuardActions(cs), w) <==> w == v && Pass(cs, v)
    decreases |cs|
  {
    var acts := GuardActions(cs);
    if cs != [] {
      assert acts[1..] == GuardActions(cs[1..]);
      RunsGuards(v, cs[1..], w);
      assert StepTo(v, acts[0], v) <==> Holds(cs[0], v);
      assert Pass(cs, v) <==> Holds(cs[0], v) && Pass(cs[1..], v) by {
        if Pass(cs, v) {
          assert forall i :: 0 <= i < |cs[1..]| ==> cs[1..][i] == cs[i + 1];
        }
        if Holds(cs[0], v) && Pass(cs[1..], v) {
          forall i | 0 <= i < |cs| ensures Holds(cs[i], v) {
            assert i > 0 ==> cs[i] == cs[1..][i - 1];
          }
        }
      }
    }
  }

  lemma {:induction false} RunsResets(v: Valuation, rs: seq<Machine.ClockReset>, w: Valuation)
    requires NotNegative(rs) && AllClocks(rs, |v|)
    ensures RunsTo(v, ResetActions(rs), w) <==> w == AfterResets(rs, v)
    decreases |rs|
  {
    if rs != [] {
      assert ResetActions(rs)[1..] == ResetActions(rs[1..]);
      var s := Assign(v, rs[0].left, rs[0].right, rs[0].value as real);
      RunsResets(s, rs[1..], w);
      assert StepTo(v, ResetActions(rs)[0], s);
    }
  }

  lemma RunsElapse(v: Valuation, w: Valuation)
    ensures RunsTo(v, [Elapse], w) <==> exists d: real :: d >= 0.0 && w == Delay(v, d)
  {
    assert [Elapse][1..] == [];
    if RunsTo(v, [Elapse], w) {
      var t: Valuation :| StepTo(v, [Elapse][0], t) && RunsTo(t, [], w);
    }
    if d: real :| d >= 0.0 && w == Delay(v, d) {
      assert StepTo(v, [Elapse][0], w) && RunsTo(w, [], w);
    }
  }

  /** After the resets: time may pass, and the invariant holds before and after. */
  ghost predicate Arrives(s: Valuation, delay: bool, inv: seq<Machine.ClockConstraint>, w: Valuation) {
    && Pass(inv, s)
    && if delay then Pass(inv, w) && exists d: real :: d >= 0.0 && w == Delay(s, d) else w == s
  }

  lemma ArrivesExact(s: Valuation, delay: bool, inv: seq<Machine.ClockConstraint>, w: Valuation)
    ensures RunsTo(s, GuardActions(inv) + DelayActions(delay, inv), w) <==> Arrives(s, delay, inv, w)
  {
    hide RunsTo, Pass;
    var i := GuardActions(inv);
    RunsConcat(s, i, DelayActions(delay, inv), w);
    forall t: Valuation
      ensures RunsTo(s, i, t) <==> t == s && Pass(inv, s)
      ensures RunsTo(t, [Elapse], w) <==> exists d: real :: d >= 0.0 && w == Delay(t, d)
      ensures RunsTo(t, i, w) <==> w == t && Pass(inv, t)
    {
      RunsGuards(s, inv, t);
      RunsElapse(t, w);
      RunsGuards(t, inv, w);
    }
    if delay {
      RunsConcat(s, [Elapse], i, w);
      RunsElapse(s, w);
    } else {
      NoMore(s, w);
    }
  }

  lemma NoMore(s: Valuation, w: Valuation)
    ensures RunsTo(s, [], w) <==> w == s
  {}

  /** The steps of an edge without extrapolation. */
  lemma EdgeRun(v: Valuation, guard: seq<Machine.ClockConstraint>, resets: seq<Machine.ClockReset>, delay: bool,
                inv: seq<Machine.ClockConstraint>, w: Valuation)
    requires NotNegative(resets) && AllClocks(resets, |v|)
    ensures RunsTo(v, StepsOf(guard, resets, delay, inv, false), w)
       <==> Pass(guard, v) && Arrives(AfterResets(resets, v), delay, inv, w)
  {
    hide RunsTo, Pass, Arrives, AfterResets;
    var g, x, y := GuardActions(guard), ResetActions(resets), GuardActions(inv) + DelayActions(delay, inv);
    assert StepsOf(guard, resets, delay, inv, false) == g + (x + y);
    RunsConcat(v, g, x + y, w);
    RunsConcat(v, x, y, w);
    forall t: Valuation
      ensures RunsTo(v, g, t) <==> t == v && Pass(guard, v)
      ensures RunsTo(v, x, t) <==> t == AfterResets(resets, v)
    {
      RunsGuards(v, guard, t);
      RunsResets(v, resets, t);
    }
    ArrivesExact(AfterResets(resets, v), delay, inv, w);
  }

  // ----- the initial valuation -----

  /** All clocks are zero. */
  ghost function ZeroMatrix(n: nat): Matrix
    requires n >= 1
  {
    seq(n, i requires 0 <= i < n => seq(n, j requires 0 <= j < n => ZERO))
  }

  lemma ZeroMatrixProper(n: nat, l: seq<int>, u: seq<int>)
    requires n >= 1 && ClockBounds(l, n) && ClockBounds(u, n)
    ensures Proper(ZeroMatrix(n), l, u) && |ZeroMatrix(n)| == n
  {}

  lemma ZeroMatrixExact(n: nat, v: Valuation)
    requires n >= 1
    ensures In(ZeroMatrix(n), v) <==> v == Zeros(n)
  {
    var m := ZeroMatrix(n);
    if In(m, v) {
      forall i | 0 <= i < n ensures v[i] == 0.0 {
        assert SatAt(m, v, i, 0) && SatAt(m, v, 0, i);
      }
    }
  }

  // ----- the zones after all steps -----

  lemma DefinedClocks(guard: seq<Machine.ClockConstraint>, resets: seq<Machine.ClockReset>, delay: bool,
                      inv: seq<Machine.ClockConstraint>, n: nat)
    requires NotNegative(resets) && AllDefined(StepsOf(guard, resets, delay, inv, false), n)
    ensures AllClocks(resets, n)
  {
    var g, x, all := GuardActions(guard), ResetActions(resets), StepsOf(guard, resets, delay, inv, false);
    forall k | 0 <= k < |resets| ensures 0 <= resets[k].left < n && 0 <= resets[k].right < n {
      assert all[|g| + k] == x[k] == ResetTo(resets[k].left, resets[k].right, resets[k].value);
    }
  }

  /** A transition leads from `v` to `w`: the guard holds, clocks are reset in turn, and then it arrives. */
  ghost predicate Crosses(v: Valuation, guard: seq<Machine.ClockConstraint>, resets: seq<Machine.ClockReset>, delay: bool,
                          inv: seq<Machine.ClockConstraint>, w: Valuation)
  {
    AllClocks(resets, |v|) && Pass(guard, v) && Arrives(AfterResets(resets, v), delay, inv, w)
  }

  lemma GuardsPlain(cs: seq<Machine.ClockConstraint>, delay: bool)
    ensures Plain(GuardActions(cs)) && Plain(DelayActions(delay, cs))
  {}

  lemma StepsPlain(guard: seq<Machine.ClockConstraint>, resets: seq<Machine.ClockReset>, delay: bool, inv: seq<Machine.ClockConstraint>)
    requires NotNegative(resets)
    ensures Plain(StepsOf(guard, resets, delay, inv, false))
  {
    GuardsPlain(guard, delay);
    GuardsPlain(inv, delay);
    assert Plain(ResetActions(resets));
  }

  /** A guard leaves a zone empty exactly when no valuation of the zone satisfies it. */
  lemma GuardSurvives(m: Matrix, guard: seq<Machine.ClockConstraint>, l: seq<int>, u: seq<int>)
    requires Proper(m, l, u) && AllDefined(GuardActions(guard), |m|)
    ensures Post(m, GuardActions(guard), l, u).Some? <==> exists v: Valuation :: In(m, v) && Pass(guard, v)
  {
    hide Normal, Post, RunsTo, Pass, GuardActions;
    GuardsPlain(guard, false);
    PlainSurvives(m, GuardActions(guard), l, u);
    forall v: Valuation, w: Valuation ensures RunsTo(v, GuardActions(guard), w) <==> w == v && Pass(guard, v) {
      RunsGuards(v, guard, w);
    }
    if v: Valuation :| In(m, v) && Pass(guard, v) {
      assert RunsTo(v, GuardActions(guard), v);
    }
  }

  /** Without extrapolation the successor zone holds exactly the valuations that the transition leads to from the zone. */
  lemma NextExact(m: Matrix, guard: seq<Machine.ClockConstraint>, resets: seq<Machine.ClockReset>, delay: bool,
                  inv: seq<Machine.ClockConstraint>, l: seq<int>, u: seq<int>)
    requires Proper(m, l, u) && NotNegative(resets) && AllDefined(StepsOf(guard, resets, delay, inv, false), |m|)
    ensures var r := Post(m, StepsOf(guard, resets, delay, inv, false), l, u);
            && (r.Some? <==> exists v: Valuation, w: Valuation :: In(m, v) && Crosses(v, guard, resets, delay, inv, w))
            && forall w: Valuation ::
                 r.Some? && In(r.value, w) <==> exists v: Valuation :: In(m, v) && Crosses(v, guard, resets, delay, inv, w)
  {
    hide Normal, Post, RunsTo, Pass, Arrives, AfterResets, Plain, StepsOf, AllClocks;
    var acts := StepsOf(guard, resets, delay, inv, false);
    DefinedClocks(guard, resets, delay, inv, |m|);
    StepsPlain(guard, resets, delay, inv);
    PlainSurvives(m, acts, l, u);
    forall v: Valuation, w: Valuation | In(m, v)
      ensures RunsTo(v, acts, w) <==> Crosses(v, guard, resets, delay, inv, w)
    {
      EdgeRun(v, guard, resets, delay, inv, w);
    }
    forall w: Valuation
      ensures var r := Post(m, acts, l, u);
              r.Some? && In(r.value, w) <==> exists v: Valuation :: In(m, v) && Crosses(v, guard, resets, delay, inv, w)
    {
      PlainExact(m, acts, l, u, w);
    }
    if v: Valuation, w: Valuation :| In(m, v) && Crosses(v, guard, resets, delay, inv, w) {
      assert RunsTo(v, acts, w);
    }
  }

  /** With it, the zone is what the strong extrapolation leaves of that. */
  lemma NextExtrapolated(m: Matrix, guard: seq<Machine.ClockConstraint>, resets: seq<Machine.ClockReset>, delay: bool,
                         inv: seq<Machine.ClockConstraint>, l: seq<int>, u: seq<int>)
    requires Proper(m, l, u) && NotNegative(resets) && AllDefined(StepsOf(guard, resets, delay, inv, false), |m|)
    ensures AllDefined(StepsOf(guard, resets, delay, inv, true), |m|)
    ensures var r, p := Post(m, StepsOf(guard, resets, delay, inv, true), l, u), Post(m, StepsOf(guard, resets, delay, inv, false), l, u);
            (r.Some? <==> p.Some?) && (r.Some? ==> forall w: Valuation :: In(r.value, w) <==> InStrong(p.value, l, u, w))
  {
    hide Normal, Post, InStrong;
    var plain := StepsOf(guard, resets, delay, inv, false);
    assert StepsOf(guard, resets, delay, inv, true) == plain + [Extrapolate] by {
      assert plain + [] == plain;
    }
    LastExtrapolated(m, plain, l, u);
  }

  lemma LastExtrapolated(m: Matrix, acts: seq<Action>, l: seq<int>, u: seq<int>)
    requires Proper(m, l, u) && AllDefined(acts, |m|)
    ensures AllDefined(acts + [Extrapolate], |m|)
    ensures var r, p := Post(m, acts + [Extrapolate], l, u), Post(m, acts, l, u);
            (r.Some? <==> p.Some?) && (r.Some? ==> forall w: Valuation :: In(r.value, w) <==> InStrong(p.value, l, u, w))
  {
    hide Tight, Phases, RelaxLuPlus, InStrong;
    PostConcat(m, acts, [Extrapolate], l, u);
    var p := Post(m, acts, l, u);
    if p.Some? {
      ApplyProper(p.value, Extrapolate, l, u);
      assert [Extrapolate][1..] == [];
      assert Post(p.value, [Extrapolate], l, u) == Some(ExtraLuPlus(p.value, l, u));
      forall w: Valuation ensures In(ExtraLuPlus(p.value, l, u), w) <==> InStrong(p.value, l, u, w) {
        ExtrapolationsExact(p.value, l, u, w);
      }
    }
  }

  /** Without extrapolation the initial zone holds exactly the valuations that waiting leads to from zero, while the invariant holds
      at the start and at the end; with it, what the strong extrapolation leaves of that. */
  lemma InitialExact(n: nat, delay: bool, inv: seq<Machine.ClockConstraint>, l: seq<int>, u: seq<int>)
    requires n >= 1 && ClockBounds(l, n) && ClockBounds(u, n) && AllDefined(InitialSteps(delay, inv, false), n)
    ensures Proper(ZeroMatrix(n), l, u) && AllDefined(InitialSteps(delay, inv, true), n)
    ensures var p, r := Post(ZeroMatrix(n), InitialSteps(delay, inv, false), l, u), Post(ZeroMatrix(n), InitialSteps(delay, inv, true), l, u);
            && (p.Some? <==> exists w: Valuation :: Arrives(Zeros(n), delay, inv, w))
            && (forall w: Valuation :: p.Some? && In(p.value, w) <==> Arrives(Zeros(n), delay, inv, w))
            && (r.Some? <==> p.Some?) && (r.Some? ==> forall w: Valuation :: In(r.value, w) <==> InStrong(p.value, l, u, w))
  {
    hide Proper, Post, RunsTo, Arrives, Plain, ZeroMatrix, InStrong, In;
    ZeroMatrixProper(n, l, u);
    var acts := InitialSteps(delay, inv, false);
    assert acts == GuardActions(inv) + DelayActions(delay, inv);
    assert InitialSteps(delay, inv, true) == acts + [Extrapolate];
    LastExtrapolated(ZeroMatrix(n), acts, l, u);
    InitialPlain(delay, inv);
    forall v: Valuation ensures In(ZeroMatrix(n), v) <==> v == Zeros(n) {
      ZeroMatrixExact(n, v);
    }
    PlainSurvives(ZeroMatrix(n), acts, l, u);
    forall w: Valuation
      ensures RunsTo(Zeros(n), acts, w) <==> Arrives(Zeros(n), delay, inv, w)
      ensures var p := Post(ZeroMatrix(n), acts, l, u); p.Some? && In(p.value, w) <==> RunsTo(Zeros(n), acts, w)
    {
      ArrivesExact(Zeros(n), delay, inv, w);
      PlainExact(ZeroMatrix(n), acts, l, u, w);
    }
  }

  lemma InitialPlain(delay: bool, inv: seq<Machine.ClockConstraint>)
    ensures Plain(InitialSteps(delay, inv, false))
  {
    GuardsPlain(inv, delay);
  }
}
