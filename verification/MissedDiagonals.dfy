/** The test of diagonal constraints does not help: an automaton where the guard of the very next edge is diagonal, and the exploration
    finishes without the location behind it, although it can be reached. */
module MissedDiagonals {
  import opened Wrappers
  import opened Bounds
  import opened Zones
  import opened ZoneOps
  import opened Encoding
  import opened LuSimulation
  import opened Extrapolation
  import opened ZoneGraph
  import opened Integrality
  import opened LocalBounds
  import opened EdgeRuns
  import opened Pushdown
  import opened Traces
  import opened Saturation
  import opened TimedPushdown
  import opened LocalSimulation
  import opened TimedExploration
  import LocalCheck
  import LocalCondition
  import MissedLocations
  import Machine

  const ANYWHERE: Location := Location([], true)
  const FROM_ONE: Machine.ClockConstraint := Machine.ClockConstraint(0, 1, false, -1)
  const NOT_AHEAD: Machine.ClockConstraint := Machine.ClockConstraint(1, 2, false, 0)
  const SECOND: seq<Machine.ClockReset> := [Machine.ClockReset(2, 0, 0)]

  const LATE: Transition := Transition("s", NoOp, [FROM_ONE], SECOND, "p")
  const ANY: Transition := Transition("s", NoOp, [], SECOND, "p")
  const LEVEL: Transition := Transition("p", NoOp, [NOT_AHEAD], [], "r")

  /** Two edges from `s` to `p` reset the second clock, the first only when the clocks have reached one; then the first clock must not
      be ahead of the second. */
  function Example(): Automaton {
    Automaton(3, map["s" := ANYWHERE, "p" := ANYWHERE, "r" := ANYWHERE], [LATE, ANY, LEVEL])
  }

  /** Both clocks are equal. */
  function Line(): Matrix {
    [[ZERO, ZERO, ZERO], [Inf, ZERO, ZERO], [Inf, ZERO, ZERO]]
  }

  /** The first clock is ahead by at least `-k`. */
  function Wedge(k: real): Matrix {
    [[ZERO, Fin(k, true), ZERO], [Inf, ZERO, Inf], [Inf, Fin(k, true), ZERO]]
  }

  const S0: Node<Matrix> := Node("s", Line())
  const P1: Node<Matrix> := Node("p", Wedge(-1.0))
  const P2: Node<Matrix> := Node("p", Wedge(0.0))

  function Held(): Content<Matrix> {
    Content({S0}, {(S0, S0), (S0, P1)}, {}, {})
  }

  lemma ExampleValid()
    ensures Valid(Example())
  {
    var a := Example();
    forall i | 0 <= i < |a.trans| ensures ValidTransition(a, a.trans[i]) {
      assert a.trans[i] == LATE || a.trans[i] == ANY || a.trans[i] == LEVEL;
    }
  }

  predicate InLine(v: Valuation) {
    |v| == 3 && v[0] == 0.0 && v[1] == v[2] >= 0.0
  }

  predicate InWedge(k: real, v: Valuation) {
    |v| == 3 && v[0] == 0.0 && v[2] >= 0.0 && v[2] - v[1] <= k
  }

  lemma LineExact(v: Valuation)
    ensures In(Line(), v) <==> InLine(v)
    ensures Good(Example(), Line())
  {
    var m := Line();
    forall i, k, j | Clock(m, i) && Clock(m, k) && Clock(m, j) ensures TightAt(m, i, k, j) {}
    assert Consistent(m) && Positive(m) && LowerBounded(m);
    assert Equals(0.0, 0) && Equals(-1.0, -1);
    forall i, j | Clock(m, i) && Clock(m, j) ensures WholeAt(m, i, j) {}
    if InLine(v) {
      forall i, j | Clock(m, i) && Clock(m, j) ensures SatAt(m, v, i, j) {}
    }
    if In(m, v) {
      assert SatAt(m, v, 0, 2) && SatAt(m, v, 1, 2) && SatAt(m, v, 2, 1);
    }
  }

  lemma WedgeExact(k: real, v: Valuation)
    requires k == 0.0 || k == -1.0
    ensures In(Wedge(k), v) <==> InWedge(k, v)
    ensures Good(Example(), Wedge(k))
  {
    var m := Wedge(k);
    forall i, h, j | Clock(m, i) && Clock(m, h) && Clock(m, j) ensures TightAt(m, i, h, j) {}
    assert Consistent(m) && Positive(m) && LowerBounded(m);
    assert Equals(0.0, 0) && Equals(-1.0, -1);
    forall i, j | Clock(m, i) && Clock(m, j) ensures WholeAt(m, i, j) {}
    if InWedge(k, v) {
      forall i, j | Clock(m, i) && Clock(m, j) ensures SatAt(m, v, i, j) {}
    }
    if In(m, v) {
      assert SatAt(m, v, 0, 2) && SatAt(m, v, 2, 1);
    }
  }

  lemma NodesGood()
    ensures GoodNode(Example(), S0) && GoodNode(Example(), P1) && GoodNode(Example(), P2)
  {
    hide Line, Wedge, Normal;
    var a := Example();
    assert a.locs["s"] == a.locs["p"] == ANYWHERE;
    LineExact([]);
    WedgeExact(-1.0, []);
    WedgeExact(0.0, []);
    forall v: Valuation, w: Valuation, loc | loc in ["s", "p"] && Stays(a, loc, v, w)
      ensures In(Line(), v) ==> In(Line(), w)
      ensures In(Wedge(-1.0), v) ==> In(Wedge(-1.0), w)
      ensures In(Wedge(0.0), v) ==> In(Wedge(0.0), w)
    {
      LineExact(v);
      LineExact(w);
      WedgeExact(-1.0, v);
      WedgeExact(-1.0, w);
      WedgeExact(0.0, v);
      WedgeExact(0.0, w);
    }
    assert "s" in ["s", "p"] && "p" in ["s", "p"];
  }

  // ----- the edges of the zone graph -----

  ghost predicate Later(v: Valuation, w: Valuation) {
    exists d: real :: d >= 0.0 && w == Delay(v, d)
  }

  predicate Passes(t: Transition, v: Valuation)
    requires |v| == 3
  {
    (t == LATE ==> v[1] >= 1.0) && (t == LEVEL ==> v[1] <= v[2])
  }

  function After(t: Transition, v: Valuation): Valuation
    requires |v| == 3
  {
    if t == LEVEL then v else v[2 := 0.0]
  }

  lemma GuardExact(t: Transition, v: Valuation)
    requires t in Example().trans && |v| == 3 && v[0] == 0.0
    ensures Pass(t.guard, v) <==> Passes(t, v)
    ensures AllClocks(t.resets, 3) && AfterResets(t.resets, v) == After(t, v)
  {
    assert t == LATE || t == ANY || t == LEVEL;
    assert Pass([FROM_ONE], v) <==> Holds([FROM_ONE][0], v);
    assert Pass([NOT_AHEAD], v) <==> Holds([NOT_AHEAD][0], v);
    assert AfterResets([], v) == v;
    assert SECOND[1..] == [];
    assert AfterResets(SECOND, v) == v[2 := 0.0];
  }

  lemma TransitionRuns(t: Transition, v: Valuation, w: Valuation)
    requires t in Example().trans && |v| == 3 && v[0] == 0.0
    ensures ValidTransition(Example(), t)
    ensures RunsTo(v, Acts(Example(), t), w) <==> Passes(t, v) && Later(After(t, v), w)
  {
    hide RunsTo, Passes, After, AfterResets, Pass;
    ExampleValid();
    var i :| 0 <= i < |Example().trans| && Example().trans[i] == t;
    GuardExact(t, v);
    assert NotNegative(t.resets);
    EdgeRun(v, t.guard, t.resets, true, [], w);
    NothingToPass(After(t, v));
    NothingToPass(w);
  }

  lemma NothingToPass(v: Valuation)
    ensures Pass([], v)
  {}

  ghost predicate Follows(t: Transition, m: Matrix, w: Valuation) {
    exists v: Valuation :: In(m, v) && |v| == 3 && Passes(t, v) && Later(After(t, v), w)
  }

  lemma FollowsExact(t: Transition, m: Matrix, w: Valuation)
    requires t in Example().trans && Good(Example(), m)
    ensures Valid(Example()) && ValidTransition(Example(), t) && Storable(Acts(Example(), t), Example().dim)
    ensures Follows(t, m, w) <==> PostZone(Example(), m, Acts(Example(), t)).Some? && In(PostZone(Example(), m, Acts(Example(), t)).value, w)
  {
    hide RunsTo, Acts, Passes, After, Later;
    var a := Example();
    ExampleValid();
    TransitionRuns(t, [0.0, 0.0, 0.0], w);
    ActsDefined(a, t);
    PostZoneExact(a, m, Acts(a, t), w);
    forall v: Valuation | In(m, v)
      ensures |v| == 3 && (RunsTo(v, Acts(a, t), w) <==> Passes(t, v) && Later(After(t, v), w))
    {
      TransitionRuns(t, v, w);
    }
  }

  lemma ZoneAfter(t: Transition, m: Matrix, e: Matrix)
    requires t in Example().trans && Good(Example(), m) && Good(Example(), e) && forall w: Valuation :: In(e, w) <==> Follows(t, m, w)
    ensures Valid(Example()) && ValidTransition(Example(), t) && Storable(Acts(Example(), t), Example().dim)
    ensures PostZone(Example(), m, Acts(Example(), t)) == Some(e)
  {
    hide Acts, Follows;
    forall w: Valuation
      ensures Valid(Example()) && ValidTransition(Example(), t) && Storable(Acts(Example(), t), Example().dim)
      ensures Follows(t, m, w) <==> PostZone(Example(), m, Acts(Example(), t)).Some? && In(PostZone(Example(), m, Acts(Example(), t)).value, w)
    {
      FollowsExact(t, m, w);
    }
    var w := Inhabited(e);
    CanonicalForm(PostZone(Example(), m, Acts(Example(), t)).value, e);
  }

  lemma WedgeFollows(t: Transition, k: real, w: Valuation)
    requires (t == LATE && k == -1.0) || (t == ANY && k == 0.0)
    ensures In(Wedge(k), w) <==> Follows(t, Line(), w)
  {
    hide Line, Wedge;
    WedgeExact(k, w);
    if InWedge(k, w) {
      var h := w[1] - w[2];
      var v := [0.0, h, h];
      LineExact(v);
      assert w == Delay(After(t, v), w[2]);
    }
    if v: Valuation :| In(Line(), v) && |v| == 3 && Passes(t, v) && Later(After(t, v), w) {
      LineExact(v);
    }
  }

  lemma Targets()
    ensures Valid(Example())
    ensures Enabled(Example(), S0, 0) && Target(Example(), S0, 0) == P1
    ensures Enabled(Example(), S0, 1) && Target(Example(), S0, 1) == P2
    ensures !Enabled(Example(), P1, 2)
  {
    hide Acts, Line, Wedge, GoodNode, Normal, PostZone, Follows;
    var a := Example();
    assert a.trans[0] == LATE && a.trans[1] == ANY && a.trans[2] == LEVEL;
    NodesGood();
    LineExact([]);
    WedgeExact(-1.0, []);
    WedgeExact(0.0, []);
    forall w: Valuation
      ensures In(Wedge(-1.0), w) <==> Follows(LATE, Line(), w)
      ensures In(Wedge(0.0), w) <==> Follows(ANY, Line(), w)
    {
      WedgeFollows(LATE, -1.0, w);
      WedgeFollows(ANY, 0.0, w);
    }
    ZoneAfter(LATE, Line(), Wedge(-1.0));
    ZoneAfter(ANY, Line(), Wedge(0.0));
    TooFar();
  }

  /** A clock that is ahead by one does not get to `r`. */
  lemma TooFar()
    ensures Valid(Example()) && ValidTransition(Example(), LEVEL) && Storable(Acts(Example(), LEVEL), Example().dim)
    ensures Good(Example(), Wedge(-1.0)) && PostZone(Example(), Wedge(-1.0), Acts(Example(), LEVEL)) == None
  {
    hide Acts, Wedge, Normal, PostZone;
    assert Example().trans[2] == LEVEL;
    WedgeExact(-1.0, []);
    FollowsExact(LEVEL, Wedge(-1.0), []);
    var r := PostZone(Example(), Wedge(-1.0), Acts(Example(), LEVEL));
    if r.Some? {
      var w := GoodInhabited(Example(), r.value);
      FollowsExact(LEVEL, Wedge(-1.0), w);
      var v: Valuation :| In(Wedge(-1.0), v) && |v| == 3 && Passes(LEVEL, v) && Later(After(LEVEL, v), w);
      WedgeExact(-1.0, v);
    }
  }

  lemma EnabledFrom(n: Node<Matrix>, i: int)
    requires n == S0 || n == P1
    ensures Valid(Example())
    ensures Enabled(Example(), n, i) ==> (n == S0 && 0 <= i <= 1) || (n == P1 && i == 2)
  {
    hide Acts, Line, Wedge, GoodNode, PostZone;
    ExampleValid();
    var a := Example();
    assert a.trans[0] == LATE && a.trans[1] == ANY && a.trans[2] == LEVEL;
  }

  lemma EdgesMet(e: Edge<Matrix>)
    ensures Valid(Example())
    ensures e in SystemOf(Example()).succ(S0) <==> e == Nop(P1) || e == Nop(P2)
    ensures e !in SystemOf(Example()).succ(P1)
  {
    hide Line, Wedge, SystemOf, Enabled, Target;
    var a := Example();
    assert a.trans[0] == LATE && a.trans[1] == ANY;
    Targets();
    forall i ensures Enabled(a, S0, i) ==> i == 0 || i == 1 { EnabledFrom(S0, i); }
    forall i ensures Enabled(a, P1, i) ==> i == 2 { EnabledFrom(P1, i); }
    SuccOf(a, S0, e);
    SuccOf(a, P1, e);
  }

  // ----- the comparison at `p` -----

  lemma OnlyAtP(c: Machine.ClockConstraint)
    ensures c in GuardsOf(Example(), "p") <==> c == NOT_AHEAD
  {
    hide GuardsOf;
    var a := Example();
    GuardsOfMembers(a, "p", c);
    assert a.trans[2] == LEVEL && NOT_AHEAD in LEVEL.guard;
    forall i | 0 <= i < |a.trans| && a.trans[i].src == "p" ensures a.trans[i] == LEVEL {
      assert a.trans[i] == LATE || a.trans[i] == ANY || a.trans[i] == LEVEL;
    }
  }

  lemma NoBoundsAtP()
    ensures Low(Example(), "p") == Up(Example(), "p") == [0, -INF_VALUE, -INF_VALUE]
    ensures forall c :: c in Diagonals(GuardsOf(Example(), "p")) ==> c == NOT_AHEAD
  {
    hide GuardsOf, Diagonals;
    var cs := GuardsOf(Example(), "p");
    forall c | c in cs ensures c == NOT_AHEAD { OnlyAtP(c); }
    DiagonalsExact(cs);
    BoundsExact(cs, 1);
    BoundsExact(cs, 2);
  }

  lemma AllBelow(v: Valuation, w: Valuation)
    requires |v| == |w| == 3 && v[0] == 0.0 == w[0]
    ensures Below([0, -INF_VALUE, -INF_VALUE], [0, -INF_VALUE, -INF_VALUE], v, w)
  {}

  lemma AnyIncluded(k: real, h: real)
    requires (k == 0.0 || k == -1.0) && (h == 0.0 || h == -1.0)
    ensures SimIncluded(Wedge(k), Wedge(h), [0, -INF_VALUE, -INF_VALUE], [0, -INF_VALUE, -INF_VALUE])
    ensures !Entails(Wedge(k), NOT_AHEAD)
  {
    hide In, Below, Wedge;
    forall v: Valuation | In(Wedge(k), v)
      ensures Simulated(Wedge(h), [0, -INF_VALUE, -INF_VALUE], [0, -INF_VALUE, -INF_VALUE], v)
    {
      WedgeExact(k, v);
      WedgeExact(h, [0.0, 1.0, 0.0]);
      AllBelow(v, [0.0, 1.0, 0.0]);
    }
    WedgeExact(k, [0.0, 1.0, 0.0]);
    assert !Holds(NOT_AHEAD, [0.0, 1.0, 0.0]);
  }

  /** At `p` each zone stands for the other: neither entails the diagonal guard. */
  lemma Interchangeable()
    ensures Valid(Example()) && Pushdown.Equivalent(SystemOf(Example()), P1, P2)
  {
    hide SuccFrom, Wedge, SimIncluded, GuardsOf, Low, Up, Entails, Diagonals, GoodNode;
    ExampleValid();
    NoBoundsAtP();
    NodesGood();
    AnyIncluded(-1.0, 0.0);
    AnyIncluded(0.0, -1.0);
  }

  // ----- the table, and what the automaton can do -----

  lemma HeldFinished(mode: bool)
    ensures Valid(Example()) && Inv(SystemOf(Example()), mode, Held()) && Saturated(SystemOf(Example()), mode, Held())
  {
    hide SystemOf, Line, Wedge;
    ExampleValid();
    var ts, c := SystemOf(Example()), Held();
    EdgesMet(Nop(P1));
    TracedHere(ts, c.pushes, S0);
    TracedStep(ts, c.pushes, S0, S0, P1);
    Interchangeable();
    ComparisonPreorder(Example());
    forall x, e: Edge<Matrix> | x in c.slm && e in ts.succ(x.1)
      ensures Handled(ts, mode, c, x.0, e)
    {
      EdgesMet(e);
      assert (S0, P1) in c.slm && Pushdown.Le(ts, P1, P1);
    }
  }

  lemma FromZero(w: Valuation)
    ensures "s" in Example().locs && (Stays(Example(), "s", Zeros(3), w) <==> Later(Zeros(3), w))
  {}

  lemma InitialS()
    ensures Valid(Example()) && InitialNode(Example(), "s") == Some(S0)
  {
    hide RunsTo, InitialNode, Stays, Line;
    var a := Example();
    ExampleValid();
    LineExact([]);
    var r := InitialNode(a, "s");
    forall w: Valuation
      ensures r.Some? && In(r.value.zone, w) <==> In(Line(), w)
    {
      InitialNodeExact(a, "s", w);
      FromZero(w);
      LineExact(w);
      if InLine(w) {
        assert w == Delay(Zeros(3), w[1]);
      }
    }
    var w := Inhabited(Line());
    CanonicalForm(r.value.zone, Line());
  }

  lemma StaysAtZero(t: Transition)
    requires t == ANY || t == LEVEL
    ensures t in Example().trans && ValidTransition(Example(), t) && RunsTo(Zeros(3), Acts(Example(), t), Zeros(3))
  {
    assert Example().trans[1] == ANY && Example().trans[2] == LEVEL;
    TransitionRuns(t, Zeros(3), Zeros(3));
    assert After(t, Zeros(3)) == Zeros(3) == Delay(Zeros(3), 0.0);
  }

  lemma Reachable()
    ensures CanReach(Example(), "s", "r")
  {
    hide RunsTo, Acts, Stays, Zeros, Path, StackAfter, Word, ActsOf, ValidTransition;
    var a, z := Example(), Zeros(3);
    StaysAtZero(ANY);
    StaysAtZero(LEVEL);
    MissedLocations.Nowhere(a, z, "s");
    MissedLocations.Onward(a, z, [], ANY, "s");
    MissedLocations.Onward(a, z, [] + [ANY], LEVEL, "s");
    AtZero(z);
    assert Starts(a, "s", ActsOf(a, [] + [ANY] + [LEVEL]));
  }

  lemma AtZero(z: Valuation)
    requires z == Zeros(3)
    ensures "s" in Example().locs && Stays(Example(), "s", z, z)
  {
    FromZero(z);
    assert z == Delay(z, 0.0);
  }

  /** Where the clocks are equal, the guard can be passed, and the bounds at `p` say nothing about the first one. */
  lemma GapLevel()
    ensures MissedLocations.HasGap(Example(), LEVEL)
  {
    hide GuardsOf, Low, Up, LocalCheck.NoGapCheck;
    var a, z := Example(), Zeros(3);
    ExampleValid();
    StaysAtZero(LEVEL);
    NoBoundsAtP();
    assert LocalCondition.Takes(a, LEVEL, z) by {
      assert AfterResets([], z) == z;
      assert Holds(NOT_AHEAD, z);
    }
    assert LEVEL.guard[0] == NOT_AHEAD;
    assert LocalCondition.DiagonalGap(a, LEVEL, z, LEVEL.guard[0]);
    assert LocalCondition.Gap(a, LEVEL, z);
    LocalCheck.NoGapChecked(a, LEVEL);
  }

  /** The second edge leads to something that the first one has made redundant, in both modes of the exploration; without it the
      table is finished, and does not hold `r`, which the automaton can reach. */
  lemma Missed(mode: bool)
    ensures Valid(Example()) && InitialNode(Example(), "s") == Some(S0)
    ensures Nop(P2) in SystemOf(Example()).succ(S0) && Redundant(SystemOf(Example()), mode, Held(), S0, P2)
    ensures Inv(SystemOf(Example()), mode, Held()) && Saturated(SystemOf(Example()), mode, Held())
    ensures CanReach(Example(), "s", "r") && !HoldsLocation(Held(), S0, "r")
    ensures MissedLocations.HasGap(Example(), LEVEL)
  {
    hide SystemOf, Line, Wedge, CanReach, Inv, Saturated, MissedLocations.HasGap, InitialNode;
    InitialS();
    Interchangeable();
    EdgesMet(Nop(P2));
    assert (S0, P1) in Held().slm;
    HeldFinished(mode);
    Reachable();
    GapLevel();
  }
}
