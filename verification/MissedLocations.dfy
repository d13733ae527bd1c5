/** An automaton for which the comparison by local bounds is no simulation: the exploration finishes without a location that can be
    reached. */
module MissedLocations {
  import opened Wrappers
  import opened Bounds
  import opened Zones
  import opened ZoneOps
  import opened Encoding
  import opened LuSimulation
  import opened Extrapolation
  import opened ZoneGraph
  import opened Integrality
  import opened LocalBounds
  import opened EdgeRuns
  import opened Pushdown
  import opened Traces
  import opened Saturation
  import opened TimedPushdown
  import opened TimedExploration
  import LocalCondition
  import LocalCheck
  import Machine

  const ANYWHERE: Location := Location([], true)
  const ABOVE_FIVE: seq<Machine.ClockConstraint> := [Machine.ClockConstraint(0, 1, true, -5)]
  const UP_TO_FIVE: seq<Machine.ClockConstraint> := [Machine.ClockConstraint(1, 0, false, 5)]

  const LATE: Transition := Transition("s", NoOp, ABOVE_FIVE, [], "p")
  const ANY: Transition := Transition("s", NoOp, [], [], "p")
  const ON: Transition := Transition("p", NoOp, [], [], "q")
  const EARLY: Transition := Transition("q", NoOp, UP_TO_FIVE, [], "r")

  /** Two edges from `s` to `p`, the first only above five; at `p` the clock is compared with nothing; only after `q` it must not be
      above five. */
  function Example(): Automaton {
    Automaton(2, map["s" := ANYWHERE, "p" := ANYWHERE, "q" := ANYWHERE, "r" := ANYWHERE], [LATE, ANY, ON, EARLY])
  }

  /** The values from a lower bound on. */
  function Half(b: Bound): Matrix {
    [[ZERO, b], [Inf, ZERO]]
  }

  const FROM_ZERO: Bound := ZERO
  const FROM_FIVE: Bound := Fin(-5.0, false)

  lemma WholeBounds()
    ensures Whole(FROM_ZERO) && Whole(FROM_FIVE)
  {
    assert Equals(0.0, 0) && Equals(-5.0, -5);
  }

  const S0: Node<Matrix> := Node("s", Half(FROM_ZERO))
  const P1: Node<Matrix> := Node("p", Half(FROM_FIVE))
  const P2: Node<Matrix> := Node("p", Half(FROM_ZERO))
  const Q1: Node<Matrix> := Node("q", Half(FROM_FIVE))

  /** What the table holds at the end, when the edges are handled in the order given. */
  function Held(): Content<Matrix> {
    Content({S0}, {(S0, S0), (S0, P1), (S0, Q1)}, {}, {})
  }

  lemma ExampleValid()
    ensures Valid(Example())
  {
    var a := Example();
    forall i | 0 <= i < |a.trans| ensures ValidTransition(a, a.trans[i]) {}
  }

  lemma HalfExact(b: Bound, v: Valuation)
    requires Bounds.Le(b, ZERO) && Whole(b)
    ensures In(Half(b), v) <==> |v| == 2 && v[0] == 0.0 && Meets(-v[1], b)
    ensures Good(Example(), Half(b))
  {
    var m := Half(b);
    forall i, k, j | Clock(m, i) && Clock(m, k) && Clock(m, j) ensures TightAt(m, i, k, j) {}
    assert Consistent(m) && Positive(m) && LowerBounded(m);
    assert Equals(0.0, 0);
    forall i, j | Clock(m, i) && Clock(m, j) ensures WholeAt(m, i, j) {}
    if |v| == 2 && v[0] == 0.0 && Meets(-v[1], b) {
      forall i, j | Clock(m, i) && Clock(m, j) ensures SatAt(m, v, i, j) {}
    }
    if In(m, v) {
      assert SatAt(m, v, 0, 1);
    }
  }

  lemma HalfSettled(b: Bound, loc: string)
    requires loc in Example().locs && Bounds.Le(b, ZERO) && Whole(b)
    ensures Settled(Example(), loc, Half(b))
  {
    hide Half, Normal;
    var a := Example();
    assert a.locs[loc] == ANYWHERE;
    forall v: Valuation, w: Valuation | In(Half(b), v) && Stays(a, loc, v, w) ensures In(Half(b), w) {
      HalfExact(b, v);
      HalfExact(b, w);
    }
  }

  lemma NodesGood()
    ensures GoodNode(Example(), S0) && GoodNode(Example(), P1) && GoodNode(Example(), P2) && GoodNode(Example(), Q1)
  {
    hide Half, Normal, Settled;
    WholeBounds();
    HalfExact(FROM_ZERO, []);
    HalfExact(FROM_FIVE, []);
    HalfSettled(FROM_ZERO, "s");
    HalfSettled(FROM_ZERO, "p");
    HalfSettled(FROM_FIVE, "p");
    HalfSettled(FROM_FIVE, "q");
  }

  // ----- the edges of the zone graph -----

  /** What a transition of the example does: a guard, and then time. */
  lemma TransitionRuns(t: Transition, v: Valuation, w: Valuation)
    requires t in Example().trans && |v| == 2
    ensures ValidTransition(Example(), t)
    ensures RunsTo(v, Acts(Example(), t), w) <==> Pass(t.guard, v) && exists d: real :: d >= 0.0 && w == Delay(v, d)
  {
    hide RunsTo;
    ExampleValid();
    var i :| 0 <= i < |Example().trans| && Example().trans[i] == t;
    EdgeRun(v, t.guard, [], true, [], w);
  }

  /** The zone after a transition, from the set of its valuations. */
  lemma ZoneAfter(t: Transition, m: Matrix, b: Bound)
    requires t in Example().trans && Good(Example(), m) && Bounds.Le(b, ZERO) && Whole(b)
    requires forall w: Valuation :: In(Half(b), w) <==> exists v: Valuation :: In(m, v) && Pass(t.guard, v) && Later(v, w)
    ensures Valid(Example()) && ValidTransition(Example(), t) && Storable(Acts(Example(), t), Example().dim)
    ensures PostZone(Example(), m, Acts(Example(), t)) == Some(Half(b))
  {
    hide RunsTo, Pass, Acts, Half;
    var a := Example();
    ExampleValid();
    ActsDefined(a, t);
    var r := PostZone(a, m, Acts(a, t));
    forall v: Valuation, w: Valuation | In(m, v)
      ensures RunsTo(v, Acts(a, t), w) <==> Pass(t.guard, v) && Later(v, w)
    {
      TransitionRuns(t, v, w);
    }
    forall w: Valuation ensures r.Some? && In(r.value, w) <==> In(Half(b), w) {
      PostZoneExact(a, m, Acts(a, t), w);
    }
    HalfExact(b, []);
    var w := Inhabited(Half(b));
    CanonicalForm(r.value, Half(b));
  }

  ghost predicate Later(v: Valuation, w: Valuation) {
    exists d: real :: d >= 0.0 && w == Delay(v, d)
  }

  predicate Passes(t: Transition, x: real) {
    (t == LATE ==> x > 5.0) && (t == EARLY ==> x <= 5.0)
  }

  lemma GuardExact(t: Transition, v: Valuation)
    requires t in Example().trans && |v| == 2 && v[0] == 0.0
    ensures Pass(t.guard, v) <==> Passes(t, v[1])
  {
    assert Pass(ABOVE_FIVE, v) <==> Holds(ABOVE_FIVE[0], v);
    assert Pass(UP_TO_FIVE, v) <==> Holds(UP_TO_FIVE[0], v);
    assert Pass([], v);
  }

  /** `t` leads from the values within `b` to those within `c`. */
  predicate Moves(t: Transition, b: Bound, c: Bound) {
    || (t == LATE && b == FROM_ZERO && c == FROM_FIVE)
    || (t == ANY && b == FROM_ZERO && c == FROM_ZERO)
    || (t == ON && b == c == FROM_FIVE)
  }

  lemma MovesExact(t: Transition, b: Bound, c: Bound)
    requires t in Example().trans && Moves(t, b, c)
    ensures Valid(Example()) && ValidTransition(Example(), t) && Storable(Acts(Example(), t), 2) && Good(Example(), Half(b))
    ensures PostZone(Example(), Half(b), Acts(Example(), t)) == Some(Half(c))
  {
    hide Pass, Acts, Half, Good;
    WholeBounds();
    HalfExact(b, []);
    forall w: Valuation
      ensures In(Half(c), w) <==> exists v: Valuation :: In(Half(b), v) && Pass(t.guard, v) && Later(v, w)
    {
      HalfExact(c, w);
      HalfExact(b, w);
      if In(Half(c), w) {
        GuardExact(t, w);
        assert w == Delay(w, 0.0);
        assert Later(w, w);
      }
      if v: Valuation :| In(Half(b), v) && Pass(t.guard, v) && Later(v, w) {
        HalfExact(b, v);
        GuardExact(t, v);
      }
    }
    ZoneAfter(t, Half(b), c);
  }

  /** Values above five do not get to `r`. */
  lemma TooLate()
    ensures Valid(Example()) && ValidTransition(Example(), EARLY) && Storable(Acts(Example(), EARLY), 2)
    ensures Good(Example(), Half(FROM_FIVE)) && PostZone(Example(), Half(FROM_FIVE), Acts(Example(), EARLY)) == None
  {
    hide Pass, Acts, Half, Good, RunsTo;
    WholeBounds();
    var a := Example();
    ExampleValid();
    assert EARLY in a.trans;
    ActsDefined(a, EARLY);
    HalfExact(FROM_FIVE, []);
    PostZoneSurvives(a, Half(FROM_FIVE), Acts(a, EARLY));
    forall v: Valuation, w: Valuation | In(Half(FROM_FIVE), v)
      ensures !RunsTo(v, Acts(a, EARLY), w)
    {
      HalfExact(FROM_FIVE, v);
      GuardExact(EARLY, v);
      TransitionRuns(EARLY, v, w);
    }
  }

  lemma EnabledFrom(n: Node<Matrix>, i: int)
    requires n == S0 || n == P1 || n == Q1
    ensures Valid(Example())
    ensures Enabled(Example(), n, i) ==>
              (n == S0 && i == 0) || (n == S0 && i == 1) || (n == P1 && i == 2) || (n == Q1 && i == 3)
  {
    hide Acts, Half, GoodNode, PostZone;
    ExampleValid();
    var a := Example();
    assert a.trans[0] == LATE && a.trans[1] == ANY && a.trans[2] == ON && a.trans[3] == EARLY;
  }

  lemma Targets()
    ensures Valid(Example())
    ensures Enabled(Example(), S0, 0) && Target(Example(), S0, 0) == P1
    ensures Enabled(Example(), S0, 1) && Target(Example(), S0, 1) == P2
    ensures Enabled(Example(), P1, 2) && Target(Example(), P1, 2) == Q1
    ensures !Enabled(Example(), Q1, 3)
  {
    hide Acts, Half, GoodNode, PostZone;
    var a := Example();
    assert a.trans[0] == LATE && a.trans[1] == ANY && a.trans[2] == ON && a.trans[3] == EARLY;
    NodesGood();
    MovesExact(LATE, FROM_ZERO, FROM_FIVE);
    MovesExact(ANY, FROM_ZERO, FROM_ZERO);
    MovesExact(ON, FROM_FIVE, FROM_FIVE);
    TooLate();
  }

  /** The edges of the zone graph that the exploration meets. */
  lemma EdgesMet(e: Edge<Matrix>)
    ensures Valid(Example())
    ensures e in SystemOf(Example()).succ(S0) <==> e == Nop(P1) || e == Nop(P2)
    ensures e in SystemOf(Example()).succ(P1) <==> e == Nop(Q1)
    ensures e !in SystemOf(Example()).succ(Q1)
  {
    hide Half, SystemOf, Enabled, Target;
    var a := Example();
    Targets();
    forall i ensures Enabled(a, S0, i) ==> i == 0 || i == 1 { EnabledFrom(S0, i); }
    forall i ensures Enabled(a, P1, i) ==> i == 2 { EnabledFrom(P1, i); }
    forall i ensures Enabled(a, Q1, i) ==> i == 3 { EnabledFrom(Q1, i); }
    SuccOf(a, S0, e);
    SuccOf(a, P1, e);
    SuccOf(a, Q1, e);
    forall i | Enabled(a, S0, i) || Enabled(a, P1, i) ensures a.trans[i].op == NoOp {}
  }

  // ----- the comparison at `p` -----

  lemma GuardsByLocation(i: int)
    requires 0 <= i < |Example().trans|
    ensures Example().trans[i].src == "p" ==> Example().trans[i].guard == []
    ensures Example().trans[i].src == "q" ==> Example().trans[i].guard == UP_TO_FIVE
  {
    var t := Example().trans[i];
    assert t == LATE || t == ANY || t == ON || t == EARLY;
  }

  lemma NothingGuardedAtP()
    ensures GuardsOf(Example(), "p") == []
  {
    hide GuardsOf;
    var a := Example();
    forall c ensures c !in GuardsOf(a, "p") {
      GuardsOfMembers(a, "p", c);
      forall i | 0 <= i < |a.trans| && a.trans[i].src == "p" ensures c !in a.trans[i].guard {
        GuardsByLocation(i);
      }
    }
    if GuardsOf(a, "p") != [] {
      SomeMember(GuardsOf(a, "p"));
    }
  }

  lemma SomeMember<T>(s: seq<T>)
    requires s != []
    ensures exists c :: c in s
  {
    assert s[0] in s;
  }

  lemma NothingAtP()
    ensures GuardsOf(Example(), "p") == []
    ensures Low(Example(), "p") == Up(Example(), "p") == [0, -INF_VALUE]
  {
    hide GuardsOf, Lowers, Uppers;
    NothingGuardedAtP();
    NoBoundsOfNothing(2);
  }

  lemma AllBelow(v: Valuation, w: Valuation)
    requires |v| == |w| == 2 && v[0] == 0.0 == w[0]
    ensures Below([0, -INF_VALUE], [0, -INF_VALUE], v, w)
  {}

  lemma AnyIncluded(b: Bound, c: Bound)
    requires (b == FROM_ZERO || b == FROM_FIVE) && (c == FROM_ZERO || c == FROM_FIVE)
    ensures SimIncluded(Half(b), Half(c), [0, -INF_VALUE], [0, -INF_VALUE])
  {
    hide In, Below;
    WholeBounds();
    forall v: Valuation | In(Half(b), v)
      ensures Simulated(Half(c), [0, -INF_VALUE], [0, -INF_VALUE], v)
    {
      HalfExact(b, v);
      HalfExact(c, [0.0, 6.0]);
      AllBelow(v, [0.0, 6.0]);
    }
  }

  /** At `p` each zone stands for the other. */
  lemma Interchangeable()
    ensures Valid(Example()) && Pushdown.Equivalent(SystemOf(Example()), P1, P2)
  {
    hide SuccFrom, Half, SimIncluded, GuardsOf, Low, Up, GoodNode;
    ExampleValid();
    NothingAtP();
    NodesGood();
    AnyIncluded(FROM_ZERO, FROM_FIVE);
    AnyIncluded(FROM_FIVE, FROM_ZERO);
  }

  // ----- the table -----

  lemma HeldInvariant(mode: bool)
    ensures Valid(Example()) && Inv(SystemOf(Example()), mode, Held())
  {
    hide SystemOf, Half;
    ExampleValid();
    var ts, c := SystemOf(Example()), Held();
    EdgesMet(Nop(P1));
    EdgesMet(Nop(Q1));
    TracedHere(ts, c.pushes, S0);
    TracedStep(ts, c.pushes, S0, S0, P1);
    TracedStep(ts, c.pushes, S0, P1, Q1);
  }

  lemma HeldSaturated(mode: bool)
    ensures Valid(Example()) && Saturated(SystemOf(Example()), mode, Held())
  {
    hide SystemOf, Half, Pushdown.Equivalent;
    ExampleValid();
    var ts, c := SystemOf(Example()), Held();
    ComparisonPreorder(Example());
    Interchangeable();
    forall x, e: Edge<Matrix> | x in c.slm && e in ts.succ(x.1)
      ensures Handled(ts, mode, c, x.0, e)
    {
      EdgesMet(e);
      StandIn(ts);
      assert (S0, P1) in c.slm && (S0, Q1) in c.slm;
      assert StandsIn(ts, mode, P1, P1) && StandsIn(ts, mode, P1, P2) && StandsIn(ts, mode, Q1, Q1);
    }
  }

  lemma StandIn(ts: System<Matrix>)
    requires Preorder(ts) && Pushdown.Equivalent(ts, P1, P2)
    ensures forall mode: bool :: StandsIn(ts, mode, P1, P1) && StandsIn(ts, mode, P1, P2) && StandsIn(ts, mode, Q1, Q1)
  {
    assert Pushdown.Le(ts, P1, P1) && Pushdown.Le(ts, Q1, Q1);
  }

  // ----- what the automaton can do -----

  lemma InitialS()
    ensures Valid(Example()) && InitialNode(Example(), "s") == Some(S0)
  {
    hide RunsTo, InitialNode, Stays;
    WholeBounds();
    var a := Example();
    ExampleValid();
    HalfExact(FROM_ZERO, []);
    var r := InitialNode(a, "s");
    forall w: Valuation
      ensures r.Some? && In(r.value.zone, w) <==> In(Half(FROM_ZERO), w)
    {
      InitialNodeExact(a, "s", w);
      FromZero(w);
      HalfExact(FROM_ZERO, w);
      if In(Half(FROM_ZERO), w) {
        assert w == Delay(Zeros(2), w[1]);
      }
    }
    var w := Inhabited(Half(FROM_ZERO));
    CanonicalForm(r.value.zone, Half(FROM_ZERO));
  }

  lemma FromZero(w: Valuation)
    ensures "s" in Example().locs && (Stays(Example(), "s", Zeros(2), w) <==> Later(Zeros(2), w))
  {}

  lemma StaysAtZero(t: Transition)
    requires t in [ANY, ON, EARLY]
    ensures ValidTransition(Example(), t) && RunsTo(Zeros(2), Acts(Example(), t), Zeros(2))
  {
    assert t in Example().trans;
    TransitionRuns(t, Zeros(2), Zeros(2));
    GuardExact(t, Zeros(2));
    assert Zeros(2) == Delay(Zeros(2), 0.0);
  }

  /** One more transition that leaves the stack alone and the clock values where they are. */
  lemma Onward(a: Automaton, z: Valuation, w: seq<Transition>, t: Transition, start: string)
    requires Path(a, start, w, t.src) && StackAfter([], w) == Some([]) && Word(a, w) && RunsTo(z, ActsOf(a, w), z)
    requires t in a.trans && t.op.NoOp? && ValidTransition(a, t) && RunsTo(z, Acts(a, t), z)
    ensures Path(a, start, w + [t], t.tgt) && StackAfter([], w + [t]) == Some([]) && Word(a, w + [t])
    ensures RunsTo(z, ActsOf(a, w + [t]), z)
  {
    hide RunsTo, Acts, ValidTransition;
    var w' := w + [t];
    assert w'[..|w'| - 1] == w;
    RunsConcat(z, ActsOf(a, w), Acts(a, t), z);
  }

  lemma Nowhere(a: Automaton, z: Valuation, start: string)
    ensures Path(a, start, [], start) && StackAfter([], []) == Some([]) && Word(a, []) && RunsTo(z, ActsOf(a, []), z)
  {
    NoMore(z, z);
  }

  lemma InExample(t: Transition)
    requires t in [ANY, ON, EARLY]
    ensures t in Example().trans && t.op.NoOp?
  {
    assert Example().trans[1] == ANY && Example().trans[2] == ON && Example().trans[3] == EARLY;
  }

  lemma Reachable()
    ensures CanReach(Example(), "s", "r")
  {
    hide RunsTo, Acts, Stays, Zeros, Path, StackAfter, Word, ActsOf, ValidTransition;
    var a, z := Example(), Zeros(2);
    forall t | t in [ANY, ON, EARLY]
      ensures t in a.trans && t.op.NoOp? && ValidTransition(a, t) && RunsTo(z, Acts(a, t), z)
    {
      InExample(t);
      StaysAtZero(t);
    }
    Nowhere(a, z, "s");
    Onward(a, z, [], ANY, "s");
    Onward(a, z, [] + [ANY], ON, "s");
    Onward(a, z, [] + [ANY] + [ON], EARLY, "s");
    AtZero(z);
    assert Starts(a, "s", ActsOf(a, [] + [ANY] + [ON] + [EARLY]));
  }

  lemma AtZero(z: Valuation)
    requires z == Zeros(2)
    ensures "s" in Example().locs && Stays(Example(), "s", z, z)
  {
    FromZero(z);
    assert z == Delay(z, 0.0);
  }

  // ----- the gap -----

  lemma UpAtQ()
    ensures Up(Example(), "q")[1] == 5
  {
    hide GuardsOf;
    var a := Example();
    BoundsExact(GuardsOf(a, "q"), 1);
    GuardsOfMembers(a, "q", UP_TO_FIVE[0]);
    assert a.trans[3] == EARLY && UP_TO_FIVE[0] in a.trans[3].guard;
    forall c | c in GuardsOf(a, "q") ensures c == UP_TO_FIVE[0] {
      GuardsOfMembers(a, "q", c);
      var i :| 0 <= i < |a.trans| && a.trans[i].src == "q" && c in a.trans[i].guard;
      GuardsByLocation(i);
    }
  }

  /** Seen by valuations, and as it is computed. */
  ghost predicate HasGap(a: Automaton, t: Transition) {
    Valid(a) && ValidTransition(a, t) && !LocalCondition.NoGap(a, t) && !LocalCheck.NoGapCheck(a, t)
  }

  lemma GapOn()
    ensures HasGap(Example(), ON)
  {
    hide GuardsOf, Lowers, Uppers, LocalCheck.NoGapCheck;
    var a, v := Example(), [0.0, 3.0];
    ExampleValid();
    assert Example().trans[2] == ON;
    NothingAtP();
    UpAtQ();
    assert AfterResets([], v) == v && LocalCondition.Takes(a, ON, v);
    assert LocalCondition.AheadGap(a, ON, v, 1);
    assert LocalCondition.Gap(a, ON, v);
    LocalCheck.NoGapChecked(a, ON);
  }

  /** The second edge leads to something that the first one has made redundant, in both modes of the exploration; without it the
      table is finished, and does not hold `r`, which the automaton can reach. The edge in between has a gap. */
  lemma Missed(mode: bool)
    ensures Valid(Example()) && InitialNode(Example(), "s") == Some(S0)
    ensures var ts, c := SystemOf(Example()), Content({S0}, {(S0, S0), (S0, P1)}, {}, {});
            Nop(P2) in ts.succ(S0) && Redundant(ts, mode, c, S0, P2)
    ensures Inv(SystemOf(Example()), mode, Held()) && Saturated(SystemOf(Example()), mode, Held())
    ensures CanReach(Example(), "s", "r") && !HoldsLocation(Held(), S0, "r")
    ensures HasGap(Example(), ON)
  {
    hide SystemOf, Half, CanReach, Inv, Saturated, HasGap, InitialNode;
    InitialS();
    Interchangeable();
    EdgesMet(Nop(P2));
    var c: Content<Matrix> := Content({S0}, {(S0, S0), (S0, P1)}, {}, {});
    assert (S0, P1) in c.slm;
    HeldInvariant(mode);
    HeldSaturated(mode);
    Reachable();
    GapOn();
  }
}
