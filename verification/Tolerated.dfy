/** Edges that respect the comparison although a coarser look at them finds a gap. */
module Tolerated {
  import opened Bounds
  import opened Zones
  import opened ZoneOps
  import opened Encoding
  import opened LuSimulation
  import opened ZoneGraph
  import opened LocalBounds
  import opened EdgeRuns
  import opened TimedPushdown
  import opened LocalSimulation
  import opened LocalCondition
  import opened LocalNecessity
  import opened LocalEquivalence
  import Machine

  lemma OneOf(a: Automaton, loc: string, t: Transition)
    requires loc in a.locs && a.locs[loc].inv == [] && t in a.trans && t.src == loc
    requires forall i :: 0 <= i < |a.trans| && a.trans[i].src == loc ==> a.trans[i] == t
    ensures forall c :: c in GuardsOf(a, loc) <==> c in t.guard
  {
    hide GuardsOf;
    forall c ensures c in GuardsOf(a, loc) <==> c in t.guard {
      GuardsOfMembers(a, loc, c);
    }
  }

  // ----- what the zones of nodes cannot tell -----

  const AT_ONCE: Location := Location([], false)
  const ABOVE_FIVE: Machine.ClockConstraint := Machine.ClockConstraint(0, 1, true, -5)
  const BELOW_SIX: Machine.ClockConstraint := Machine.ClockConstraint(1, 0, true, 6)
  const BELOW_SEVEN: Machine.ClockConstraint := Machine.ClockConstraint(1, 0, true, 7)
  const FROM_SIX: Machine.ClockConstraint := Machine.ClockConstraint(0, 1, false, -6)
  const BEYOND: Transition := Transition("p", NoOp, [FROM_SIX], [], "q")

  function Between(wide: bool): Transition {
    Transition("s", NoOp, [ABOVE_FIVE, if wide then BELOW_SEVEN else BELOW_SIX], [], "p")
  }

  /** The first edge is taken between five and six, or seven; there is no time to wait before the second, which is taken from six on. */
  function Band(wide: bool, delay: bool): Automaton {
    Automaton(2, map["s" := Location([], delay), "p" := AT_ONCE, "q" := AT_ONCE], [Between(wide), BEYOND])
  }

  function End(wide: bool): real {
    if wide then 7.0 else 6.0
  }

  lemma BandValid(wide: bool, delay: bool)
    ensures Valid(Band(wide, delay)) && ValidTransition(Band(wide, delay), Between(wide)) && Between(wide) in Band(wide, delay).trans
    ensures Steady(Band(wide, delay), Between(wide)) && SimpleAll(Band(wide, delay).locs["s"].inv)
  {
    var a := Band(wide, delay);
    forall i | 0 <= i < |a.trans| ensures ValidTransition(a, a.trans[i]) {
      assert a.trans[i] == Between(wide) || a.trans[i] == BEYOND;
    }
    assert a.trans[0] == Between(wide);
  }

  lemma BandBounds(wide: bool, delay: bool)
    ensures Low(Band(wide, delay), "s")[1] == 5 && Up(Band(wide, delay), "s")[1] == if wide then 7 else 6
    ensures Low(Band(wide, delay), "p")[1] == 6 && Up(Band(wide, delay), "p")[1] == -INF_VALUE
  {
    hide GuardsOf;
    var a, t := Band(wide, delay), Between(wide);
    assert a.trans[0] == t && a.trans[1] == BEYOND;
    OneOf(a, "s", t);
    OneOf(a, "p", BEYOND);
    assert ABOVE_FIVE in t.guard && t.guard[1] in t.guard && FROM_SIX in BEYOND.guard;
    BoundsExact(GuardsOf(a, "s"), 1);
    BoundsExact(GuardsOf(a, "p"), 1);
  }

  lemma TakenBetween(wide: bool, delay: bool, v: Valuation)
    requires ValidTransition(Band(wide, delay), Between(wide))
    ensures Takes(Band(wide, delay), Between(wide), v) <==> |v| == 2 && v[0] == 0.0 && 5.0 < v[1] < End(wide)
    ensures |v| == 2 ==> AfterResets([], v) == v
  {
    var g := Between(wide).guard;
    if |v| == 2 && v[0] == 0.0 {
      assert Pass(g, v) <==> Holds(g[0], v) && Holds(g[1], v);
    }
  }

  /** A smaller value falls short only when six lies in between. */
  lemma BandMisses(p: real, r: real)
    requires 5.0 < r < p < 7.0
    ensures Misses(LowerSide(6, p), r, 0.0, ZERO) <==> r <= 6.0 <= p
  {
    assert r.Floor == if r < 6.0 then 5 else 6;
  }

  lemma BandBefore(wide: bool, delay: bool, v: Valuation, r: real)
    requires ValidTransition(Band(wide, delay), Between(wide)) && |v| == 2 && v[0] == 0.0 && 5.0 < r < v[1] < 7.0
    ensures ShortBefore(Band(wide, delay), Between(wide), v, 1, r, 0) <==> !delay && r <= 6.0 <= v[1]
  {
    hide Misses, LowerSide, GuardsOf, Lowers, Uppers;
    var a, t := Band(wide, delay), Between(wide);
    BandBounds(wide, delay);
    FirstUpper(a, t);
    BandMisses(v[1], r);
    if delay {
      NeverMissed(Needed(a, t, 1, v[1]), r, v[0]);
    }
  }

  lemma BandGap(wide: bool, delay: bool, v: Valuation)
    requires ValidTransition(Band(wide, delay), Between(wide)) && |v| == 2 && v[0] == 0.0 && 5.0 < v[1] < End(wide)
    ensures Gap(Band(wide, delay), Between(wide), v) <==> !delay && v[1] >= 6.0
  {
    hide Misses, LowerSide, GuardsOf, Lowers, Uppers, ShortBefore;
    var a, t := Band(wide, delay), Between(wide);
    BandBounds(wide, delay);
    forall i | 0 <= i < 2 ensures !Diagonal(t.guard[i]) {}
    forall r: real | 5.0 < r < v[1] ensures BehindGap(a, t, v, 1, r) <==> !delay && r <= 6.0 <= v[1] {
      BandBefore(wide, delay, v, r);
      assert !ShortBehind(a, t, v, 1, r, 0);
      if BehindGap(a, t, v, 1, r) {
        var z :| 0 <= z < a.dim && z != 1 && (ShortBehind(a, t, v, 1, r, z) || ShortBefore(a, t, v, 1, r, z));
        assert z == 0;
      }
    }
    if !delay && v[1] >= 6.0 {
      assert BehindGap(a, t, v, 1, 5.5);
    }
  }

  /** The value 5.5 is as good as 5.9 at `s`, and no longer at `p`; but no zone with integer bounds has one of them and not the other. Up
      to seven, 5.5 does not make up for 6.5, unless one may wait at `s`: then every zone with 5.5 in it has 6.5 as well. */
  lemma BandRespected(wide: bool, delay: bool)
    ensures var a, t := Band(wide, delay), Between(wide);
            && Valid(a) && ValidTransition(a, t) && !NoWideGap(a, t)
            && (NoGap(a, t) <==> !wide || delay) && (Respected(a, t, true) <==> !wide || delay)
  {
    hide GuardsOf, Lowers, Uppers, AfterResets, Pass, Gap, Carries, Respected, Takes;
    var a, t := Band(wide, delay), Between(wide);
    BandValid(wide, delay);
    BandBounds(wide, delay);
    forall v: Valuation | Takes(a, t, v)
      ensures |v| == 2 && v[1] < End(wide) && (Gap(a, t, v) <==> !delay && v[1] >= 6.0)
    {
      TakenBetween(wide, delay, v);
      BandGap(wide, delay, v);
    }
    TakenBetween(wide, delay, [0.0, 5.9]);
    TakenBetween(wide, delay, [0.0, 6.5]);
    assert WideBehindGap(a, t, [0.0, 5.9], 1, 5.5);
    NoGapExact(a, t);
    RespectedExact(a, t, true);
  }

  // ----- what equivalent zones cannot differ in -----

  const ANYWHERE: Location := Location([], true)
  const NOT_AHEAD: Machine.ClockConstraint := Machine.ClockConstraint(1, 2, false, 0)
  const AHEAD: Machine.ClockConstraint := Machine.ClockConstraint(2, 1, true, 0)
  const LEVEL: Transition := Transition("p", NoOp, [NOT_AHEAD], [], "r")
  const UNEQUAL: Transition := Transition("p", NoOp, [AHEAD], [], "q")

  /** One edge for when the first clock is not ahead of the second, and one for when it is. */
  function Opposed(): Automaton {
    Automaton(3, map["p" := ANYWHERE, "q" := ANYWHERE, "r" := ANYWHERE], [LEVEL, UNEQUAL])
  }

  lemma OpposedValid()
    ensures Valid(Opposed()) && LEVEL in Opposed().trans && ValidTransition(Opposed(), LEVEL)
  {
    var a := Opposed();
    forall i | 0 <= i < |a.trans| ensures ValidTransition(a, a.trans[i]) {
      assert a.trans[i] == LEVEL || a.trans[i] == UNEQUAL;
    }
    assert a.trans[0] == LEVEL;
  }

  lemma OpposedBounds()
    ensures Unbounded(Opposed(), "p") && Unbounded(Opposed(), "r")
    ensures AHEAD in Listed(Opposed(), "p")
  {
    hide GuardsOf, Diagonals;
    var a := Opposed();
    assert a.trans[0] == LEVEL && a.trans[1] == UNEQUAL && AHEAD in UNEQUAL.guard;
    forall c ensures (c in GuardsOf(a, "p") <==> c == NOT_AHEAD || c == AHEAD) && c !in GuardsOf(a, "r") {
      GuardsOfMembers(a, "p", c);
      GuardsOfMembers(a, "r", c);
      assert NOT_AHEAD in LEVEL.guard;
      forall i | 0 <= i < |a.trans| ensures a.trans[i] == LEVEL || a.trans[i] == UNEQUAL {}
    }
    DiagonalsExact(GuardsOf(a, "p"));
    forall x | 1 <= x < 3
      ensures Low(a, "p")[x] == -INF_VALUE == Up(a, "p")[x] && Low(a, "r")[x] == -INF_VALUE == Up(a, "r")[x]
    {
      BoundsExact(GuardsOf(a, "p"), x);
      BoundsExact(GuardsOf(a, "r"), x);
    }
  }

  lemma LevelRuns(v: Valuation, w: Valuation)
    requires ValidTransition(Opposed(), LEVEL) && Valid(Opposed()) && OnTime(Opposed(), v)
    ensures RunsTo(v, Acts(Opposed(), LEVEL), w) ==> v[1] <= v[2] && OnTime(Opposed(), w)
    ensures v[1] <= v[2] ==> RunsTo(v, Acts(Opposed(), LEVEL), v)
  {
    hide RunsTo;
    ActsRun(Opposed(), LEVEL, v, w);
    ActsRun(Opposed(), LEVEL, v, v);
    assert AfterResets([], v) == v;
    assert Pass([NOT_AHEAD], v) <==> Holds([NOT_AHEAD][0], v);
    assert v == Delay(v, 0.0);
  }

  /** A zone that nothing with the first clock not ahead is in entails the other guard, and so does every equivalent one: the edge is
      respected. For subsumption it is not, and it has a gap. */
  lemma OpposedRespected()
    ensures Valid(Opposed()) && ValidTransition(Opposed(), LEVEL)
    ensures Respected(Opposed(), LEVEL, false) && !Respected(Opposed(), LEVEL, true) && !NoGap(Opposed(), LEVEL)
  {
    hide Respected, FairCarries, NoGap, Carries, GuardsOf, RunsTo, Acts, Unbounded, OnTime;
    var a := Opposed();
    OpposedValid();
    OpposedBounds();
    assert FairCarries(a, LEVEL) by { OpposedFair(); }
    EquivalentExact(a, LEVEL);
    OpposedGap();
    NoGapExact(a, LEVEL);
    RespectedExact(a, LEVEL, true);
  }

  lemma OpposedFair()
    requires Valid(Opposed()) && ValidTransition(Opposed(), LEVEL)
    ensures FairCarries(Opposed(), LEVEL)
  {
    hide GuardsOf, RunsTo, Acts, Low, Up, Below, OnTime, Unbounded, Diagonals, Good, Settled;
    var a := Opposed();
    OpposedBounds();
    forall v: Valuation, v': Valuation, m: Matrix | Offered(a, LEVEL, v, v', m)
      ensures ZoneCarried(a, LEVEL, m, v')
    {
      LevelRuns(v, v');
      assert !Holds(AHEAD, v) && !Entails(m, AHEAD);
      var w2: Valuation :| In(m, w2) && !Holds(AHEAD, w2);
      GoodOnTime(a, m, w2);
      NotAheadLevel(w2);
      LevelRuns(w2, w2);
      AllBelow(a, "r", v', w2);
    }
  }

  lemma NotAheadLevel(w: Valuation)
    requires OnTime(Opposed(), w) && !Holds(AHEAD, w)
    ensures w[1] <= w[2]
  {}

  lemma OpposedGap()
    requires Valid(Opposed()) && ValidTransition(Opposed(), LEVEL)
    ensures !NoGap(Opposed(), LEVEL)
  {
    hide GuardsOf, Low, Up;
    var a, z := Opposed(), Zeros(3);
    OpposedBounds();
    assert AfterResets([], z) == z;
    assert Takes(a, LEVEL, z) by {
      assert Holds(NOT_AHEAD, z);
    }
    assert LEVEL.guard[0] == NOT_AHEAD && DiagonalGap(a, LEVEL, z, LEVEL.guard[0]);
    assert Gap(a, LEVEL, z);
  }
}
