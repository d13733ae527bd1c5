/** When the comparison by local bounds may be trusted: along one edge, for zones and for valuations. */
module LocalSimulation {
  import opened Zones
  import opened ZoneOps
  import opened LuSimulation
  import opened Extrapolation
  import opened ZoneGraph
  import opened Integrality
  import opened Regions
  import opened LocalBounds
  import opened EdgeRuns
  import opened Pushdown
  import opened TimedPushdown
  import Machine

  // ----- along one edge -----

  /** Clock values that can occur. */
  ghost predicate OnTime(a: Automaton, v: Valuation) {
    |v| == a.dim && NonNegative(v)
  }

  /** Clock values that can occur at a location. */
  ghost predicate Occurs(a: Automaton, loc: string, v: Valuation)
    requires loc in a.locs
  {
    OnTime(a, v) && Pass(a.locs[loc].inv, v)
  }

  ghost predicate BelowIn(a: Automaton, loc: string, v: Valuation, w: Valuation)
    requires loc in a.locs
  {
    Below(Low(a, loc), Up(a, loc), v, w)
  }

  /** From the region of `w`, waiting at the source leads to `w2`. */
  ghost predicate Waits(a: Automaton, loc: string, w: Valuation, w2: Valuation)
    requires loc in a.locs
  {
    |w| >= 1 && exists w1: Valuation :: In(Region(w), w1) && Stays(a, loc, w1, w2)
  }

  /** Something in the zone of every node that holds `w` leads to something above `v'`: integer bounds cannot tell it from `w`, or it
      is what `w` becomes by waiting. */
  ghost predicate Carried(a: Automaton, t: Transition, w: Valuation, v': Valuation)
    requires ValidTransition(a, t)
  {
    exists w2: Valuation, w': Valuation :: Waits(a, t.src, w, w2) && RunsTo(w2, Acts(a, t), w') && BelowIn(a, t.tgt, v', w')
  }

  /** Whatever a valuation can do along the edge, every valuation that stands for it at the source can do as well, up to what the zones
      of nodes can tell, and stands for it at the target. */
  ghost predicate Carries(a: Automaton, t: Transition)
    requires ValidTransition(a, t)
  {
    forall v: Valuation, w: Valuation, v': Valuation ::
      Occurs(a, t.src, v) && Occurs(a, t.src, w) && BelowIn(a, t.src, v, w) && RunsTo(v, Acts(a, t), v') ==> Carried(a, t, w, v')
  }

  /** At `loc`, the zone of `m2` contains something above every valuation of `m1`. */
  ghost predicate LuBelow(a: Automaton, loc: string, m1: Matrix, m2: Matrix)
    requires loc in a.locs
  {
    SimIncluded(m1, m2, Low(a, loc), Up(a, loc))
  }

  /** The comparison of the exploration makes `m1` redundant beside `m2`: one way for subsumption, both ways for equivalence. */
  ghost predicate Compared(a: Automaton, loc: string, m1: Matrix, m2: Matrix, subsumption: bool)
    requires loc in a.locs
  {
    && StandsFor(Low(a, loc), Up(a, loc), Diagonals(GuardsOf(a, loc)), m2, m1)
    && (!subsumption ==> StandsFor(Low(a, loc), Up(a, loc), Diagonals(GuardsOf(a, loc)), m1, m2))
  }

  /** A zone that nodes of the location can have. */
  ghost predicate ZoneAt(a: Automaton, loc: string, m: Matrix)
    requires loc in a.locs
  {
    Good(a, m) && Settled(a, loc, m)
  }

  /** Along the edge the second zone can do what the first one can. */
  ghost predicate Followed(a: Automaton, t: Transition, m1: Matrix, m2: Matrix)
    requires Valid(a) && ValidTransition(a, t) && Good(a, m1) && Good(a, m2)
  {
    ActsDefined(a, t);
    var r1, r2 := PostZone(a, m1, Acts(a, t)), PostZone(a, m2, Acts(a, t));
    r1.Some? ==> r2.Some? && LuBelow(a, t.tgt, r1.value, r2.value)
  }

  /** The edge respects the comparison. */
  ghost predicate Respected(a: Automaton, t: Transition, subsumption: bool)
    requires Valid(a) && ValidTransition(a, t)
  {
    forall m1: Matrix, m2: Matrix ::
      ZoneAt(a, t.src, m1) && ZoneAt(a, t.src, m2) && Compared(a, t.src, m1, m2, subsumption) ==> Followed(a, t, m1, m2)
  }

  /** Without the test of diagonal constraints. */
  ghost predicate LuRespected(a: Automaton, t: Transition)
    requires Valid(a) && ValidTransition(a, t)
  {
    forall m1: Matrix, m2: Matrix ::
      ZoneAt(a, t.src, m1) && ZoneAt(a, t.src, m2) && LuBelow(a, t.src, m1, m2) ==> Followed(a, t, m1, m2)
  }

  // ----- from valuations to zones -----

  lemma GoodOnTime(a: Automaton, m: Matrix, v: Valuation)
    requires Good(a, m) && In(m, v)
    ensures OnTime(a, v)
  {
    PositiveValues(m, v);
  }

  lemma ZoneOccurs(a: Automaton, loc: string, m: Matrix, v: Valuation)
    requires loc in a.locs && ZoneAt(a, loc, m) && In(m, v)
    ensures Occurs(a, loc, v)
  {
    hide Good, OnTime;
    GoodOnTime(a, m, v);
  }

  lemma WaitsInside(a: Automaton, loc: string, m: Matrix, w: Valuation, w2: Valuation)
    requires loc in a.locs && ZoneAt(a, loc, m) && In(m, w) && Waits(a, loc, w, w2)
    ensures In(m, w2)
  {
    hide Region, Stays;
    RegionLeast(w, m);
  }

  lemma CarriesFollowed(a: Automaton, t: Transition, m1: Matrix, m2: Matrix)
    requires Valid(a) && ValidTransition(a, t) && Carries(a, t)
    requires ZoneAt(a, t.src, m1) && ZoneAt(a, t.src, m2) && LuBelow(a, t.src, m1, m2)
    ensures Followed(a, t, m1, m2)
  {
    hide Good, PostZone, Acts, RunsTo, Low, Up, Below, Occurs, Waits, Settled;
    ActsDefined(a, t);
    var acts := Acts(a, t);
    var r1 := PostZone(a, m1, acts);
    if r1.Some? {
      forall v': Valuation | In(r1.value, v')
        ensures PostZone(a, m2, acts).Some? && Simulated(PostZone(a, m2, acts).value, Low(a, t.tgt), Up(a, t.tgt), v')
      {
        PostZoneExact(a, m1, acts, v');
        var v: Valuation :| In(m1, v) && RunsTo(v, acts, v');
        assert Simulated(m2, Low(a, t.src), Up(a, t.src), v);
        var w: Valuation :| In(m2, w) && Below(Low(a, t.src), Up(a, t.src), v, w);
        ZoneOccurs(a, t.src, m1, v);
        ZoneOccurs(a, t.src, m2, w);
        assert Carried(a, t, w, v');
        var w2: Valuation, w': Valuation :| Waits(a, t.src, w, w2) && RunsTo(w2, acts, w') && BelowIn(a, t.tgt, v', w');
        WaitsInside(a, t.src, m2, w, w2);
        PostZoneExact(a, m2, acts, w');
      }
      var v' := GoodInhabited(a, r1.value);
    }
  }

  lemma GoodInhabited(a: Automaton, m: Matrix) returns (v: Valuation)
    requires Good(a, m)
    ensures In(m, v)
  {
    v := Inhabited(m);
  }

  // ----- the smallest zones that nodes can have -----

  lemma RegionGood(a: Automaton, w: Valuation)
    requires OnTime(a, w)
    ensures |w| >= 1 && Good(a, Region(w)) && In(Region(w), w)
  {
    RegionNormal(w);
  }

  lemma RegionOnTime(a: Automaton, w: Valuation, w2: Valuation)
    requires OnTime(a, w) && |w| >= 1 && In(Region(w), w2)
    ensures OnTime(a, w2)
  {
    hide Region, Tight, Consistent;
    RegionNormal(w);
    PositiveValues(Region(w), w2);
  }

  lemma AroundGood(a: Automaton, v: Valuation, m: Matrix)
    requires OnTime(a, v) && Good(a, m)
    ensures |v| >= 1 && |Region(v)| == |m|
    ensures Good(a, Join(Region(v), m)) && In(Join(Region(v), m), v) && Included(m, Join(Region(v), m))
  {
    RegionNormal(v);
    JoinNormal(Region(v), m);
  }

  /** What waiting at the location makes of a zone. */
  ghost predicate Waited(a: Automaton, loc: string, m: Matrix, e: Matrix)
    requires loc in a.locs
  {
    && ZoneAt(a, loc, e)
    && (forall v: Valuation :: In(m, v) && Pass(a.locs[loc].inv, v) ==> In(e, v))
    && forall w: Valuation :: In(e, w) ==> exists v: Valuation :: In(m, v) && Stays(a, loc, v, w)
  }

  /** The steps that waiting is made of. */
  function StaySteps(a: Automaton, loc: string): seq<Action>
    requires loc in a.locs
  {
    GuardActions(a.locs[loc].inv) + DelayActions(a.locs[loc].delay, a.locs[loc].inv)
  }

  lemma StayStorable(a: Automaton, loc: string)
    requires Valid(a) && loc in a.locs
    ensures Storable(StaySteps(a, loc), a.dim)
  {
    hide Storable;
    GuardsDefined(a.locs[loc].inv, a.dim);
    DelayStorable(a.locs[loc].delay, a.locs[loc].inv, a.dim);
    StorableConcat(GuardActions(a.locs[loc].inv), DelayActions(a.locs[loc].delay, a.locs[loc].inv), a.dim);
  }

  lemma StayExact(a: Automaton, loc: string, m: Matrix, w: Valuation)
    requires Valid(a) && loc in a.locs && Good(a, m) && Storable(StaySteps(a, loc), a.dim)
    ensures var r := PostZone(a, m, StaySteps(a, loc));
            r.Some? && In(r.value, w) <==> exists v: Valuation :: In(m, v) && Stays(a, loc, v, w)
  {
    hide PostZone, RunsTo, Good, Arrives, Storable;
    PostZoneExact(a, m, StaySteps(a, loc), w);
    forall v: Valuation ensures RunsTo(v, StaySteps(a, loc), w) <==> Stays(a, loc, v, w) {
      ArrivesExact(v, a.locs[loc].delay, a.locs[loc].inv, w);
    }
  }

  lemma StaysHere(a: Automaton, loc: string, v: Valuation)
    requires loc in a.locs && Occurs(a, loc, v)
    ensures Stays(a, loc, v, v)
  {
    ArrivesAtOnce(v, a.locs[loc].delay, a.locs[loc].inv);
  }

  /** What waiting makes of a zone is one that nodes of the location can have. */
  lemma StaySettled(a: Automaton, loc: string, m: Matrix)
    requires Valid(a) && loc in a.locs && Good(a, m)
    ensures Storable(StaySteps(a, loc), a.dim)
    ensures var r := PostZone(a, m, StaySteps(a, loc)); r.Some? ==> Settled(a, loc, r.value)
  {
    hide PostZone, Good, Pass, Stays, StaySteps, Storable, OnTime;
    StayStorable(a, loc);
    var r := PostZone(a, m, StaySteps(a, loc));
    forall w: Valuation | r.Some? && In(r.value, w)
      ensures Pass(a.locs[loc].inv, w) && forall p: Valuation :: Stays(a, loc, w, p) ==> In(r.value, p)
    {
      StayExact(a, loc, m, w);
      var u: Valuation :| In(m, u) && Stays(a, loc, u, w);
      GoodOnTime(a, m, u);
      OnTimeSize(a, u);
      ArrivedStays(a, loc, u, w);
      forall p: Valuation | Stays(a, loc, w, p) ensures In(r.value, p) {
        StayExact(a, loc, m, p);
      }
    }
  }

  lemma Wait(a: Automaton, loc: string, m: Matrix, v: Valuation) returns (e: Matrix)
    requires Valid(a) && loc in a.locs && Good(a, m) && In(m, v) && Pass(a.locs[loc].inv, v)
    ensures Waited(a, loc, m, e)
  {
    hide PostZone, Good, Pass, Stays, StaySteps, Storable, OnTime, Settled;
    StaySettled(a, loc, m);
    var r := PostZone(a, m, StaySteps(a, loc));
    forall u: Valuation | In(m, u) && Pass(a.locs[loc].inv, u) ensures r.Some? && In(r.value, u) {
      GoodOnTime(a, m, u);
      StaysHere(a, loc, u);
      StayExact(a, loc, m, u);
    }
    assert r.Some? && In(r.value, v);
    e := r.value;
    forall w: Valuation | In(e, w) ensures exists u: Valuation :: In(m, u) && Stays(a, loc, u, w) {
      StayExact(a, loc, m, w);
    }
  }

  lemma OnTimeSize(a: Automaton, v: Valuation)
    requires OnTime(a, v)
    ensures |v| == a.dim >= 1
  {}

  lemma DelayedBelow(l: seq<int>, u: seq<int>, s: Valuation, s': Valuation, d: real)
    requires Below(l, u, s, s') && d >= 0.0 && |s| >= 1 && s[0] == 0.0 == s'[0]
    ensures Below(l, u, Delay(s, d), Delay(s', d))
  {
    forall x | 0 <= x < |s| ensures BelowAt(l, u, Delay(s, d), Delay(s', d), x) {
      assert BelowAt(l, u, s, s', x);
    }
  }

  // ----- waiting keeps the order -----

  /** The bounds account for all constraints. */
  ghost predicate Accounted(cs: seq<Machine.ClockConstraint>, l: seq<int>, u: seq<int>) {
    forall i, x {:trigger Upper(cs[i], x)} {:trigger Lower(cs[i], x)} :: 0 <= i < |cs| && 1 <= x < |l| && x < |u| ==>
      (Upper(cs[i], x) ==> cs[i].bound <= u[x]) && (Lower(cs[i], x) ==> -(cs[i].bound as int) <= l[x])
  }

  lemma LocationAccounts(a: Automaton, loc: string, cs: seq<Machine.ClockConstraint>)
    requires loc in a.locs && forall c :: c in cs ==> c in GuardsOf(a, loc)
    ensures Accounted(cs, Low(a, loc), Up(a, loc))
  {
    forall i, x | 0 <= i < |cs| && 1 <= x < a.dim
      ensures (Upper(cs[i], x) ==> cs[i].bound <= Up(a, loc)[x]) && (Lower(cs[i], x) ==> -(cs[i].bound as int) <= Low(a, loc)[x])
    {
      BoundsExact(GuardsOf(a, loc), x);
      assert cs[i] in GuardsOf(a, loc);
    }
  }

  lemma InvariantAccounted(a: Automaton, loc: string)
    requires loc in a.locs
    ensures Accounted(a.locs[loc].inv, Low(a, loc), Up(a, loc))
  {
    forall c | c in a.locs[loc].inv ensures c in GuardsOf(a, loc) { GuardsOfMembers(a, loc, c); }
    LocationAccounts(a, loc, a.locs[loc].inv);
  }

  /** A valuation that stands for another satisfies the simple constraints that the other one does. */
  lemma ConstraintKept(cs: seq<Machine.ClockConstraint>, i: int, l: seq<int>, u: seq<int>, v: Valuation, w: Valuation)
    requires Accounted(cs, l, u) && 0 <= i < |cs| && Below(l, u, v, w) && NonNegative(v) && NonNegative(w)
    requires Fitting(cs[i], |v|) && !Diagonal(cs[i]) && Holds(cs[i], v)
    ensures Holds(cs[i], w)
  {
    var c := cs[i];
    assert BelowAt(l, u, v, w, c.first) && BelowAt(l, u, v, w, c.second);
    assert Upper(c, c.first) ==> c.bound <= u[c.first];
    assert Lower(c, c.second) ==> -(c.bound as int) <= l[c.second];
  }

  lemma DelayHolds(c: Machine.ClockConstraint, v: Valuation, d: real)
    requires Fitting(c, |v|) && Diagonal(c)
    ensures Holds(c, Delay(v, d)) <==> Holds(c, v)
  {}

  /** Where one may wait, what stands for it may wait as long. */
  lemma StayKept(a: Automaton, loc: string, v: Valuation, w: Valuation, v2: Valuation) returns (w2: Valuation)
    requires Valid(a) && loc in a.locs && OnTime(a, v) && Occurs(a, loc, w) && BelowIn(a, loc, v, w) && Stays(a, loc, v, v2)
    ensures Stays(a, loc, w, w2) && BelowIn(a, loc, v2, w2)
  {
    hide GuardsOf, Lowers, Uppers, Below, Accounted, Holds;
    var l, u, inv := Low(a, loc), Up(a, loc), a.locs[loc].inv;
    if a.locs[loc].delay {
      var d: real :| d >= 0.0 && v2 == Delay(v, d);
      w2 := Delay(w, d);
      DelayedBelow(l, u, v, w, d);
      InvariantAccounted(a, loc);
      assert AllFitting(inv, a.dim);
      forall i | 0 <= i < |inv| ensures Holds(inv[i], w2) {
        assert Fitting(inv[i], a.dim) && Holds(inv[i], w) && Holds(inv[i], v2);
        if Diagonal(inv[i]) {
          DelayHolds(inv[i], w, d);
        } else {
          ConstraintKept(inv, i, l, u, v2, w2);
        }
      }
    } else {
      w2 := w;
    }
  }

  lemma WaitedBelow(a: Automaton, loc: string, m1: Matrix, e1: Matrix, m2: Matrix)
    requires Valid(a) && loc in a.locs && Good(a, m1) && Waited(a, loc, m1, e1) && ZoneAt(a, loc, m2) && LuBelow(a, loc, m1, m2)
    ensures LuBelow(a, loc, e1, m2)
  {
    hide GuardsOf, Lowers, Uppers, Below, Good, Occurs, Stays;
    var l, u := Low(a, loc), Up(a, loc);
    forall p: Valuation | In(e1, p) ensures Simulated(m2, l, u, p) {
      var q: Valuation :| In(m1, q) && Stays(a, loc, q, p);
      assert Simulated(m2, l, u, q);
      var r: Valuation :| In(m2, r) && Below(l, u, q, r);
      GoodOnTime(a, m1, q);
      ZoneOccurs(a, loc, m2, r);
      var r2 := StayKept(a, loc, q, r, p);
    }
  }

  lemma WaitedMonotone(a: Automaton, loc: string, m1: Matrix, e1: Matrix, m2: Matrix, e2: Matrix)
    requires loc in a.locs && Waited(a, loc, m1, e1) && Waited(a, loc, m2, e2) && Included(m1, m2)
    ensures Included(e1, e2)
  {
    hide Good, Pass;
    forall p: Valuation | In(e1, p) ensures In(e2, p) {
      var q: Valuation :| In(m1, q) && Stays(a, loc, q, p);
    }
  }

  /** No integer constraint can tell the valuations of a region apart. */
  lemma PassAlike(cs: seq<Machine.ClockConstraint>, w: Valuation, w2: Valuation)
    requires |w| >= 1 && In(Region(w), w2) && AllFitting(cs, |w|)
    ensures Pass(cs, w) <==> Pass(cs, w2)
  {
    hide Region;
    forall i | 0 <= i < |cs| ensures Holds(cs[i], w) <==> Holds(cs[i], w2) {
      var c := cs[i];
      assert Fitting(c, |w|) && Equals(c.bound as real, c.bound);
      RegionAlike(w, w2, c.first, c.second, BoundOfConstraint(c));
    }
  }

  // ----- from zones to valuations -----

  lemma IncludedBelow(a: Automaton, loc: string, m1: Matrix, m2: Matrix)
    requires loc in a.locs && Good(a, m1) && Good(a, m2) && Included(m1, m2)
    ensures LuBelow(a, loc, m1, m2)
  {
    IncludedSimIncluded(m1, m2, Low(a, loc), Up(a, loc));
  }

  lemma IncludedImplies(m1: Matrix, m2: Matrix, cs: seq<Machine.ClockConstraint>)
    requires Included(m1, m2)
    ensures Implies(m2, m1, cs)
  {}

  lemma RegionJoined(a: Automaton, loc: string, v: Valuation, w: Valuation, e: Matrix)
    requires Valid(a) && loc in a.locs && OnTime(a, v) && OnTime(a, w) && BelowIn(a, loc, v, w) && Good(a, e)
    requires |v| == |w| >= 1 && Included(Region(w), e)
    ensures LuBelow(a, loc, Join(Region(v), Region(w)), e)
  {
    hide GuardsOf, Lowers, Uppers, Below, Region, Join, Normal, SimIncluded;
    GuardsOfFitting(a, loc);
    LooselyBounded(GuardsOf(a, loc), a.dim);
    JoinIncluded(Low(a, loc), Up(a, loc), v, w);
    IncludedSimIncluded(Region(w), e, Low(a, loc), Up(a, loc));
    SimIncludedTransitive(Join(Region(v), Region(w)), Region(w), e, Low(a, loc), Up(a, loc));
  }

  /** The smallest zones that nodes can have around `w`, and around both valuations. */
  lemma Around(a: Automaton, loc: string, v: Valuation, w: Valuation) returns (m1: Matrix, m2: Matrix)
    requires Valid(a) && loc in a.locs && Occurs(a, loc, v) && Occurs(a, loc, w) && BelowIn(a, loc, v, w)
    ensures |v| == |w| >= 1 && Waited(a, loc, Join(Region(v), Region(w)), m1) && Waited(a, loc, Region(w), m2)
    ensures In(m1, v) && forall p: Valuation :: In(m2, p) ==> Waits(a, loc, w, p)
    ensures Included(Region(w), m2) && Included(m2, m1) && LuBelow(a, loc, m1, m2)
  {
    hide GuardsOf, Lowers, Uppers, Below, Region, Join, Normal, Stays, Pass, Settled, LuBelow, NonNegative;
    RegionGood(a, w);
    AroundGood(a, v, Region(w));
    m1 := Wait(a, loc, Join(Region(v), Region(w)), v);
    m2 := Wait(a, loc, Region(w), w);
    WaitedMonotone(a, loc, Region(w), m2, Join(Region(v), Region(w)), m1);
    forall u: Valuation | In(Region(w), u) ensures In(m2, u) {
      assert AllFitting(a.locs[loc].inv, |w|);
      PassAlike(a.locs[loc].inv, w, u);
    }
    RegionJoined(a, loc, v, w, m2);
    WaitedBelow(a, loc, Join(Region(v), Region(w)), m1, m2);
  }

  /** The comparison makes the first zone redundant beside the second, inside it: what the first entails, the second does, so that
      diagonal constraints cannot tell them apart. Without diagonal constraints they are even equivalent. */
  lemma AroundCompared(a: Automaton, loc: string, m1: Matrix, m2: Matrix, subsumption: bool)
    requires loc in a.locs && Good(a, m1) && Good(a, m2) && Included(m2, m1) && LuBelow(a, loc, m1, m2)
    requires subsumption || Implies(m2, m1, Diagonals(GuardsOf(a, loc)))
    ensures Compared(a, loc, m1, m2, subsumption)
  {
    hide GuardsOf, Lowers, Uppers, Good, SimIncluded, Implies;
    IncludedBelow(a, loc, m2, m1);
    IncludedImplies(m2, m1, Diagonals(GuardsOf(a, loc)));
  }

  /** What follows a zone with `v` in it follows `v`. */
  lemma FollowedRun(a: Automaton, t: Transition, m1: Matrix, m2: Matrix, v: Valuation, v': Valuation) returns (w2: Valuation, w': Valuation)
    requires Valid(a) && ValidTransition(a, t) && Good(a, m1) && Good(a, m2) && In(m1, v) && RunsTo(v, Acts(a, t), v')
    requires Followed(a, t, m1, m2)
    ensures In(m2, w2) && RunsTo(w2, Acts(a, t), w') && BelowIn(a, t.tgt, v', w')
  {
    hide Good, PostZone, Acts, RunsTo, Low, Up, Below;
    ActsDefined(a, t);
    var acts := Acts(a, t);
    PostZoneExact(a, m1, acts, v');
    var r2 := PostZone(a, m2, acts).value;
    assert Simulated(r2, Low(a, t.tgt), Up(a, t.tgt), v');
    w' :| In(r2, w') && Below(Low(a, t.tgt), Up(a, t.tgt), v', w');
    PostZoneExact(a, m2, acts, w');
    w2 :| In(m2, w2) && RunsTo(w2, acts, w');
  }

  lemma RespectedCarries(a: Automaton, t: Transition, subsumption: bool)
    requires Valid(a) && ValidTransition(a, t) && Respected(a, t, subsumption)
    requires subsumption || Diagonals(GuardsOf(a, t.src)) == []
    ensures Carries(a, t)
  {
    hide Good, PostZone, Acts, RunsTo, Low, Up, Below, Occurs, Compared, Followed, Diagonals, GuardsOf, Entails, LuBelow, Settled, Waits;
    forall v: Valuation, w: Valuation, v': Valuation |
      Occurs(a, t.src, v) && Occurs(a, t.src, w) && BelowIn(a, t.src, v, w) && RunsTo(v, Acts(a, t), v')
      ensures Carried(a, t, w, v')
    {
      var m1, m2 := Around(a, t.src, v, w);
      AroundCompared(a, t.src, m1, m2, subsumption);
      var w2, w' := FollowedRun(a, t, m1, m2, v, v');
    }
  }

  /** Exactly the edges that carry the order of valuations, as far as the zones of nodes can tell, respect the comparison of those zones.
      The test of diagonal constraints changes nothing about that: no edge respects the comparison with it that would not without it. */
  lemma RespectedExact(a: Automaton, t: Transition, subsumption: bool)
    requires Valid(a) && ValidTransition(a, t) && (subsumption || Diagonals(GuardsOf(a, t.src)) == [])
    ensures Respected(a, t, subsumption) <==> Carries(a, t)
    ensures LuRespected(a, t) <==> Carries(a, t)
  {
    hide Good, Settled, LuBelow, Followed, Carries;
    if Carries(a, t) {
      forall m1: Matrix, m2: Matrix | ZoneAt(a, t.src, m1) && ZoneAt(a, t.src, m2) && LuBelow(a, t.src, m1, m2)
        ensures Followed(a, t, m1, m2)
      {
        CarriesFollowed(a, t, m1, m2);
      }
    }
    forall m1: Matrix, m2: Matrix, mode: bool | Compared(a, t.src, m1, m2, mode)
      ensures LuBelow(a, t.src, m1, m2)
    {
      ComparedLuBelow(a, t.src, m1, m2, mode);
    }
    if Respected(a, t, subsumption) {
      RespectedCarries(a, t, subsumption);
    }
    if LuRespected(a, t) {
      assert Respected(a, t, true);
      RespectedCarries(a, t, true);
    }
  }

  lemma ComparedLuBelow(a: Automaton, loc: string, m1: Matrix, m2: Matrix, subsumption: bool)
    requires loc in a.locs && Compared(a, loc, m1, m2, subsumption)
    ensures LuBelow(a, loc, m1, m2)
  {}

  // ----- the whole zone graph -----

  ghost predicate AllCarry(a: Automaton)
    requires Valid(a)
  {
    forall i :: 0 <= i < |a.trans| ==> ValidTransition(a, a.trans[i]) && Carries(a, a.trans[i])
  }

  /** The comparison without the test of diagonal constraints. */
  ghost predicate LuSimulates(a: Automaton, n1: Node<Matrix>, n2: Node<Matrix>) {
    n1 == n2 || (GoodNode(a, n1) && GoodNode(a, n2) && n1.loc == n2.loc && LuBelow(a, n1.loc, n2.zone, n1.zone))
  }

  ghost function LuSystemOf(a: Automaton): System<Matrix>
    requires Valid(a)
  {
    System((n: Node<Matrix>) => SuccFrom(a, n, 0), (n1: Node<Matrix>, n2: Node<Matrix>) => LuSimulates(a, n1, n2))
  }

  lemma LuCoarser(a: Automaton)
    requires Valid(a)
    ensures Coarser(SystemOf(a), LuSystemOf(a))
  {
    hide SuccFrom, Good, SimIncluded, Implies;
  }

  lemma LuEdgeMatched(a: Automaton, n: Node<Matrix>, m: Node<Matrix>, e: Edge<Matrix>)
    requires Valid(a) && AllCarry(a) && Pushdown.Le(LuSystemOf(a), n, m) && e in LuSystemOf(a).succ(n)
    ensures HasMatch(LuSystemOf(a), e, m)
  {
    hide PostZone, Good, Acts, SuccFrom, LuBelow, Carries;
    var ts := LuSystemOf(a);
    assert ts.succ(n) == SystemOf(a).succ(n) && ts.succ(m) == SystemOf(a).succ(m);
    SuccOf(a, n, e);
    var i :| Enabled(a, n, i) && e == EdgeOf(a.trans[i].op, Target(a, n, i));
    if n == m {
      assert Matches(ts, e, e);
    } else {
      CarriesFollowed(a, a.trans[i], n.zone, m.zone);
      var f := EdgeOf(a.trans[i].op, Target(a, m, i));
      SuccOf(a, m, f);
      assert Pushdown.Le(ts, Target(a, n, i), Target(a, m, i));
      assert Matches(ts, e, f);
    }
  }

  /** When all edges carry the order, the comparison lies inside a simulation. */
  lemma ZoneGraphSimulating(a: Automaton)
    requires Valid(a) && AllCarry(a)
    ensures Simulating(LuSystemOf(a)) && Coarser(SystemOf(a), LuSystemOf(a))
  {
    hide PostZone, Good, Acts, SuccFrom, SimIncluded, Carries, Low, Up;
    var ts := LuSystemOf(a);
    LuCoarser(a);
    forall n: Node<Matrix>, m: Node<Matrix>, p: Node<Matrix> | Pushdown.Le(ts, n, m) && Pushdown.Le(ts, m, p)
      ensures Pushdown.Le(ts, n, p)
    {
      if n != m && m != p {
        SimIncludedTransitive(n.zone, m.zone, p.zone, Low(a, n.loc), Up(a, n.loc));
      }
    }
    forall n: Node<Matrix>, m: Node<Matrix>, e: Edge<Matrix> | Pushdown.Le(ts, n, m) && e in ts.succ(n)
      ensures HasMatch(ts, e, m)
    {
      LuEdgeMatched(a, n, m, e);
    }
  }
}
