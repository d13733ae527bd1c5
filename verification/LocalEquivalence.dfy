/** Nodes that must be equivalent to be dropped: then they entail the same of the diagonal constraints listed for their location, and an
    edge may respect the comparison although it does not carry the order. */
module LocalEquivalence {
  import opened Zones
  import opened Encoding
  import opened LuSimulation
  import opened Extrapolation
  import opened ZoneOps
  import opened ZoneGraph
  import opened Integrality
  import opened Regions
  import opened LocalBounds
  import opened EdgeRuns
  import opened TimedPushdown
  import opened LocalSimulation
  import Machine

  /** The diagonal constraints that are tested at a location. */
  function Listed(a: Automaton, loc: string): seq<Machine.ClockConstraint>
    requires loc in a.locs
  {
    Diagonals(GuardsOf(a, loc))
  }

  /** Something in the zone leads to something above `v'`. */
  ghost predicate ZoneCarried(a: Automaton, t: Transition, m: Matrix, v': Valuation)
    requires ValidTransition(a, t)
  {
    exists w2: Valuation, w': Valuation :: In(m, w2) && RunsTo(w2, Acts(a, t), w') && BelowIn(a, t.tgt, v', w')
  }

  /** The zone entails no listed constraint that `v` fails. */
  ghost predicate Fair(a: Automaton, loc: string, m: Matrix, v: Valuation)
    requires loc in a.locs
  {
    forall c :: c in Listed(a, loc) && Entails(m, c) ==> Holds(c, v)
  }

  /** `v` can take the edge, and the zone of a node holds something that stands for `v`, and entails no listed constraint that `v`
      fails. */
  ghost predicate Offered(a: Automaton, t: Transition, v: Valuation, v': Valuation, m: Matrix)
    requires ValidTransition(a, t)
  {
    && Occurs(a, t.src, v) && RunsTo(v, Acts(a, t), v') && ZoneAt(a, t.src, m) && Fair(a, t.src, m, v)
    && exists w: Valuation :: In(m, w) && BelowIn(a, t.src, v, w)
  }

  ghost predicate FairCarries(a: Automaton, t: Transition)
    requires ValidTransition(a, t)
  {
    forall v: Valuation, v': Valuation, m: Matrix :: Offered(a, t, v, v', m) ==> ZoneCarried(a, t, m, v')
  }

  /** The zone stands for the smallest one that holds `v` as well. */
  ghost predicate Joinable(a: Automaton, loc: string, v: Valuation, m: Matrix)
    requires loc in a.locs
  {
    |v| == |m| && LuBelow(a, loc, Join(Region(v), m), m)
  }

  ghost predicate JoinedCarries(a: Automaton, t: Transition)
    requires ValidTransition(a, t)
  {
    forall v: Valuation, v': Valuation, m: Matrix ::
      Offered(a, t, v, v', m) && Joinable(a, t.src, v, m) ==> ZoneCarried(a, t, m, v')
  }

  /** Whatever `w` satisfies of the listed constraints, `v` does. */
  ghost predicate Agree(a: Automaton, loc: string, v: Valuation, w: Valuation)
    requires loc in a.locs
  {
    forall c :: c in Listed(a, loc) && Holds(c, w) ==> Holds(c, v)
  }

  // ----- sufficient -----

  lemma FairSuffices(a: Automaton, t: Transition)
    requires Valid(a) && ValidTransition(a, t) && FairCarries(a, t)
    ensures Respected(a, t, false)
  {
    hide Good, Settled, Compared, Followed, FairCarries;
    forall m1: Matrix, m2: Matrix | ZoneAt(a, t.src, m1) && ZoneAt(a, t.src, m2) && Compared(a, t.src, m1, m2, false)
      ensures Followed(a, t, m1, m2)
    {
      FairFollowed(a, t, m1, m2);
    }
  }

  lemma FairFollowed(a: Automaton, t: Transition, m1: Matrix, m2: Matrix)
    requires Valid(a) && ValidTransition(a, t) && FairCarries(a, t)
    requires ZoneAt(a, t.src, m1) && ZoneAt(a, t.src, m2) && Compared(a, t.src, m1, m2, false)
    ensures Followed(a, t, m1, m2)
  {
    hide Good, Settled, PostZone, Acts, RunsTo, Low, Up, Below, Occurs, GuardsOf, Diagonals, Entails, Holds, Offered, Compared;
    ActsDefined(a, t);
    var acts := Acts(a, t);
    var r1 := PostZone(a, m1, acts);
    if r1.Some? {
      forall v': Valuation | In(r1.value, v')
        ensures PostZone(a, m2, acts).Some? && Simulated(PostZone(a, m2, acts).value, Low(a, t.tgt), Up(a, t.tgt), v')
      {
        PostZoneExact(a, m1, acts, v');
        var v: Valuation :| In(m1, v) && RunsTo(v, acts, v');
        ZoneOccurs(a, t.src, m1, v);
        FairlyOffered(a, t, m1, m2, v, v');
        assert ZoneCarried(a, t, m2, v');
        var w2: Valuation, w': Valuation :| In(m2, w2) && RunsTo(w2, acts, w') && BelowIn(a, t.tgt, v', w');
        PostZoneExact(a, m2, acts, w');
      }
      var v' := GoodInhabited(a, r1.value);
    }
  }

  lemma FairlyOffered(a: Automaton, t: Transition, m1: Matrix, m2: Matrix, v: Valuation, v': Valuation)
    requires Valid(a) && ValidTransition(a, t) && ZoneAt(a, t.src, m1) && ZoneAt(a, t.src, m2) && Compared(a, t.src, m1, m2, false)
    requires In(m1, v) && Occurs(a, t.src, v) && RunsTo(v, Acts(a, t), v')
    ensures Offered(a, t, v, v', m2)
  {
    hide Good, Settled, Acts, RunsTo, Low, Up, Below, Occurs, GuardsOf, Diagonals, Holds;
    assert Simulated(m2, Low(a, t.src), Up(a, t.src), v);
    var w: Valuation :| In(m2, w) && Below(Low(a, t.src), Up(a, t.src), v, w);
    assert BelowIn(a, t.src, v, w);
    forall c | c in Listed(a, t.src) && Entails(m2, c) ensures Holds(c, v) {
      assert Entails(m1, c);
    }
  }

  // ----- necessary -----

  /** An integral zone around two entails what both of them entail. */
  lemma JoinEntails(a: Automaton, v: Valuation, m: Matrix, c: Machine.ClockConstraint)
    requires OnTime(a, v) && |v| == |m| >= 1 && Good(a, m) && Fitting(c, a.dim) && Holds(c, v) && Entails(m, c)
    ensures Entails(Join(Region(v), m), c)
  {
    hide Entails, Tight, Positive, LowerBounded, Integral, IntBound;
    RegionNormal(v);
    JoinNormal(Region(v), m);
    EntailsExact(m, c);
    EntailsExact(Join(Region(v), m), c);
    assert Equals(c.bound as real, c.bound);
    IntBoundLeast(v[c.first] - v[c.second], BoundOfConstraint(c));
  }

  /** Waiting makes no difference to a diagonal constraint. */
  lemma WaitedEntails(a: Automaton, loc: string, m: Matrix, e: Matrix, c: Machine.ClockConstraint)
    requires loc in a.locs && Good(a, m) && Waited(a, loc, m, e) && Fitting(c, a.dim) && Diagonal(c) && Entails(m, c)
    ensures Entails(e, c)
  {
    hide Normal, Pass, Holds;
    forall w: Valuation | In(e, w) ensures Holds(c, w) {
      var v: Valuation :| In(m, v) && Stays(a, loc, v, w);
      if a.locs[loc].delay {
        var d: real :| d >= 0.0 && w == Delay(v, d);
        DelayHolds(c, v, d);
      }
    }
  }

  lemma ListedFitting(a: Automaton, loc: string, c: Machine.ClockConstraint)
    requires Valid(a) && loc in a.locs && c in Listed(a, loc)
    ensures Fitting(c, a.dim) && Diagonal(c)
  {
    hide GuardsOf;
    GuardsOfFitting(a, loc);
    DiagonalsExact(GuardsOf(a, loc));
    FittingMember(GuardsOf(a, loc), c, a.dim);
  }

  /** The smallest zone that a node can have with `v` and all of the other zone in it. */
  lemma JoinCompared(a: Automaton, loc: string, v: Valuation, m: Matrix) returns (e: Matrix)
    requires Valid(a) && loc in a.locs && Occurs(a, loc, v) && ZoneAt(a, loc, m) && Fair(a, loc, m, v) && Joinable(a, loc, v, m)
    ensures ZoneAt(a, loc, e) && In(e, v) && Compared(a, loc, e, m, false)
  {
    hide GuardsOf, Low, Up, Region, Join, Good, SimIncluded, Entails, Diagonals, Holds, Stays, Pass;
    SizeOfGood(a, v, m);
    AroundGood(a, v, m);
    var j := Join(Region(v), m);
    e := Wait(a, loc, j, v);
    forall p: Valuation | In(m, p) ensures In(e, p) {
      assert In(j, p) && Pass(a.locs[loc].inv, p);
    }
    IncludedBelow(a, loc, m, e);
    IncludedImplies(m, e, Listed(a, loc));
    WaitedBelow(a, loc, j, e, m);
    forall c | c in Listed(a, loc) && Entails(m, c) ensures Entails(e, c) {
      ListedFitting(a, loc, c);
      JoinEntails(a, v, m, c);
      WaitedEntails(a, loc, j, e, c);
    }
  }

  lemma SizeOfGood(a: Automaton, v: Valuation, m: Matrix)
    requires OnTime(a, v) && Good(a, m)
    ensures |v| == |m| == a.dim >= 1
  {}

  lemma FittingMember(cs: seq<Machine.ClockConstraint>, c: Machine.ClockConstraint, n: nat)
    requires AllFitting(cs, n) && c in cs
    ensures Fitting(c, n)
  {}

  lemma RespectedJoined(a: Automaton, t: Transition)
    requires Valid(a) && ValidTransition(a, t) && Respected(a, t, false)
    ensures JoinedCarries(a, t)
  {
    hide Good, Settled, Acts, RunsTo, Occurs, Region, Join, Compared, Followed, BelowIn, Fair, Joinable;
    forall v: Valuation, v': Valuation, m: Matrix | Offered(a, t, v, v', m) && Joinable(a, t.src, v, m)
      ensures ZoneCarried(a, t, m, v')
    {
      var e := JoinCompared(a, t.src, v, m);
      var w2, w' := FollowedRun(a, t, e, m, v, v');
    }
  }

  /** An edge that respects the comparison by equivalence carries the order between valuations that agree. */
  lemma AgreeingCarried(a: Automaton, t: Transition, v: Valuation, w: Valuation, v': Valuation)
    requires Valid(a) && ValidTransition(a, t) && Respected(a, t, false) && RunsTo(v, Acts(a, t), v')
    requires Occurs(a, t.src, v) && Occurs(a, t.src, w) && BelowIn(a, t.src, v, w) && Agree(a, t.src, v, w)
    ensures Carried(a, t, w, v')
  {
    hide Good, Settled, Acts, RunsTo, Region, Join, Compared, Followed, BelowIn, GuardsOf, Diagonals, Holds, NonNegative, Pass, Waits,
      LuBelow;
    var m1, m2 := Around(a, t.src, v, w);
    RegionGood(a, w);
    AroundGood(a, v, Region(w));
    forall c | c in Listed(a, t.src) && Entails(m2, c) ensures Entails(m1, c) {
      assert Entails(Region(w), c) && Holds(c, w);
      ListedFitting(a, t.src, c);
      JoinEntails(a, v, Region(w), c);
      WaitedEntails(a, t.src, Join(Region(v), Region(w)), m1, c);
    }
    AroundCompared(a, t.src, m1, m2, false);
    var w2, w' := FollowedRun(a, t, m1, m2, v, v');
  }

  // ----- exact where no clock is compared with a constant -----

  /** No guard that leaves the location, nor its invariant, compares a clock with a constant. */
  predicate Unbounded(a: Automaton, loc: string)
    requires loc in a.locs
  {
    forall x :: 1 <= x < a.dim ==> Low(a, loc)[x] == -INF_VALUE == Up(a, loc)[x]
  }

  lemma AllBelow(a: Automaton, loc: string, v: Valuation, w: Valuation)
    requires loc in a.locs && Unbounded(a, loc) && OnTime(a, v) && OnTime(a, w)
    ensures BelowIn(a, loc, v, w)
  {
    hide GuardsOf, Lowers, Uppers;
    forall x | 0 <= x < a.dim ensures BelowAt(Low(a, loc), Up(a, loc), v, w, x) {}
  }

  lemma AllJoinable(a: Automaton, loc: string, v: Valuation, m: Matrix)
    requires loc in a.locs && Unbounded(a, loc) && OnTime(a, v) && Good(a, m)
    ensures Joinable(a, loc, v, m)
  {
    hide GuardsOf, Lowers, Uppers, Good, OnTime, Below, Region, Join, Unbounded;
    SizeOfGood(a, v, m);
    AroundGood(a, v, m);
    var w := GoodInhabited(a, m);
    GoodOnTime(a, m, w);
    forall p: Valuation | In(Join(Region(v), m), p)
      ensures Simulated(m, Low(a, loc), Up(a, loc), p)
    {
      GoodOnTime(a, Join(Region(v), m), p);
      AllBelow(a, loc, p, w);
    }
  }

  /** For equivalence, what an edge needs lies between two conditions, which agree where no clock is compared with a constant: of every
      zone that a node can have, that holds something standing for `v` and entails no listed constraint that `v` fails, something must
      be able to do what `v` does. */
  lemma EquivalentExact(a: Automaton, t: Transition)
    requires Valid(a) && ValidTransition(a, t)
    ensures FairCarries(a, t) ==> Respected(a, t, false)
    ensures Respected(a, t, false) ==> JoinedCarries(a, t)
    ensures Unbounded(a, t.src) ==> (Respected(a, t, false) <==> FairCarries(a, t))
  {
    hide Good, FairCarries, JoinedCarries, Offered, Joinable, ZoneCarried, Unbounded, Compared, Followed;
    if FairCarries(a, t) {
      FairSuffices(a, t);
    }
    if Respected(a, t, false) {
      RespectedJoined(a, t);
      if Unbounded(a, t.src) {
        JoinedFair(a, t);
      }
    }
  }

  lemma JoinedFair(a: Automaton, t: Transition)
    requires ValidTransition(a, t) && JoinedCarries(a, t) && Unbounded(a, t.src)
    ensures FairCarries(a, t)
  {
    hide Good, Settled, Acts, RunsTo, OnTime, ZoneCarried, BelowIn, Fair, Unbounded, Joinable;
    forall v: Valuation, v': Valuation, m: Matrix | Offered(a, t, v, v', m)
      ensures ZoneCarried(a, t, m, v')
    {
      AllJoinable(a, t.src, v, m);
    }
  }
}
