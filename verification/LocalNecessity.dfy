/** The condition is necessary: changing one clock of a valuation in a gap, where the source cannot tell, gives one from which the edge
    cannot be taken, or does not lead above where the first one arrives. */
module LocalNecessity {
  import opened Bounds
  import opened Zones
  import opened ZoneOps
  import opened LuSimulation
  import opened ZoneGraph
  import opened Integrality
  import opened Regions
  import opened LocalBounds
  import opened EdgeRuns
  import opened TimedPushdown
  import opened LocalSimulation
  import opened LocalCondition
  import LocalSufficiency
  import Machine

  /** Only clock `x` differs, so that the order only depends on it. */
  lemma OneDiffers(l: seq<int>, u: seq<int>, v: Valuation, x: int, r: real)
    requires |v| == |l| == |u| && 1 <= x < |v|
    requires (r < v[x] ==> Beyond(l[x], r)) && (r > v[x] ==> Beyond(u[x], v[x]))
    ensures Below(l, u, v, v[x := r])
  {
    var w := v[x := r];
    forall z | 0 <= z < |v| ensures BelowAt(l, u, v, w, z) {}
  }

  /** The change of one clock that the source cannot tell. */
  ghost predicate Unnoticed(a: Automaton, t: Transition, v: Valuation, x: int, r: real)
    requires ValidTransition(a, t)
  {
    && |v| == a.dim && 1 <= x < a.dim && r >= 0.0
    && (r < v[x] ==> Beyond(Low(a, t.src)[x], r)) && (r > v[x] ==> Beyond(Up(a, t.src)[x], v[x]))
  }

  lemma ChangedOccurs(a: Automaton, t: Transition, v: Valuation, x: int, r: real)
    requires Valid(a) && ValidTransition(a, t) && Occurs(a, t.src, v) && SimpleAll(a.locs[t.src].inv) && Unnoticed(a, t, v, x, r)
    ensures Occurs(a, t.src, v[x := r]) && BelowIn(a, t.src, v, v[x := r])
  {
    hide GuardsOf, Lowers, Uppers, Pass, Accounted;
    OneDiffers(Low(a, t.src), Up(a, t.src), v, x, r);
    InvariantAccounted(a, t.src);
    assert AllFitting(a.locs[t.src].inv, a.dim);
    PassKept(a.locs[t.src].inv, Low(a, t.src), Up(a, t.src), v, v[x := r]);
  }

  /** From `w`, up to what integer bounds can tell, waiting leads to `f`, where the edge is taken, and then to `u`. */
  ghost predicate Leads(a: Automaton, t: Transition, w: Valuation, w1: Valuation, d: real, f: Valuation, e: real, u: Valuation)
    requires ValidTransition(a, t)
  {
    && OnTime(a, w) && OnTime(a, f) && |w| >= 1 && In(Region(w), w1) && d >= 0.0 && f == Delay(w1, d) && (!a.locs[t.src].delay ==> f == w1)
    && Pass(a.locs[t.src].inv, f) && Pass(t.guard, f) && AllClocks(t.resets, |f|) && Pass(Inv(a, t), AfterResets(t.resets, f))
    && e >= 0.0 && u == Delay(AfterResets(t.resets, f), e) && (!a.locs[t.tgt].delay ==> e == 0.0)
  }

  /** A valuation that takes the edge, changed in one clock where the source cannot tell, leads above where the first one arrives. */
  lemma ChangedLeads(a: Automaton, t: Transition, v: Valuation, x: int, r: real)
    returns (w1: Valuation, d: real, f: Valuation, e: real, u: Valuation)
    requires Valid(a) && ValidTransition(a, t) && Steady(a, t) && SimpleAll(a.locs[t.src].inv) && Carries(a, t) && Takes(a, t, v)
    requires Unnoticed(a, t, v, x, r)
    ensures Leads(a, t, v[x := r], w1, d, f, e, u) && BelowIn(a, t.tgt, AfterResets(t.resets, v), u)
  {
    hide RunsTo, Pass, AfterResets, GuardsOf, Lowers, Uppers, Acts, Below, Region, Steady;
    var w, s := v[x := r], AfterResets(t.resets, v);
    TakesArrives(a, t, v);
    ChangedOccurs(a, t, v, x, r);
    StaysHere(a, t.tgt, s);
    ActsRun(a, t, v, s);
    assert Carried(a, t, w, s);
    var w': Valuation;
    f, w' :| Waits(a, t.src, w, f) && RunsTo(f, Acts(a, t), w') && BelowIn(a, t.tgt, s, w');
    u := w';
    w1 :| In(Region(w), w1) && Stays(a, t.src, w1, f);
    RegionOnTime(a, w, w1);
    StayOnTime(a, t.src, w1, f);
    DelayTwice(w1, 0.0, 0.0);
    d := 0.0;
    if a.locs[t.src].delay {
      d :| d >= 0.0 && f == Delay(w1, d);
    }
    ActsRun(a, t, f, u);
    var s' := AfterResets(t.resets, f);
    assert Stays(a, t.tgt, s', u);
    DelayTwice(s', 0.0, 0.0);
    e := 0.0;
    if a.locs[t.tgt].delay {
      e :| e >= 0.0 && u == Delay(s', e);
    }
  }

  /** Far enough up, the first clock fails a diagonal constraint. */
  lemma FarFails(c: Machine.ClockConstraint, v: Valuation) returns (far: real)
    requires 0 <= c.first < |v| && 0 <= c.second < |v| && c.first != c.second && v[c.first] >= 0.0 && v[c.second] >= 0.0
    ensures far > v[c.first] && !Holds(c, v[c.first := far])
  {
    far := v[c.first] + v[c.second] + 1.0 + (if c.bound >= 0 then c.bound as real else 0.0);
  }

  /** Waiting does not help with a diagonal constraint. */
  lemma DiagonalFails(a: Automaton, t: Transition, i: int, w: Valuation, w1: Valuation, d: real, f: Valuation, e: real, u: Valuation)
    requires Valid(a) && ValidTransition(a, t) && 0 <= i < |t.guard| && Diagonal(t.guard[i]) && Leads(a, t, w, w1, d, f, e, u)
    ensures Holds(t.guard[i], w)
  {
    hide Region, AfterResets, NonNegative;
    var c := t.guard[i];
    assert Fitting(c, a.dim) && Holds(c, f);
    DelayHolds(c, w1, d);
    assert AllFitting([c], |w|) && Pass([c], w1);
    PassAlike([c], w, w1);
    assert Holds([c][0], w);
  }

  lemma NoDiagonalGap(a: Automaton, t: Transition, v: Valuation, i: int)
    requires Valid(a) && ValidTransition(a, t) && Steady(a, t) && SimpleAll(a.locs[t.src].inv) && Carries(a, t) && Takes(a, t, v)
    requires 0 <= i < |t.guard|
    ensures |v| == a.dim && Fitting(t.guard[i], a.dim) && !DiagonalGap(a, t, v, t.guard[i])
  {
    hide Carries, AfterResets, GuardsOf, Lowers, Uppers, BelowIn, Steady, Leads, Pass;
    var c := t.guard[i];
    assert Fitting(c, a.dim);
    if Diagonal(c) && Beyond(Up(a, t.src)[c.first], v[c.first]) {
      assert v[c.first] >= 0.0 && v[c.second] >= 0.0;
      var far := FarFails(c, v);
      var w1, d, f, e, u := ChangedLeads(a, t, v, c.first, far);
      DiagonalFails(a, t, i, v[c.first := far], w1, d, f, e, u);
    } else if r: real :| Diagonal(c) && Loosened(a, t, v, c, r) {
      var w1, d, f, e, u := ChangedLeads(a, t, v, c.second, r);
      DiagonalFails(a, t, i, v[c.second := r], w1, d, f, e, u);
    }
  }

  /** In a region, a clock with an integer value has that value throughout. */
  lemma IntegerStays(w: Valuation, w2: Valuation, x: int, k: int)
    requires NonNegative(w) && In(Region(w), w2) && 0 <= x < |w| && Equals(w[x], k)
    ensures w2[x] == w[x]
  {
    hide Region, IntBound;
    assert Equals(w[x], k) && Equals(-w[x], -k);
    RegionAlike(w, w2, x, 0, Fin(w[x], true));
    RegionAlike(w, w2, 0, x, Fin(-w[x], true));
  }

  /** Where a kept clock is when the target is compared. */
  lemma LeadsKept(a: Automaton, t: Transition, w: Valuation, w1: Valuation, d: real, f: Valuation, e: real, u: Valuation, x: int)
    requires ValidTransition(a, t) && Steady(a, t) && Leads(a, t, w, w1, d, f, e, u) && 1 <= x < a.dim && Kept(t, x)
    ensures |w1| == |f| == |u| == a.dim && f[x] == w1[x] + d && u[x] == f[x] + e
  {
    hide Pass, AfterResets, Region, Steady, ResetValue;
    AfterByClock(a, t, f);
  }

  lemma NoAheadGap(a: Automaton, t: Transition, v: Valuation, x: int)
    requires Valid(a) && ValidTransition(a, t) && Steady(a, t) && SimpleAll(a.locs[t.src].inv) && Carries(a, t) && Takes(a, t, v)
    requires 1 <= x < a.dim
    ensures |v| == a.dim && !AheadGap(a, t, v, x)
  {
    hide Carries, AfterResets, GuardsOf, Lowers, Uppers, Pass, ResetValue, Region, Steady;
    if AheadGap(a, t, v, x) {
      var k := v[x].Floor + 1;
      assert v[x] >= 0.0 && v[x] < k as real;
      var w1, d, f, e, u := ChangedLeads(a, t, v, x, k as real);
      assert Equals(v[x := k as real][x], k);
      IntegerStays(v[x := k as real], w1, x, k);
      LeadsKept(a, t, v[x := k as real], w1, d, f, e, u, x);
      AfterByClock(a, t, v);
      Ahead(a, t, x, AfterResets(t.resets, v), u);
    }
  }

  lemma Ahead(a: Automaton, t: Transition, x: int, s: Valuation, u: Valuation)
    requires ValidTransition(a, t) && 1 <= x < a.dim && |s| == |u| == a.dim && s[x] < u[x] && !Beyond(Up(a, t.tgt)[x], s[x])
    ensures !BelowIn(a, t.tgt, s, u)
  {
    hide GuardsOf, Lowers, Uppers;
    assert !BelowAt(Low(a, t.tgt), Up(a, t.tgt), s, u, x);
  }

  /** Differences of clocks stay within integer bounds of what they were. */
  lemma LeadsDifference(a: Automaton, t: Transition, v: Valuation, y: int, r: real, z: int,
                        w1: Valuation, d: real, f: Valuation, e: real, u: Valuation)
    requires ValidTransition(a, t) && |v| == a.dim && 1 <= y < a.dim && 0 <= z < a.dim && z != y
    requires Leads(a, t, v[y := r], w1, d, f, e, u) && (z == 0 ==> !a.locs[t.src].delay)
    ensures |f| == a.dim && Meets(f[y] - f[z], IntBound(r - v[z]))
  {
    hide IntBound, Pass, AfterResets;
    var w := v[y := r];
    assert SatAt(Region(w), w1, y, z);
    assert w[y] == r && w[z] == v[z];
  }

  lemma NoShortBehind(a: Automaton, t: Transition, v: Valuation, y: int, r: real, z: int)
    requires Valid(a) && ValidTransition(a, t) && Steady(a, t) && SimpleAll(a.locs[t.src].inv) && Carries(a, t) && Takes(a, t, v)
    requires Unnoticed(a, t, v, y, r) && Kept(t, y) && 0 <= z < a.dim && z != y
    ensures !ShortBehind(a, t, v, y, r, z)
  {
    hide Carries, AfterResets, GuardsOf, Lowers, Uppers, Pass, ResetValue, Region, Steady, IntBound, Leads, Misses;
    if z != 0 && Kept(t, z) && !Beyond(Up(a, t.tgt)[z], v[z]) {
      var w1, d, f, e, u := ChangedLeads(a, t, v, y, r);
      LeadsKept(a, t, v[y := r], w1, d, f, e, u, y);
      LeadsKept(a, t, v[y := r], w1, d, f, e, u, z);
      LeadsDifference(a, t, v, y, r, z, w1, d, f, e, u);
      AfterByClock(a, t, v);
      var l, h, s := Low(a, t.tgt), Up(a, t.tgt), AfterResets(t.resets, v);
      BoxIsBelow(l, h, s, u, y);
      BoxIsBelow(l, h, s, u, z);
      assert u[y] - u[z] == f[y] - f[z];
      Contradicts(LowerSide(l[y], v[y]), r, v[z], Fin(v[z], true), u[y], u[z]);
    }
  }

  /** Nothing that the source can bring clock `z` to exceeds its bound. */
  lemma LeadsUpper(a: Automaton, t: Transition, w: Valuation, w1: Valuation, d: real, f: Valuation, e: real, u: Valuation, z: int)
    requires Valid(a) && ValidTransition(a, t) && Leads(a, t, w, w1, d, f, e, u) && 0 <= z < a.dim
    ensures |f| == a.dim && Meets(f[z], SourceUpper(a, t, z))
  {
    hide Pass, AfterResets, Region, UpperOf, PassAt;
    if z != 0 {
      PassBoth(t.guard, a.locs[t.src].inv, f);
      PassEachClock(t.guard + a.locs[t.src].inv, f);
      PassAtTightest(t.guard + a.locs[t.src].inv, z, f[z]);
    }
  }

  /** No time passes at a target that would notice. */
  lemma StillAtOnce(a: Automaton, t: Transition, v: Valuation, w: Valuation, w1: Valuation, d: real, f: Valuation, e: real, u: Valuation)
    requires Valid(a) && ValidTransition(a, t) && Steady(a, t) && Takes(a, t, v) && Leads(a, t, w, w1, d, f, e, u) && Still(a, t)
    requires AllClocks(t.resets, |v|) && BelowIn(a, t.tgt, AfterResets(t.resets, v), u)
    ensures e == 0.0
  {
    hide Pass, AfterResets, Region, ResetValue, Steady, GuardsOf, Lowers, Uppers;
    if a.locs[t.tgt].delay {
      var x :| 1 <= x < a.dim && !Kept(t, x) && !Beyond(Up(a, t.tgt)[x], ResetValue(t.resets, x).value as real);
      AfterByClock(a, t, v);
      AfterByClock(a, t, f);
      assert BelowAt(Low(a, t.tgt), Up(a, t.tgt), AfterResets(t.resets, v), u, x);
    }
  }

  lemma LeadsNeeded(a: Automaton, t: Transition, v: Valuation, w: Valuation, w1: Valuation, d: real, f: Valuation, e: real, u: Valuation,
                    y: int)
    requires Valid(a) && ValidTransition(a, t) && Steady(a, t) && Takes(a, t, v) && Leads(a, t, w, w1, d, f, e, u)
    requires AllClocks(t.resets, |v|) && BelowIn(a, t.tgt, AfterResets(t.resets, v), u) && 1 <= y < a.dim == |v| && Kept(t, y)
    ensures |f| == a.dim && Meets(-f[y], Needed(a, t, y, v[y]))
  {
    hide Pass, PassAt, AfterResets, Region, ResetValue, Steady, GuardsOf, Lowers, Uppers, LowerOf, Still, Takes, LowerSide;
    TakesOccurs(a, t, v);
    LeadsKept(a, t, w, w1, d, f, e, u, y);
    AfterByClock(a, t, v);
    AfterByClock(a, t, f);
    var l, h, s := Low(a, t.tgt), Up(a, t.tgt), AfterResets(t.resets, v);
    if Still(a, t) {
      StillAtOnce(a, t, v, w, w1, d, f, e, u);
      BoxIsBelow(l, h, s, u, y);
    } else {
      PassEachClock(Inv(a, t), AfterResets(t.resets, f));
      PassAtTightest(Inv(a, t), y, f[y]);
    }
  }

  lemma NoShortBefore(a: Automaton, t: Transition, v: Valuation, y: int, r: real, z: int)
    requires Valid(a) && ValidTransition(a, t) && Steady(a, t) && SimpleAll(a.locs[t.src].inv) && Carries(a, t) && Takes(a, t, v)
    requires Unnoticed(a, t, v, y, r) && Kept(t, y) && 0 <= z < a.dim && z != y
    ensures !ShortBefore(a, t, v, y, r, z)
  {
    hide Carries, AfterResets, GuardsOf, Lowers, Uppers, Pass, ResetValue, Steady, IntBound, Leads, Misses, Needed, SourceUpper, Takes;
    FirstUpper(a, t);
    if z == 0 && a.locs[t.src].delay {
      NeverMissed(Needed(a, t, y, v[y]), r, v[z]);
    } else {
      TakesOccurs(a, t, v);
      var w1, d, f, e, u := ChangedLeads(a, t, v, y, r);
      LeadsDifference(a, t, v, y, r, z, w1, d, f, e, u);
      LeadsUpper(a, t, v[y := r], w1, d, f, e, u, z);
      LeadsNeeded(a, t, v, v[y := r], w1, d, f, e, u, y);
      Contradicts(Needed(a, t, y, v[y]), r, v[z], SourceUpper(a, t, z), f[y], f[z]);
    }
  }

  lemma CarriesNoGap(a: Automaton, t: Transition, v: Valuation)
    requires Valid(a) && ValidTransition(a, t) && Steady(a, t) && SimpleAll(a.locs[t.src].inv) && Carries(a, t) && Takes(a, t, v)
    ensures |v| == a.dim && !Gap(a, t, v)
  {
    hide Carries, DiagonalGap, AheadGap, ShortBehind, ShortBefore, Steady, Pass, AfterResets, GuardsOf, Lowers, Uppers;
    forall i | 0 <= i < |t.guard| && Fitting(t.guard[i], a.dim) ensures !DiagonalGap(a, t, v, t.guard[i]) {
      NoDiagonalGap(a, t, v, i);
    }
    forall x | 1 <= x < a.dim ensures !AheadGap(a, t, v, x) {
      NoAheadGap(a, t, v, x);
    }
    forall y, r: real, z | 1 <= y < a.dim && Unnoticed(a, t, v, y, r) && Kept(t, y) && 0 <= z < a.dim && z != y
      ensures !ShortBehind(a, t, v, y, r, z) && !ShortBefore(a, t, v, y, r, z)
    {
      NoShortBehind(a, t, v, y, r, z);
      NoShortBefore(a, t, v, y, r, z);
    }
    forall y, r: real | 1 <= y < a.dim ensures !BehindGap(a, t, v, y, r) {
      assert BehindGap(a, t, v, y, r) ==> Unnoticed(a, t, v, y, r);
    }
  }

  /** An edge with any guard, with resets to constants and without diagonal constraints in the invariants of its source and target, carries
      the order of local bounds, as far as the zones of nodes can tell, if and only if no valuation that takes it is in a gap. */
  lemma NoGapExact(a: Automaton, t: Transition)
    requires Valid(a) && t in a.trans && ValidTransition(a, t) && Steady(a, t) && SimpleAll(a.locs[t.src].inv)
    ensures Carries(a, t) <==> NoGap(a, t)
  {
    hide Carries, Gap, Steady, Pass, AfterResets;
    if NoGap(a, t) {
      LocalSufficiency.NoGapCarries(a, t);
    }
    if Carries(a, t) {
      forall v: Valuation | Takes(a, t, v) ensures !Gap(a, t, v) {
        CarriesNoGap(a, t, v);
      }
    }
  }
}
