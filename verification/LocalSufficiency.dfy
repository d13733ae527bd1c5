/** The condition is sufficient: an edge without gaps carries the order of local bounds. The region of a valuation that stands for another
    one, after some waiting, leaves room for the edge to be taken; and behind the edge time leads above where the other one arrives. */
module LocalSufficiency {
  import opened Bounds
  import opened Zones
  import opened ZoneOps
  import opened Encoding
  import opened LuSimulation
  import opened ZoneGraph
  import opened Integrality
  import opened Regions
  import opened LocalBounds
  import opened EdgeRuns
  import opened TimedPushdown
  import opened LocalSimulation
  import opened LocalCondition
  import Machine

  // ----- what the bounds account for -----

  /** Beyond its upper bound a clock has no upper constraint that it passes. */
  lemma NoUpper(cs: seq<Machine.ClockConstraint>, l: seq<int>, u: seq<int>, x: int, p: real)
    requires Accounted(cs, l, u) && |l| == |u| && 1 <= x < |u| && Beyond(u[x], p) && p >= 0.0 && PassAt(cs, x, p)
    ensures UpperOf(cs, x) == Inf
  {
    hide UpperOf, BoundOfConstraint;
    forall i | 0 <= i < |cs| ensures !Upper(cs[i], x) {
      if Upper(cs[i], x) {
        assert PassOne(cs[i], x, p);
        UpperFails(cs[i], x, p, u[x]);
      }
    }
    if UpperOf(cs, x).Fin? {
      var d := NotMet(UpperOf(cs, x));
      TightestExact(cs, x, d);
    }
  }

  lemma UpperFails(c: Machine.ClockConstraint, x: int, p: real, u: int)
    requires Upper(c, x) && Beyond(u, p) && p >= 0.0 && c.bound <= u
    ensures !Meets(p, BoundOfConstraint(c))
  {}

  lemma NotMet(b: Bound) returns (d: real)
    requires b.Fin?
    ensures !Meets(d, b)
  {
    d := b.value + 1.0;
  }

  /** The guard: simple constraints by the bounds of the source, diagonal ones because there is no gap. */
  lemma GuardKept(a: Automaton, t: Transition, v: Valuation, w: Valuation)
    requires Valid(a) && t in a.trans && ValidTransition(a, t)
    requires OnTime(a, v) && OnTime(a, w) && BelowIn(a, t.src, v, w) && Pass(t.guard, v) && !Gap(a, t, v)
    ensures Pass(t.guard, w)
  {
    hide GuardsOf, Lowers, Uppers, DiagonalGap, Below, Accounted;
    EdgeAccounted(a, t);
    forall i | 0 <= i < |t.guard| ensures Holds(t.guard[i], w) {
      var c := t.guard[i];
      assert Fitting(c, a.dim) && Holds(c, v);
      if Diagonal(c) {
        assert !DiagonalGap(a, t, v, c);
        DiagonalKept(a, t, v, w, c);
      } else {
        ConstraintKept(t.guard, i, Low(a, t.src), Up(a, t.src), v, w);
      }
    }
  }

  lemma DiagonalKept(a: Automaton, t: Transition, v: Valuation, w: Valuation, c: Machine.ClockConstraint)
    requires ValidTransition(a, t) && Fitting(c, a.dim) && Diagonal(c) && OnTime(a, v) && OnTime(a, w)
    requires BelowIn(a, t.src, v, w) && Holds(c, v) && !DiagonalGap(a, t, v, c)
    ensures Holds(c, w)
  {
    hide GuardsOf, Lowers, Uppers;
    var l, u := Low(a, t.src), Up(a, t.src);
    assert BelowAt(l, u, v, w, c.first) && BelowAt(l, u, v, w, c.second);
    assert w[c.second] >= 0.0 && !Loosened(a, t, v, c, w[c.second]);
  }

  // ----- bounds leave room -----

  lemma MeetsImplied(b: Bound, b': Bound)
    requires forall d: real :: Meets(d, b) ==> Meets(d, b')
    ensures Le(b, b')
  {
    if b'.Fin? {
      var d := NotMet(b');
      assert Meets(d, b) ==> Meets(d, b');
      assert Meets(b.value, b) ==> Meets(b.value, b');
      var e := (b.value + b'.value) / 2.0;
      assert Meets(e, b) ==> Meets(e, b');
    }
  }

  /** What the target can tell of the value `p` includes what its invariant demands. */
  lemma LowerSideTighter(cs: seq<Machine.ClockConstraint>, l: seq<int>, u: seq<int>, y: int, p: real)
    requires Accounted(cs, l, u) && AllFitting(cs, |l|) && |l| == |u| && 1 <= y < |l| && PassAt(cs, y, p)
    ensures Le(LowerSide(l[y], p), LowerOf(cs, y))
  {
    hide LowerOf, BoundOfConstraint;
    forall d: real | Meets(d, LowerSide(l[y], p)) ensures Meets(d, LowerOf(cs, y)) {
      TightestExact(cs, y, d);
      forall i | 0 <= i < |cs| && Lower(cs[i], y) ensures Meets(d, BoundOfConstraint(cs[i])) {
        assert Fitting(cs[i], |l|) && PassOne(cs[i], y, p);
        LowerPassed(cs[i], y, p, l[y], d);
      }
    }
    MeetsImplied(LowerSide(l[y], p), LowerOf(cs, y));
  }

  lemma LowerPassed(c: Machine.ClockConstraint, y: int, p: real, l: int, d: real)
    requires Lower(c, y) && -(c.bound as int) <= l && c.bound <= MAX_VALUE && Meets(-p, BoundOfConstraint(c)) && Meets(d, LowerSide(l, p))
    ensures Meets(d, BoundOfConstraint(c))
  {}

  // ----- when the edge is taken -----

  /** Where waiting at the source leads from the region of `w`. */
  ghost function Leaving(a: Automaton, t: Transition, w: Valuation): (m: Matrix)
    requires ValidTransition(a, t) && |w| >= 1
    ensures |m| == |w|
  {
    if a.locs[t.src].delay then OpenUp(Region(w)) else Region(w)
  }

  lemma LeavingNormal(a: Automaton, t: Transition, w: Valuation)
    requires ValidTransition(a, t) && OnTime(a, w)
    ensures |w| >= 1 && Tight(Leaving(a, t, w)) && Consistent(Leaving(a, t, w)) && Integral(Leaving(a, t, w))
  {
    hide Region, Tight, Integral;
    RegionNormal(w);
    OpenUpTight(Region(w));
    OpenUpIntegral(Region(w));
  }

  lemma LeavingEntry(a: Automaton, t: Transition, w: Valuation, y: int, x: int)
    requires ValidTransition(a, t) && |w| >= 1 && 0 <= y < |w| && 0 <= x < |w|
    ensures Leaving(a, t, w)[y][x] == if a.locs[t.src].delay && y >= 1 && x == 0 then Inf else IntBound(w[y] - w[x])
  {
    hide IntBound;
  }

  /** What is reached from the region of `w` is reached, with some delay, from a valuation in it. */
  lemma LeavingFrom(a: Automaton, t: Transition, w: Valuation, f: Valuation) returns (w1: Valuation, d: real)
    requires ValidTransition(a, t) && OnTime(a, w) && |w| >= 1 && In(Leaving(a, t, w), f)
    ensures In(Region(w), w1) && d >= 0.0 && f == Delay(w1, d) && (!a.locs[t.src].delay ==> f == w1)
  {
    hide Region, OpenUp;
    RegionNormal(w);
    if a.locs[t.src].delay {
      OpenUpExact(Region(w), f);
      w1, d :| In(Region(w), w1) && d >= 0.0 && f == Delay(w1, d);
    } else {
      w1, d := f, 0.0;
      DelayTwice(f, 0.0, 0.0);
    }
  }

  /** How the clocks have to be then, so that the target gets something above what it gets from `v`. */
  ghost function EdgeUpper(a: Automaton, t: Transition, v: Valuation, x: int): Bound
    requires ValidTransition(a, t) && |v| == a.dim && 0 <= x < a.dim
  {
    if x == 0 then ZERO
    else if Kept(t, x) && !Beyond(Up(a, t.tgt)[x], v[x]) then Bounds.Min(SourceUpper(a, t, x), Fin(v[x], true))
    else SourceUpper(a, t, x)
  }

  ghost function EdgeLower(a: Automaton, t: Transition, v: Valuation, y: int): Bound
    requires ValidTransition(a, t) && |v| == a.dim && 0 <= y < a.dim
  {
    if y == 0 then ZERO else if Kept(t, y) then Needed(a, t, y, v[y]) else Inf
  }

  lemma OutgoingKnown(a: Automaton, t: Transition)
    requires Valid(a) && t in a.trans
    ensures ValidTransition(a, t) && AllFitting(Outgoing(a, t), a.dim) && Accounted(Outgoing(a, t), Low(a, t.src), Up(a, t.src))
  {
    EdgeAccounted(a, t);
    assert AllFitting(t.guard, a.dim) && AllFitting(a.locs[t.src].inv, a.dim);
  }

  /** The valuation itself is like that. */
  lemma EdgeSidesMet(a: Automaton, t: Transition, v: Valuation, x: int)
    requires Valid(a) && t in a.trans && ValidTransition(a, t) && Steady(a, t) && Takes(a, t, v) && 0 <= x < a.dim
    ensures |v| == a.dim && Meets(v[x], EdgeUpper(a, t, v, x)) && Meets(-v[x], EdgeLower(a, t, v, x))
    ensures x == 0 ==> Meets(v[x], SourceUpper(a, t, x))
  {
    hide GuardsOf, Lowers, Uppers, Pass, UpperOf, LowerOf, AfterResets, ResetValue, PassAt, Steady;
    if x >= 1 {
      PassBoth(t.guard, a.locs[t.src].inv, v);
      PassEachClock(Outgoing(a, t), v);
      PassAtTightest(Outgoing(a, t), x, v[x]);
      AfterByClock(a, t, v);
      PassEachClock(Inv(a, t), AfterResets(t.resets, v));
      PassAtTightest(Inv(a, t), x, v[x]);
    }
  }

  /** And a clock that has got ahead is not limited at all. */
  lemma AheadUnlimited(a: Automaton, t: Transition, v: Valuation, w: Valuation, x: int)
    requires Valid(a) && t in a.trans && ValidTransition(a, t) && Takes(a, t, v) && !Gap(a, t, v) && 1 <= x < a.dim
    requires OnTime(a, w) && BelowIn(a, t.src, v, w) && |v| == |w| && w[x] > v[x]
    ensures EdgeUpper(a, t, v, x) == Inf
  {
    hide GuardsOf, Lowers, Uppers, Pass, UpperOf, AfterResets, ResetValue, PassAt, Accounted;
    OutgoingKnown(a, t);
    var l, u := Low(a, t.src), Up(a, t.src);
    assert BelowAt(l, u, v, w, x) && Beyond(u[x], v[x]);
    PassBoth(t.guard, a.locs[t.src].inv, v);
    PassEachClock(Outgoing(a, t), v);
    assert v[x] >= 0.0;
    NoUpper(Outgoing(a, t), l, u, x, v[x]);
    assert !AheadGap(a, t, v, x);
  }

  lemma NeededLarger(a: Automaton, t: Transition, v: Valuation, y: int)
    requires Valid(a) && t in a.trans && ValidTransition(a, t) && Steady(a, t) && Takes(a, t, v) && 1 <= y < a.dim && Kept(t, y)
    ensures |v| == a.dim && Le(LowerSide(Low(a, t.tgt)[y], v[y]), Needed(a, t, y, v[y]))
  {
    hide GuardsOf, Lowers, Uppers, Pass, LowerOf, AfterResets, ResetValue, PassAt, Accounted, Steady;
    EdgeAccounted(a, t);
    AfterByClock(a, t, v);
    PassEachClock(Inv(a, t), AfterResets(t.resets, v));
    assert AllFitting(Inv(a, t), a.dim);
    LowerSideTighter(Inv(a, t), Low(a, t.tgt), Up(a, t.tgt), y, v[y]);
  }

  lemma NotMissed(lo: Bound, r: real, q: real, q': real, hi: Bound, lo': Bound)
    requires !Misses(lo, r, q, hi) && q' <= q && Le(lo, lo')
    ensures Le(ZERO, Plus(Plus(lo', IntBound(r - q')), hi))
  {
    hide IntBound;
    IntBoundMonotone(r - q, r - q');
    PlusMono(lo, lo', IntBound(r - q), IntBound(r - q'));
    PlusMono(Plus(lo, IntBound(r - q)), Plus(lo', IntBound(r - q')), hi, hi);
  }

  lemma EdgeCompatible(a: Automaton, t: Transition, v: Valuation, w: Valuation, x: int, y: int)
    requires Valid(a) && t in a.trans && ValidTransition(a, t) && Steady(a, t) && Takes(a, t, v) && !Gap(a, t, v)
    requires OnTime(a, w) && BelowIn(a, t.src, v, w) && 0 <= x < a.dim && 0 <= y < a.dim
    ensures |v| == a.dim == |w| && Le(ZERO, Plus(Plus(EdgeLower(a, t, v, y), Leaving(a, t, w)[y][x]), EdgeUpper(a, t, v, x)))
  {
    hide GuardsOf, Lowers, Uppers, Pass, AfterResets, Steady, IntBound, Leaving, EdgeLower, EdgeUpper, Gap, Takes;
    assert Occurs(a, t.src, v) by { TakesOccurs(a, t, v); }
    EdgeSidesMet(a, t, v, x);
    EdgeSidesMet(a, t, v, y);
    LeavingEntry(a, t, w, y, x);
    IntBoundMet(w[y] - w[x]);
    if x >= 1 && w[x] > v[x] {
      AheadUnlimited(a, t, v, w, x);
    } else if w[y] >= v[y] || x == y {
      if Leaving(a, t, w)[y][x].Fin? {
        RoomFor(v[y], EdgeLower(a, t, v, y), w[y] - w[x], IntBound(w[y] - w[x]), v[x], EdgeUpper(a, t, v, x));
      }
    } else {
      BehindCompatible(a, t, v, w, x, y);
    }
  }

  lemma BehindCompatible(a: Automaton, t: Transition, v: Valuation, w: Valuation, x: int, y: int)
    requires Valid(a) && t in a.trans && ValidTransition(a, t) && Steady(a, t) && Takes(a, t, v) && !Gap(a, t, v)
    requires OnTime(a, w) && BelowIn(a, t.src, v, w) && 0 <= x < a.dim && 0 <= y < a.dim && x != y
    requires |v| == a.dim == |w| && w[y] < v[y] && w[x] <= v[x]
    ensures Le(ZERO, Plus(Plus(EdgeLower(a, t, v, y), Leaving(a, t, w)[y][x]), EdgeUpper(a, t, v, x)))
  {
    hide GuardsOf, Lowers, Uppers, Pass, AfterResets, Steady, IntBound, Leaving, Misses, Needed, SourceUpper, ResetValue, Takes;
    TakesOccurs(a, t, v);
    LeavingEntry(a, t, w, y, x);
    assert BelowAt(Low(a, t.src), Up(a, t.src), v, w, y);
    assert y >= 1 && w[y] >= 0.0;
    if Kept(t, y) {
      assert !BehindGap(a, t, v, y, w[y]) && !ShortBehind(a, t, v, y, w[y], x) && !ShortBefore(a, t, v, y, w[y], x);
      var need := Needed(a, t, y, v[y]);
      NeededLarger(a, t, v, y);
      LeSelf(need);
      NotMissed(need, w[y], v[x], w[x], SourceUpper(a, t, x), need);
      if x >= 1 && Kept(t, x) && !Beyond(Up(a, t.tgt)[x], v[x]) {
        NotMissed(LowerSide(Low(a, t.tgt)[y], v[y]), w[y], v[x], w[x], Fin(v[x], true), need);
      }
      FirstUpper(a, t);
    }
  }

  lemma LeSelf(b: Bound)
    ensures Le(b, b)
  {}

  /** So there is a point to take the edge at. */
  lemma EdgePoint(a: Automaton, t: Transition, v: Valuation, w: Valuation) returns (f: Valuation)
    requires Valid(a) && t in a.trans && ValidTransition(a, t) && Steady(a, t) && Takes(a, t, v) && !Gap(a, t, v)
    requires OnTime(a, w) && BelowIn(a, t.src, v, w)
    ensures |v| == |w| == a.dim >= 1 && In(Leaving(a, t, w), f)
    ensures forall x :: 0 <= x < a.dim ==> Meets(f[x], EdgeUpper(a, t, v, x)) && Meets(-f[x], EdgeLower(a, t, v, x))
  {
    hide GuardsOf, Lowers, Uppers, Pass, AfterResets, Steady, IntBound, Leaving, Gap, Takes, Below, Tight, Needed, SourceUpper, ResetValue;
    TakesOccurs(a, t, v);
    LeavingNormal(a, t, w);
    var m := Leaving(a, t, w);
    var lo := seq(a.dim, y requires 0 <= y < a.dim => EdgeLower(a, t, v, y));
    var hi := seq(a.dim, x requires 0 <= x < a.dim => EdgeUpper(a, t, v, x));
    forall x, y | Clock(m, x) && Clock(m, y) ensures BoxCompatible(m, lo, hi, x, y) {
      EdgeCompatible(a, t, v, w, x, y);
    }
    f := MeetsBox(m, lo, hi, 0);
  }

  /** Waiting as long as the upper constraints allow keeps all constraints. */
  lemma WaitedPasses(cs: seq<Machine.ClockConstraint>, w: Valuation, w1: Valuation, d: real)
    requires NonNegative(w) && AllFitting(cs, |w|) && Pass(cs, w) && In(Region(w), w1) && d >= 0.0
    requires forall x :: 1 <= x < |w1| ==> Meets(Delay(w1, d)[x], UpperOf(cs, x))
    ensures Pass(cs, Delay(w1, d))
  {
    hide Region, UpperOf;
    PassAlike(cs, w, w1);
    assert w1[0] == 0.0;
    forall i | 0 <= i < |cs| ensures Holds(cs[i], Delay(w1, d)) {
      var c, f := cs[i], Delay(w1, d);
      assert Fitting(c, |w|) && Holds(c, w1);
      if Diagonal(c) {
        DelayHolds(c, w1, d);
      } else if c.second == 0 {
        assert Upper(c, c.first);
        TightestExact(cs, c.first, f[c.first]);
      }
    }
  }

  /** The edge can be taken there. */
  lemma LeavesWithin(a: Automaton, t: Transition, w: Valuation, f: Valuation)
    requires Valid(a) && t in a.trans && ValidTransition(a, t) && Occurs(a, t.src, w) && Pass(t.guard, w)
    requires |w| >= 1 && In(Leaving(a, t, w), f) && forall x :: 1 <= x < a.dim ==> Meets(f[x], SourceUpper(a, t, x))
    ensures OnTime(a, f) && Pass(t.guard, f) && Waits(a, t.src, w, f)
  {
    hide GuardsOf, Lowers, Uppers, Pass, Leaving, UpperOf, Region, Accounted;
    var w1, d := LeavingFrom(a, t, w, f);
    RegionOnTime(a, w, w1);
    OutgoingKnown(a, t);
    PassBoth(t.guard, a.locs[t.src].inv, w);
    WaitedPasses(Outgoing(a, t), w, w1, d);
    PassBoth(t.guard, a.locs[t.src].inv, f);
    assert AllFitting(a.locs[t.src].inv, |w|);
    PassAlike(a.locs[t.src].inv, w, w1);
    assert Stays(a, t.src, w1, f);
  }

  // ----- behind the edge -----

  /** Resets to constants lead from the region of `w` into that of its image, and to all of it. */
  lemma {:induction false} RegionAfter(rs: seq<Machine.ClockReset>, w: Valuation, s2: Valuation)
    requires NonNegative(w) && AllClocks(rs, |w|) && forall i :: 0 <= i < |rs| ==> FittingReset(rs[i], |w|) && rs[i].right == 0
    ensures In(Region(AfterResets(rs, w)), s2) <==>
              exists w2: Valuation :: In(Region(w), w2) && AllClocks(rs, |w2|) && s2 == AfterResets(rs, w2)
    decreases |rs|
  {
    hide Region;
    if rs == [] {
      assert In(Region(w), s2) ==> AllClocks(rs, |s2|) && s2 == AfterResets(rs, s2);
    } else {
      var x, c := rs[0].left, rs[0].value;
      assert FittingReset(rs[0], |w|);
      var m := Assign(w, x, 0, c as real);
      RegionAfter(rs[1..], m, s2);
      RegionNormal(w);
      RegionAssigned(w, x, c);
      forall m2: Valuation
        ensures In(Region(m), m2) <==> exists w2: Valuation :: In(Region(w), w2) && m2 == Assign(w2, x, 0, c as real)
      {
        ResetExact(Region(w), x, 0, c as real, m2);
      }
      if In(Region(AfterResets(rs, w)), s2) {
        var m2: Valuation :| In(Region(m), m2) && AllClocks(rs[1..], |m2|) && s2 == AfterResets(rs[1..], m2);
        var w2: Valuation :| In(Region(w), w2) && m2 == Assign(w2, x, 0, c as real);
        assert s2 == AfterResets(rs, w2);
      }
      if w2: Valuation :| In(Region(w), w2) && AllClocks(rs, |w2|) && s2 == AfterResets(rs, w2) {
        assert In(Region(m), Assign(w2, x, 0, c as real));
      }
    }
  }

  /** From `f` on, the target gets something above what it gets from `v`. */
  ghost predicate Succeeds(a: Automaton, t: Transition, v: Valuation, f: Valuation, u: Valuation)
    requires ValidTransition(a, t)
  {
    && AllClocks(t.resets, |v|) && AllClocks(t.resets, |f|)
    && Stays(a, t.tgt, AfterResets(t.resets, f), u) && BelowIn(a, t.tgt, AfterResets(t.resets, v), u)
  }

  lemma InvariantAgain(a: Automaton, t: Transition, s: Valuation, u: Valuation)
    requires Valid(a) && ValidTransition(a, t) && Steady(a, t) && OnTime(a, s) && OnTime(a, u)
    requires BelowIn(a, t.tgt, s, u) && Pass(Inv(a, t), s)
    ensures Pass(Inv(a, t), u)
  {
    hide GuardsOf, Lowers, Uppers, Pass, Below;
    InvariantAccounted(a, t.tgt);
    PassKept(Inv(a, t), Low(a, t.tgt), Up(a, t.tgt), s, u);
  }

  /** When no time passes unnoticed there, at once. */
  lemma AtOnce(a: Automaton, t: Transition, v: Valuation, f: Valuation)
    requires Valid(a) && ValidTransition(a, t) && Steady(a, t) && Takes(a, t, v) && OnTime(a, f) && Still(a, t)
    requires |v| == |f| == a.dim
    requires forall x :: 0 <= x < a.dim ==> Meets(f[x], EdgeUpper(a, t, v, x)) && Meets(-f[x], EdgeLower(a, t, v, x))
    ensures AllClocks(t.resets, |f|) && Succeeds(a, t, v, f, AfterResets(t.resets, f))
  {
    hide GuardsOf, Lowers, Uppers, Pass, AfterResets, ResetValue, Steady, Still, SourceUpper, LowerSide;
    TakesOccurs(a, t, v);
    AfterByClock(a, t, v);
    AfterByClock(a, t, f);
    var s, u := AfterResets(t.resets, v), AfterResets(t.resets, f);
    forall x | 0 <= x < a.dim ensures BelowAt(Low(a, t.tgt), Up(a, t.tgt), s, u, x) {
      if x >= 1 && Kept(t, x) {
        UpperKept(a, t, v, f, x);
        BoxIsBelow(Low(a, t.tgt), Up(a, t.tgt), s, u, x);
      }
    }
    InvariantAgain(a, t, s, u);
    StaysHere(a, t.tgt, u);
  }

  lemma UpperKept(a: Automaton, t: Transition, v: Valuation, f: Valuation, x: int)
    requires ValidTransition(a, t) && |v| == |f| == a.dim && 1 <= x < a.dim && Kept(t, x) && Meets(f[x], EdgeUpper(a, t, v, x))
    ensures Meets(f[x], UpperSide(Up(a, t.tgt)[x], v[x])) && Meets(f[x], SourceUpper(a, t, x))
  {
    hide GuardsOf, Uppers, SourceUpper;
  }

  lemma SourceUpperMet(a: Automaton, t: Transition, v: Valuation, f: Valuation, x: int)
    requires ValidTransition(a, t) && |v| == |f| == a.dim && 1 <= x < a.dim && Meets(f[x], EdgeUpper(a, t, v, x))
    ensures Meets(f[x], SourceUpper(a, t, x))
  {
    hide GuardsOf, Uppers, SourceUpper;
  }

  /** Otherwise the invariant holds on arrival. */
  lemma ArrivesToo(a: Automaton, t: Transition, v: Valuation, f: Valuation)
    requires Valid(a) && ValidTransition(a, t) && Steady(a, t) && Takes(a, t, v) && OnTime(a, f) && !Still(a, t)
    requires |v| == |f| == a.dim
    requires forall x :: 0 <= x < a.dim ==> Meets(f[x], EdgeUpper(a, t, v, x)) && Meets(-f[x], EdgeLower(a, t, v, x))
    ensures AllClocks(t.resets, |f|) && Occurs(a, t.tgt, AfterResets(t.resets, f))
  {
    hide GuardsOf, Lowers, Uppers, Pass, PassAt, AfterResets, ResetValue, Steady, Still, SourceUpper, LowerOf, UpperOf, Accounted;
    TakesOccurs(a, t, v);
    AfterByClock(a, t, v);
    AfterByClock(a, t, f);
    var s, s', inv := AfterResets(t.resets, v), AfterResets(t.resets, f), Inv(a, t);
    InvariantAccounted(a, t.tgt);
    PassEachClock(inv, s);
    forall x | 1 <= x < a.dim ensures PassAt(inv, x, s'[x]) {
      if Kept(t, x) {
        PassAtTightest(inv, x, s[x]);
        PassAtTightest(inv, x, s'[x]);
        UpperKept(a, t, v, f, x);
        if Beyond(Up(a, t.tgt)[x], v[x]) {
          NoUpper(inv, Low(a, t.tgt), Up(a, t.tgt), x, v[x]);
        } else {
          MeetsLess(s'[x], s[x], UpperOf(inv, x));
        }
      }
    }
    SteadyTarget(a, t);
    PassByClock(inv, s');
  }

  lemma SteadyTarget(a: Automaton, t: Transition)
    requires Valid(a) && ValidTransition(a, t) && Steady(a, t)
    ensures SimpleAll(Inv(a, t)) && AllFitting(Inv(a, t), a.dim)
  {}

  lemma MeetsLess(d: real, e: real, b: Bound)
    requires d <= e && Meets(e, b)
    ensures Meets(d, b)
  {}

  lemma OpenEntry(s: Valuation, y: int, x: int)
    requires |s| >= 1 && 0 <= y < |s| && 0 <= x < |s|
    ensures OpenUp(Region(s))[y][x] == if y >= 1 && x == 0 then Inf else IntBound(s[y] - s[x])
  {
    hide IntBound;
  }

  /** Clocks 0 and those just reset, of which none is held back, are where they are needed. */
  lemma Unlimited(a: Automaton, t: Transition, v: Valuation, x: int)
    requires Valid(a) && ValidTransition(a, t) && Steady(a, t) && OnTime(a, v) && !Still(a, t) && AllClocks(t.resets, |v|)
    requires 1 <= x < a.dim && !Kept(t, x)
    ensures Beyond(Up(a, t.tgt)[x], AfterResets(t.resets, v)[x])
  {
    hide GuardsOf, Lowers, Uppers, AfterResets, ResetValue, Steady;
    AfterByClock(a, t, v);
  }

  /** After the resets: one clock. */
  lemma AfterAt(a: Automaton, t: Transition, v: Valuation, x: int)
    requires ValidTransition(a, t) && Steady(a, t) && OnTime(a, v) && AllClocks(t.resets, |v|) && 0 <= x < a.dim
    ensures x == 0 || !Kept(t, x) ==>
              forall f: Valuation :: OnTime(a, f) ==> AllClocks(t.resets, |f|) && AfterResets(t.resets, f)[x] == AfterResets(t.resets, v)[x]
    ensures x == 0 || Kept(t, x) ==> AfterResets(t.resets, v)[x] == v[x]
  {
    hide AfterResets, ResetValue, Steady;
    AfterByClock(a, t, v);
    forall f: Valuation | OnTime(a, f) && (x == 0 || !Kept(t, x)) ensures AfterResets(t.resets, f)[x] == AfterResets(t.resets, v)[x] {
      AfterByClock(a, t, f);
    }
  }

  /** The value `p'` of a clock can catch up before another one, at `q'`, gets ahead of `q`. */
  ghost predicate Roomy(c: int, p: real, q: real, p': real, q': real) {
    Le(ZERO, Plus(Plus(LowerSide(c, p), IntBound(p' - q')), Fin(q, true)))
  }

  lemma SameRoom(c: int, p: real, q: real, p': real, q': real, p'': real, q'': real)
    requires IntBound(p'' - q'') == IntBound(p' - q')
    ensures Roomy(c, p, q, p', q') <==> Roomy(c, p, q, p'', q'')
  {}

  lemma LaterOne(a: Automaton, t: Transition, v: Valuation, w: Valuation, f: Valuation, x: int, y: int)
    requires Valid(a) && t in a.trans && ValidTransition(a, t) && Steady(a, t) && Takes(a, t, v) && !Gap(a, t, v)
    requires OnTime(a, w) && BelowIn(a, t.src, v, w) && |v| == |w| == |f| == a.dim && OnTime(a, f) && AllClocks(t.resets, a.dim)
    requires 0 <= x < a.dim && 0 <= y < a.dim && (x == 0 ==> y == 0)
    requires x >= 1 && y >= 1 ==> IntBound(f[y] - f[x]) == IntBound(w[y] - w[x])
    requires x >= 1 ==> Kept(t, x) && !Beyond(Up(a, t.tgt)[x], v[x]) && f[x] <= v[x]
    ensures var s, s' := AfterResets(t.resets, v), AfterResets(t.resets, f);
            Roomy(Low(a, t.tgt)[y], s[y], s[x], s'[y], s'[x])
  {
    hide Roomy, GuardsOf, Lowers, Uppers, Pass, AfterResets, ResetValue, Steady, IntBound, Gap, Takes, LowerSide, Below, NonNegative;
    TakesOccurs(a, t, v);
    AfterAt(a, t, v, x);
    AfterAt(a, t, v, y);
    AfterAt(a, t, f, x);
    AfterAt(a, t, f, y);
    var s, s' := AfterResets(t.resets, v), AfterResets(t.resets, f);
    if y == 0 || x == y || !Kept(t, y) {
      NoFurther(Low(a, t.tgt)[y], s[y], s[x], s'[y], s'[x]);
    } else {
      LaterKept(a, t, v, w, x, y);
      SameRoom(Low(a, t.tgt)[y], v[y], v[x], w[y], w[x], f[y], f[x]);
    }
  }

  lemma NoFurther(c: int, p: real, q: real, p': real, q': real)
    requires p' - q' >= p - q
    ensures Roomy(c, p, q, p', q')
  {
    hide IntBound, LowerSide;
    LowerSideMet(c, p);
    IntBoundMet(p' - q');
    RoomFor(p, LowerSide(c, p), p' - q', IntBound(p' - q'), q, Fin(q, true));
  }

  lemma LowerSideMet(c: int, p: real)
    ensures Meets(-p, LowerSide(c, p))
  {}

  lemma LaterKept(a: Automaton, t: Transition, v: Valuation, w: Valuation, x: int, y: int)
    requires Valid(a) && t in a.trans && ValidTransition(a, t) && Takes(a, t, v) && !Gap(a, t, v)
    requires OnTime(a, w) && BelowIn(a, t.src, v, w) && |v| == |w| == a.dim && 1 <= x < a.dim && 1 <= y < a.dim && x != y
    requires Kept(t, x) && Kept(t, y) && !Beyond(Up(a, t.tgt)[x], v[x])
    ensures Roomy(Low(a, t.tgt)[y], v[y], v[x], w[y], w[x])
  {
    hide GuardsOf, Lowers, Uppers, Pass, AfterResets, ResetValue, IntBound, Misses;
    assert BelowAt(Low(a, t.src), Up(a, t.src), v, w, x) && BelowAt(Low(a, t.src), Up(a, t.src), v, w, y);
    assert !AheadGap(a, t, v, x);
    var lo := LowerSide(Low(a, t.tgt)[y], v[y]);
    if w[y] >= v[y] {
      LowerSideMet(Low(a, t.tgt)[y], v[y]);
      IntBoundMet(w[y] - w[x]);
      RoomFor(v[y], lo, w[y] - w[x], IntBound(w[y] - w[x]), v[x], Fin(v[x], true));
    } else {
      assert w[y] >= 0.0;
      assert !BehindGap(a, t, v, y, w[y]) && !ShortBehind(a, t, v, y, w[y], x);
      LeSelf(lo);
      NotMissed(lo, w[y], v[x], w[x], Fin(v[x], true), lo);
    }
  }

  lemma RoomCompatible(m: Matrix, l: seq<int>, u: seq<int>, s: Valuation, x: int, y: int, p: real, q: real)
    requires |m| == |l| == |u| == |s| && Clock(m, x) && Clock(m, y)
    requires m[y][x] == Inf || Beyond(u[x], s[x]) || (m[y][x] == IntBound(p - q) && Roomy(l[y], s[y], s[x], p, q))
    ensures BoxCompatible(m, LowerSides(l, s), UpperSides(u, s), x, y)
  {
    hide IntBound, LowerSide;
  }

  /** And time leads on, until all clocks are as the target asks for. */
  lemma LaterCompatible(a: Automaton, t: Transition, v: Valuation, w: Valuation, f: Valuation, x: int, y: int)
    requires Valid(a) && t in a.trans && ValidTransition(a, t) && Steady(a, t) && Takes(a, t, v) && !Gap(a, t, v) && !Still(a, t)
    requires OnTime(a, w) && BelowIn(a, t.src, v, w) && |v| == |w| == |f| == a.dim && OnTime(a, f) && AllClocks(t.resets, a.dim)
    requires 0 <= x < a.dim && 0 <= y < a.dim && Meets(f[x], EdgeUpper(a, t, v, x))
    requires x >= 1 && y >= 1 ==> IntBound(f[y] - f[x]) == IntBound(w[y] - w[x])
    ensures var s, s' := AfterResets(t.resets, v), AfterResets(t.resets, f);
            BoxCompatible(OpenUp(Region(s')), LowerSides(Low(a, t.tgt), s), UpperSides(Up(a, t.tgt), s), x, y)
  {
    hide GuardsOf, Lowers, Uppers, Pass, AfterResets, ResetValue, Steady, IntBound, Gap, Takes, EdgeUpper, Still, LowerSide,
      Region, OpenUp, Below, NonNegative, Roomy, BoxCompatible, LowerSides, UpperSides;
    TakesOccurs(a, t, v);
    AfterAt(a, t, v, x);
    var s, s' := AfterResets(t.resets, v), AfterResets(t.resets, f);
    OpenEntry(s', y, x);
    if x >= 1 {
      if !Kept(t, x) {
        Unlimited(a, t, v, x);
      } else {
        UpperKept(a, t, v, f, x);
      }
    }
    if x >= 1 && Beyond(Up(a, t.tgt)[x], s[x]) {
    } else if x >= 1 || y == 0 {
      LaterOne(a, t, v, w, f, x, y);
    }
    RoomCompatible(OpenUp(Region(s')), Low(a, t.tgt), Up(a, t.tgt), s, x, y, s'[y], s'[x]);
  }

  lemma FirstBounds(a: Automaton, loc: string)
    requires Valid(a) && loc in a.locs
    ensures |Low(a, loc)| == |Up(a, loc)| == a.dim >= 1 && Low(a, loc)[0] == 0 == Up(a, loc)[0]
  {}

  lemma RegionSame(w: Valuation, w1: Valuation, i: int, j: int)
    requires |w| >= 1 && In(Region(w), w1) && 0 <= i < |w| && 0 <= j < |w|
    ensures IntBound(w1[i] - w1[j]) == IntBound(w[i] - w[j])
  {
    hide Region, IntBound;
    var d, e := w[i] - w[j], w1[i] - w1[j];
    IntBoundMet(d);
    IntBoundMet(e);
    RegionAlike(w, w1, i, j, IntBound(d));
    RegionAlike(w, w1, i, j, IntBound(e));
    IntBoundLeast(e, IntBound(d));
    IntBoundLeast(d, IntBound(e));
    LeBoth(IntBound(d), IntBound(e));
  }

  lemma LeBoth(b: Bound, b': Bound)
    requires Le(b, b') && Le(b', b)
    ensures b == b'
  {}

  lemma LaterSimulated(a: Automaton, t: Transition, v: Valuation, w: Valuation, f: Valuation)
    requires Valid(a) && t in a.trans && ValidTransition(a, t) && Steady(a, t) && Takes(a, t, v) && !Gap(a, t, v) && !Still(a, t)
    requires OnTime(a, w) && BelowIn(a, t.src, v, w) && |v| == |w| == |f| == a.dim && OnTime(a, f) && In(Leaving(a, t, w), f)
    requires AllClocks(t.resets, a.dim) && forall x :: 0 <= x < a.dim ==> Meets(f[x], EdgeUpper(a, t, v, x))
    ensures OnTime(a, AfterResets(t.resets, f)) && |AfterResets(t.resets, f)| >= 1
    ensures Simulated(OpenUp(Region(AfterResets(t.resets, f))), Low(a, t.tgt), Up(a, t.tgt), AfterResets(t.resets, v))
  {
    hide GuardsOf, Lowers, Uppers, Pass, AfterResets, ResetValue, Steady, IntBound, Gap, Takes, EdgeUpper, Still, Region, OpenUp, Below,
      BoxCompatible, LowerSides, UpperSides, Leaving, Tight;
    TakesOccurs(a, t, v);
    AfterByClock(a, t, v);
    AfterByClock(a, t, f);
    FirstBounds(a, t.tgt);
    var s, s' := AfterResets(t.resets, v), AfterResets(t.resets, f);
    var e := OpenUp(Region(s'));
    RegionNormal(s');
    OpenUpTight(Region(s'));
    var w1, d := LeavingFrom(a, t, w, f);
    forall x, y | Clock(e, x) && Clock(e, y)
      ensures BoxCompatible(e, LowerSides(Low(a, t.tgt), s), UpperSides(Up(a, t.tgt), s), x, y)
    {
      RegionSame(w, w1, y, x);
      assert x >= 1 && y >= 1 ==> f[y] - f[x] == w1[y] - w1[x];
      LaterCompatible(a, t, v, w, f, x, y);
    }
    CompatibleSimulated(e, Low(a, t.tgt), Up(a, t.tgt), s);
  }

  lemma Later(a: Automaton, t: Transition, v: Valuation, w: Valuation, f: Valuation) returns (f2: Valuation, u: Valuation)
    requires Valid(a) && t in a.trans && ValidTransition(a, t) && Steady(a, t) && Takes(a, t, v) && !Gap(a, t, v) && !Still(a, t)
    requires OnTime(a, w) && BelowIn(a, t.src, v, w) && |v| == |w| == |f| == a.dim && OnTime(a, f) && In(Leaving(a, t, w), f)
    requires forall x :: 0 <= x < a.dim ==> Meets(f[x], EdgeUpper(a, t, v, x)) && Meets(-f[x], EdgeLower(a, t, v, x))
    ensures |f| >= 1 && In(Region(f), f2) && Succeeds(a, t, v, f2, u)
  {
    hide GuardsOf, Lowers, Uppers, Pass, AfterResets, Steady, Gap, Takes, EdgeUpper, EdgeLower, Region, OpenUp, Below, Leaving;
    ResetsFit(a, t);
    LaterSimulated(a, t, v, w, f);
    ArrivesToo(a, t, v, f);
    TakesOccurs(a, t, v);
    var s, s' := AfterResets(t.resets, v), AfterResets(t.resets, f);
    u :| In(OpenUp(Region(s')), u) && Below(Low(a, t.tgt), Up(a, t.tgt), s, u);
    RegionNormal(s');
    OpenUpExact(Region(s'), u);
    var s2: Valuation, e: real :| In(Region(s'), s2) && e >= 0.0 && u == Delay(s2, e);
    RegionAfter(t.resets, f, s2);
    f2 :| In(Region(f), f2) && AllClocks(t.resets, |f2|) && s2 == AfterResets(t.resets, f2);
    assert AllFitting(Inv(a, t), |s'|);
    PassAlike(Inv(a, t), s', s2);
    RegionOnTime(a, s', s2);
    TakesArrives(a, t, v);
    InvariantAgain(a, t, s, u);
  }

  /** What is in the region of a point to take the edge at is one as well. */
  lemma AlsoLeaves(a: Automaton, t: Transition, w: Valuation, f: Valuation, f2: Valuation)
    requires Valid(a) && t in a.trans && ValidTransition(a, t) && Occurs(a, t.src, w) && |w| >= 1
    requires In(Leaving(a, t, w), f) && OnTime(a, f) && Pass(t.guard, f) && Waits(a, t.src, w, f) && |f| >= 1 && In(Region(f), f2)
    ensures OnTime(a, f2) && Pass(t.guard, f2) && Waits(a, t.src, w, f2)
  {
    hide Pass, Region, Leaving, Tight, Integral, Consistent;
    LeavingNormal(a, t, w);
    RegionLeast(f, Leaving(a, t, w));
    RegionOnTime(a, f, f2);
    assert AllFitting(t.guard, |f|) && AllFitting(a.locs[t.src].inv, |f|);
    PassAlike(t.guard, f, f2);
    PassAlike(a.locs[t.src].inv, f, f2);
    var w0: Valuation :| In(Region(w), w0) && Stays(a, t.src, w0, f);
    var w1, d := LeavingFrom(a, t, w, f2);
    RegionOnTime(a, w, w1);
    assert AllFitting(a.locs[t.src].inv, |w|);
    PassAlike(a.locs[t.src].inv, w, w1);
    assert Pass(a.locs[t.src].inv, f);
    assert Stays(a, t.src, w1, f2);
  }

  /** What comes after `v` is carried along. */
  lemma Concludes(a: Automaton, t: Transition, v: Valuation, w: Valuation, f: Valuation, u: Valuation, v': Valuation)
    requires Valid(a) && t in a.trans && ValidTransition(a, t) && Steady(a, t) && Takes(a, t, v) && RunsTo(v, Acts(a, t), v')
    requires OnTime(a, f) && Pass(t.guard, f) && Waits(a, t.src, w, f) && Succeeds(a, t, v, f, u)
    ensures Carried(a, t, w, v')
  {
    hide RunsTo, Pass, AfterResets, GuardsOf, Lowers, Uppers, Acts, Below, Stays, Steady, Takes, OnTime, Waits;
    TakesOccurs(a, t, v);
    TakesArrives(a, t, v);
    OnTimeSize(a, v);
    OnTimeSize(a, f);
    ActsRun(a, t, v, v');
    var s, s' := AfterResets(t.resets, v), AfterResets(t.resets, f);
    AfterByClock(a, t, f);
    OnTimeSize(a, s');
    ArrivedStays(a, t.tgt, s', u);
    StayOnTime(a, t.tgt, s', u);
    var w' := StayKept(a, t.tgt, s, u, v');
    ActsRun(a, t, f, w');
  }

  lemma NoGapCarriesOne(a: Automaton, t: Transition, v: Valuation, w: Valuation, v': Valuation)
    requires Valid(a) && t in a.trans && ValidTransition(a, t) && Steady(a, t) && NoGap(a, t)
    requires Occurs(a, t.src, v) && Occurs(a, t.src, w) && BelowIn(a, t.src, v, w) && RunsTo(v, Acts(a, t), v')
    ensures Carried(a, t, w, v')
  {
    hide RunsTo, Pass, PassAt, AfterResets, ResetValue, Gap, Steady, GuardsOf, Lowers, Uppers, Acts, Carried, Region, Leaving, EdgeUpper,
      EdgeLower, Waits, Succeeds, NonNegative;
    OnTimeSize(a, v);
    ActsRun(a, t, v, v');
    assert Takes(a, t, v) && !Gap(a, t, v);
    GuardKept(a, t, v, w);
    var f := EdgePoint(a, t, v, w);
    forall x | 1 <= x < a.dim ensures Meets(f[x], SourceUpper(a, t, x)) {
      SourceUpperMet(a, t, v, f, x);
    }
    LeavesWithin(a, t, w, f);
    if Still(a, t) {
      AtOnce(a, t, v, f);
      Concludes(a, t, v, w, f, AfterResets(t.resets, f), v');
    } else {
      var f2, u := Later(a, t, v, w, f);
      AlsoLeaves(a, t, w, f, f2);
      Concludes(a, t, v, w, f2, u, v');
    }
  }

  /** An edge without gaps carries the order. */
  lemma NoGapCarries(a: Automaton, t: Transition)
    requires Valid(a) && t in a.trans && ValidTransition(a, t) && Steady(a, t) && NoGap(a, t)
    ensures Carries(a, t)
  {
    hide RunsTo, NoGap, Occurs, BelowIn, Steady, Acts, Carried;
    forall v: Valuation, w: Valuation, v': Valuation |
      Occurs(a, t.src, v) && Occurs(a, t.src, w) && BelowIn(a, t.src, v, w) && RunsTo(v, Acts(a, t), v')
      ensures Carried(a, t, w, v')
    {
      NoGapCarriesOne(a, t, v, w, v');
    }
  }

  // ----- the simpler condition is sufficient, too -----

  lemma BeyondMeets(c: int, p: real, r: real)
    requires Beyond(c, r)
    ensures Meets(-r, LowerSide(c, p))
  {}

  lemma BehindIsWide(a: Automaton, t: Transition, v: Valuation, y: int, r: real)
    requires Valid(a) && t in a.trans && ValidTransition(a, t) && Steady(a, t) && Takes(a, t, v) && 1 <= y < a.dim == |v|
    requires BehindGap(a, t, v, y, r)
    ensures WideBehindGap(a, t, v, y, r)
  {
    hide AfterResets, GuardsOf, Lowers, Uppers, Pass, ResetValue, Steady, Misses, PassAt, LowerOf, SourceUpper, LowerSide, IntBound;
    TakesOccurs(a, t, v);
    AfterByClock(a, t, v);
    var z :| 0 <= z < a.dim && z != y && (ShortBehind(a, t, v, y, r, z) || ShortBefore(a, t, v, y, r, z));
    IntBoundMet(r - v[z]);
    if Beyond(Low(a, t.tgt)[y], r) {
      BeyondMeets(Low(a, t.tgt)[y], v[y], r);
    }
    if ShortBehind(a, t, v, y, r, z) {
      if Beyond(Low(a, t.tgt)[y], r) {
        Contradicts(LowerSide(Low(a, t.tgt)[y], v[y]), r, v[z], Fin(v[z], true), r, v[z]);
      }
    } else {
      SourceUpperHere(a, t, v, z);
      if Meets(-r, Needed(a, t, y, v[y])) {
        Contradicts(Needed(a, t, y, v[y]), r, v[z], SourceUpper(a, t, z), r, v[z]);
      }
      NeededWide(a, t, v, y, r);
    }
  }

  lemma NeededWide(a: Automaton, t: Transition, v: Valuation, y: int, r: real)
    requires Valid(a) && t in a.trans && ValidTransition(a, t) && Steady(a, t) && Takes(a, t, v) && 1 <= y < a.dim == |v|
    requires Kept(t, y) && 0.0 <= r < v[y] && !Meets(-r, Needed(a, t, y, v[y])) && AllClocks(t.resets, |v|)
    ensures !Beyond(Low(a, t.tgt)[y], r) && Anchored(a, t, AfterResets(t.resets, v), y, r)
  {
    hide AfterResets, GuardsOf, Lowers, Uppers, Pass, ResetValue, Steady, PassAt, LowerOf, Accounted, Takes;
    TakesOccurs(a, t, v);
    AfterByClock(a, t, v);
    if Beyond(Low(a, t.tgt)[y], r) {
      BeyondMeets(Low(a, t.tgt)[y], v[y], r);
      NeededLarger(a, t, v, y);
      MeetsLarger(-r, LowerSide(Low(a, t.tgt)[y], v[y]), Needed(a, t, y, v[y]));
    }
    if !Still(a, t) {
      PassAtTightest(Inv(a, t), y, r);
    } else if a.locs[t.tgt].delay {
      var x :| 1 <= x < a.dim && !Kept(t, x) && !Beyond(Up(a, t.tgt)[x], ResetValue(t.resets, x).value as real);
    }
  }

  lemma WideSuffices(a: Automaton, t: Transition)
    requires Valid(a) && t in a.trans && ValidTransition(a, t) && Steady(a, t) && NoWideGap(a, t)
    ensures NoGap(a, t)
  {
    hide DiagonalGap, AheadGap, BehindGap, WideBehindGap, Steady, Pass, AfterResets;
    forall v: Valuation, y, r: real | Takes(a, t, v) && 1 <= y < a.dim
      ensures !BehindGap(a, t, v, y, r)
    {
      if BehindGap(a, t, v, y, r) {
        BehindIsWide(a, t, v, y, r);
      }
    }
  }
}
