/** The condition on an edge, computed: the valuations that take an edge form a zone, and each kind of gap asks whether a part of that
    zone, with one more variable for the smaller value of a clock that has fallen behind, is empty. */
module LocalCheck {
  import opened Bounds
  import opened Zones
  import opened Limits
  import opened Encoding
  import opened LuSimulation
  import opened Integrality
  import opened Regions
  import opened LocalBounds
  import opened EdgeRuns
  import opened TimedPushdown
  import opened LocalSimulation
  import opened LocalCondition
  import Machine

  // ----- the zone of those that take the edge -----

  /** Where the value of clock `x` on arrival comes from, and what is added to it. */
  function Place(t: Transition, x: int): int {
    if Kept(t, x) then x else 0
  }

  function Offset(t: Transition, x: int): int {
    if Kept(t, x) then 0 else ResetValue(t.resets, x).value
  }

  /** A bound on clocks `x` and `y` on arrival. */
  function OnArrival(t: Transition, x: int, y: int, b: Bound): Limit {
    Limit(Place(t, x), Place(t, y), Plus(b, Fin((Offset(t, y) - Offset(t, x)) as real, true)))
  }

  function ConstraintLimit(c: Machine.ClockConstraint): Limit {
    Limit(c.first, c.second, BoundOfConstraint(c))
  }

  function ArrivalLimit(t: Transition, c: Machine.ClockConstraint): Limit {
    OnArrival(t, c.first, c.second, BoundOfConstraint(c))
  }

  function PositiveLimits(n: nat): seq<Limit> {
    seq(n, x => Limit(0, x, ZERO))
  }

  function GuardLimits(cs: seq<Machine.ClockConstraint>): seq<Limit> {
    seq(|cs|, i requires 0 <= i < |cs| => ConstraintLimit(cs[i]))
  }

  function InvLimits(t: Transition, cs: seq<Machine.ClockConstraint>): seq<Limit> {
    seq(|cs|, i requires 0 <= i < |cs| => ArrivalLimit(t, cs[i]))
  }

  function TakerLimits(a: Automaton, t: Transition): seq<Limit>
    requires ValidTransition(a, t)
  {
    PositiveLimits(a.dim) + GuardLimits(Outgoing(a, t)) + InvLimits(t, Inv(a, t))
  }

  /** One more variable than there are clocks. */
  function Size(a: Automaton): nat {
    a.dim + 1
  }

  lemma OutgoingFitting(a: Automaton, t: Transition)
    requires Valid(a) && ValidTransition(a, t)
    ensures AllFitting(Outgoing(a, t), a.dim)
  {
    assert AllFitting(t.guard, a.dim) && AllFitting(a.locs[t.src].inv, a.dim);
  }

  lemma TakerInside(a: Automaton, t: Transition)
    requires Valid(a) && ValidTransition(a, t)
    ensures Inside(TakerLimits(a, t), Size(a))
  {
    hide ResetValue;
    var cs := Outgoing(a, t);
    assert AllFitting(Inv(a, t), a.dim);
    OutgoingFitting(a, t);
    forall i | 0 <= i < |Inv(a, t)| ensures 0 <= InvLimits(t, Inv(a, t))[i].i < a.dim && 0 <= InvLimits(t, Inv(a, t))[i].j < a.dim {
      assert Fitting(Inv(a, t)[i], a.dim);
    }
    forall i | 0 <= i < |cs| ensures 0 <= GuardLimits(cs)[i].i < a.dim && 0 <= GuardLimits(cs)[i].j < a.dim {
      assert Fitting(cs[i], a.dim);
    }
  }

  lemma MeetsShift(d: real, b: Bound, k: real)
    ensures Meets(d, Plus(b, Fin(k, true))) <==> Meets(d - k, b)
  {}

  /** The value on arrival, where it comes from. */
  lemma PlaceValue(a: Automaton, t: Transition, v: Valuation, x: int)
    requires Valid(a) && ValidTransition(a, t) && Steady(a, t) && OnTime(a, v) && AllClocks(t.resets, |v|) && 0 <= x < a.dim
    ensures 0 <= Place(t, x) < |v| && AfterResets(t.resets, v)[x] == v[Place(t, x)] + Offset(t, x) as real
  {
    hide AfterResets, ResetValue;
    forall i | 0 <= i < |t.resets| ensures FittingReset(t.resets[i], |v|) && t.resets[i].right == 0 {}
    ResetByClock(t.resets, v, x);
  }

  lemma OnArrivalExact(a: Automaton, t: Transition, v: Valuation, r: real, x: int, y: int, b: Bound)
    requires Valid(a) && ValidTransition(a, t) && Steady(a, t) && OnTime(a, v) && AllClocks(t.resets, |v|)
    requires 0 <= x < a.dim && 0 <= y < a.dim
    ensures var s := AfterResets(t.resets, v); Obeys(v + [r], OnArrival(t, x, y, b)) <==> Meets(s[x] - s[y], b)
  {
    hide AfterResets, ResetValue, Place, Offset;
    PlaceValue(a, t, v, x);
    PlaceValue(a, t, v, y);
    MeetsShift(v[Place(t, x)] - v[Place(t, y)], b, (Offset(t, y) - Offset(t, x)) as real);
  }

  lemma PositiveExact(a: Automaton, v: Valuation, r: real)
    requires |v| == a.dim >= 1 && v[0] == 0.0
    ensures ObeysAll(v + [r], PositiveLimits(a.dim)) <==> OnTime(a, v)
  {
    forall x | 0 <= x < a.dim ensures Obeys(v + [r], PositiveLimits(a.dim)[x]) <==> v[x] >= 0.0 {}
  }

  lemma GuardExact(a: Automaton, cs: seq<Machine.ClockConstraint>, v: Valuation, r: real)
    requires |v| == a.dim && AllFitting(cs, a.dim)
    ensures ObeysAll(v + [r], GuardLimits(cs)) <==> Pass(cs, v)
  {
    forall i | 0 <= i < |cs| ensures Obeys(v + [r], GuardLimits(cs)[i]) <==> Holds(cs[i], v) {
      assert Fitting(cs[i], a.dim);
    }
  }

  lemma InvExact(a: Automaton, t: Transition, v: Valuation, r: real)
    requires Valid(a) && ValidTransition(a, t) && Steady(a, t) && OnTime(a, v) && AllClocks(t.resets, |v|)
    ensures ObeysAll(v + [r], InvLimits(t, Inv(a, t))) <==> Pass(Inv(a, t), AfterResets(t.resets, v))
  {
    hide AfterResets, ResetValue, OnArrival;
    assert AllFitting(Inv(a, t), a.dim);
    forall i | 0 <= i < |Inv(a, t)|
      ensures Obeys(v + [r], InvLimits(t, Inv(a, t))[i]) <==> Holds(Inv(a, t)[i], AfterResets(t.resets, v))
    {
      var c := Inv(a, t)[i];
      assert Fitting(c, a.dim);
      OnArrivalExact(a, t, v, r, c.first, c.second, BoundOfConstraint(c));
    }
  }

  lemma TakerExact(a: Automaton, t: Transition, v: Valuation, r: real)
    requires Valid(a) && ValidTransition(a, t) && Steady(a, t) && |v| == a.dim && v[0] == 0.0
    ensures ObeysAll(v + [r], TakerLimits(a, t)) <==> Takes(a, t, v)
  {
    hide AfterResets, ResetValue, ObeysAll, PositiveLimits, GuardLimits, InvLimits, Pass, OnTime;
    var p, g, i := PositiveLimits(a.dim), GuardLimits(Outgoing(a, t)), InvLimits(t, Inv(a, t));
    ObeysBoth(v + [r], p + g, i);
    ObeysBoth(v + [r], p, g);
    PositiveExact(a, v, r);
    OutgoingFitting(a, t);
    GuardExact(a, Outgoing(a, t), v, r);
    PassBoth(t.guard, a.locs[t.src].inv, v);
    ResetsFit(a, t);
    if OnTime(a, v) {
      InvExact(a, t, v, r);
    }
  }

  /** The system decides whether something that takes the edge, together with some value, obeys more limits. */
  lemma Decided(a: Automaton, t: Transition, more: seq<Limit>)
    requires Valid(a) && ValidTransition(a, t) && Steady(a, t) && Inside(more, Size(a))
    ensures Inside(TakerLimits(a, t) + more, Size(a))
    ensures Solvable(TakerLimits(a, t) + more, Size(a)) <==> exists v: Valuation, r: real :: Takes(a, t, v) && ObeysAll(v + [r], more)
  {
    hide ObeysAll, TakerLimits, Takes, Solvable;
    TakerInside(a, t);
    var ls := TakerLimits(a, t) + more;
    SolvableExact(ls, Size(a));
    if Solvable(ls, Size(a)) {
      var w: Valuation :| |w| == Size(a) && w[0] == 0.0 && ObeysAll(w, ls);
      var v, r := w[..a.dim], w[a.dim];
      assert w == v + [r];
      ObeysBoth(w, TakerLimits(a, t), more);
      TakerExact(a, t, v, r);
    }
    if v: Valuation, r: real :| Takes(a, t, v) && ObeysAll(v + [r], more) {
      TakesSize(a, t, v);
      TakerExact(a, t, v, r);
      ObeysBoth(v + [r], TakerLimits(a, t), more);
      assert |v + [r]| == Size(a) && (v + [r])[0] == 0.0;
    }
  }

  lemma TakesSize(a: Automaton, t: Transition, v: Valuation)
    requires ValidTransition(a, t) && Takes(a, t, v)
    ensures OnTime(a, v) && |v| == a.dim >= 1 && v[0] == 0.0 && AllClocks(t.resets, |v|)
  {}

  predicate Possible(a: Automaton, t: Transition, more: seq<Limit>)
    requires Valid(a) && ValidTransition(a, t)
  {
    TakerInside(a, t);
    Inside(more, Size(a)) && Solvable(TakerLimits(a, t) + more, Size(a))
  }

  lemma PossibleExact(a: Automaton, t: Transition, more: seq<Limit>)
    requires Valid(a) && ValidTransition(a, t) && Steady(a, t) && Inside(more, Size(a))
    ensures Possible(a, t, more) <==> exists v: Valuation, r: real :: Takes(a, t, v) && ObeysAll(v + [r], more)
  {
    hide ObeysAll, TakerLimits, Takes, Solvable;
    Decided(a, t, more);
  }

  // ----- the kinds of gaps, as limits -----

  /** Variable `i` is beyond the bound. */
  function BeyondLimits(c: int, i: int): seq<Limit> {
    if c == -INF_VALUE then [] else [Limit(0, i, Fin(-(c as real), false))]
  }

  lemma BeyondExact(v: Valuation, c: int, i: int)
    requires 0 <= i < |v| && v[0] == 0.0
    ensures ObeysAll(v, BeyondLimits(c, i)) <==> Beyond(c, v[i])
  {
    if c != -INF_VALUE {
      assert ObeysAll(v, BeyondLimits(c, i)) <==> Obeys(v, BeyondLimits(c, i)[0]);
    }
  }

  /** The further variable is a smaller value of clock `y`, not negative, and beyond the lower bound of the source. */
  function LowerLimits(a: Automaton, t: Transition, y: int): seq<Limit>
    requires ValidTransition(a, t) && 0 <= y < a.dim
  {
    [Limit(0, a.dim, ZERO), Limit(a.dim, y, Fin(0.0, false))] + BeyondLimits(Low(a, t.src)[y], a.dim)
  }

  lemma LowerExact(a: Automaton, t: Transition, v: Valuation, r: real, y: int)
    requires ValidTransition(a, t) && 0 <= y < a.dim == |v| && v[0] == 0.0
    ensures ObeysAll(v + [r], LowerLimits(a, t, y)) <==> 0.0 <= r < v[y] && Beyond(Low(a, t.src)[y], r)
  {
    hide GuardsOf, Lowers, BeyondLimits;
    var x := [Limit(0, a.dim, ZERO), Limit(a.dim, y, Fin(0.0, false))];
    ObeysBoth(v + [r], x, BeyondLimits(Low(a, t.src)[y], a.dim));
    BeyondExact(v + [r], Low(a, t.src)[y], a.dim);
    assert ObeysAll(v + [r], x) <==> Obeys(v + [r], x[0]) && Obeys(v + [r], x[1]);
  }

  /** A bound that is missed. */
  function Opposite(b: Bound): Bound {
    if b.Inf? then Fin(0.0, false) else Fin(-b.value, !b.le)
  }

  lemma OppositeExact(d: real, b: Bound)
    requires b.Fin?
    ensures Meets(-d, Opposite(b)) <==> !Meets(d, b)
  {}

  predicate DiagonalCheck(a: Automaton, t: Transition, i: int)
    requires Valid(a) && ValidTransition(a, t) && 0 <= i < |t.guard| && Fitting(t.guard[i], a.dim)
  {
    var c := t.guard[i];
    && Diagonal(c)
    && (|| Possible(a, t, BeyondLimits(Up(a, t.src)[c.first], c.first))
        || Possible(a, t, LowerLimits(a, t, c.second) + [Limit(a.dim, c.first, Opposite(BoundOfConstraint(c)))]))
  }

  predicate AheadCheck(a: Automaton, t: Transition, x: int)
    requires Valid(a) && ValidTransition(a, t) && 1 <= x < a.dim
  {
    var p, q := Up(a, t.src)[x], Up(a, t.tgt)[x];
    Kept(t, x) && q != -INF_VALUE && Possible(a, t, BeyondLimits(p, x) + [Limit(x, 0, Fin(q as real, true))])
  }

  /** As the integer bound `k` tells, the further variable falls short of clock `y` while clock `z` does not get ahead. */
  function ShortLimits(a: Automaton, t: Transition, y: int, z: int, k: int, le: bool): seq<Limit>
    requires ValidTransition(a, t) && 1 <= y < a.dim && 0 <= z < a.dim
  {
    [Limit(a.dim, z, Fin(k as real, le)), Limit(z, y, Fin(-(k as real), !le)),
     Limit(z, 0, Fin((Low(a, t.tgt)[y] - k) as real, true)), Limit(z, 0, Fin(Up(a, t.tgt)[z] as real, true))]
  }

  predicate ShortBehindCheck(a: Automaton, t: Transition, y: int, z: int)
    requires Valid(a) && ValidTransition(a, t) && 1 <= y < a.dim && 0 <= z < a.dim
  {
    var l, u := Low(a, t.tgt)[y], Up(a, t.tgt)[z];
    && z != 0 && Kept(t, z) && l != -INF_VALUE && u != -INF_VALUE
    && exists k: int, le: bool :: -u <= k <= l && Possible(a, t, LowerLimits(a, t, y) + ShortLimits(a, t, y, z, k, le))
  }

  /** The most that is needed of clock `y`. */
  function Top(a: Automaton, t: Transition, y: int): int
    requires ValidTransition(a, t) && 0 <= y < a.dim
  {
    if Still(a, t) then Low(a, t.tgt)[y] else if LowerOf(Inv(a, t), y).Fin? then (-LowerOf(Inv(a, t), y).value).Floor else 0
  }

  /** Clock `y` can need more than `b`; then this is left to be asked of it. */
  predicate Needs(a: Automaton, t: Transition, y: int, b: Bound)
    requires ValidTransition(a, t) && 0 <= y < a.dim && b.Fin?
  {
    if Still(a, t) then Low(a, t.tgt)[y] != -INF_VALUE && b.value <= Low(a, t.tgt)[y] as real else Lt(Plus(LowerOf(Inv(a, t), y), b), ZERO)
  }

  function NeedLimits(a: Automaton, t: Transition, y: int, b: Bound): seq<Limit>
    requires ValidTransition(a, t)
  {
    if Still(a, t) then [Limit(0, y, Opposite(b))] else []
  }

  predicate BeforePossible(a: Automaton, t: Transition, y: int, z: int, k: int, le: bool)
    requires Valid(a) && ValidTransition(a, t) && 1 <= y < a.dim && 0 <= z < a.dim && SourceUpper(a, t, z).Fin?
  {
    var b := Plus(Fin(k as real, le), SourceUpper(a, t, z));
    Needs(a, t, y, b) && Possible(a, t, LowerLimits(a, t, y) + ([Limit(a.dim, z, Fin(k as real, le))] + NeedLimits(a, t, y, b)))
  }

  /** The same while clock `z` is as the source allows. */
  predicate ShortBeforeCheck(a: Automaton, t: Transition, y: int, z: int)
    requires Valid(a) && ValidTransition(a, t) && 1 <= y < a.dim && 0 <= z < a.dim
  {
    var hi := SourceUpper(a, t, z);
    && hi.Fin?
    && var h := hi.value.Floor;
       exists k: int, le: bool :: -h <= k <= Top(a, t, y) - h && BeforePossible(a, t, y, z, k, le)
  }

  predicate BehindCheck(a: Automaton, t: Transition, y: int)
    requires Valid(a) && ValidTransition(a, t) && 1 <= y < a.dim
  {
    Kept(t, y) && exists z :: 0 <= z < a.dim && z != y && (ShortBehindCheck(a, t, y, z) || ShortBeforeCheck(a, t, y, z))
  }

  /** The edge has no gap, as it can be computed from the automaton. */
  predicate NoGapCheck(a: Automaton, t: Transition)
    requires Valid(a) && ValidTransition(a, t)
  {
    && (forall i :: 0 <= i < |t.guard| && Fitting(t.guard[i], a.dim) ==> !DiagonalCheck(a, t, i))
    && (forall x :: 1 <= x < a.dim ==> !AheadCheck(a, t, x))
    && forall y :: 1 <= y < a.dim ==> !BehindCheck(a, t, y)
  }

  // ----- what is computed is the condition -----

  lemma DiagonalChecked(a: Automaton, t: Transition, i: int)
    requires Valid(a) && ValidTransition(a, t) && Steady(a, t) && 0 <= i < |t.guard| && Fitting(t.guard[i], a.dim)
    ensures DiagonalCheck(a, t, i) <==> exists v: Valuation :: Takes(a, t, v) && DiagonalGap(a, t, v, t.guard[i])
  {
    hide Possible, GuardsOf, Lowers, Uppers, Takes, BeyondLimits, LowerLimits, ObeysAll, Steady;
    var c := t.guard[i];
    var far, low := BeyondLimits(Up(a, t.src)[c.first], c.first), Limit(a.dim, c.first, Opposite(BoundOfConstraint(c)));
    LimitsInside(a, t, c.first, c.second);
    PossibleExact(a, t, far);
    PossibleExact(a, t, LowerLimits(a, t, c.second) + [low]);
    forall v: Valuation, r: real | Takes(a, t, v)
      ensures |v| == a.dim
      ensures ObeysAll(v + [r], far) <==> Beyond(Up(a, t.src)[c.first], v[c.first])
      ensures ObeysAll(v + [r], LowerLimits(a, t, c.second) + [low]) <==> Loosened(a, t, v, c, r)
    {
      TakesSize(a, t, v);
      BeyondExact(v + [r], Up(a, t.src)[c.first], c.first);
      LowerExact(a, t, v, r, c.second);
      ObeysBoth(v + [r], LowerLimits(a, t, c.second), [low]);
      OneLimit(v + [r], low);
      OppositeExact(v[c.first] - r, BoundOfConstraint(c));
      assert r - v[c.first] == -(v[c.first] - r);
    }
    if v: Valuation :| Takes(a, t, v) && DiagonalGap(a, t, v, c) {
      TakesSize(a, t, v);
      if Beyond(Up(a, t.src)[c.first], v[c.first]) {
        assert ObeysAll(v + [0.0], far);
      }
    }
    if Possible(a, t, far) && Diagonal(c) {
      var v: Valuation, r: real :| Takes(a, t, v) && ObeysAll(v + [r], far);
      assert DiagonalGap(a, t, v, c);
    }
    if Possible(a, t, LowerLimits(a, t, c.second) + [low]) && Diagonal(c) {
      var v: Valuation, r: real :| Takes(a, t, v) && ObeysAll(v + [r], LowerLimits(a, t, c.second) + [low]);
      assert DiagonalGap(a, t, v, c);
    }
  }

  lemma OneLimit(v: Valuation, l: Limit)
    ensures ObeysAll(v, [l]) <==> Obeys(v, l)
  {
    assert ObeysAll(v, [l]) ==> Obeys(v, [l][0]);
  }

  lemma LimitsInside(a: Automaton, t: Transition, x: int, y: int)
    requires Valid(a) && ValidTransition(a, t) && 0 <= x < a.dim && 0 <= y < a.dim
    ensures forall c :: Inside(BeyondLimits(c, x), Size(a))
    ensures Inside(LowerLimits(a, t, y), Size(a))
    ensures forall b :: Inside(LowerLimits(a, t, y) + [Limit(a.dim, x, b)], Size(a))
    ensures forall b :: Inside(LowerLimits(a, t, y) + [Limit(x, a.dim, b)], Size(a))
  {
    hide GuardsOf, Lowers;
  }

  lemma AheadChecked(a: Automaton, t: Transition, x: int)
    requires Valid(a) && ValidTransition(a, t) && Steady(a, t) && 1 <= x < a.dim
    ensures AheadCheck(a, t, x) <==> exists v: Valuation :: Takes(a, t, v) && AheadGap(a, t, v, x)
  {
    hide Possible, GuardsOf, Lowers, Uppers, Takes, BeyondLimits, ObeysAll, Steady, ResetValue;
    var p, q := Up(a, t.src)[x], Up(a, t.tgt)[x];
    var top := Limit(x, 0, Fin(q as real, true));
    LimitsInside(a, t, x, x);
    PossibleExact(a, t, BeyondLimits(p, x) + [top]);
    forall v: Valuation, r: real | Takes(a, t, v)
      ensures |v| == a.dim
      ensures q != -INF_VALUE ==> (ObeysAll(v + [r], BeyondLimits(p, x) + [top]) <==> Beyond(p, v[x]) && !Beyond(q, v[x]))
    {
      TakesSize(a, t, v);
      BeyondExact(v + [r], p, x);
      ObeysBoth(v + [r], BeyondLimits(p, x), [top]);
      OneLimit(v + [r], top);
    }
    if v: Valuation :| Takes(a, t, v) && AheadGap(a, t, v, x) {
      TakesSize(a, t, v);
      assert ObeysAll(v + [0.0], BeyondLimits(p, x) + [top]);
    }
  }

  /** A smaller value of clock `y`, as good at the source. */
  ghost predicate LowerTaken(a: Automaton, t: Transition, v: Valuation, y: int, r: real)
    requires ValidTransition(a, t) && 1 <= y < a.dim
  {
    |v| == a.dim && 0.0 <= r < v[y] && Beyond(Low(a, t.src)[y], r)
  }

  /** An integer bound that tells a miss. */
  predicate MissesBy(lo: Bound, r: real, q: real, hi: Bound, k: int, le: bool) {
    Meets(r - q, Fin(k as real, le)) && Lt(Plus(lo, Plus(Fin(k as real, le), hi)), ZERO)
  }

  lemma MissesByExact(lo: Bound, r: real, q: real, hi: Bound)
    ensures Misses(lo, r, q, hi) <==> exists k: int, le: bool :: MissesBy(lo, r, q, hi, k, le)
  {
    hide IntBound;
    PlusAssoc(lo, IntBound(r - q), hi);
    if Misses(lo, r, q, hi) {
      IntBoundMet(r - q);
      var k: int :| Equals(IntBound(r - q).value, k);
      assert MissesBy(lo, r, q, hi, k, IntBound(r - q).le);
    }
    if k: int, le: bool :| MissesBy(lo, r, q, hi, k, le) {
      var b := Fin(k as real, le);
      assert Equals(k as real, k);
      IntBoundLeast(r - q, b);
      PlusMono(IntBound(r - q), b, hi, hi);
      PlusMono(lo, lo, Plus(IntBound(r - q), hi), Plus(b, hi));
    }
  }

  /** Falling short of the value `p`, as far as the bound `c` can tell. */
  lemma LowerSideMisses(c: int, p: real, b: Bound)
    requires b.Fin?
    ensures Lt(Plus(LowerSide(c, p), b), ZERO) <==> c != -INF_VALUE && b.value <= c as real && Meets(-p, Opposite(b))
  {}

  lemma ShortInside(a: Automaton, t: Transition, y: int, z: int, k: int, le: bool, b: Bound)
    requires Valid(a) && ValidTransition(a, t) && 1 <= y < a.dim && 0 <= z < a.dim
    ensures Inside(LowerLimits(a, t, y) + ShortLimits(a, t, y, z, k, le), Size(a))
    ensures Inside(LowerLimits(a, t, y) + ([Limit(a.dim, z, Fin(k as real, le))] + NeedLimits(a, t, y, b)), Size(a))
  {
    hide GuardsOf, Lowers, Uppers, Opposite;
    LimitsInside(a, t, z, y);
  }

  lemma ShortLimitsExact(a: Automaton, t: Transition, v: Valuation, r: real, y: int, z: int, k: int, le: bool)
    requires ValidTransition(a, t) && 1 <= y < a.dim == |v| && v[0] == 0.0 && 1 <= z < a.dim && Low(a, t.tgt)[y] != -INF_VALUE
    ensures ObeysAll(v + [r], ShortLimits(a, t, y, z, k, le)) <==>
              v[z] <= Up(a, t.tgt)[z] as real && MissesBy(LowerSide(Low(a, t.tgt)[y], v[y]), r, v[z], Fin(v[z], true), k, le)
  {
    hide GuardsOf, Lowers, Uppers, LowerSide;
    var w, ls, b := v + [r], ShortLimits(a, t, y, z, k, le), Plus(Fin(k as real, le), Fin(v[z], true));
    LowerSideMisses(Low(a, t.tgt)[y], v[y], b);
    assert ObeysAll(w, ls) <==> Obeys(w, ls[0]) && Obeys(w, ls[1]) && Obeys(w, ls[2]) && Obeys(w, ls[3]);
  }

  lemma ShortBehindChecked(a: Automaton, t: Transition, y: int, z: int)
    requires Valid(a) && ValidTransition(a, t) && Steady(a, t) && 1 <= y < a.dim && 0 <= z < a.dim
    ensures ShortBehindCheck(a, t, y, z) <==>
              exists v: Valuation, r: real :: Takes(a, t, v) && LowerTaken(a, t, v, y, r) && ShortBehind(a, t, v, y, r, z)
  {
    hide Possible, GuardsOf, Lowers, Uppers, Takes, LowerLimits, ShortLimits, ObeysAll, Steady, Misses, MissesBy, LowerSide, ResetValue;
    if ShortBehindCheck(a, t, y, z) {
      var k: int, le: bool :| -Up(a, t.tgt)[z] <= k <= Low(a, t.tgt)[y] && Possible(a, t, LowerLimits(a, t, y) + ShortLimits(a, t, y, z, k, le));
      ShortInside(a, t, y, z, k, le, ZERO);
      PossibleExact(a, t, LowerLimits(a, t, y) + ShortLimits(a, t, y, z, k, le));
      var v: Valuation, r: real :| Takes(a, t, v) && ObeysAll(v + [r], LowerLimits(a, t, y) + ShortLimits(a, t, y, z, k, le));
      TakesSize(a, t, v);
      ObeysBoth(v + [r], LowerLimits(a, t, y), ShortLimits(a, t, y, z, k, le));
      LowerExact(a, t, v, r, y);
      ShortLimitsExact(a, t, v, r, y, z, k, le);
      MissesByExact(LowerSide(Low(a, t.tgt)[y], v[y]), r, v[z], Fin(v[z], true));
      assert ShortBehind(a, t, v, y, r, z);
    }
    if v: Valuation, r: real :| Takes(a, t, v) && LowerTaken(a, t, v, y, r) && ShortBehind(a, t, v, y, r, z) {
      TakesSize(a, t, v);
      MissesByExact(LowerSide(Low(a, t.tgt)[y], v[y]), r, v[z], Fin(v[z], true));
      var k: int, le: bool :| MissesBy(LowerSide(Low(a, t.tgt)[y], v[y]), r, v[z], Fin(v[z], true), k, le);
      BehindRange(a, t, v, y, r, z, k, le);
      ObeysBoth(v + [r], LowerLimits(a, t, y), ShortLimits(a, t, y, z, k, le));
      LowerExact(a, t, v, r, y);
      ShortLimitsExact(a, t, v, r, y, z, k, le);
      ShortInside(a, t, y, z, k, le, ZERO);
      PossibleExact(a, t, LowerLimits(a, t, y) + ShortLimits(a, t, y, z, k, le));
    }
  }

  lemma BehindRange(a: Automaton, t: Transition, v: Valuation, y: int, r: real, z: int, k: int, le: bool)
    requires ValidTransition(a, t) && 1 <= y < a.dim && 1 <= z < a.dim && OnTime(a, v) && LowerTaken(a, t, v, y, r)
    requires !Beyond(Up(a, t.tgt)[z], v[z]) && MissesBy(LowerSide(Low(a, t.tgt)[y], v[y]), r, v[z], Fin(v[z], true), k, le)
    ensures Low(a, t.tgt)[y] != -INF_VALUE && -Up(a, t.tgt)[z] <= k <= Low(a, t.tgt)[y]
  {
    hide GuardsOf, Lowers, Uppers, LowerSide;
    LowerSideMisses(Low(a, t.tgt)[y], v[y], Plus(Fin(k as real, le), Fin(v[z], true)));
    assert 0.0 <= v[z] <= Up(a, t.tgt)[z] as real;
  }

  lemma NeedsExact(a: Automaton, t: Transition, v: Valuation, r: real, y: int, b: Bound)
    requires ValidTransition(a, t) && 1 <= y < a.dim == |v| && v[0] == 0.0 && b.Fin?
    ensures Lt(Plus(Needed(a, t, y, v[y]), b), ZERO) <==> Needs(a, t, y, b) && ObeysAll(v + [r], NeedLimits(a, t, y, b))
  {
    hide GuardsOf, Lowers, Uppers, LowerSide, LowerOf, Opposite, Still, ObeysAll;
    LowerSideMisses(Low(a, t.tgt)[y], v[y], b);
    OneLimit(v + [r], Limit(0, y, Opposite(b)));
    NoLimit(v + [r]);
  }

  lemma NoLimit(v: Valuation)
    ensures ObeysAll(v, [])
  {}

  lemma BeforeLimitsExact(a: Automaton, t: Transition, v: Valuation, r: real, y: int, z: int, k: int, le: bool)
    requires ValidTransition(a, t) && 1 <= y < a.dim == |v| && v[0] == 0.0 && 0 <= z < a.dim && SourceUpper(a, t, z).Fin?
    ensures var b := Plus(Fin(k as real, le), SourceUpper(a, t, z));
            MissesBy(Needed(a, t, y, v[y]), r, v[z], SourceUpper(a, t, z), k, le) <==>
              Needs(a, t, y, b) && ObeysAll(v + [r], [Limit(a.dim, z, Fin(k as real, le))] + NeedLimits(a, t, y, b))
  {
    hide GuardsOf, Lowers, Uppers, ObeysAll, Needed, Needs, NeedLimits, SourceUpper;
    var b, first := Plus(Fin(k as real, le), SourceUpper(a, t, z)), Limit(a.dim, z, Fin(k as real, le));
    NeedsExact(a, t, v, r, y, b);
    ObeysBoth(v + [r], [first], NeedLimits(a, t, y, b));
    OneLimit(v + [r], first);
  }

  lemma {:induction false} TightestWhole(cs: seq<Machine.ClockConstraint>, x: int)
    ensures Whole(UpperOf(cs, x)) && Whole(LowerOf(cs, x))
    decreases |cs|
  {
    if cs != [] {
      TightestWhole(cs[1..], x);
      assert Equals(cs[0].bound as real, cs[0].bound);
    }
  }

  lemma WholeFloor(b: Bound)
    requires Whole(b) && b.Fin?
    ensures b.value.Floor as real == b.value && (-b.value).Floor == -b.value.Floor
  {
    var k: int :| Equals(b.value, k);
    assert -b.value == (-k) as real;
  }

  lemma BeforeRange(a: Automaton, t: Transition, v: Valuation, y: int, r: real, z: int, k: int, le: bool)
    requires Valid(a) && ValidTransition(a, t) && 1 <= y < a.dim && 0 <= z < a.dim && Takes(a, t, v) && LowerTaken(a, t, v, y, r)
    requires SourceUpper(a, t, z).Fin? && MissesBy(Needed(a, t, y, v[y]), r, v[z], SourceUpper(a, t, z), k, le)
    ensures var h := SourceUpper(a, t, z).value.Floor; -h <= k <= Top(a, t, y) - h
  {
    hide GuardsOf, Lowers, Uppers, LowerSide, LowerOf, UpperOf, Still, Takes;
    var hi := SourceUpper(a, t, z);
    TakesSize(a, t, v);
    SourceUpperHere(a, t, v, z);
    TightestWhole(Outgoing(a, t), z);
    TightestWhole(Inv(a, t), y);
    assert Whole(hi) by { assert Equals(0.0, 0); }
    WholeFloor(hi);
    var b := Plus(Fin(k as real, le), hi);
    if Still(a, t) {
      LowerSideMisses(Low(a, t.tgt)[y], v[y], b);
    } else {
      WholeFloor(LowerOf(Inv(a, t), y));
    }
  }

  lemma ShortBeforeChecked(a: Automaton, t: Transition, y: int, z: int)
    requires Valid(a) && ValidTransition(a, t) && Steady(a, t) && 1 <= y < a.dim && 0 <= z < a.dim
    ensures ShortBeforeCheck(a, t, y, z) <==>
              exists v: Valuation, r: real :: Takes(a, t, v) && LowerTaken(a, t, v, y, r) && ShortBefore(a, t, v, y, r, z)
  {
    hide Possible, GuardsOf, Lowers, Uppers, Takes, LowerLimits, ObeysAll, Steady, Misses, MissesBy, SourceUpper, Needed, Needs, NeedLimits,
      Top;
    var hi := SourceUpper(a, t, z);
    if ShortBeforeCheck(a, t, y, z) {
      var h := hi.value.Floor;
      var k: int, le: bool :| -h <= k <= Top(a, t, y) - h && BeforePossible(a, t, y, z, k, le);
      var b := Plus(Fin(k as real, le), hi);
      var more := [Limit(a.dim, z, Fin(k as real, le))] + NeedLimits(a, t, y, b);
      ShortInside(a, t, y, z, k, le, b);
      PossibleExact(a, t, LowerLimits(a, t, y) + more);
      var v: Valuation, r: real :| Takes(a, t, v) && ObeysAll(v + [r], LowerLimits(a, t, y) + more);
      TakesSize(a, t, v);
      ObeysBoth(v + [r], LowerLimits(a, t, y), more);
      LowerExact(a, t, v, r, y);
      BeforeLimitsExact(a, t, v, r, y, z, k, le);
      MissesByExact(Needed(a, t, y, v[y]), r, v[z], hi);
      assert ShortBefore(a, t, v, y, r, z);
    }
    if v: Valuation, r: real :| Takes(a, t, v) && LowerTaken(a, t, v, y, r) && ShortBefore(a, t, v, y, r, z) {
      TakesSize(a, t, v);
      if hi.Inf? {
        NeverMissed(Needed(a, t, y, v[y]), r, v[z]);
      }
      MissesByExact(Needed(a, t, y, v[y]), r, v[z], hi);
      var k: int, le: bool :| MissesBy(Needed(a, t, y, v[y]), r, v[z], hi, k, le);
      var b := Plus(Fin(k as real, le), hi);
      var more := [Limit(a.dim, z, Fin(k as real, le))] + NeedLimits(a, t, y, b);
      BeforeRange(a, t, v, y, r, z, k, le);
      BeforeLimitsExact(a, t, v, r, y, z, k, le);
      ObeysBoth(v + [r], LowerLimits(a, t, y), more);
      LowerExact(a, t, v, r, y);
      ShortInside(a, t, y, z, k, le, b);
      PossibleExact(a, t, LowerLimits(a, t, y) + more);
      assert BeforePossible(a, t, y, z, k, le);
    }
  }

  lemma BehindChecked(a: Automaton, t: Transition, y: int)
    requires Valid(a) && ValidTransition(a, t) && Steady(a, t) && 1 <= y < a.dim
    ensures BehindCheck(a, t, y) <==> exists v: Valuation, r: real :: Takes(a, t, v) && BehindGap(a, t, v, y, r)
  {
    hide GuardsOf, Lowers, Uppers, Pass, NonNegative, Steady, AfterResets, ResetValue, ShortBehindCheck, ShortBeforeCheck, ShortBehind,
      ShortBefore;
    forall z | 0 <= z < a.dim
      ensures ShortBehindCheck(a, t, y, z) <==>
                exists v: Valuation, r: real :: Takes(a, t, v) && LowerTaken(a, t, v, y, r) && ShortBehind(a, t, v, y, r, z)
      ensures ShortBeforeCheck(a, t, y, z) <==>
                exists v: Valuation, r: real :: Takes(a, t, v) && LowerTaken(a, t, v, y, r) && ShortBefore(a, t, v, y, r, z)
    {
      ShortBehindChecked(a, t, y, z);
      ShortBeforeChecked(a, t, y, z);
    }
    if BehindCheck(a, t, y) {
      var z :| 0 <= z < a.dim && z != y && (ShortBehindCheck(a, t, y, z) || ShortBeforeCheck(a, t, y, z));
      var v: Valuation, r: real :|
        Takes(a, t, v) && LowerTaken(a, t, v, y, r) && (ShortBehind(a, t, v, y, r, z) || ShortBefore(a, t, v, y, r, z));
      assert BehindGap(a, t, v, y, r);
    }
    if v: Valuation, r: real :| Takes(a, t, v) && BehindGap(a, t, v, y, r) {
      assert LowerTaken(a, t, v, y, r);
      var z :| 0 <= z < a.dim && z != y && (ShortBehind(a, t, v, y, r, z) || ShortBefore(a, t, v, y, r, z));
      assert ShortBehindCheck(a, t, y, z) || ShortBeforeCheck(a, t, y, z);
    }
  }

  /** What is computed is the condition, for any guard. */
  lemma NoGapChecked(a: Automaton, t: Transition)
    requires Valid(a) && ValidTransition(a, t) && Steady(a, t)
    ensures NoGapCheck(a, t) <==> NoGap(a, t)
  {
    hide Pass, NonNegative, AfterResets, Steady, DiagonalCheck, AheadCheck, BehindCheck, DiagonalGap, AheadGap, BehindGap;
    forall i | 0 <= i < |t.guard| && Fitting(t.guard[i], a.dim)
      ensures DiagonalCheck(a, t, i) <==> exists v: Valuation :: Takes(a, t, v) && DiagonalGap(a, t, v, t.guard[i])
    {
      DiagonalChecked(a, t, i);
    }
    forall x | 1 <= x < a.dim
      ensures AheadCheck(a, t, x) <==> exists v: Valuation :: Takes(a, t, v) && AheadGap(a, t, v, x)
      ensures BehindCheck(a, t, x) <==> exists v: Valuation, r: real :: Takes(a, t, v) && BehindGap(a, t, v, x, r)
    {
      AheadChecked(a, t, x);
      BehindChecked(a, t, x);
    }
    if !NoGap(a, t) {
      var v: Valuation :| Takes(a, t, v) && Gap(a, t, v);
      if i :| 0 <= i < |t.guard| && Fitting(t.guard[i], a.dim) && DiagonalGap(a, t, v, t.guard[i]) {
        assert DiagonalCheck(a, t, i);
      } else if x :| 1 <= x < a.dim && AheadGap(a, t, v, x) {
        assert AheadCheck(a, t, x);
      } else {
        var y, r: real :| 1 <= y < a.dim && BehindGap(a, t, v, y, r);
        assert BehindCheck(a, t, y);
      }
    }
    if !NoGapCheck(a, t) {
      if i :| 0 <= i < |t.guard| && Fitting(t.guard[i], a.dim) && DiagonalCheck(a, t, i) {
        var v: Valuation :| Takes(a, t, v) && DiagonalGap(a, t, v, t.guard[i]);
        assert Gap(a, t, v);
      } else if x :| 1 <= x < a.dim && AheadCheck(a, t, x) {
        var v: Valuation :| Takes(a, t, v) && AheadGap(a, t, v, x);
        assert Gap(a, t, v);
      } else {
        var y :| 1 <= y < a.dim && BehindCheck(a, t, y);
        var v: Valuation, r: real :| Takes(a, t, v) && BehindGap(a, t, v, y, r);
        assert Gap(a, t, v);
      }
    }
  }
}
