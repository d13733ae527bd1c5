/** The condition under which an edge carries the order of local bounds: no valuation that takes the edge has a clock in a range that
    the target still compares with and the source does not, or that a diagonal guard can tell and the source's bounds cannot; and an
    integer bound must be able to tell it, in spite of all waiting that is possible before and behind the edge. */
module LocalCondition {
  import opened Wrappers
  import opened Bounds
  import opened Zones
  import opened ZoneOps
  import opened LuSimulation
  import opened Regions
  import opened LocalBounds
  import opened EdgeRuns
  import opened TimedPushdown
  import opened LocalSimulation
  import Machine

  // ----- one clock at a time -----

  /** The value `r` of clock `x` satisfies all simple constraints on it. */
  ghost predicate PassAt(cs: seq<Machine.ClockConstraint>, x: int, r: real) {
    forall i :: 0 <= i < |cs| ==> PassOne(cs[i], x, r)
  }

  predicate PassOne(c: Machine.ClockConstraint, x: int, r: real) {
    && (Upper(c, x) ==> Meets(r, BoundOfConstraint(c)))
    && (Lower(c, x) ==> Meets(-r, BoundOfConstraint(c)))
  }

  /** The tightest simple constraint on clock `x` from above, and from below. */
  function UpperOf(cs: seq<Machine.ClockConstraint>, x: int): Bound
    decreases |cs|
  {
    if cs == [] then Inf
    else if Upper(cs[0], x) then Bounds.Min(BoundOfConstraint(cs[0]), UpperOf(cs[1..], x)) else UpperOf(cs[1..], x)
  }

  function LowerOf(cs: seq<Machine.ClockConstraint>, x: int): Bound
    decreases |cs|
  {
    if cs == [] then Inf
    else if Lower(cs[0], x) then Bounds.Min(BoundOfConstraint(cs[0]), LowerOf(cs[1..], x)) else LowerOf(cs[1..], x)
  }

  lemma {:induction false} TightestExact(cs: seq<Machine.ClockConstraint>, x: int, d: real)
    ensures Meets(d, UpperOf(cs, x)) <==> forall i :: 0 <= i < |cs| && Upper(cs[i], x) ==> Meets(d, BoundOfConstraint(cs[i]))
    ensures Meets(d, LowerOf(cs, x)) <==> forall i :: 0 <= i < |cs| && Lower(cs[i], x) ==> Meets(d, BoundOfConstraint(cs[i]))
    decreases |cs|
  {
    if cs != [] {
      TightestExact(cs[1..], x, d);
      assert forall i :: 1 <= i < |cs| ==> cs[i] == cs[1..][i - 1];
      assert forall i :: 0 <= i < |cs[1..]| ==> cs[1..][i] == cs[i + 1];
    }
  }

  lemma PassAtTightest(cs: seq<Machine.ClockConstraint>, x: int, r: real)
    ensures PassAt(cs, x, r) <==> Meets(r, UpperOf(cs, x)) && Meets(-r, LowerOf(cs, x))
  {
    hide UpperOf, LowerOf, BoundOfConstraint;
    TightestExact(cs, x, r);
    TightestExact(cs, x, -r);
    if PassAt(cs, x, r) {
      assert forall i :: 0 <= i < |cs| ==> PassOne(cs[i], x, r);
    }
  }

  predicate SimpleAll(cs: seq<Machine.ClockConstraint>) {
    forall i :: 0 <= i < |cs| ==> !Diagonal(cs[i])
  }

  /** Resets are to constants, and the invariant of the target has no diagonal constraints; the guard may have any. */
  predicate Steady(a: Automaton, t: Transition)
    requires ValidTransition(a, t)
  {
    SimpleAll(a.locs[t.tgt].inv) && forall i :: 0 <= i < |t.resets| ==> t.resets[i].right == 0
  }

  lemma PassEachClock(cs: seq<Machine.ClockConstraint>, v: Valuation)
    requires |v| >= 1 && v[0] == 0.0 && Pass(cs, v)
    ensures forall x :: 1 <= x < |v| ==> PassAt(cs, x, v[x])
  {
    forall x, i | 1 <= x < |v| && 0 <= i < |cs| ensures PassOne(cs[i], x, v[x]) {
      assert Holds(cs[i], v);
    }
  }

  lemma PassByClock(cs: seq<Machine.ClockConstraint>, v: Valuation)
    requires SimpleAll(cs) && AllFitting(cs, |v|) && |v| >= 1 && v[0] == 0.0
    ensures Pass(cs, v) <==> forall x :: 1 <= x < |v| ==> PassAt(cs, x, v[x])
  {
    if forall x :: 1 <= x < |v| ==> PassAt(cs, x, v[x]) {
      forall i | 0 <= i < |cs| ensures Holds(cs[i], v) {
        assert Fitting(cs[i], |v|) && !Diagonal(cs[i]);
        var x := if cs[i].first != 0 then cs[i].first else cs[i].second;
        assert PassAt(cs, x, v[x]) && PassOne(cs[i], x, v[x]);
      }
    }
    if Pass(cs, v) {
      PassEachClock(cs, v);
    }
  }

  /** The constant that clock `x` is reset to, if it is. */
  function ResetValue(rs: seq<Machine.ClockReset>, x: int): Option<int>
    decreases |rs|
  {
    if rs == [] then None
    else
      var r := ResetValue(rs[1..], x);
      if r.Some? then r else if rs[0].left == x then Some(rs[0].value) else None
  }

  lemma {:induction false} ResetByClock(rs: seq<Machine.ClockReset>, v: Valuation, x: int)
    requires forall i :: 0 <= i < |rs| ==> FittingReset(rs[i], |v|) && rs[i].right == 0
    requires AllClocks(rs, |v|) && |v| >= 1 && v[0] == 0.0 && 0 <= x < |v|
    ensures var r := ResetValue(rs, x);
            AfterResets(rs, v)[x] == if r.Some? then r.value as real else v[x]
    ensures ResetValue(rs, x).Some? ==> ResetValue(rs, x).value >= 0 && x >= 1
    decreases |rs|
  {
    if rs != [] {
      ResetByClock(rs[1..], Assign(v, rs[0].left, rs[0].right, rs[0].value as real), x);
    }
  }

  predicate Kept(t: Transition, x: int) {
    ResetValue(t.resets, x).None?
  }

  /** After the resets: constants, and what was there before. */
  lemma AfterByClock(a: Automaton, t: Transition, v: Valuation)
    requires ValidTransition(a, t) && Steady(a, t) && OnTime(a, v) && AllClocks(t.resets, |v|)
    ensures OnTime(a, AfterResets(t.resets, v))
    ensures forall x :: 1 <= x < a.dim ==>
              AfterResets(t.resets, v)[x] == if Kept(t, x) then v[x] else ResetValue(t.resets, x).value as real
  {
    hide AfterResets, ResetValue;
    forall x | 0 <= x < a.dim
      ensures var r := ResetValue(t.resets, x);
              AfterResets(t.resets, v)[x] == (if r.Some? then r.value as real else v[x]) && AfterResets(t.resets, v)[x] >= 0.0
      ensures x == 0 ==> AfterResets(t.resets, v)[x] == 0.0
    {
      forall i | 0 <= i < |t.resets| ensures FittingReset(t.resets[i], |v|) && t.resets[i].right == 0 {}
      ResetByClock(t.resets, v, x);
    }
  }

  // ----- the condition -----

  function Inv(a: Automaton, t: Transition): seq<Machine.ClockConstraint>
    requires ValidTransition(a, t)
  {
    a.locs[t.tgt].inv
  }

  /** The valuation can be at the source, passes the guard and arrives within the invariant of the target. */
  ghost predicate Takes(a: Automaton, t: Transition, v: Valuation)
    requires ValidTransition(a, t)
  {
    Occurs(a, t.src, v) && AllClocks(t.resets, |v|) && Pass(t.guard, v) && Pass(Inv(a, t), AfterResets(t.resets, v))
  }

  /** A smaller value `r` of the second clock, as good at the source, fails the diagonal constraint. */
  ghost predicate Loosened(a: Automaton, t: Transition, v: Valuation, c: Machine.ClockConstraint, r: real)
    requires ValidTransition(a, t) && Fitting(c, a.dim) && |v| == a.dim
  {
    0.0 <= r < v[c.second] && Beyond(Low(a, t.src)[c.second], r) && !Meets(v[c.first] - r, BoundOfConstraint(c))
  }

  /** A diagonal constraint of the guard can tell clock values that the bounds of the source cannot. */
  ghost predicate DiagonalGap(a: Automaton, t: Transition, v: Valuation, c: Machine.ClockConstraint)
    requires ValidTransition(a, t) && Fitting(c, a.dim) && |v| == a.dim
  {
    Diagonal(c) && (Beyond(Up(a, t.src)[c.first], v[c.first]) || exists r: real :: Loosened(a, t, v, c, r))
  }

  /** Clock `x` is beyond the upper bound of the source but not beyond that of the target. */
  ghost predicate AheadGap(a: Automaton, t: Transition, v: Valuation, x: int)
    requires ValidTransition(a, t) && 1 <= x < a.dim && |v| == a.dim
  {
    Kept(t, x) && Beyond(Up(a, t.src)[x], v[x]) && !Beyond(Up(a, t.tgt)[x], v[x])
  }

  /** What integer bounds on the difference to a clock at `q` cannot tell from the value `r` does not get within `lo` as long as that
      clock is within `hi`. */
  predicate Misses(lo: Bound, r: real, q: real, hi: Bound) {
    Lt(Plus(Plus(lo, IntBound(r - q)), hi), ZERO)
  }

  /** No time passes at the target that its bounds would not notice: none may, or a clock has just been reset to a value that is not
      beyond its upper bound. */
  predicate Still(a: Automaton, t: Transition)
    requires ValidTransition(a, t)
  {
    !a.locs[t.tgt].delay || exists x :: 1 <= x < a.dim && !Kept(t, x) && !Beyond(Up(a, t.tgt)[x], ResetValue(t.resets, x).value as real)
  }

  /** What the guard and the invariant of the source ask for together. */
  function Outgoing(a: Automaton, t: Transition): seq<Machine.ClockConstraint>
    requires ValidTransition(a, t)
  {
    t.guard + a.locs[t.src].inv
  }

  /** How far waiting at the source can bring clock `z` until the edge is taken; clock 0 stands for the waiting itself. */
  function SourceUpper(a: Automaton, t: Transition, z: int): Bound
    requires ValidTransition(a, t)
  {
    if z != 0 then UpperOf(Outgoing(a, t), z) else if a.locs[t.src].delay then Inf else ZERO
  }

  /** What a clock at `p` has to be replaced by when the edge is taken: as far as the target can tell, or as its invariant demands. */
  function Needed(a: Automaton, t: Transition, y: int, p: real): Bound
    requires ValidTransition(a, t) && 0 <= y < a.dim
  {
    if Still(a, t) then LowerSide(Low(a, t.tgt)[y], p) else LowerOf(Inv(a, t), y)
  }

  /** The value `r` of clock `y` cannot catch up before clock `z` gets too far: at the target, where that clock must not get ahead. */
  ghost predicate ShortBehind(a: Automaton, t: Transition, v: Valuation, y: int, r: real, z: int)
    requires ValidTransition(a, t) && 1 <= y < a.dim && |v| == a.dim && 0 <= z < a.dim
  {
    && z != 0 && Kept(t, z) && !Beyond(Up(a, t.tgt)[z], v[z])
    && Misses(LowerSide(Low(a, t.tgt)[y], v[y]), r, v[z], Fin(v[z], true))
  }

  /** At the source, where the guard and the invariant limit that clock. */
  ghost predicate ShortBefore(a: Automaton, t: Transition, v: Valuation, y: int, r: real, z: int)
    requires ValidTransition(a, t) && 1 <= y < a.dim && |v| == a.dim && 0 <= z < a.dim
  {
    Misses(Needed(a, t, y, v[y]), r, v[z], SourceUpper(a, t, z))
  }

  /** A smaller value `r` of clock `y` is as good at the source, but falls short of what the target can tell. */
  ghost predicate BehindGap(a: Automaton, t: Transition, v: Valuation, y: int, r: real)
    requires ValidTransition(a, t) && 1 <= y < a.dim && |v| == a.dim
  {
    && Kept(t, y) && 0.0 <= r < v[y] && Beyond(Low(a, t.src)[y], r)
    && exists z :: 0 <= z < a.dim && z != y && (ShortBehind(a, t, v, y, r, z) || ShortBefore(a, t, v, y, r, z))
  }

  ghost predicate Gap(a: Automaton, t: Transition, v: Valuation)
    requires ValidTransition(a, t) && |v| == a.dim
  {
    || (exists i :: 0 <= i < |t.guard| && Fitting(t.guard[i], a.dim) && DiagonalGap(a, t, v, t.guard[i]))
    || (exists x :: 1 <= x < a.dim && AheadGap(a, t, v, x))
    || exists y, r: real :: 1 <= y < a.dim && BehindGap(a, t, v, y, r)
  }

  ghost predicate NoGap(a: Automaton, t: Transition)
    requires ValidTransition(a, t)
  {
    forall v: Valuation :: Takes(a, t, v) ==> !Gap(a, t, v)
  }

  // ----- a simpler condition -----

  /** No time can pass unnoticed at the target to make up for the value `r` of clock `y`. */
  ghost predicate Anchored(a: Automaton, t: Transition, s: Valuation, y: int, r: real)
    requires ValidTransition(a, t) && |s| == a.dim
  {
    || !a.locs[t.tgt].delay || !PassAt(Inv(a, t), y, r)
    || exists x :: 1 <= x < a.dim && x != y && !Beyond(Up(a, t.tgt)[x], s[x])
  }

  /** What integer bounds can tell, and waiting at the source, are left out of account. */
  ghost predicate WideBehindGap(a: Automaton, t: Transition, v: Valuation, y: int, r: real)
    requires ValidTransition(a, t) && 1 <= y < a.dim && |v| == a.dim && AllClocks(t.resets, |v|)
  {
    && Kept(t, y) && 0.0 <= r < v[y] && Beyond(Low(a, t.src)[y], r) && !Beyond(Low(a, t.tgt)[y], r)
    && Anchored(a, t, AfterResets(t.resets, v), y, r)
  }

  ghost predicate NoWideGap(a: Automaton, t: Transition)
    requires ValidTransition(a, t)
  {
    forall v: Valuation :: Takes(a, t, v) ==>
      && (forall i :: 0 <= i < |t.guard| && Fitting(t.guard[i], a.dim) ==> !DiagonalGap(a, t, v, t.guard[i]))
      && (forall x :: 1 <= x < a.dim ==> !AheadGap(a, t, v, x))
      && forall y, r: real :: 1 <= y < a.dim ==> !WideBehindGap(a, t, v, y, r)
  }

  // ----- what both directions need -----

  lemma EdgeAccounted(a: Automaton, t: Transition)
    requires Valid(a) && t in a.trans
    ensures ValidTransition(a, t)
    ensures Accounted(t.guard, Low(a, t.src), Up(a, t.src)) && Accounted(a.locs[t.src].inv, Low(a, t.src), Up(a, t.src))
    ensures Accounted(Inv(a, t), Low(a, t.tgt), Up(a, t.tgt))
  {
    var i :| 0 <= i < |a.trans| && a.trans[i] == t;
    forall c | c in t.guard ensures c in GuardsOf(a, t.src) { GuardsOfMembers(a, t.src, c); }
    LocationAccounts(a, t.src, t.guard);
    InvariantAccounted(a, t.src);
    InvariantAccounted(a, t.tgt);
  }

  lemma PassBoth(x: seq<Machine.ClockConstraint>, y: seq<Machine.ClockConstraint>, v: Valuation)
    ensures Pass(x + y, v) <==> Pass(x, v) && Pass(y, v)
  {
    if Pass(x + y, v) {
      assert forall i :: 0 <= i < |x| ==> (x + y)[i] == x[i];
      assert forall i :: 0 <= i < |y| ==> (x + y)[|x| + i] == y[i];
    }
  }

  lemma PassKept(cs: seq<Machine.ClockConstraint>, l: seq<int>, u: seq<int>, v: Valuation, w: Valuation)
    requires SimpleAll(cs) && AllFitting(cs, |v|) && Accounted(cs, l, u) && Below(l, u, v, w)
    requires NonNegative(v) && NonNegative(w) && Pass(cs, v)
    ensures Pass(cs, w)
  {
    hide PassAt, Accounted, Below;
    forall i | 0 <= i < |cs| ensures Holds(cs[i], w) {
      assert Fitting(cs[i], |v|) && !Diagonal(cs[i]) && Holds(cs[i], v);
      ConstraintKept(cs, i, l, u, v, w);
    }
  }

  lemma ResetsFit(a: Automaton, t: Transition)
    requires ValidTransition(a, t) && Steady(a, t)
    ensures AllClocks(t.resets, a.dim) && forall i :: 0 <= i < |t.resets| ==> FittingReset(t.resets[i], a.dim) && t.resets[i].right == 0
  {
    forall i | 0 <= i < |t.resets| ensures FittingReset(t.resets[i], a.dim) {}
  }

  lemma TakesOccurs(a: Automaton, t: Transition, v: Valuation)
    requires ValidTransition(a, t) && Takes(a, t, v)
    ensures Occurs(a, t.src, v) && AllClocks(t.resets, |v|)
  {}

  lemma TakesArrives(a: Automaton, t: Transition, v: Valuation)
    requires ValidTransition(a, t) && Steady(a, t) && Takes(a, t, v)
    ensures AllClocks(t.resets, |v|) && OnTime(a, AfterResets(t.resets, v)) && Pass(Inv(a, t), AfterResets(t.resets, v))
  {
    hide AfterResets, Steady, Pass;
    AfterByClock(a, t, v);
  }

  lemma StayOnTime(a: Automaton, loc: string, s: Valuation, u: Valuation)
    requires loc in a.locs && OnTime(a, s) && Stays(a, loc, s, u)
    ensures OnTime(a, u)
  {}

  lemma FirstUpper(a: Automaton, t: Transition)
    requires ValidTransition(a, t)
    ensures SourceUpper(a, t, 0) == if a.locs[t.src].delay then Inf else ZERO
  {}

  lemma SourceUpperHere(a: Automaton, t: Transition, v: Valuation, z: int)
    requires Valid(a) && ValidTransition(a, t) && Takes(a, t, v) && 0 <= z < a.dim == |v|
    ensures Meets(v[z], SourceUpper(a, t, z))
  {
    hide Pass, AfterResets, UpperOf, PassAt;
    if z != 0 {
      PassBoth(t.guard, a.locs[t.src].inv, v);
      PassEachClock(t.guard + a.locs[t.src].inv, v);
      PassAtTightest(t.guard + a.locs[t.src].inv, z, v[z]);
    }
  }

  lemma RoomFor(p: real, lo: Bound, d: real, b: Bound, q: real, hi: Bound)
    requires Meets(-p, lo) && Meets(d, b) && Meets(q, hi) && d >= p - q
    ensures Le(ZERO, Plus(Plus(lo, b), hi))
  {}

  lemma MeetsLarger(d: real, b: Bound, b': Bound)
    requires Meets(d, b) && Le(b, b')
    ensures Meets(d, b')
  {}

  /** When sums meet three bounds, they are not missed. */
  lemma Contradicts(lo: Bound, r: real, q: real, hi: Bound, p: real, g: real)
    requires Meets(-p, lo) && Meets(p - g, IntBound(r - q)) && Meets(g, hi)
    ensures !Misses(lo, r, q, hi)
  {
    hide IntBound;
    RoomFor(p, lo, p - g, IntBound(r - q), g, hi);
  }

  lemma NeverMissed(lo: Bound, r: real, q: real)
    ensures !Misses(lo, r, q, Inf)
  {}
}
