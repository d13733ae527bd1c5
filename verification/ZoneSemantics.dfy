/** The computation of initial and successor zones, in place: guard, resets, invariant of the target, delay, invariant again,
    extrapolation. The constraints and resets are those that the bytecode of a transition puts out. */
module ZoneSemantics {
  import opened Wrappers
  import opened Bounds
  import opened Zones
  import opened Encoding
  import opened FloydWarshall
  import opened ZoneOps
  import opened LuSimulation
  import opened Extrapolation
  import opened Dbm
  import opened DbmAbstraction
  import opened ZoneGraph
  import opened EdgeRuns
  import Machine

  /** How the computation ends; `Unrepresentable` stands for the exception of a bound out of range. */
  datatype StateStatus = StateOk | SourceInvariantViolated | GuardViolated | TargetInvariantViolated | Unrepresentable

  // ----- one step in place -----

  /** There may be no room for the sums of a step. */
  ghost predicate NoRoom(m: Matrix, a: Action, l: seq<int>, u: seq<int>) {
    match a
    case Constrain(x, y, b) => forall r: real :: !Roomy(m, b, r)
    case ResetTo(_, _, c) => forall r: real :: !RoomForTwo(m, c, r)
    case Elapse => false
    case Extrapolate => forall k: nat :: Capped(l, k) && Capped(u, k) ==> Times(2 * (|m| - 1), k as real) > MAX_VALUE as real
  }

  /** Somewhere along the steps there was no room. */
  ghost predicate Stuck(m: Matrix, acts: seq<Action>, l: seq<int>, u: seq<int>)
    requires Proper(m, l, u) && AllDefined(acts, |m|)
  {
    exists k :: 0 <= k < |acts| && StuckAt(m, acts, l, u, k)
  }

  ghost predicate StuckAt(m: Matrix, acts: seq<Action>, l: seq<int>, u: seq<int>, k: int)
    requires Proper(m, l, u) && AllDefined(acts, |m|) && 0 <= k < |acts|
  {
    && AllDefined(acts[..k], |m|) && Post(m, acts[..k], l, u).Some?
    && NoRoom(Post(m, acts[..k], l, u).value, acts[k], l, u)
  }

  /** What the steps done so far say about the outcome. */
  ghost predicate Outcome(m: Matrix, acts: seq<Action>, l: seq<int>, u: seq<int>, s: Status, now: Matrix)
    requires Proper(m, l, u) && AllDefined(acts, |m|)
  {
    match s
    case NON_EMPTY => Post(m, acts, l, u) == Some(now) && Proper(now, l, u)
    case EMPTY => Post(m, acts, l, u) == None
    case OutOfRange => Stuck(m, acts, l, u)
    case MAY_BE_EMPTY => false
  }

  method ConstrainStep(a: array2<Db>, c: Machine.ClockConstraint, l: seq<int>, u: seq<int>) returns (s: Status)
    requires Shape(a) && Proper(View(a), l, u) && Defined(GuardAction(c), a.Length0)
    modifies a
    ensures s == NON_EMPTY || s == EMPTY || s == OutOfRange
    ensures s == NON_EMPTY ==> Apply(old(View(a)), GuardAction(c), l, u) == Some(View(a))
    ensures s == EMPTY ==> Apply(old(View(a)), GuardAction(c), l, u) == None
    ensures s == OutOfRange ==> NoRoom(old(View(a)), GuardAction(c), l, u)
  {
    hide Squeeze, Within;
    ghost var m, b := View(a), Fin(c.bound as real, !c.strict);
    var cmp := if c.strict then LT else LE;
    assert BoundOf(cmp, c.bound) == b;
    s := Dbm.Constrain(a, c.first, c.second, cmp, c.bound);
    if s == NON_EMPTY {
      ghost var v := Inhabited(View(a));
      assert Sat(m, v) && Meets(v[c.first] - v[c.second], b);
    }
    FeasibleExactly(m, c.first, c.second, b);
  }

  /** The bound can be added without emptying the zone exactly when it closes no negative loop. */
  lemma FeasibleExactly(m: Matrix, x: int, y: int, b: Bound)
    requires Tight(m) && Consistent(m) && Clock(m, x) && Clock(m, y) && x != y
    ensures Le(ZERO, Plus(b, m[y][x])) <==> exists v: Valuation :: Sat(m, v) && Meets(v[x] - v[y], b)
  {
    hide Squeeze;
    if Le(ZERO, Plus(b, m[y][x])) {
      SqueezeTight(m, x, y, b);
      var v := Inhabited(Squeeze(m, x, y, b));
      SqueezeSat(m, x, y, b, v);
    } else {
      SqueezeEmpty(m, x, y, b);
    }
  }

  // ----- sequences of steps -----

  lemma OneAction(m: Matrix, x: Action, l: seq<int>, u: seq<int>)
    requires Proper(m, l, u) && Defined(x, |m|)
    ensures AllDefined([x], |m|) && Post(m, [x], l, u) == Apply(m, x, l, u)
  {
    ApplyProper(m, x, l, u);
    assert [x][1..] == [];
  }

  /** One more step, after steps that have led to `now`. */
  lemma OutcomeNext(m: Matrix, acts: seq<Action>, now: Matrix, x: Action, l: seq<int>, u: seq<int>, s: Status, next: Matrix)
    requires Proper(m, l, u) && AllDefined(acts, |m|) && Outcome(m, acts, l, u, NON_EMPTY, now) && Defined(x, |m|)
    requires s == NON_EMPTY || s == EMPTY || s == OutOfRange
    requires s == NON_EMPTY ==> Apply(now, x, l, u) == Some(next)
    requires s == EMPTY ==> Apply(now, x, l, u) == None
    requires s == OutOfRange ==> NoRoom(now, x, l, u)
    ensures AllDefined(acts + [x], |m|) && Outcome(m, acts + [x], l, u, s, next)
  {
    hide Apply, NoRoom, Proper, Defined;
    OneAction(now, x, l, u);
    ApplyProper(now, x, l, u);
    PostConcat(m, acts, [x], l, u);
    if s == OutOfRange {
      assert (acts + [x])[..|acts|] == acts;
      assert StuckAt(m, acts + [x], l, u, |acts|);
    }
  }

  /** Once the zone is empty, or a bound not representable, further steps do not matter. */
  lemma OutcomeFinal(m: Matrix, acts: seq<Action>, more: seq<Action>, l: seq<int>, u: seq<int>, s: Status, now: Matrix)
    requires Proper(m, l, u) && AllDefined(acts, |m|) && AllDefined(more, |m|)
    requires Outcome(m, acts, l, u, s, now) && s != NON_EMPTY
    ensures AllDefined(acts + more, |m|) && Outcome(m, acts + more, l, u, s, now)
  {
    hide Proper, NoRoom;
    PostConcat(m, acts, more, l, u);
    if s == OutOfRange {
      var k :| 0 <= k < |acts| && StuckAt(m, acts, l, u, k);
      assert (acts + more)[..k] == acts[..k];
      assert StuckAt(m, acts + more, l, u, k);
    }
  }

  lemma SplitDefined(x: seq<Action>, y: seq<Action>, n: nat)
    requires AllDefined(x + y, n)
    ensures AllDefined(x, n) && AllDefined(y, n)
  {
    assert forall i :: 0 <= i < |x| ==> x[i] == (x + y)[i];
    assert forall i :: 0 <= i < |y| ==> y[i] == (x + y)[|x| + i];
  }

  /** Imposes constraints one after the other, until the zone is empty. */
  method ConstrainAll(a: array2<Db>, cs: seq<Machine.ClockConstraint>, l: seq<int>, u: seq<int>, ghost m: Matrix,
                      ghost acts: seq<Action>)
    returns (s: Status)
    requires Shape(a) && Proper(m, l, u) && AllDefined(acts, |m|) && AllDefined(GuardActions(cs), |m|)
    requires Outcome(m, acts, l, u, NON_EMPTY, View(a))
    modifies a
    ensures Shape(a) && AllDefined(acts + GuardActions(cs), |m|)
    ensures Outcome(m, acts + GuardActions(cs), l, u, s, View(a))
  {
    hide Apply, NoRoom, Normal, Defined, Post, View, Stuck;
    ghost var all := GuardActions(cs);
    assert acts + all[..0] == acts;
    for i := 0 to |cs|
      invariant AllDefined(acts + all[..i], |m|) && Outcome(m, acts + all[..i], l, u, NON_EMPTY, View(a))
    {
      ghost var now := View(a);
      assert Defined(all[i], |m|) && all[i] == GuardAction(cs[i]);
      s := ConstrainStep(a, cs[i], l, u);
      OutcomeNext(m, acts + all[..i], now, all[i], l, u, s, View(a));
      assert acts + all[..i] + [all[i]] == acts + all[..i + 1];
      if s != NON_EMPTY {
        assert acts + all[..i + 1] + all[i + 1..] == acts + all;
        OutcomeFinal(m, acts + all[..i + 1], all[i + 1..], l, u, s, View(a));
        return;
      }
    }
    assert acts + all[..|cs|] == acts + all;
    return NON_EMPTY;
  }

  /** Resets clocks one after the other. */
  method ResetAll(a: array2<Db>, rs: seq<Machine.ClockReset>, l: seq<int>, u: seq<int>, ghost m: Matrix, ghost acts: seq<Action>)
    returns (s: Status)
    requires Shape(a) && Proper(m, l, u) && AllDefined(acts, |m|) && NotNegative(rs) && AllDefined(ResetActions(rs), |m|)
    requires Outcome(m, acts, l, u, NON_EMPTY, View(a))
    modifies a
    ensures Shape(a) && AllDefined(acts + ResetActions(rs), |m|) && s != EMPTY
    ensures Outcome(m, acts + ResetActions(rs), l, u, s, View(a))
  {
    hide Apply, NoRoom, Normal, Defined, Post, View, Stuck;
    ghost var all := ResetActions(rs);
    assert acts + all[..0] == acts;
    for i := 0 to |rs|
      invariant AllDefined(acts + all[..i], |m|) && Outcome(m, acts + all[..i], l, u, NON_EMPTY, View(a))
    {
      ghost var now := View(a);
      assert Defined(all[i], |m|) && all[i] == ResetTo(rs[i].left, rs[i].right, rs[i].value);
      s := ResetStep(a, rs[i], l, u);
      OutcomeNext(m, acts + all[..i], now, all[i], l, u, s, View(a));
      assert acts + all[..i] + [all[i]] == acts + all[..i + 1];
      if s != NON_EMPTY {
        assert acts + all[..i + 1] + all[i + 1..] == acts + all;
        OutcomeFinal(m, acts + all[..i + 1], all[i + 1..], l, u, s, View(a));
        return;
      }
    }
    assert acts + all[..|rs|] == acts + all;
    return NON_EMPTY;
  }

  method ResetStep(a: array2<Db>, r: Machine.ClockReset, l: seq<int>, u: seq<int>) returns (s: Status)
    requires Shape(a) && Proper(View(a), l, u) && r.value >= 0 && Defined(ResetTo(r.left, r.right, r.value), a.Length0)
    modifies a
    ensures s == NON_EMPTY || s == OutOfRange
    ensures s == NON_EMPTY ==> Apply(old(View(a)), ResetTo(r.left, r.right, r.value), l, u) == Some(View(a))
    ensures s == OutOfRange ==> NoRoom(old(View(a)), ResetTo(r.left, r.right, r.value), l, u)
  {
    var ok := ResetClock(a, r.left, r.right, r.value);
    s := if ok then NON_EMPTY else OutOfRange;
  }

  method ElapseStep(a: array2<Db>, l: seq<int>, u: seq<int>)
    requires Shape(a) && Proper(View(a), l, u)
    modifies a
    ensures Apply(old(View(a)), Elapse, l, u) == Some(View(a))
  {
    LetTimePass(a);
  }

  method ExtrapolateStep(a: array2<Db>, l: seq<int>, u: seq<int>) returns (s: Status)
    requires Shape(a) && Proper(View(a), l, u)
    modifies a
    ensures s == NON_EMPTY || s == OutOfRange
    ensures s == NON_EMPTY ==> Apply(old(View(a)), Extrapolate, l, u) == Some(View(a))
    ensures s == OutOfRange ==> NoRoom(old(View(a)), Extrapolate, l, u)
  {
    var ok := ExtraLuPlusInPlace(a, l, u);
    s := if ok then NON_EMPTY else OutOfRange;
  }

  /** The last step done was fatal: whatever would follow, the outcome of all steps is the same. */
  lemma Fatal(m: Matrix, acts: seq<Action>, more: seq<Action>, all: seq<Action>, l: seq<int>, u: seq<int>, s: Status, now: Matrix)
    requires Proper(m, l, u) && AllDefined(acts, |m|) && AllDefined(all, |m|) && all == acts + more
    requires Outcome(m, acts, l, u, s, now) && s != NON_EMPTY
    ensures s == EMPTY ==> Post(m, all, l, u) == None
    ensures s == OutOfRange ==> Stuck(m, all, l, u)
  {
    hide Normal, Post, Stuck;
    SplitDefined(acts, more, |m|);
    OutcomeFinal(m, acts, more, l, u, s, now);
  }

  /** The successor zone of a transition, as the zone graph computes it. */
  method Next(a: array2<Db>, l: seq<int>, u: seq<int>, guard: seq<Machine.ClockConstraint>, resets: seq<Machine.ClockReset>,
              delay: bool, inv: seq<Machine.ClockConstraint>, extrapolating: bool)
    returns (r: StateStatus)
    requires Shape(a) && Proper(View(a), l, u) && NotNegative(resets)
    requires AllDefined(StepsOf(guard, resets, delay, inv, extrapolating), a.Length0)
    modifies a
    ensures r != SourceInvariantViolated
    ensures r == StateOk ==> Post(old(View(a)), StepsOf(guard, resets, delay, inv, extrapolating), l, u) == Some(View(a))
    ensures r == GuardViolated || r == TargetInvariantViolated ==>
      Post(old(View(a)), StepsOf(guard, resets, delay, inv, extrapolating), l, u) == None
    ensures r == GuardViolated ==>
      AllDefined(GuardActions(guard), a.Length0) && Post(old(View(a)), GuardActions(guard), l, u) == None
    ensures r == TargetInvariantViolated ==>
      AllDefined(GuardActions(guard), a.Length0) && Post(old(View(a)), GuardActions(guard), l, u).Some?
    ensures r == Unrepresentable ==> Stuck(old(View(a)), StepsOf(guard, resets, delay, inv, extrapolating), l, u)
  {
    hide Apply, NoRoom, Normal, Defined, AllDefined, Post, View, Stuck;
    ghost var m := View(a);
    ghost var all := StepsOf(guard, resets, delay, inv, extrapolating);
    ghost var g, x, i := GuardActions(guard), ResetActions(resets), GuardActions(inv);
    ghost var d, e := DelayActions(delay, inv), ExtrapolateActions(extrapolating);
    StepsSplit(g, x, i, d, e, |m|);
    NothingDone(m, l, u);
    var s := ConstrainAll(a, guard, l, u, m, []);
    assert [] + g == g;
    if s != NON_EMPTY {
      Fatal(m, g, x + i + d + e, all, l, u, s, View(a));
      return if s == EMPTY then GuardViolated else Unrepresentable;
    }
    s := ResetAll(a, resets, l, u, m, g);
    if s != NON_EMPTY {
      Fatal(m, g + x, i + d + e, all, l, u, s, View(a));
      return Unrepresentable;
    }
    s := ConstrainAll(a, inv, l, u, m, g + x);
    if s != NON_EMPTY {
      Fatal(m, g + x + i, d + e, all, l, u, s, View(a));
      return if s == EMPTY then TargetInvariantViolated else Unrepresentable;
    }
    if delay {
      s := ElapseAndConstrain(a, inv, l, u, m, g + x + i);
      if s != NON_EMPTY {
        Fatal(m, g + x + i + d, e, all, l, u, s, View(a));
        return if s == EMPTY then TargetInvariantViolated else Unrepresentable;
      }
    }
    assert g + x + i + [] == g + x + i;
    s := ExtrapolateIf(a, l, u, extrapolating, m, g + x + i + d);
    return if s == NON_EMPTY then StateOk else Unrepresentable;
  }

  method ExtrapolateIf(a: array2<Db>, l: seq<int>, u: seq<int>, extrapolating: bool, ghost m: Matrix, ghost acts: seq<Action>)
    returns (s: Status)
    requires Shape(a) && Proper(m, l, u) && AllDefined(acts, |m|) && Outcome(m, acts, l, u, NON_EMPTY, View(a))
    modifies a
    ensures Shape(a) && AllDefined(acts + ExtrapolateActions(extrapolating), |m|) && s != EMPTY
    ensures Outcome(m, acts + ExtrapolateActions(extrapolating), l, u, s, View(a))
  {
    hide Apply, NoRoom, Normal, AllDefined, Post, View, Stuck;
    assert acts + [] == acts;
    if !extrapolating {
      return NON_EMPTY;
    }
    ghost var now := View(a);
    s := ExtrapolateStep(a, l, u);
    OutcomeNext(m, acts, now, Extrapolate, l, u, s, View(a));
  }

  /** Time passes, and the invariant must hold again. */
  method ElapseAndConstrain(a: array2<Db>, inv: seq<Machine.ClockConstraint>, l: seq<int>, u: seq<int>, ghost m: Matrix,
                            ghost acts: seq<Action>)
    returns (s: Status)
    requires Shape(a) && Proper(m, l, u) && AllDefined(acts, |m|) && AllDefined(GuardActions(inv), |m|)
    requires Outcome(m, acts, l, u, NON_EMPTY, View(a))
    modifies a
    ensures Shape(a) && AllDefined(acts + DelayActions(true, inv), |m|)
    ensures Outcome(m, acts + DelayActions(true, inv), l, u, s, View(a))
  {
    hide Apply, NoRoom, Normal, AllDefined, Post, View, Stuck;
    ghost var now := View(a);
    ElapseStep(a, l, u);
    OutcomeNext(m, acts, now, Elapse, l, u, NON_EMPTY, View(a));
    s := ConstrainAll(a, inv, l, u, m, acts + [Elapse]);
    assert acts + [Elapse] + GuardActions(inv) == acts + DelayActions(true, inv);
  }

  lemma NothingDone(m: Matrix, l: seq<int>, u: seq<int>)
    requires Proper(m, l, u)
    ensures AllDefined([], |m|) && Outcome(m, [], l, u, NON_EMPTY, m)
  {}

  lemma StepsSplit(g: seq<Action>, x: seq<Action>, i: seq<Action>, d: seq<Action>, e: seq<Action>, n: nat)
    requires AllDefined(g + x + i + d + e, n)
    ensures AllDefined(g, n) && AllDefined(x, n) && AllDefined(i, n) && AllDefined(d, n)
    ensures g + x + i + d + e == g + (x + i + d + e)
    ensures g + x + i + d + e == (g + x) + (i + d + e)
    ensures g + x + i + d + e == (g + x + i) + (d + e)
  {
    SplitDefined(g + x + i + d, e, n);
    SplitDefined(g + x + i, d, n);
    SplitDefined(g + x, i, n);
    SplitDefined(g, x, n);
  }

  // ----- the initial zone -----

  method ZeroInPlace(a: array2<Db>)
    requires Shape(a)
    modifies a
    ensures View(a) == ZeroMatrix(a.Length0)
  {
    for i := 0 to a.Length0
      invariant forall p, q {:trigger a[p, q]} :: 0 <= p < i && 0 <= q < a.Length1 ==> a[p, q] == LE_ZERO
    {
      for j := 0 to a.Length1
        invariant forall p, q {:trigger a[p, q]} :: 0 <= p < i && 0 <= q < a.Length1 ==> a[p, q] == LE_ZERO
        invariant forall q {:trigger a[i, q]} :: 0 <= q < j ==> a[i, q] == LE_ZERO
      {
        a[i, j] := LE_ZERO;
      }
    }
    HoldsIsView(a, ZeroMatrix(a.Length0));
  }

  lemma InitialSplit(i: seq<Action>, d: seq<Action>, e: seq<Action>, n: nat)
    requires AllDefined(i + d + e, n)
    ensures AllDefined(i, n) && AllDefined(d, n)
    ensures [] + i == i == i + [] && i + d + e == i + (d + e)
  {
    SplitDefined(i + d, e, n);
    SplitDefined(i, d, n);
  }

  /** The initial zone, as the zone graph computes it. */
  method Initialize(a: array2<Db>, l: seq<int>, u: seq<int>, delay: bool, inv: seq<Machine.ClockConstraint>, extrapolating: bool)
    returns (r: StateStatus)
    requires Shape(a) && ClockBounds(l, a.Length0) && ClockBounds(u, a.Length0)
    requires AllDefined(InitialSteps(delay, inv, extrapolating), a.Length0)
    modifies a
    ensures Proper(ZeroMatrix(a.Length0), l, u) && (r == StateOk || r == SourceInvariantViolated || r == Unrepresentable)
    ensures r == StateOk ==> Post(ZeroMatrix(a.Length0), InitialSteps(delay, inv, extrapolating), l, u) == Some(View(a))
    ensures r == SourceInvariantViolated ==> Post(ZeroMatrix(a.Length0), InitialSteps(delay, inv, extrapolating), l, u) == None
    ensures r == Unrepresentable ==> Stuck(ZeroMatrix(a.Length0), InitialSteps(delay, inv, extrapolating), l, u)
  {
    hide Apply, NoRoom, Proper, Defined, AllDefined, Post, View, Stuck, ZeroMatrix;
    ZeroMatrixProper(a.Length0, l, u);
    ghost var m := ZeroMatrix(a.Length0);
    ghost var all := InitialSteps(delay, inv, extrapolating);
    ghost var i, d, e := GuardActions(inv), DelayActions(delay, inv), ExtrapolateActions(extrapolating);
    InitialSplit(i, d, e, |m|);
    ZeroInPlace(a);
    NothingDone(m, l, u);
    var s := ConstrainAll(a, inv, l, u, m, []);
    if s != NON_EMPTY {
      Fatal(m, i, d + e, all, l, u, s, View(a));
      return if s == EMPTY then SourceInvariantViolated else Unrepresentable;
    }
    if delay {
      s := ElapseAndConstrain(a, inv, l, u, m, i);
      if s != NON_EMPTY {
        Fatal(m, i + d, e, all, l, u, s, View(a));
        return if s == EMPTY then SourceInvariantViolated else Unrepresentable;
      }
    }
    s := ExtrapolateIf(a, l, u, extrapolating, m, i + d);
    return if s == NON_EMPTY then StateOk else Unrepresentable;
  }
}
