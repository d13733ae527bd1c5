/** Pushdown timed automata: their zone graphs are instances of the explored systems, and a location is reached in the zone graph
    exactly when the automaton can get there with real clock values and a real stack. */
module TimedPushdown {
  import opened Wrappers
  import opened Zones
  import opened ZoneOps
  import opened LuSimulation
  import opened Extrapolation
  import opened ZoneGraph
  import opened Integrality
  import opened LocalBounds
  import opened EdgeRuns
  import opened Pushdown
  import opened Saturation
  import Machine

  datatype StackOp = NoOp | PushOp(symbol: string) | PopOp(symbol: string)

  /** An invariant, and whether time may pass. */
  datatype Location = Location(inv: seq<Machine.ClockConstraint>, delay: bool)

  datatype Transition =
    Transition(src: string, op: StackOp, guard: seq<Machine.ClockConstraint>, resets: seq<Machine.ClockReset>, tgt: string)

  /** Clock 0 is the constant zero; the other clocks are those below `dim`. */
  datatype Automaton = Automaton(dim: nat, locs: map<string, Location>, trans: seq<Transition>)

  predicate FittingReset(r: Machine.ClockReset, n: nat) {
    1 <= r.left < n && 0 <= r.right < n && r.value >= 0
  }

  predicate ValidTransition(a: Automaton, t: Transition) {
    && t.src in a.locs && t.tgt in a.locs && AllFitting(t.guard, a.dim)
    && forall i :: 0 <= i < |t.resets| ==> FittingReset(t.resets[i], a.dim)
  }

  predicate Valid(a: Automaton) {
    && a.dim >= 1
    && (forall loc :: loc in a.locs ==> AllFitting(a.locs[loc].inv, a.dim))
    && forall i :: 0 <= i < |a.trans| ==> ValidTransition(a, a.trans[i])
  }

  // ----- zones -----

  /** Zones as they are stored: tight, not empty, without negative clocks, and with integer bounds. */
  ghost predicate Good(a: Automaton, m: Matrix) {
    Normal(m) && |m| == a.dim && Integral(m)
  }

  /** Waiting at a location leads from `v` to `w`: the invariant holds before and after, and time passes only where it may. */
  ghost predicate Stays(a: Automaton, loc: string, v: Valuation, w: Valuation)
    requires loc in a.locs
  {
    Arrives(v, a.locs[loc].delay, a.locs[loc].inv, w)
  }

  /** The zone is within the invariant of its location, and holds whatever waiting there can lead to. */
  ghost predicate Settled(a: Automaton, loc: string, m: Matrix)
    requires loc in a.locs
  {
    && (forall v: Valuation :: In(m, v) ==> Pass(a.locs[loc].inv, v))
    && forall v: Valuation, w: Valuation :: In(m, v) && Stays(a, loc, v, w) ==> In(m, w)
  }

  /** What the zones of nodes are like. */
  ghost predicate GoodNode(a: Automaton, n: Node<Matrix>) {
    n.loc in a.locs && Good(a, n.zone) && Settled(a, n.loc, n.zone)
  }

  lemma GoodProper(a: Automaton, m: Matrix)
    requires Good(a, m)
    ensures Proper(m, NoBounds(a.dim), NoBounds(a.dim)) && Integral(m)
  {
    hide Normal, Integral;
    assert forall x :: 0 <= x < a.dim ==> ClockBound(NoBounds(a.dim)[x]);
  }

  /** Guard, resets, invariant of the target, and if time may pass there, delay and the invariant again. */
  function Acts(a: Automaton, t: Transition): seq<Action>
    requires ValidTransition(a, t)
  {
    StepsOf(t.guard, t.resets, a.locs[t.tgt].delay, a.locs[t.tgt].inv, false)
  }

  lemma GuardsDefined(cs: seq<Machine.ClockConstraint>, n: nat)
    requires AllFitting(cs, n)
    ensures Storable(GuardActions(cs), n)
  {
    forall i | 0 <= i < |cs| ensures Defined(GuardActions(cs)[i], n) && WholeAction(GuardActions(cs)[i]) {
      assert Fitting(cs[i], n);
      assert Equals(cs[i].bound as real, cs[i].bound);
    }
  }

  /** Steps on integer constants, without extrapolation. */
  ghost predicate Storable(acts: seq<Action>, n: nat) {
    AllDefined(acts, n) && Plain(acts) && AllWhole(acts)
  }

  lemma StorableConcat(x: seq<Action>, y: seq<Action>, n: nat)
    requires Storable(x, n) && Storable(y, n)
    ensures Storable(x + y, n)
  {
    hide WholeAction;
  }

  lemma NoConstant(x: Action, n: nat)
    requires Defined(x, n) && !x.Constrain? && !x.Extrapolate?
    ensures Storable([x], n)
  {}

  lemma DelayStorable(delay: bool, inv: seq<Machine.ClockConstraint>, n: nat)
    requires AllFitting(inv, n)
    ensures Storable(DelayActions(delay, inv), n)
  {
    hide Storable;
    GuardsDefined(inv, n);
    NoConstant(Elapse, n);
    StorableConcat([Elapse], GuardActions(inv), n);
    NothingStorable(n);
  }

  lemma NothingStorable(n: nat)
    ensures Storable([], n)
  {}

  lemma ResetsStorable(rs: seq<Machine.ClockReset>, n: nat)
    requires forall i :: 0 <= i < |rs| ==> FittingReset(rs[i], n)
    ensures NotNegative(rs) && Storable(ResetActions(rs), n)
  {}

  lemma ActsDefined(a: Automaton, t: Transition)
    requires Valid(a) && ValidTransition(a, t)
    ensures Storable(Acts(a, t), a.dim)
  {
    hide Storable;
    var inv, d := a.locs[t.tgt].inv, DelayActions(a.locs[t.tgt].delay, a.locs[t.tgt].inv);
    GuardsDefined(t.guard, a.dim);
    ResetsStorable(t.resets, a.dim);
    GuardsDefined(inv, a.dim);
    DelayStorable(a.locs[t.tgt].delay, inv, a.dim);
    StorableConcat(GuardActions(t.guard), ResetActions(t.resets), a.dim);
    StorableConcat(GuardActions(t.guard) + ResetActions(t.resets), GuardActions(inv), a.dim);
    StorableConcat(GuardActions(t.guard) + ResetActions(t.resets) + GuardActions(inv), d, a.dim);
    var all := GuardActions(t.guard) + ResetActions(t.resets) + GuardActions(inv) + d;
    assert all + [] == all;
  }

  /** The zone after some steps. */
  ghost function PostZone(a: Automaton, m: Matrix, acts: seq<Action>): (r: Option<Matrix>)
    requires Good(a, m) && Storable(acts, a.dim)
    ensures r.Some? ==> Good(a, r.value)
  {
    GoodProper(a, m);
    PostIntegral(m, acts, NoBounds(a.dim), NoBounds(a.dim));
    Post(m, acts, NoBounds(a.dim), NoBounds(a.dim))
  }

  /** It holds exactly the ends of the runs that start in the zone. */
  lemma PostZoneExact(a: Automaton, m: Matrix, acts: seq<Action>, w: Valuation)
    requires Good(a, m) && Storable(acts, a.dim)
    ensures var r := PostZone(a, m, acts);
            r.Some? && In(r.value, w) <==> exists v: Valuation :: In(m, v) && RunsTo(v, acts, w)
  {
    GoodProper(a, m);
    PlainExact(m, acts, NoBounds(a.dim), NoBounds(a.dim), w);
  }

  lemma PostZoneSurvives(a: Automaton, m: Matrix, acts: seq<Action>)
    requires Good(a, m) && Storable(acts, a.dim)
    ensures PostZone(a, m, acts).Some? <==> exists v: Valuation, w: Valuation :: In(m, v) && RunsTo(v, acts, w)
  {
    GoodProper(a, m);
    PlainSurvives(m, acts, NoBounds(a.dim), NoBounds(a.dim));
  }

  lemma PostZoneConcat(a: Automaton, m: Matrix, x: seq<Action>, y: seq<Action>)
    requires Good(a, m) && Storable(x, a.dim) && Storable(y, a.dim)
    ensures Storable(x + y, a.dim)
    ensures var r := PostZone(a, m, x); PostZone(a, m, x + y) == if r.None? then None else PostZone(a, r.value, y)
  {
    GoodProper(a, m);
    PostConcat(m, x, y, NoBounds(a.dim), NoBounds(a.dim));
  }

  lemma DelayTwice(s: Valuation, d: real, e: real)
    requires |s| >= 1
    ensures Delay(Delay(s, d), e) == Delay(s, d + e) && Delay(s, 0.0) == s
  {}

  /** Who has arrived satisfies the invariant, and may go on waiting. */
  lemma ArrivedStays(a: Automaton, loc: string, s: Valuation, v: Valuation)
    requires loc in a.locs && |s| >= 1 && Stays(a, loc, s, v)
    ensures |v| == |s| && Pass(a.locs[loc].inv, v)
    ensures forall w: Valuation :: Stays(a, loc, v, w) ==> Stays(a, loc, s, w)
  {
    hide Pass;
    if a.locs[loc].delay {
      var d: real :| d >= 0.0 && v == Delay(s, d);
      forall w: Valuation | Stays(a, loc, v, w) ensures Stays(a, loc, s, w) {
        var e: real :| e >= 0.0 && w == Delay(v, e);
        DelayTwice(s, d, e);
        assert d + e >= 0.0 && w == Delay(s, d + e);
      }
    }
  }

  lemma ArrivesAtOnce(s: Valuation, delay: bool, inv: seq<Machine.ClockConstraint>)
    requires Pass(inv, s) && |s| >= 1
    ensures Arrives(s, delay, inv, s)
  {
    assert s == Delay(s, 0.0);
  }

  /** The steps of an edge, in closed form. */
  lemma ActsRun(a: Automaton, t: Transition, v: Valuation, w: Valuation)
    requires Valid(a) && ValidTransition(a, t) && |v| == a.dim
    ensures AllClocks(t.resets, |v|)
    ensures RunsTo(v, Acts(a, t), w) <==> Pass(t.guard, v) && Stays(a, t.tgt, AfterResets(t.resets, v), w)
  {
    hide RunsTo, Pass, Arrives, AfterResets;
    forall i | 0 <= i < |t.resets| ensures 0 <= t.resets[i].left < |v| && 0 <= t.resets[i].right < |v| {
      assert FittingReset(t.resets[i], a.dim);
    }
    EdgeRun(v, t.guard, t.resets, a.locs[t.tgt].delay, a.locs[t.tgt].inv, w);
  }

  /** The zone behind an edge is one that a node of the target can have. */
  lemma PostSettled(a: Automaton, m: Matrix, t: Transition)
    requires Valid(a) && ValidTransition(a, t) && Good(a, m)
    ensures Storable(Acts(a, t), a.dim)
    ensures PostZone(a, m, Acts(a, t)).Some? ==> Settled(a, t.tgt, PostZone(a, m, Acts(a, t)).value)
  {
    hide PostZone, RunsTo, Pass, Stays, AfterResets, Normal, Integral, Acts;
    ActsDefined(a, t);
    var r := PostZone(a, m, Acts(a, t));
    if r.Some? {
      forall v: Valuation | In(r.value, v)
        ensures Pass(a.locs[t.tgt].inv, v) && forall w: Valuation :: Stays(a, t.tgt, v, w) ==> In(r.value, w)
      {
        PostZoneExact(a, m, Acts(a, t), v);
        var v0: Valuation :| In(m, v0) && RunsTo(v0, Acts(a, t), v);
        ActsRun(a, t, v0, v);
        ArrivedStays(a, t.tgt, AfterResets(t.resets, v0), v);
        forall w: Valuation | Stays(a, t.tgt, v, w) ensures In(r.value, w) {
          ActsRun(a, t, v0, w);
          PostZoneExact(a, m, Acts(a, t), w);
        }
      }
    }
  }

  // ----- what a location compares with -----

  function OutGuards(a: Automaton, loc: string, k: nat): seq<seq<Machine.ClockConstraint>>
    requires k <= |a.trans|
    decreases |a.trans| - k
  {
    if k == |a.trans| then []
    else (if a.trans[k].src == loc then [a.trans[k].guard] else []) + OutGuards(a, loc, k + 1)
  }

  /** The constraints of the invariant and of the guards of the outgoing edges. */
  function GuardsOf(a: Automaton, loc: string): seq<Machine.ClockConstraint>
    requires loc in a.locs
  {
    a.locs[loc].inv + Flat(OutGuards(a, loc, 0))
  }

  lemma {:induction false} OutGuardsMembers(a: Automaton, loc: string, k: nat, g: seq<Machine.ClockConstraint>)
    requires k <= |a.trans|
    ensures g in OutGuards(a, loc, k) <==> exists i :: k <= i < |a.trans| && a.trans[i].src == loc && a.trans[i].guard == g
    decreases |a.trans| - k
  {
    if k < |a.trans| {
      OutGuardsMembers(a, loc, k + 1, g);
    }
  }

  lemma {:induction false} FlatMembers(css: seq<seq<Machine.ClockConstraint>>, c: Machine.ClockConstraint)
    ensures c in Flat(css) <==> exists cs :: cs in css && c in cs
    decreases |css|
  {
    if css != [] {
      var k := |css| - 1;
      FlatMembers(css[..k], c);
      assert css == css[..k] + [css[k]];
      assert css[k] in css;
    }
  }

  lemma GuardsOfMembers(a: Automaton, loc: string, c: Machine.ClockConstraint)
    requires loc in a.locs
    ensures c in GuardsOf(a, loc) <==>
              c in a.locs[loc].inv || exists i :: 0 <= i < |a.trans| && a.trans[i].src == loc && c in a.trans[i].guard
  {
    FlatMembers(OutGuards(a, loc, 0), c);
    if c in Flat(OutGuards(a, loc, 0)) {
      var g :| g in OutGuards(a, loc, 0) && c in g;
      OutGuardsMembers(a, loc, 0, g);
    }
    if i :| 0 <= i < |a.trans| && a.trans[i].src == loc && c in a.trans[i].guard {
      OutGuardsMembers(a, loc, 0, a.trans[i].guard);
    }
  }

  lemma GuardsOfFitting(a: Automaton, loc: string)
    requires Valid(a) && loc in a.locs
    ensures AllFitting(GuardsOf(a, loc), a.dim)
  {
    var cs := GuardsOf(a, loc);
    forall i | 0 <= i < |cs|
      ensures Fitting(cs[i], a.dim)
    {
      GuardsOfMembers(a, loc, cs[i]);
      if cs[i] !in a.locs[loc].inv {
        var j :| 0 <= j < |a.trans| && a.trans[j].src == loc && cs[i] in a.trans[j].guard;
        assert ValidTransition(a, a.trans[j]);
      }
    }
  }

  function Low(a: Automaton, loc: string): seq<int>
    requires loc in a.locs
  {
    Lowers(GuardsOf(a, loc), a.dim)
  }

  function Up(a: Automaton, loc: string): seq<int>
    requires loc in a.locs
  {
    Uppers(GuardsOf(a, loc), a.dim)
  }

  /** `n1` stands for `n2`, as the exploration compares nodes of one location. */
  ghost predicate Simulates(a: Automaton, n1: Node<Matrix>, n2: Node<Matrix>) {
    || n1 == n2
    || (&& GoodNode(a, n1) && GoodNode(a, n2) && n1.loc == n2.loc
        && StandsFor(Low(a, n1.loc), Up(a, n1.loc), Diagonals(GuardsOf(a, n1.loc)), n1.zone, n2.zone))
  }

  // ----- the zone graph as an explored system -----

  function EdgeOf(op: StackOp, tgt: Node<Matrix>): Edge<Matrix> {
    match op
    case NoOp => Nop(tgt)
    case PushOp(s) => Push(s, tgt)
    case PopOp(s) => Pop(s, tgt)
  }

  ghost predicate Enabled(a: Automaton, n: Node<Matrix>, i: int)
    requires Valid(a)
  {
    && 0 <= i < |a.trans| && a.trans[i].src == n.loc && GoodNode(a, n)
    && (ActsDefined(a, a.trans[i]); PostZone(a, n.zone, Acts(a, a.trans[i])).Some?)
  }

  ghost function Target(a: Automaton, n: Node<Matrix>, i: int): (q: Node<Matrix>)
    requires Valid(a) && Enabled(a, n, i)
    ensures GoodNode(a, q)
  {
    PostSettled(a, n.zone, a.trans[i]);
    Node(a.trans[i].tgt, PostZone(a, n.zone, Acts(a, a.trans[i])).value)
  }

  ghost function SuccFrom(a: Automaton, n: Node<Matrix>, k: nat): seq<Edge<Matrix>>
    requires Valid(a) && k <= |a.trans|
    decreases |a.trans| - k
  {
    if k == |a.trans| then []
    else (if Enabled(a, n, k) then [EdgeOf(a.trans[k].op, Target(a, n, k))] else []) + SuccFrom(a, n, k + 1)
  }

  lemma EnabledRange(a: Automaton, n: Node<Matrix>)
    requires Valid(a)
    ensures forall i :: Enabled(a, n, i) ==> 0 <= i < |a.trans|
  {
    hide Good, PostZone, Acts, ValidTransition;
  }

  lemma {:induction false} SuccFromMembers(a: Automaton, n: Node<Matrix>, k: nat, e: Edge<Matrix>)
    requires Valid(a) && k <= |a.trans|
    ensures e in SuccFrom(a, n, k) <==> exists i :: k <= i && Enabled(a, n, i) && e == EdgeOf(a.trans[i].op, Target(a, n, i))
    decreases |a.trans| - k
  {
    hide Enabled, Target, Valid;
    EnabledRange(a, n);
    if k < |a.trans| {
      SuccFromMembers(a, n, k + 1, e);
      if Enabled(a, n, k) && e == EdgeOf(a.trans[k].op, Target(a, n, k)) {
        assert e in SuccFrom(a, n, k);
      } else if i :| k <= i && Enabled(a, n, i) && e == EdgeOf(a.trans[i].op, Target(a, n, i)) {
        assert k + 1 <= i;
      }
    }
  }

  ghost function SystemOf(a: Automaton): System<Matrix>
    requires Valid(a)
  {
    System((n: Node<Matrix>) => SuccFrom(a, n, 0), (n1: Node<Matrix>, n2: Node<Matrix>) => Simulates(a, n1, n2))
  }

  lemma SuccOf(a: Automaton, n: Node<Matrix>, e: Edge<Matrix>)
    requires Valid(a)
    ensures e in SystemOf(a).succ(n) <==> exists i :: Enabled(a, n, i) && e == EdgeOf(a.trans[i].op, Target(a, n, i))
  {
    SuccFromMembers(a, n, 0, e);
  }

  /** The comparison is a preorder, whatever the automaton. */
  lemma ComparisonPreorder(a: Automaton)
    requires Valid(a)
    ensures Preorder(SystemOf(a))
  {
    hide SimIncluded, SuccFrom, Good, Entails, Low, Up, Diagonals;
    var ts := SystemOf(a);
    forall n: Node<Matrix>, m: Node<Matrix>, p: Node<Matrix> | Pushdown.Le(ts, n, m) && Pushdown.Le(ts, m, p)
      ensures Pushdown.Le(ts, n, p)
    {
      if n != m && m != p {
        SimIncludedTransitive(n.zone, m.zone, p.zone, Low(a, n.loc), Up(a, n.loc));
      }
    }
  }

  // ----- computations of the automaton -----

  function ApplyOp(s: seq<string>, op: StackOp): Option<seq<string>> {
    match op
    case NoOp => Some(s)
    case PushOp(x) => Some(s + [x])
    case PopOp(x) => if |s| > 0 && s[|s| - 1] == x then Some(s[..|s| - 1]) else None
  }

  /** The stack after a word of transitions; `None` when some pop does not find its symbol. */
  function StackAfter(s: seq<string>, w: seq<Transition>): Option<seq<string>>
    decreases |w|
  {
    if w == [] then Some(s)
    else
      var r := StackAfter(s, w[..|w| - 1]);
      if r.None? then None else ApplyOp(r.value, w[|w| - 1].op)
  }

  /** `w` leads through the automaton from location `p` to location `q`. */
  predicate Path(a: Automaton, p: string, w: seq<Transition>, q: string)
    decreases |w|
  {
    if w == [] then p == q
    else w[|w| - 1] in a.trans && w[|w| - 1].tgt == q && Path(a, p, w[..|w| - 1], w[|w| - 1].src)
  }

  predicate Word(a: Automaton, w: seq<Transition>) {
    forall i :: 0 <= i < |w| ==> ValidTransition(a, w[i])
  }

  function ActsOf(a: Automaton, w: seq<Transition>): seq<Action>
    requires Word(a, w)
    decreases |w|
  {
    if w == [] then [] else ActsOf(a, w[..|w| - 1]) + Acts(a, w[|w| - 1])
  }

  /** A word of transitions leads from `v` to `w`, one transition after the other. */
  ghost predicate Follows(a: Automaton, word: seq<Transition>, v: Valuation, w: Valuation)
    requires Word(a, word)
    decreases |word|
  {
    if word == [] then w == v
    else
      var t := word[|word| - 1];
      exists s: Valuation :: Follows(a, word[..|word| - 1], v, s)
                          && Crosses(s, t.guard, t.resets, a.locs[t.tgt].delay, a.locs[t.tgt].inv, w)
  }

  /** The steps of a word do just that. */
  lemma {:induction false} FollowsExact(a: Automaton, word: seq<Transition>, v: Valuation, w: Valuation)
    requires Valid(a) && Word(a, word) && |v| == a.dim
    ensures RunsTo(v, ActsOf(a, word), w) <==> Follows(a, word, v, w)
    ensures Follows(a, word, v, w) ==> |w| == a.dim
    decreases |word|
  {
    hide RunsTo, Crosses, Acts;
    if word == [] {
      NoMore(v, w);
    } else {
      var t, before := word[|word| - 1], word[..|word| - 1];
      RunsConcat(v, ActsOf(a, before), Acts(a, t), w);
      if RunsTo(v, ActsOf(a, word), w) {
        var s: Valuation :| RunsTo(v, ActsOf(a, before), s) && RunsTo(s, Acts(a, t), w);
        FollowsExact(a, before, v, s);
        ActsCross(a, t, s, w);
      }
      if Follows(a, word, v, w) {
        var s: Valuation :| Follows(a, before, v, s) && Crosses(s, t.guard, t.resets, a.locs[t.tgt].delay, a.locs[t.tgt].inv, w);
        FollowsExact(a, before, v, s);
        ActsCross(a, t, s, w);
      }
    }
  }

  lemma ActsCross(a: Automaton, t: Transition, v: Valuation, w: Valuation)
    requires Valid(a) && ValidTransition(a, t) && |v| == a.dim
    ensures RunsTo(v, Acts(a, t), w) <==> Crosses(v, t.guard, t.resets, a.locs[t.tgt].delay, a.locs[t.tgt].inv, w)
    ensures RunsTo(v, Acts(a, t), w) ==> |w| == a.dim
  {
    hide RunsTo, Pass, Arrives, AfterResets, Acts;
    ActsRun(a, t, v, w);
    if RunsTo(v, Acts(a, t), w) {
      ArrivedStays(a, t.tgt, AfterResets(t.resets, v), w);
    }
  }

  /** From some valuation of the zone, with an empty stack, the automaton can get to `loc` with an empty stack. */
  ghost predicate Computes(a: Automaton, n: Node<Matrix>, loc: string) {
    exists w: seq<Transition> :: Path(a, n.loc, w, loc) && StackAfter([], w) == Some([]) && Word(a, w) && CanRun(n.zone, ActsOf(a, w))
  }

  ghost predicate CanRun(m: Matrix, acts: seq<Action>) {
    exists v: Valuation, v': Valuation :: In(m, v) && RunsTo(v, acts, v')
  }

  lemma {:induction false} WordDefined(a: Automaton, w: seq<Transition>)
    requires Valid(a) && Word(a, w)
    ensures Storable(ActsOf(a, w), a.dim)
    decreases |w|
  {
    hide Acts, Storable;
    if w == [] {
      NothingStorable(a.dim);
    } else {
      WordDefined(a, w[..|w| - 1]);
      ActsDefined(a, w[|w| - 1]);
      StorableConcat(ActsOf(a, w[..|w| - 1]), Acts(a, w[|w| - 1]), a.dim);
    }
  }

  lemma {:induction false} PathWord(a: Automaton, p: string, w: seq<Transition>, q: string)
    requires Valid(a) && Path(a, p, w, q)
    ensures Word(a, w) && (p in a.locs ==> q in a.locs)
    decreases |w|
  {
    if w != [] {
      PathWord(a, p, w[..|w| - 1], w[|w| - 1].src);
      var i :| 0 <= i < |a.trans| && a.trans[i] == w[|w| - 1];
    }
  }

  // ----- words -----

  lemma {:induction false} StackConcat(s: seq<string>, x: seq<Transition>, y: seq<Transition>)
    ensures var r := StackAfter(s, x); StackAfter(s, x + y) == if r.None? then None else StackAfter(r.value, y)
    decreases |y|
  {
    if y == [] {
      assert x + y == x;
    } else {
      assert (x + y)[..|x + y| - 1] == x + y[..|y| - 1];
      StackConcat(s, x, y[..|y| - 1]);
    }
  }

  /** What lies deeper in the stack stays untouched. */
  lemma {:induction false} StackFrame(d: seq<string>, s: seq<string>, w: seq<Transition>)
    requires StackAfter(s, w).Some?
    ensures StackAfter(d + s, w) == Some(d + StackAfter(s, w).value)
    decreases |w|
  {
    if w != [] {
      StackFrame(d, s, w[..|w| - 1]);
      var r := StackAfter(s, w[..|w| - 1]).value;
      match w[|w| - 1].op {
        case NoOp =>
        case PushOp(x) => assert (d + r) + [x] == d + (r + [x]);
        case PopOp(x) => assert (d + r)[..|d + r| - 1] == d + r[..|r| - 1];
      }
    }
  }

  lemma {:induction false} PathConcat(a: Automaton, p: string, x: seq<Transition>, q: string, y: seq<Transition>, r: string)
    requires Path(a, p, x, q) && Path(a, q, y, r)
    ensures Path(a, p, x + y, r)
    decreases |y|
  {
    if y == [] {
      assert x + y == x;
    } else {
      assert (x + y)[..|x + y| - 1] == x + y[..|y| - 1];
      PathConcat(a, p, x, q, y[..|y| - 1], y[|y| - 1].src);
    }
  }

  lemma {:induction false} PathSplit(a: Automaton, p: string, x: seq<Transition>, y: seq<Transition>, r: string) returns (q: string)
    requires Path(a, p, x + y, r)
    ensures Path(a, p, x, q) && Path(a, q, y, r)
    decreases |y|
  {
    if y == [] {
      assert x + y == x;
      q := r;
    } else {
      assert (x + y)[..|x + y| - 1] == x + y[..|y| - 1];
      q := PathSplit(a, p, x, y[..|y| - 1], y[|y| - 1].src);
    }
  }

  lemma {:induction false} ActsConcat(a: Automaton, x: seq<Transition>, y: seq<Transition>)
    requires Word(a, x) && Word(a, y)
    ensures Word(a, x + y) && ActsOf(a, x + y) == ActsOf(a, x) + ActsOf(a, y)
    decreases |y|
  {
    hide Acts, ValidTransition;
    if y == [] {
      assert x + y == x;
      assert ActsOf(a, x) + [] == ActsOf(a, x);
    } else {
      var y', t := y[..|y| - 1], y[|y| - 1];
      assert (x + y)[..|x + y| - 1] == x + y' && (x + y)[|x + y| - 1] == t;
      ActsConcat(a, x, y');
      assert Word(a, x + y);
      assert ActsOf(a, x) + ActsOf(a, y') + Acts(a, t) == ActsOf(a, x) + (ActsOf(a, y') + Acts(a, t));
    }
  }

  lemma LastOf<T>(p: seq<T>, x: T, q: seq<T>, y: T)
    requires p + [x] == q + [y]
    ensures p == q && x == y
  {
    assert (p + [x])[|p|] == x && (q + [y])[|q|] == y;
    assert (p + [x])[..|p|] == p && (q + [y])[..|q|] == q;
  }

  lemma Without<T>(r: seq<T>, s: seq<T>)
    requires |r| > 0 && r[..|r| - 1] == s
    ensures r == s + [r[|r| - 1]]
  {}

  /** The stack before the last transition of a word. */
  lemma Unwind(w: seq<Transition>, s: seq<string>, x: string)
    requires StackAfter([], w) == Some(s + [x])
    ensures w != [] && StackAfter([], w[..|w| - 1]).Some?
    ensures var r, op := StackAfter([], w[..|w| - 1]).value, w[|w| - 1].op;
            || (op.NoOp? && r == s + [x])
            || (op == PushOp(x) && r == s)
            || (op.PopOp? && r == (s + [x]) + [op.symbol])
  {
    assert w != [];
    var r, op := StackAfter([], w[..|w| - 1]).value, w[|w| - 1].op;
    hide StackAfter;
    assert ApplyOp(r, op) == Some(s + [x]);
    match op {
      case NoOp =>
      case PushOp(y) => LastOf(r, y, s, x);
      case PopOp(y) => Without(r, s + [x]);
    }
  }

  lemma Regroup<T>(a: seq<T>, b: seq<T>, c: seq<T>, d: seq<T>, e: seq<T>, f: seq<T>)
    ensures ((a + b + c) + d + e) + f == a + b + (c + d + e + f)
  {}

  /** A word that leaves a symbol on the stack has a last unmatched push of that symbol. */
  lemma {:induction false} LastPush(w: seq<Transition>, s: seq<string>, x: string)
    returns (w1: seq<Transition>, t: Transition, w2: seq<Transition>)
    requires StackAfter([], w) == Some(s + [x])
    ensures w == w1 + [t] + w2 && t.op == PushOp(x)
    ensures StackAfter([], w1) == Some(s) && StackAfter([], w2) == Some([])
    decreases |w|
  {
    hide ApplyOp;
    Unwind(w, s, x);
    var w', z := w[..|w| - 1], w[|w| - 1];
    assert w == w' + [z];
    match z.op {
      case NoOp =>
        var y: seq<Transition>;
        w1, t, y := LastPush(w', s, x);
        w2 := y + [z];
        StackConcat([], y, [z]);
        NoOpAlone(z);
        assert w1 + [t] + w2 == (w1 + [t] + y) + [z];
      case PushOp(b) =>
        w1, t, w2 := w', z, [];
        assert w1 + [t] + w2 == w' + [z];
      case PopOp(b) =>
        var x1, tb, x2 := LastPush(w', s + [x], b);
        var y: seq<Transition>;
        w1, t, y := LastPush(x1, s, x);
        w2 := y + [tb] + x2 + [z];
        Bracket(y, tb, x2, z, b);
        Regroup(w1, [t], y, [tb], x2, [z]);
    }
  }

  lemma NoOpAlone(z: Transition)
    requires z.op.NoOp?
    ensures StackAfter([], [z]) == Some([])
  {
    assert [z][..0] == [];
  }

  /** A balanced word, then a push, a balanced word and the matching pop, are balanced. */
  lemma Bracket(y: seq<Transition>, t: Transition, x: seq<Transition>, z: Transition, b: string)
    requires StackAfter([], y) == Some([]) && StackAfter([], x) == Some([]) && t.op == PushOp(b) && z.op == PopOp(b)
    ensures StackAfter([], y + [t] + x + [z]) == Some([])
  {
    var w := y + [t] + x + [z];
    assert w[..|w| - 1] == y + [t] + x;
    assert (y + [t])[..|y|] == y;
    assert [] + [b] == [b];
    StackConcat([], y + [t], x);
    StackFrame([b], [], x);
    assert [b] + [] == [b];
  }

  // ----- runs of the zone graph and words of the automaton -----

  /** `w` leads from `n` to `q` through the automaton, and its steps turn the zone of `n` into that of `q`. */
  ghost predicate Leads(a: Automaton, n: Node<Matrix>, w: seq<Transition>, q: Node<Matrix>)
    requires Valid(a) && GoodNode(a, n)
  {
    && Path(a, n.loc, w, q.loc) && Word(a, w)
    && (WordDefined(a, w); PostZone(a, n.zone, ActsOf(a, w)) == Some(q.zone))
  }

  lemma LeadsConcat(a: Automaton, n: Node<Matrix>, x: seq<Transition>, q: Node<Matrix>, y: seq<Transition>, r: Node<Matrix>)
    requires Valid(a) && GoodNode(a, n) && GoodNode(a, q) && Leads(a, n, x, q) && Leads(a, q, y, r)
    ensures Leads(a, n, x + y, r)
  {
    hide PostZone, GoodNode, Path, ActsOf, Valid;
    PathConcat(a, n.loc, x, q.loc, y, r.loc);
    ActsConcat(a, x, y);
    WordDefined(a, x);
    WordDefined(a, y);
    ConcatZone(a, n, ActsOf(a, x), ActsOf(a, y));
  }

  lemma ConcatZone(a: Automaton, n: Node<Matrix>, x: seq<Action>, y: seq<Action>)
    requires GoodNode(a, n) && Storable(x, a.dim) && Storable(y, a.dim)
    ensures Good(a, n.zone) && Storable(x + y, a.dim)
    ensures var r := PostZone(a, n.zone, x); PostZone(a, n.zone, x + y) == if r.None? then None else PostZone(a, r.value, y)
  {
    PostZoneConcat(a, n.zone, x, y);
  }

  /** So is the zone behind a word. */
  lemma WordSettled(a: Automaton, n: Node<Matrix>, w: seq<Transition>, loc: string)
    requires Valid(a) && GoodNode(a, n) && Path(a, n.loc, w, loc) && Word(a, w)
    ensures Storable(ActsOf(a, w), a.dim)
    ensures var r := PostZone(a, n.zone, ActsOf(a, w)); r.Some? ==> GoodNode(a, Node(loc, r.value))
  {
    hide PostZone, Acts, Normal, Integral, Settled;
    WordDefined(a, w);
    PathWord(a, n.loc, w, loc);
    if w == [] {
      NothingChanges(a, n.zone);
    } else {
      var w', t := w[..|w| - 1], w[|w| - 1];
      assert w' + [t] == w && ValidTransition(a, t);
      WordDefined(a, w');
      ActsDefined(a, t);
      PostZoneConcat(a, n.zone, ActsOf(a, w'), Acts(a, t));
      var r := PostZone(a, n.zone, ActsOf(a, w'));
      if r.Some? {
        PostSettled(a, r.value, t);
      }
    }
  }

  lemma NothingChanges(a: Automaton, m: Matrix)
    requires Good(a, m)
    ensures Storable([], a.dim) && PostZone(a, m, []) == Some(m)
  {
    GoodProper(a, m);
  }

  lemma LeadsSplit(a: Automaton, n: Node<Matrix>, x: seq<Transition>, y: seq<Transition>, r: Node<Matrix>) returns (q: Node<Matrix>)
    requires Valid(a) && GoodNode(a, n) && Leads(a, n, x + y, r)
    ensures GoodNode(a, q) && Leads(a, n, x, q) && Leads(a, q, y, r)
  {
    hide PostZone, Path, ActsOf, Normal, Settled;
    var loc := PathSplit(a, n.loc, x, y, r.loc);
    PathWord(a, n.loc, x, loc);
    PathWord(a, loc, y, r.loc);
    ActsConcat(a, x, y);
    WordDefined(a, x);
    WordDefined(a, y);
    ConcatZone(a, n, ActsOf(a, x), ActsOf(a, y));
    WordSettled(a, n, x, loc);
    q := Node(loc, PostZone(a, n.zone, ActsOf(a, x)).value);
  }

  lemma OneWord(a: Automaton, p: string, t: Transition, q: string)
    requires ValidTransition(a, t)
    ensures Word(a, [t]) && ActsOf(a, [t]) == Acts(a, t)
    ensures Path(a, p, [t], q) <==> t in a.trans && t.src == p && t.tgt == q
  {
    assert [t][..0] == [];
    assert [] + Acts(a, t) == Acts(a, t);
  }

  /** A single transition is an edge of the zone graph. */
  lemma LeadsOne(a: Automaton, n: Node<Matrix>, t: Transition, q: Node<Matrix>)
    requires Valid(a) && GoodNode(a, n)
    ensures Leads(a, n, [t], q) ==> EdgeOf(t.op, q) in SystemOf(a).succ(n)
  {
    hide GoodNode, PostZone, Path, ActsOf, SystemOf;
    if Leads(a, n, [t], q) {
      assert ValidTransition(a, [t][0]);
      OneWord(a, n.loc, t, q.loc);
      var i :| 0 <= i < |a.trans| && a.trans[i] == t;
      ActsDefined(a, t);
      assert Enabled(a, n, i) && Target(a, n, i) == q;
      SuccOf(a, n, EdgeOf(t.op, q));
    }
  }

  lemma EdgeLeads(a: Automaton, n: Node<Matrix>, e: Edge<Matrix>) returns (t: Transition)
    requires Valid(a) && e in SystemOf(a).succ(n)
    ensures GoodNode(a, n) && GoodNode(a, e.tgt) && e == EdgeOf(t.op, e.tgt) && Leads(a, n, [t], e.tgt)
  {
    hide Normal, PostZone, Path, ActsOf, SystemOf, Settled;
    SuccOf(a, n, e);
    var i :| Enabled(a, n, i) && e == EdgeOf(a.trans[i].op, Target(a, n, i));
    t := a.trans[i];
    PostSettled(a, n.zone, t);
    OneWord(a, n.loc, t, e.tgt.loc);
    assert [t][0] == t;
  }

  /** A well-nested run spells a word that returns to the stack it started from. */
  lemma {:induction false} RunToWord(a: Automaton, n: Node<Matrix>, run: Run<Matrix>, q: Node<Matrix>) returns (w: seq<Transition>)
    requires Valid(a) && GoodNode(a, n) && IsRun(SystemOf(a), n, run, q)
    ensures GoodNode(a, q) && Leads(a, n, w, q) && StackAfter([], w) == Some([])
    decreases run
  {
    hide GoodNode, Valid, Leads, SystemOf, StackAfter;
    match run
    case Here =>
      w := [];
      NoSteps(a, n);
    case Step(prev, from) =>
      var w' := RunToWord(a, n, prev, from);
      var t := EdgeLeads(a, from, Nop(q));
      w := w' + [t];
      LeadsConcat(a, n, w', from, [t], q);
      StackConcat([], w', [t]);
      NoOpAlone(t);
    case Call(prev, from, b, entry, inner, exit) =>
      var w' := RunToWord(a, n, prev, from);
      var t := EdgeLeads(a, from, Push(b, entry));
      var x := RunToWord(a, entry, inner, exit);
      var z := EdgeLeads(a, exit, Pop(b, q));
      w := w' + [t] + x + [z];
      LeadsConcat(a, n, w', from, [t], entry);
      LeadsConcat(a, n, w' + [t], entry, x, exit);
      LeadsConcat(a, n, w' + [t] + x, exit, [z], q);
      Bracket(w', t, x, z, b);
  }

  lemma NoSteps(a: Automaton, n: Node<Matrix>)
    requires Valid(a) && GoodNode(a, n)
    ensures Leads(a, n, [], n) && StackAfter([], []) == Some([])
    ensures forall q: Node<Matrix> :: Leads(a, n, [], q) ==> q == n
  {
    hide Proper;
  }

  /** A word that returns to the empty stack is spelled by a well-nested run. */
  lemma {:induction false} WordToRun(a: Automaton, n: Node<Matrix>, w: seq<Transition>, q: Node<Matrix>) returns (run: Run<Matrix>)
    requires Valid(a) && GoodNode(a, n) && Leads(a, n, w, q) && StackAfter([], w) == Some([])
    ensures IsRun(SystemOf(a), n, run, q)
    decreases |w|
  {
    hide GoodNode, Valid, Leads, SystemOf, StackAfter;
    if w == [] {
      NoSteps(a, n);
      run := Here;
    } else {
      var w', z := w[..|w| - 1], w[|w| - 1];
      assert w == w' + [z];
      var exit := LeadsSplit(a, n, w', [z], q);
      LeadsOne(a, exit, z, q);
      UnwindEmpty(w);
      if z.op.NoOp? {
        var prev := WordToRun(a, n, w', exit);
        run := Step(prev, exit);
      } else {
        var b := z.op.symbol;
        var w1, t, w2 := LastPush(w', [], b);
        var entry := LeadsSplit(a, n, w1 + [t], w2, exit);
        var from := LeadsSplit(a, n, w1, [t], entry);
        LeadsOne(a, from, t, entry);
        var prev := WordToRun(a, n, w1, from);
        var inner := WordToRun(a, entry, w2, exit);
        run := Call(prev, from, b, entry, inner, exit);
      }
    }
  }

  lemma UnwindEmpty(w: seq<Transition>)
    requires w != [] && StackAfter([], w) == Some([])
    ensures StackAfter([], w[..|w| - 1]).Some?
    ensures var r, op := StackAfter([], w[..|w| - 1]).value, w[|w| - 1].op;
            || (op.NoOp? && r == [])
            || (op.PopOp? && r == [] + [op.symbol])
  {
    var r, op := StackAfter([], w[..|w| - 1]).value, w[|w| - 1].op;
    assert ApplyOp(r, op) == Some([]);
    if op.PushOp? {
      assert |r + [op.symbol]| > 0;
    }
  }

  /** The zone graph reaches a location by a well-nested run exactly when the automaton, started with some clock values of the
      zone and an empty stack, can get there with an empty stack. Guards, invariants and resets may be of any kind. */
  lemma ZoneGraphExact(a: Automaton, n: Node<Matrix>, loc: string)
    requires Valid(a) && GoodNode(a, n)
    ensures ReachesLocation(SystemOf(a), n, loc) <==> Computes(a, n, loc)
  {
    hide Normal, PostZone, SystemOf, Path, StackAfter, ActsOf, IsRun, Valid;
    var ts := SystemOf(a);
    if ReachesLocation(ts, n, loc) {
      var q: Node<Matrix> :| Reaches(ts, n, q) && q.loc == loc;
      var run :| IsRun(ts, n, run, q);
      var w := RunToWord(a, n, run, q);
      WordDefined(a, w);
      PostZoneSurvives(a, n.zone, ActsOf(a, w));
      assert CanRun(n.zone, ActsOf(a, w));
    }
    if Computes(a, n, loc) {
      var w: seq<Transition> :| Path(a, n.loc, w, loc) && StackAfter([], w) == Some([]) && Word(a, w) && CanRun(n.zone, ActsOf(a, w));
      WordDefined(a, w);
      var v: Valuation, v': Valuation :| In(n.zone, v) && RunsTo(v, ActsOf(a, w), v');
      PostZoneExact(a, n.zone, ActsOf(a, w), v');
      var q := Node(loc, PostZone(a, n.zone, ActsOf(a, w)).value);
      var run := WordToRun(a, n, w, q);
      assert Reaches(ts, n, q);
    }
  }
}
