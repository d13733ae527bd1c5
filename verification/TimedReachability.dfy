/** Timed automata without a stack: the search with covering, by global clock bounds, decides what they can reach. */
module TimedReachability {
  import opened Wrappers
  import opened Zones
  import opened Encoding
  import opened LuSimulation
  import opened Extrapolation
  import opened ZoneGraph
  import opened LocalBounds
  import opened Integrality
  import opened FiniteIndex
  import opened Pushdown
  import opened Saturation
  import opened TimedPushdown
  import opened TimedExploration
  import Covering
  import CoveringReachability

  type ZoneNode = Node<Matrix>

  ghost predicate NoStack(a: Automaton) {
    forall i :: 0 <= i < |a.trans| ==> a.trans[i].op.NoOp?
  }

  /** The clock bounds account for all constraints; resets are to constants. */
  ghost predicate Accounts(a: Automaton, l: seq<int>, u: seq<int>)
    requires Valid(a)
  {
    && ClockBounds(l, a.dim) && ClockBounds(u, a.dim)
    && forall i :: 0 <= i < |a.trans| ==> ValidTransition(a, a.trans[i]) && AllAdmissible(Acts(a, a.trans[i]), l, u)
  }

  /** The zone of `n` is included in the abstraction of that of `m`. */
  ghost predicate CoveredBy(a: Automaton, l: seq<int>, u: seq<int>, n: ZoneNode, m: ZoneNode) {
    n == m || (GoodNode(a, n) && GoodNode(a, m) && n.loc == m.loc && SimIncluded(n.zone, m.zone, l, u))
  }

  function Targets(edges: seq<Edge<Matrix>>): (r: seq<ZoneNode>)
    ensures |r| == |edges| && forall i :: 0 <= i < |edges| ==> r[i] == edges[i].tgt
  {
    seq(|edges|, i requires 0 <= i < |edges| => edges[i].tgt)
  }

  ghost function Initials(a: Automaton, start: string): seq<ZoneNode>
    requires Valid(a) && start in a.locs
  {
    var r := InitialNode(a, start);
    if r.Some? then [r.value] else []
  }

  /** The zone graph, with nodes hashed by location, compared by location and simulation of zones, and accepting locations. */
  ghost function CoveringOf(a: Automaton, l: seq<int>, u: seq<int>, start: string, hash: string -> nat, goal: string -> bool)
    : Covering.System<ZoneNode>
    requires Valid(a) && start in a.locs
  {
    Covering.System(Initials(a, start), (n: ZoneNode) => Targets(SystemOf(a).succ(n)), (n: ZoneNode, m: ZoneNode) => CoveredBy(a, l, u, n, m),
                    (n: ZoneNode) => hash(n.loc), (n: ZoneNode) => goal(n.loc))
  }

  // ----- edges -----

  lemma NoStackEdge(a: Automaton, n: ZoneNode, e: Edge<Matrix>)
    requires Valid(a) && NoStack(a) && e in SystemOf(a).succ(n)
    ensures e.Nop?
  {
    hide PostZone, Good, SuccFrom;
    SuccOf(a, n, e);
  }

  lemma TargetOf(a: Automaton, n: ZoneNode, t: ZoneNode)
    requires Valid(a) && NoStack(a)
    ensures t in Targets(SystemOf(a).succ(n)) <==> Nop(t) in SystemOf(a).succ(n)
  {
    hide SystemOf;
    var edges := SystemOf(a).succ(n);
    if t in Targets(edges) {
      var i :| 0 <= i < |edges| && Targets(edges)[i] == t;
      NoStackEdge(a, n, edges[i]);
    }
    if Nop(t) in edges {
      var i :| 0 <= i < |edges| && edges[i] == Nop(t);
      assert Targets(edges)[i] == t;
    }
  }

  // ----- the comparison is a simulation -----

  /** Without extrapolation the clock bounds play no role. */
  lemma {:induction false} PlainUnbounded(m: Matrix, acts: seq<Action>, l: seq<int>, u: seq<int>, l': seq<int>, u': seq<int>)
    requires Proper(m, l, u) && Proper(m, l', u') && AllDefined(acts, |m|) && Plain(acts)
    ensures Post(m, acts, l, u) == Post(m, acts, l', u')
    decreases |acts|
  {
    hide Normal;
    if acts != [] {
      ApplyProper(m, acts[0], l, u);
      ApplyProper(m, acts[0], l', u');
      var r := Apply(m, acts[0], l, u);
      assert r == Apply(m, acts[0], l', u');
      if r.Some? {
        PlainUnbounded(r.value, acts[1..], l, u, l', u');
      }
    }
  }

  lemma GlobalProper(a: Automaton, l: seq<int>, u: seq<int>, m: Matrix)
    requires Good(a, m) && ClockBounds(l, a.dim) && ClockBounds(u, a.dim)
    ensures Proper(m, l, u)
  {}

  lemma EdgeSimulated(a: Automaton, l: seq<int>, u: seq<int>, i: int, m1: Matrix, m2: Matrix)
    requires Valid(a) && Accounts(a, l, u) && 0 <= i < |a.trans| && ValidTransition(a, a.trans[i]) && Good(a, m1) && Good(a, m2)
    requires Storable(Acts(a, a.trans[i]), a.dim) && SimIncluded(m1, m2, l, u) && PostZone(a, m1, Acts(a, a.trans[i])).Some?
    ensures PostZone(a, m2, Acts(a, a.trans[i])).Some?
    ensures SimIncluded(PostZone(a, m1, Acts(a, a.trans[i])).value, PostZone(a, m2, Acts(a, a.trans[i])).value, l, u)
  {
    hide Acts, SimIncluded, Normal, Post, Admissible;
    var acts, o := Acts(a, a.trans[i]), NoBounds(a.dim);
    ActsDefined(a, a.trans[i]);
    GoodProper(a, m1);
    GoodProper(a, m2);
    GlobalProper(a, l, u, m1);
    GlobalProper(a, l, u, m2);
    PlainUnbounded(m1, acts, l, u, o, o);
    PlainUnbounded(m2, acts, l, u, o, o);
    SubsumptionIsSimulation(m1, m2, acts, l, u);
  }

  lemma SuccessorCovered(a: Automaton, l: seq<int>, u: seq<int>, n: ZoneNode, m: ZoneNode, t: ZoneNode) returns (t': ZoneNode)
    requires Valid(a) && NoStack(a) && Accounts(a, l, u) && CoveredBy(a, l, u, n, m) && Nop(t) in SystemOf(a).succ(n)
    ensures Nop(t') in SystemOf(a).succ(m) && CoveredBy(a, l, u, t, t')
  {
    hide PostZone, Good, SystemOf, Accounts, SimIncluded, Acts, NoStack;
    if n == m {
      t' := t;
    } else {
      SuccOf(a, n, Nop(t));
      var i :| Enabled(a, n, i) && Nop(t) == EdgeOf(a.trans[i].op, Target(a, n, i));
      ActsDefined(a, a.trans[i]);
      EdgeSimulated(a, l, u, i, n.zone, m.zone);
      t' := Target(a, m, i);
      SuccOf(a, m, Nop(t'));
      assert ValidTransition(a, a.trans[i]);
    }
  }

  lemma CoveringSimulating(a: Automaton, l: seq<int>, u: seq<int>, start: string, hash: string -> nat, goal: string -> bool)
    requires Valid(a) && NoStack(a) && Accounts(a, l, u) && start in a.locs
    ensures Covering.Simulating(CoveringOf(a, l, u, start, hash, goal))
  {
    hide SystemOf, Good, SimIncluded, Accounts, Initials, NoStack;
    var cs := CoveringOf(a, l, u, start, hash, goal);
    forall n: ZoneNode, m: ZoneNode, p: ZoneNode | cs.le(n, m) && cs.le(m, p) ensures cs.le(n, p) {
      if n != m && m != p {
        SimIncludedTransitive(n.zone, m.zone, p.zone, l, u);
      }
    }
    forall n: ZoneNode, m: ZoneNode, t: ZoneNode | cs.le(n, m) && t in cs.succ(n)
      ensures Covering.HasMatch(cs, t, m)
    {
      TargetOf(a, n, t);
      var t' := SuccessorCovered(a, l, u, n, m, t);
      TargetOf(a, m, t');
      assert t' in cs.succ(m) && cs.le(t, t');
    }
  }

  // ----- the search ends -----

  ghost function GlobalClass(a: Automaton, l: seq<int>, u: seq<int>, n: ZoneNode): ZoneNode {
    if GoodNode(a, n) && ClockBounds(l, a.dim) && ClockBounds(u, a.dim) then Node(n.loc, ExtraLuPlus(n.zone, l, u)) else n
  }

  ghost function GlobalClasses(a: Automaton): set<ZoneNode>
    requires a.dim >= 1
  {
    set loc: string, m: Matrix | loc in a.locs.Keys && m in Matrices(a.dim, (a.dim - 1) * MAX_VALUE) :: Node(loc, m)
  }

  ghost function GlobalIndex(a: Automaton, l: seq<int>, u: seq<int>): CoveringReachability.Index<ZoneNode, ZoneNode>
    requires a.dim >= 1
  {
    CoveringReachability.Index((n: ZoneNode) => GoodNode(a, n), (n: ZoneNode) => GlobalClass(a, l, u, n), GlobalClasses(a))
  }

  lemma GlobalClassFound(a: Automaton, l: seq<int>, u: seq<int>, n: ZoneNode)
    requires Valid(a) && Accounts(a, l, u) && GoodNode(a, n)
    ensures GlobalClass(a, l, u, n) in GlobalClasses(a)
  {
    hide Integral, Matrices, ExtraLuPlus, Normal;
    GlobalProper(a, l, u, n.zone);
    Representative(n.zone, l, u);
  }

  lemma SameGlobalClass(a: Automaton, l: seq<int>, u: seq<int>, n: ZoneNode, m: ZoneNode)
    requires Valid(a) && Accounts(a, l, u) && GoodNode(a, n) && GoodNode(a, m) && GlobalClass(a, l, u, n) == GlobalClass(a, l, u, m)
    ensures CoveredBy(a, l, u, n, m)
  {
    hide ExtraLuPlus, Normal, SimIncluded;
    GlobalProper(a, l, u, n.zone);
    GlobalProper(a, l, u, m.zone);
    SameRepresentative(n.zone, m.zone, l, u);
  }

  lemma CoveringFinite(a: Automaton, l: seq<int>, u: seq<int>, start: string, hash: string -> nat, goal: string -> bool)
    requires Valid(a) && NoStack(a) && Accounts(a, l, u) && start in a.locs
    ensures CoveringReachability.Finite(CoveringOf(a, l, u, start, hash, goal), GlobalIndex(a, l, u))
  {
    hide SystemOf, GoodNode, Integral, GlobalClass, GlobalClasses, CoveredBy, Accounts, NoStack, InitialNode;
    var cs, ix := CoveringOf(a, l, u, start, hash, goal), GlobalIndex(a, l, u);
    forall n: ZoneNode, t: ZoneNode | ix.good(n) && t in cs.succ(n) ensures ix.good(t) {
      TargetOf(a, n, t);
      EdgeGood(a, n, Nop(t));
    }
    forall n: ZoneNode | ix.good(n) ensures ix.cls(n) in ix.classes {
      GlobalClassFound(a, l, u, n);
    }
    forall n: ZoneNode, m: ZoneNode | ix.good(n) && ix.good(m) && ix.cls(n) == ix.cls(m) ensures cs.le(n, m) {
      SameGlobalClass(a, l, u, n, m);
    }
  }

  // ----- what the search decides -----

  lemma {:induction false} RunFromSteps(a: Automaton, cs: Covering.System<ZoneNode>, init: ZoneNode, run: seq<ZoneNode>, q: ZoneNode)
    returns (run': Run<Matrix>)
    requires Valid(a) && NoStack(a) && Covering.IsRun(cs, run, q)
    requires cs.initial == [init] && forall n: ZoneNode :: cs.succ(n) == Targets(SystemOf(a).succ(n))
    ensures IsRun(SystemOf(a), init, run', q)
    decreases |run|
  {
    hide SystemOf, NoStack;
    if |run| == 1 {
      run' := Here;
    } else {
      var k := |run| - 1;
      assert Covering.IsRun(cs, run[..k], run[k - 1]);
      var prev := RunFromSteps(a, cs, init, run[..k], run[k - 1]);
      TargetOf(a, run[k - 1], q);
      run' := Step(prev, run[k - 1]);
    }
  }

  lemma {:induction false} StepsFromRun(a: Automaton, cs: Covering.System<ZoneNode>, init: ZoneNode, run: Run<Matrix>, q: ZoneNode)
    requires Valid(a) && NoStack(a) && IsRun(SystemOf(a), init, run, q)
    requires cs.initial == [init] && forall n: ZoneNode :: cs.succ(n) == Targets(SystemOf(a).succ(n))
    ensures Covering.Reachable(cs, q)
    decreases run
  {
    hide SystemOf, NoStack;
    match run
    case Here =>
      Covering.InitialReachable(cs, init);
    case Step(prev, from) =>
      StepsFromRun(a, cs, init, prev, from);
      TargetOf(a, from, q);
      Covering.SuccessorReachable(cs, from, q);
    case Call(prev, from, b, entry, inner, exit) =>
      NoStackEdge(a, from, Push(b, entry));
  }

  lemma ReachedExact(a: Automaton, cs: Covering.System<ZoneNode>, init: ZoneNode, q: ZoneNode)
    requires Valid(a) && NoStack(a)
    requires cs.initial == [init] && forall n: ZoneNode :: cs.succ(n) == Targets(SystemOf(a).succ(n))
    ensures Covering.Reachable(cs, q) <==> Reaches(SystemOf(a), init, q)
  {
    hide SystemOf, NoStack, IsRun;
    if Covering.Reachable(cs, q) {
      var run: seq<ZoneNode> :| Covering.IsRun(cs, run, q);
      var run' := RunFromSteps(a, cs, init, run, q);
    }
    if Reaches(SystemOf(a), init, q) {
      var run :| IsRun(SystemOf(a), init, run, q);
      StepsFromRun(a, cs, init, run, q);
    }
  }

  ghost predicate Accepts(a: Automaton, start: string, goal: string -> bool)
    requires start in a.locs
  {
    exists loc: string :: goal(loc) && CanReach(a, start, loc)
  }

  /** The question that the search decides is whether the automaton, with all clocks at zero in `start`, can get to an accepting
      location; and the search ends, although the zones are not extrapolated. */
  lemma SearchDecides(a: Automaton, l: seq<int>, u: seq<int>, start: string, hash: string -> nat, goal: string -> bool)
    requires Valid(a) && NoStack(a) && Accounts(a, l, u) && start in a.locs
    ensures var cs := CoveringOf(a, l, u, start, hash, goal);
            && Covering.Simulating(cs) && CoveringReachability.Finite(cs, GlobalIndex(a, l, u))
            && ((exists q: ZoneNode :: Covering.Reachable(cs, q) && cs.accepting(q)) <==> Accepts(a, start, goal))
  {
    hide SystemOf, Covering.Simulating, CoveringReachability.Finite, Covering.IsRun, Computes, CanReach, InitialNode, Reaches, Accounts,
      NoStack, Valid;
    var cs := CoveringOf(a, l, u, start, hash, goal);
    CoveringSimulating(a, l, u, start, hash, goal);
    CoveringFinite(a, l, u, start, hash, goal);
    forall loc: string
      ensures CanReach(a, start, loc) <==> exists q: ZoneNode :: Covering.Reachable(cs, q) && q.loc == loc
    {
      ReachableLocation(a, l, u, start, hash, goal, loc);
    }
    if q: ZoneNode :| Covering.Reachable(cs, q) && cs.accepting(q) {
      assert CanReach(a, start, q.loc);
    }
    if loc: string :| goal(loc) && CanReach(a, start, loc) {
      var q: ZoneNode :| Covering.Reachable(cs, q) && q.loc == loc;
      assert cs.accepting(q);
    }
  }

  lemma ReachableLocation(a: Automaton, l: seq<int>, u: seq<int>, start: string, hash: string -> nat, goal: string -> bool, loc: string)
    requires Valid(a) && NoStack(a) && start in a.locs
    ensures CanReach(a, start, loc)
       <==> exists q: ZoneNode :: Covering.Reachable(CoveringOf(a, l, u, start, hash, goal), q) && q.loc == loc
  {
    hide SystemOf, Computes, CanReach, InitialNode, IsRun, NoStack;
    var cs, r := CoveringOf(a, l, u, start, hash, goal), InitialNode(a, start);
    ComputesFromZero(a, start, loc);
    if r.Some? {
      ZoneGraphExact(a, r.value, loc);
      forall q: ZoneNode ensures Covering.Reachable(cs, q) <==> Reaches(SystemOf(a), r.value, q) {
        ReachedExact(a, cs, r.value, q);
      }
    }
  }

  /** The search on such an automaton, put together: its hypotheses hold, so that it ends, and its verdict is about the automaton. */
  lemma SearchAnswers(a: Automaton, l: seq<int>, u: seq<int>, start: string, hash: string -> nat, goal: string -> bool)
    requires Valid(a) && NoStack(a) && Accounts(a, l, u) && start in a.locs
    ensures var cs := CoveringOf(a, l, u, start, hash, goal);
            && Covering.Simulating(cs) && CoveringReachability.Finite(cs, GlobalIndex(a, l, u))
            && forall verdict :: CoveringReachability.Answers(cs, verdict) ==>
                 (verdict.Reached? ==> Accepts(a, start, goal)) && (verdict.Unreached? ==> !Accepts(a, start, goal))
  {
    hide SystemOf, Covering.Simulating, CoveringReachability.Finite, Covering.IsRun, InitialNode, Accounts, NoStack, Valid, Accepts;
    SearchDecides(a, l, u, start, hash, goal);
  }
}
