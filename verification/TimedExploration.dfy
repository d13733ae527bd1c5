/** The exploration of a pushdown timed automaton: it ends, although nothing is extrapolated, and when all edges carry the order of
    local bounds, it answers exactly what the automaton can do when it starts with all clocks at zero. */
module TimedExploration {
  import opened Wrappers
  import opened Bounds
  import opened Zones
  import opened Encoding
  import opened LuSimulation
  import opened Extrapolation
  import opened ZoneGraph
  import opened EdgeRuns
  import opened Integrality
  import opened FiniteIndex
  import opened LocalBounds
  import opened Pushdown
  import opened Saturation
  import opened Explore
  import opened TimedPushdown
  import opened LocalSimulation
  import LocalExact
  import Machine

  // ----- the exploration ends -----

  lemma EdgeGood(a: Automaton, n: Node<Matrix>, e: Edge<Matrix>)
    requires Valid(a) && e in SystemOf(a).succ(n)
    ensures GoodNode(a, e.tgt)
  {
    hide SystemOf, GoodNode, Acts, PostZone;
    SuccOf(a, n, e);
    var i :| Enabled(a, n, i) && e == EdgeOf(a.trans[i].op, Target(a, n, i));
  }

  /** What the comparison can tell of a node: its location, the extrapolation of its zone by the bounds of that location, and the
      diagonal constraints that it entails there. */
  datatype Class = Class(loc: string, zone: Matrix, entailed: set<Machine.ClockConstraint>)

  function DiagonalsAt(a: Automaton, loc: string): set<Machine.ClockConstraint>
    requires loc in a.locs
  {
    set c | c in Diagonals(GuardsOf(a, loc))
  }

  lemma LocalProper(a: Automaton, loc: string, m: Matrix)
    requires Valid(a) && loc in a.locs && Good(a, m)
    ensures Proper(m, Clipped(Low(a, loc)), Clipped(Up(a, loc)))
  {
    hide Normal, GuardsOf, Lowers, Uppers;
    GuardsOfFitting(a, loc);
    LooselyBounded(GuardsOf(a, loc), a.dim);
    ClippedBounds(Low(a, loc), a.dim);
    ClippedBounds(Up(a, loc), a.dim);
  }

  ghost function ClassOf(a: Automaton, n: Node<Matrix>): Class {
    if Valid(a) && GoodNode(a, n) then
      LocalProper(a, n.loc, n.zone);
      Class(n.loc, ExtraLuPlus(n.zone, Clipped(Low(a, n.loc)), Clipped(Up(a, n.loc))),
            set c | c in DiagonalsAt(a, n.loc) && Entails(n.zone, c))
    else Class("", [[ZERO]], {})
  }

  ghost function Subsets<T>(s: set<T>): set<set<T>> {
    set t: set<T> | t <= s
  }

  ghost function Classes(a: Automaton): set<Class>
    requires a.dim >= 1
  {
    set loc: string, m: Matrix, d: set<Machine.ClockConstraint> |
      loc in a.locs.Keys && m in Matrices(a.dim, (a.dim - 1) * MAX_VALUE) && d in Subsets(DiagonalsAt(a, loc)) :: Class(loc, m, d)
  }

  lemma ClassFound(a: Automaton, n: Node<Matrix>)
    requires Valid(a) && GoodNode(a, n)
    ensures ClassOf(a, n) in Classes(a)
  {
    hide Integral, Matrices, ExtraLuPlus, Entails, DiagonalsAt, Normal, Low, Up;
    LocalProper(a, n.loc, n.zone);
    Representative(n.zone, Clipped(Low(a, n.loc)), Clipped(Up(a, n.loc)));
    assert ClassOf(a, n).entailed in Subsets(DiagonalsAt(a, n.loc));
  }

  /** Nodes of one class stand for each other. */
  lemma SameClass(a: Automaton, n: Node<Matrix>, m: Node<Matrix>)
    requires Valid(a) && GoodNode(a, n) && GoodNode(a, m) && ClassOf(a, n) == ClassOf(a, m)
    ensures Pushdown.Le(SystemOf(a), n, m)
  {
    hide ExtraLuPlus, Entails, Normal, SimIncluded, GuardsOf, Lowers, Uppers, Diagonals, SuccFrom;
    LocalProper(a, n.loc, n.zone);
    LocalProper(a, n.loc, m.zone);
    SameRepresentative(n.zone, m.zone, Clipped(Low(a, n.loc)), Clipped(Up(a, n.loc)));
    GoodPositive(a, n.zone);
    GoodPositive(a, m.zone);
    ClippedIncluded(n.zone, m.zone, Low(a, n.loc), Up(a, n.loc));
    forall c | c in Diagonals(GuardsOf(a, n.loc)) && Entails(n.zone, c) ensures Entails(m.zone, c) {
      assert c in ClassOf(a, n).entailed;
    }
  }

  lemma GoodPositive(a: Automaton, m: Matrix)
    requires Good(a, m)
    ensures Positive(m)
  {}

  ghost function IndexOf(a: Automaton): Index<Matrix, Class>
    requires a.dim >= 1
  {
    Index((n: Node<Matrix>) => GoodNode(a, n), (n: Node<Matrix>) => ClassOf(a, n), Classes(a))
  }

  /** The comparison has finitely many classes on integral zones, and is a preorder: all that the exploration needs to end,
      whatever the automaton. */
  lemma ExplorationEnds(a: Automaton)
    requires Valid(a)
    ensures Preorder(SystemOf(a)) && Finite(SystemOf(a), IndexOf(a))
  {
    hide SystemOf, GoodNode, Integral, ClassOf, Classes, Preorder;
    ComparisonPreorder(a);
    var ts, ix := SystemOf(a), IndexOf(a);
    forall n: Node<Matrix>, e: Edge<Matrix> | ix.good(n) && e in ts.succ(n) ensures ix.good(e.tgt) {
      EdgeGood(a, n, e);
    }
    forall n: Node<Matrix> | ix.good(n) ensures ix.cls(n) in ix.classes {
      ClassFound(a, n);
    }
    forall n: Node<Matrix>, m: Node<Matrix> | ix.good(n) && ix.good(m) && ix.cls(n) == ix.cls(m)
      ensures Pushdown.Equivalent(ts, n, m)
    {
      SameClass(a, n, m);
      SameClass(a, m, n);
    }
  }

  // ----- the initial node -----

  function StartSteps(a: Automaton, loc: string): seq<Action>
    requires loc in a.locs
  {
    InitialSteps(a.locs[loc].delay, a.locs[loc].inv, false)
  }

  lemma StartStays(a: Automaton, loc: string)
    requires Valid(a) && loc in a.locs
    ensures StartSteps(a, loc) == StaySteps(a, loc) && Storable(StartSteps(a, loc), a.dim)
  {
    hide Storable;
    StayStorable(a, loc);
    assert StaySteps(a, loc) + [] == StaySteps(a, loc);
  }

  lemma ZeroGood(a: Automaton)
    requires Valid(a)
    ensures Good(a, ZeroMatrix(a.dim))
  {
    ZeroMatrixProper(a.dim, NoBounds(a.dim), NoBounds(a.dim));
    assert Equals(0.0, 0);
  }

  lemma StartSettled(a: Automaton, loc: string)
    requires Valid(a) && loc in a.locs
    ensures Good(a, ZeroMatrix(a.dim)) && Storable(StartSteps(a, loc), a.dim)
    ensures var r := PostZone(a, ZeroMatrix(a.dim), StartSteps(a, loc)); r.Some? ==> Settled(a, loc, r.value)
  {
    ZeroGood(a);
    StartStays(a, loc);
    StaySettled(a, loc, ZeroMatrix(a.dim));
  }

  /** The node that the exploration starts from; none when all clocks at zero violate the invariant. */
  ghost function InitialNode(a: Automaton, loc: string): (r: Option<Node<Matrix>>)
    requires Valid(a) && loc in a.locs
    ensures r.Some? ==> r.value.loc == loc && GoodNode(a, r.value)
  {
    StartSettled(a, loc);
    var r := PostZone(a, ZeroMatrix(a.dim), StartSteps(a, loc));
    if r.None? then None else Some(Node(loc, r.value))
  }

  /** Its zone holds exactly the valuations that the automaton can wait for in `loc`. */
  lemma InitialNodeExact(a: Automaton, loc: string, v: Valuation)
    requires Valid(a) && loc in a.locs
    ensures var r := InitialNode(a, loc);
            r.Some? && In(r.value.zone, v) <==> Stays(a, loc, Zeros(a.dim), v)
  {
    hide Good, Settled, PostZone, RunsTo, ZeroMatrix, Zeros, Arrives;
    StartSettled(a, loc);
    ArrivesExact(Zeros(a.dim), a.locs[loc].delay, a.locs[loc].inv, v);
    assert StartSteps(a, loc) == GuardActions(a.locs[loc].inv) + DelayActions(a.locs[loc].delay, a.locs[loc].inv);
    PostZoneExact(a, ZeroMatrix(a.dim), StartSteps(a, loc), v);
    forall w: Valuation ensures In(ZeroMatrix(a.dim), w) <==> w == Zeros(a.dim) {
      ZeroMatrixExact(a.dim, w);
    }
  }

  // ----- what the exploration answers -----

  ghost predicate Starts(a: Automaton, loc: string, acts: seq<Action>)
    requires loc in a.locs
  {
    exists v: Valuation, w: Valuation :: Stays(a, loc, Zeros(a.dim), v) && RunsTo(v, acts, w)
  }

  /** From all clocks at zero and an empty stack in `start`, the automaton can get to `loc` with an empty stack. */
  ghost predicate CanReach(a: Automaton, start: string, loc: string)
    requires start in a.locs
  {
    exists w: seq<Transition> :: Path(a, start, w, loc) && StackAfter([], w) == Some([]) && Word(a, w) && Starts(a, start, ActsOf(a, w))
  }

  lemma ComputesFromZero(a: Automaton, start: string, loc: string)
    requires Valid(a) && start in a.locs
    ensures var r := InitialNode(a, start); r.Some? && Computes(a, r.value, loc) <==> CanReach(a, start, loc)
  {
    hide InitialNode, Stays, RunsTo, Zeros, Path, StackAfter, ActsOf, Word;
    forall v: Valuation
      ensures var r := InitialNode(a, start); r.Some? && In(r.value.zone, v) <==> Stays(a, start, Zeros(a.dim), v)
    {
      InitialNodeExact(a, start, v);
    }
    forall acts: seq<Action>
      ensures var r := InitialNode(a, start); r.Some? && CanRun(r.value.zone, acts) <==> Starts(a, start, acts)
    {
      var r := InitialNode(a, start);
      if Starts(a, start, acts) {
        var v: Valuation, w: Valuation :| Stays(a, start, Zeros(a.dim), v) && RunsTo(v, acts, w);
        assert In(r.value.zone, v);
      }
    }
  }

  /** Whatever the automaton, locations can only be missed, never invented, as long as nothing is pushed. */
  lemma HeldIsReachable(a: Automaton, start: string, mode: bool, c: Content<Matrix>, loc: string)
    requires Valid(a) && start in a.locs && InitialNode(a, start).Some?
    requires Inv(SystemOf(a), mode, c) && c.pushes == {} && HoldsLocation(c, InitialNode(a, start).value, loc)
    ensures CanReach(a, start, loc)
  {
    hide SystemOf, Justified, Computes, CanReach, InitialNode, Reaches;
    var init := InitialNode(a, start).value;
    UnpushedExact(SystemOf(a), c);
    var p: Node<Matrix> :| (init, p) in c.slm && p.loc == loc;
    assert Reaches(SystemOf(a), (init, p).0, (init, p).1);
    ZoneGraphExact(a, init, loc);
    ComputesFromZero(a, start, loc);
  }

  /** When all edges carry the order of local bounds, what a finished exploration holds for its initial root is what the automaton
      can do from zero with real clock values and a real stack. */
  lemma HeldIsComputed(a: Automaton, start: string, mode: bool, c: Content<Matrix>, loc: string)
    requires Valid(a) && AllCarry(a) && start in a.locs && InitialNode(a, start).Some?
    requires Inv(SystemOf(a), mode, c) && Saturated(SystemOf(a), mode, c) && InitialNode(a, start).value in c.roots
    ensures HoldsLocation(c, InitialNode(a, start).value, loc) <==> CanReach(a, start, loc)
  {
    hide Inv, Saturated, SystemOf, HoldsLocation, ReachesLocation, Computes, CanReach, InitialNode, AllCarry, Simulating, Coarser;
    var init := InitialNode(a, start).value;
    ZoneGraphSimulating(a);
    HeldExact(SystemOf(a), LuSystemOf(a), mode, c, init, loc);
    ZoneGraphExact(a, init, loc);
    ComputesFromZero(a, start, loc);
  }

  /** The condition can be computed from the automaton, edge by edge. */
  lemma CheckedIsComputed(a: Automaton, start: string, mode: bool, c: Content<Matrix>, loc: string)
    requires Valid(a) && LocalExact.AllSteady(a) && LocalExact.AllGapless(a) && start in a.locs && InitialNode(a, start).Some?
    requires Inv(SystemOf(a), mode, c) && Saturated(SystemOf(a), mode, c) && InitialNode(a, start).value in c.roots
    ensures HoldsLocation(c, InitialNode(a, start).value, loc) <==> CanReach(a, start, loc)
  {
    hide Inv, Saturated, SystemOf, HoldsLocation, CanReach, InitialNode, AllCarry, LocalExact.AllSteady, LocalExact.AllGapless;
    LocalExact.GaplessExact(a);
    HeldIsComputed(a, start, mode, c, loc);
  }

  /** The exploration of such an automaton, put together: its hypotheses hold for the initial node, so that it ends, and whatever it
      answers are the locations that the automaton can reach. */
  lemma ExplorationAnswers(a: Automaton, start: string)
    requires Valid(a) && LocalExact.AllSteady(a) && LocalExact.AllGapless(a) && start in a.locs && InitialNode(a, start).Some?
    ensures var ts, ix, init := SystemOf(a), IndexOf(a), InitialNode(a, start).value;
            && Preorder(ts) && Finite(ts, ix) && ix.good(init)
            && forall mode: bool, reachable: seq<string>, content: Content<Matrix> ::
                 Answers(ts, mode, init, reachable, content) ==> forall loc :: loc in reachable <==> CanReach(a, start, loc)
  {
    hide Inv, Saturated, SystemOf, HoldsLocation, CanReach, InitialNode, Finite, Preorder, GoodNode, LocalExact.AllSteady,
      LocalExact.AllGapless;
    ExplorationEnds(a);
    var ts, init := SystemOf(a), InitialNode(a, start).value;
    forall mode: bool, reachable: seq<string>, content: Content<Matrix>, loc | Answers(ts, mode, init, reachable, content)
      ensures loc in reachable <==> CanReach(a, start, loc)
    {
      CheckedIsComputed(a, start, mode, content, loc);
    }
  }
}
