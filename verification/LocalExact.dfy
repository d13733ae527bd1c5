/** Edge by edge, the condition decides whether the comparison of the exploration is a simulation. */
module LocalExact {
  import opened Zones
  import opened LuSimulation
  import opened Extrapolation
  import opened LocalBounds
  import opened EdgeRuns
  import opened Pushdown
  import opened TimedPushdown
  import opened LocalSimulation
  import opened LocalCondition
  import opened LocalSufficiency
  import opened LocalNecessity
  import opened LocalCheck

  // ----- all edges of an automaton -----

  /** What a reader of the automaton would look for: on clocks that keep their value, the bounds of the source are at least those of
      the target. */
  predicate Dominates(a: Automaton, t: Transition)
    requires ValidTransition(a, t)
  {
    forall x :: 1 <= x < a.dim && Kept(t, x) ==> Up(a, t.tgt)[x] <= Up(a, t.src)[x] && Low(a, t.tgt)[x] <= Low(a, t.src)[x]
  }

  lemma DominatesNoGap(a: Automaton, t: Transition)
    requires Valid(a) && t in a.trans && ValidTransition(a, t) && Steady(a, t) && SimpleAll(t.guard) && Dominates(a, t)
    ensures NoWideGap(a, t) && NoGap(a, t)
  {
    hide GuardsOf, Lowers, Uppers, Anchored, ResetValue, Pass, AfterResets, Steady;
    GuardsOfFitting(a, t.tgt);
    LooselyBounded(GuardsOf(a, t.tgt), a.dim);
    forall v: Valuation | Takes(a, t, v)
      ensures forall i :: 0 <= i < |t.guard| && Fitting(t.guard[i], a.dim) ==> !DiagonalGap(a, t, v, t.guard[i])
      ensures forall x :: 1 <= x < a.dim ==> !AheadGap(a, t, v, x)
      ensures forall y, r: real :: 1 <= y < a.dim ==> !WideBehindGap(a, t, v, y, r)
    {
      assert forall x :: 1 <= x < a.dim ==> LooseBound(Up(a, t.tgt)[x]) && LooseBound(Low(a, t.tgt)[x]);
    }
    WideSuffices(a, t);
  }

  /** Resets are to constants, and invariants have no diagonal constraints; guards may have any. */
  predicate AllSteady(a: Automaton)
    requires Valid(a)
  {
    forall i :: 0 <= i < |a.trans| ==>
      ValidTransition(a, a.trans[i]) && Steady(a, a.trans[i]) && SimpleAll(a.locs[a.trans[i].src].inv)
  }

  /** No edge has a gap, as it can be computed. */
  predicate AllGapless(a: Automaton)
    requires Valid(a)
  {
    forall i :: 0 <= i < |a.trans| ==> ValidTransition(a, a.trans[i]) && NoGapCheck(a, a.trans[i])
  }

  lemma GaplessExact(a: Automaton)
    requires Valid(a) && AllSteady(a)
    ensures AllGapless(a) <==> AllCarry(a)
  {
    hide NoGapCheck, NoGap, Steady, SimpleAll, Carries;
    forall i | 0 <= i < |a.trans| ensures NoGapCheck(a, a.trans[i]) <==> Carries(a, a.trans[i]) {
      NoGapChecked(a, a.trans[i]);
      NoGapExact(a, a.trans[i]);
    }
  }

  // ----- when the comparison is a simulation -----

  predicate SameEnds(t: Transition, t': Transition) {
    t.src == t'.src && t.op == t'.op && t.tgt == t'.tgt
  }

  /** Edges can be told apart by their ends and stack operations. */
  predicate Distinguished(a: Automaton) {
    forall i, j :: 0 <= i < |a.trans| && 0 <= j < |a.trans| && SameEnds(a.trans[i], a.trans[j]) ==> i == j
  }

  predicate NoDiagonals(a: Automaton) {
    forall loc :: loc in a.locs ==> Diagonals(GuardsOf(a, loc)) == []
  }

  /** The edge of the first zone can only be matched by the same edge of the second. */
  lemma EdgeFollowed(a: Automaton, ts: System<Matrix>, i: int, m1: Matrix, m2: Matrix)
    requires Valid(a) && Distinguished(a) && Coarser(ts, LuSystemOf(a)) && Simulating(ts) && 0 <= i < |a.trans|
    requires a.trans[i].src in a.locs && ZoneAt(a, a.trans[i].src, m1) && ZoneAt(a, a.trans[i].src, m2)
    requires Pushdown.Le(ts, Node(a.trans[i].src, m1), Node(a.trans[i].src, m2))
    ensures ValidTransition(a, a.trans[i]) && Followed(a, a.trans[i], m1, m2)
  {
    hide Good, Settled, PostZone, Acts, SuccFrom, SimIncluded, GuardsOf, Lowers, Uppers;
    var t := a.trans[i];
    ActsDefined(a, t);
    if PostZone(a, m1, Acts(a, t)).Some? {
      var n1, n2 := Node(t.src, m1), Node(t.src, m2);
      assert Enabled(a, n1, i);
      var e := EdgeOf(t.op, Target(a, n1, i));
      SuccOf(a, n1, e);
      SameEdges(a, ts, n1);
      SameEdges(a, ts, n2);
      var f := Match(ts, n1, n2, e);
      SuccOf(a, n2, f);
      var j :| Enabled(a, n2, j) && f == EdgeOf(a.trans[j].op, Target(a, n2, j));
      assert SameEnds(t, a.trans[j]);
      LeIncluded(a, Target(a, n1, i), Target(a, n2, i));
    }
  }

  lemma SameEdges(a: Automaton, ts: System<Matrix>, n: Node<Matrix>)
    requires Valid(a) && Coarser(ts, LuSystemOf(a))
    ensures ts.succ(n) == SystemOf(a).succ(n)
  {}

  lemma LeIncluded(a: Automaton, n: Node<Matrix>, m: Node<Matrix>)
    requires Valid(a) && GoodNode(a, n) && GoodNode(a, m) && Pushdown.Le(LuSystemOf(a), n, m)
    ensures LuBelow(a, n.loc, n.zone, m.zone)
  {
    hide GuardsOf, Lowers, Uppers, SuccFrom, Normal, Settled;
    IncludedSimIncluded(n.zone, n.zone, Low(a, n.loc), Up(a, n.loc));
  }

  lemma LuSimulatingCarries(a: Automaton, i: int)
    requires Valid(a) && Distinguished(a) && Simulating(LuSystemOf(a)) && 0 <= i < |a.trans|
    ensures ValidTransition(a, a.trans[i]) && Carries(a, a.trans[i])
  {
    hide Good, Settled, Followed, SuccFrom, LuBelow, Simulating, Carries, Distinguished;
    var t := a.trans[i];
    forall m1: Matrix, m2: Matrix | ZoneAt(a, t.src, m1) && ZoneAt(a, t.src, m2) && LuBelow(a, t.src, m1, m2)
      ensures Followed(a, t, m1, m2)
    {
      EdgeFollowed(a, LuSystemOf(a), i, m1, m2);
    }
    RespectedExact(a, t, true);
  }

  lemma SimulatingCarries(a: Automaton, i: int)
    requires Valid(a) && Distinguished(a) && Simulating(SystemOf(a)) && 0 <= i < |a.trans|
    ensures ValidTransition(a, a.trans[i]) && Carries(a, a.trans[i])
  {
    hide Good, Settled, Followed, SuccFrom, SimIncluded, Implies, Simulating, Carries, Distinguished, GuardsOf, Lowers, Uppers,
      Diagonals;
    var t := a.trans[i];
    LuCoarser(a);
    forall m1: Matrix, m2: Matrix | ZoneAt(a, t.src, m1) && ZoneAt(a, t.src, m2) && Compared(a, t.src, m1, m2, true)
      ensures Followed(a, t, m1, m2)
    {
      EdgeFollowed(a, SystemOf(a), i, m1, m2);
    }
    RespectedExact(a, t, true);
  }

  lemma NoDiagonalsSimulating(a: Automaton)
    requires Valid(a) && NoDiagonals(a) && Simulating(LuSystemOf(a))
    ensures Simulating(SystemOf(a))
  {
    hide SuccFrom, Good, Settled, SimIncluded, GuardsOf, Lowers, Uppers, Diagonals;
    var ts, lu := SystemOf(a), LuSystemOf(a);
    ComparisonPreorder(a);
    forall n: Node<Matrix>, m: Node<Matrix> ensures Pushdown.Le(ts, n, m) <==> Pushdown.Le(lu, n, m) {}
    forall n: Node<Matrix>, m: Node<Matrix>, e: Edge<Matrix> | Pushdown.Le(ts, n, m) && e in ts.succ(n)
      ensures HasMatch(ts, e, m)
    {
      assert HasMatch(lu, e, m);
    }
  }

  /** On the nodes that zone graphs have, the comparison by bounds is a simulation if and only if no edge has a gap; the comparison of
      the exploration is none unless that one is, whatever it tests of diagonal constraints; and without diagonal constraints the two
      agree. */
  lemma SimulatingExact(a: Automaton)
    requires Valid(a) && Distinguished(a) && AllSteady(a)
    ensures Simulating(LuSystemOf(a)) <==> AllGapless(a)
    ensures Simulating(SystemOf(a)) ==> AllGapless(a)
    ensures NoDiagonals(a) ==> (Simulating(SystemOf(a)) <==> AllGapless(a))
  {
    hide Carries, Simulating, SystemOf, LuSystemOf, NoDiagonals, Distinguished, AllGapless, AllSteady;
    GaplessExact(a);
    if AllCarry(a) {
      ZoneGraphSimulating(a);
      if NoDiagonals(a) {
        NoDiagonalsSimulating(a);
      }
    }
    forall i | 0 <= i < |a.trans|
      ensures Simulating(LuSystemOf(a)) || Simulating(SystemOf(a)) ==> ValidTransition(a, a.trans[i]) && Carries(a, a.trans[i])
    {
      if Simulating(LuSystemOf(a)) {
        LuSimulatingCarries(a, i);
      }
      if Simulating(SystemOf(a)) {
        SimulatingCarries(a, i);
      }
    }
  }
}
