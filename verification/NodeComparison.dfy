/** Two zones at one location are compared, in place, just as the explored system compares nodes. */
module NodeComparison {
  import opened Wrappers
  import opened Zones
  import opened Encoding
  import opened LuSimulation
  import opened Extrapolation
  import opened Dbm
  import opened DbmAbstraction
  import opened Integrality
  import opened LocalBounds
  import opened Saturation
  import opened TimedPushdown
  import opened LocalSimulation
  import Machine
  import Pushdown

  /** The constraints of the invariant and of all guards that leave the location. */
  method Summarize(a: Automaton, loc: string) returns (s: Summary)
    requires Valid(a) && loc in a.locs
    ensures fresh(s) && s.Of(GuardsOf(a, loc), a.dim)
  {
    hide Lowers, Uppers, Diagonals;
    var guards := OutGuards(a, loc, 0);
    forall i | 0 <= i < |guards| ensures AllFitting(guards[i], a.dim) {
      OutGuardsMembers(a, loc, 0, guards[i]);
      var j :| 0 <= j < |a.trans| && a.trans[j].src == loc && a.trans[j].guard == guards[i];
      assert ValidTransition(a, a.trans[j]);
    }
    s := new Summary(a.dim);
    s.Build(a.locs[loc].inv, guards, a.dim);
  }

  lemma StandsForTwice(l: seq<int>, u: seq<int>, d: seq<Machine.ClockConstraint>, m1: Matrix, m2: Matrix)
    ensures StandsFor(l, u, d + d, m1, m2) <==> StandsFor(l, u, d, m1, m2)
  {
    hide Entails, SimIncluded;
  }

  lemma StandsForItself(l: seq<int>, u: seq<int>, d: seq<Machine.ClockConstraint>, m: Matrix)
    requires |l| == |u| == |m|
    ensures StandsFor(l, u, d, m, m)
  {
    hide Entails, SimIncluded;
    IncludedSimIncluded(m, m, l, u);
  }

  lemma SimulatesExact(a: Automaton, loc: string, m1: Matrix, m2: Matrix)
    requires Valid(a) && GoodNode(a, Pushdown.Node(loc, m1)) && GoodNode(a, Pushdown.Node(loc, m2))
    ensures SystemOf(a).simulates(Pushdown.Node(loc, m1), Pushdown.Node(loc, m2))
       <==> StandsFor(Low(a, loc), Up(a, loc), Diagonals(GuardsOf(a, loc)), m1, m2)
  {
    hide StandsFor, Good, TimedPushdown.Settled, GuardsOf, Lowers, Uppers, Diagonals, SuccFrom;
    if m1 == m2 {
      GoodSize(a, m1);
      StandsForItself(Low(a, loc), Up(a, loc), Diagonals(GuardsOf(a, loc)), m1);
    }
  }

  lemma GoodSize(a: Automaton, m: Matrix)
    requires Good(a, m)
    ensures |m| == a.dim
  {}

  /** What is stored are integers. */
  lemma ViewGood(a: Automaton, m: array2<Db>)
    requires Shape(m) && Normal(View(m)) && m.Length0 == a.dim
    ensures Good(a, View(m))
  {
    hide Normal;
    forall i, j | Clock(View(m), i) && Clock(View(m), j) ensures WholeAt(View(m), i, j) {
      var d := Decode(m[i, j]);
      assert d.Fin? ==> Equals(d.value, Value(m[i, j]));
    }
  }

  method CompareNodes(a: Automaton, loc: string, a1: array2<Db>, a2: array2<Db>, subsumption: bool) returns (r: Option<bool>)
    requires Valid(a) && loc in a.locs && Shape(a1) && Shape(a2) && a1.Length0 == a.dim == a2.Length0
    requires Normal(View(a1)) && Normal(View(a2))
    ensures r.Some? ==> r.value == !Compared(a, loc, View(a2), View(a1), subsumption)
    ensures r.Some? && ZoneAt(a, loc, View(a1)) && ZoneAt(a, loc, View(a2)) ==>
      r.value == Distinct(SystemOf(a), Pushdown.Node(loc, View(a1)), Pushdown.Node(loc, View(a2)), subsumption)
    ensures r.None? ==> forall b: real :: !(RoomForTest(View(a1), Low(a, loc), b) && RoomForTest(View(a2), Low(a, loc), b))
  {
    hide Normal, StandsFor, GuardsOf, Lowers, Uppers, Diagonals, RoomForTest, View, SystemOf, TimedPushdown.Settled;
    ghost var cs := GuardsOf(a, loc);
    ViewGood(a, a1);
    ViewGood(a, a2);
    GuardsOfFitting(a, loc);
    var s1 := Summarize(a, loc);
    var s2 := Summarize(a, loc);
    r := Equal(a1, a2, s1, s2, subsumption, cs, cs);
    StandsForTwice(Low(a, loc), Up(a, loc), Diagonals(cs), View(a1), View(a2));
    StandsForTwice(Low(a, loc), Up(a, loc), Diagonals(cs), View(a2), View(a1));
    if ZoneAt(a, loc, View(a1)) && ZoneAt(a, loc, View(a2)) {
      SimulatesExact(a, loc, View(a1), View(a2));
      SimulatesExact(a, loc, View(a2), View(a1));
    }
  }
}
