/** One root may stand for another: why what is stored for a root is reached from it only up to simulation. */
module Representatives {
  import opened Pushdown
  import opened Saturation
  import opened Traces
  import opened FindBuilder

  const B1: Node<int> := Node("b", 1)
  const B2: Node<int> := Node("b", 2)
  const C0: Node<int> := Node("c", 0)
  const D1: Node<int> := Node("d", 1)
  const D2: Node<int> := Node("d", 2)

  /** `c` pushes into the second zone of `b`, whose pop leads to the second zone of `d`; the first zones of `b` and `d` are
      different from the second ones, but equivalent to them. */
  function Successors(n: Node<int>): seq<Edge<int>> {
    if n == B1 then [Pop("x", D1)]
    else if n == B2 then [Pop("x", D2)]
    else if n == C0 then [Push("x", B2)]
    else []
  }

  predicate SameKind(n: Node<int>, m: Node<int>) {
    n.zone == m.zone || (1 <= n.zone <= 2 && 1 <= m.zone <= 2)
  }

  function Example(): System<int> {
    System(Successors, SameKind)
  }

  lemma ExampleSimulating()
    ensures Simulating(Example())
  {
    var ts := Example();
    forall n: Node<int>, m: Node<int>, e: Edge<int> | Le(ts, n, m) && e in ts.succ(n)
      ensures HasMatch(ts, e, m)
    {
      var f := if n == C0 then Push("x", B2) else if m == B1 then Pop("x", D1) else Pop("x", D2);
      assert f in ts.succ(m) && Matches(ts, e, f);
    }
  }

  lemma {:induction false} RunsOfB2(run: Run<int>, q: Node<int>)
    requires IsRun(Example(), B2, run, q)
    ensures q == B2
    decreases run
  {
    match run
    case Here =>
    case Step(prev, from) => RunsOfB2(prev, from);
    case Call(prev, from, a, entry, inner, exit) => RunsOfB2(prev, from);
  }

  lemma {:induction false} RunsOfC0(run: Run<int>, q: Node<int>)
    requires IsRun(Example(), C0, run, q)
    ensures q == C0 || q == D2
    decreases run
  {
    match run
    case Here =>
    case Step(prev, from) => RunsOfC0(prev, from);
    case Call(prev, from, a, entry, inner, exit) =>
      RunsOfC0(prev, from);
      RunsOfB2(inner, exit);
  }

  lemma ExampleUnreached()
    ensures !Reaches(Example(), C0, D1)
  {
    if run: Run<int> :| IsRun(Example(), C0, run, D1) {
      RunsOfC0(run, D1);
    }
  }

  function AfterB(): Content<int> {
    Content({B1}, {(B1, B1)}, {}, {(B1, "x", D1)})
  }

  lemma PopOffersNothing(c': Content<int>, w: Work<int>, w': Work<int>)
    requires Offered(Example(), false, WithRoot(Content({}, {}, {}, {}), B1).(pops := {(B1, "x", D1)}), w, c', w',
                     PushCandidates(WithRoot(Content({}, {}, {}, {}), B1), B1, D1, "x"))
    ensures c' == AfterB()
  {
    assert PushCandidates(WithRoot(Content({}, {}, {}, {}), B1), B1, D1, "x") == {};
  }

  lemma PushStoresPop(c': Content<int>, w: Work<int>, w': Work<int>)
    requires Offered(Example(), false, WithRoot(AfterB(), C0).(pushes := {(B1, "x", C0)}), w, c', w',
                     PopCandidates(WithRoot(AfterB(), C0), C0, B1, "x"))
    ensures C0 in c'.roots && (C0, D1) in c'.slm
  {
    var c := WithRoot(AfterB(), C0);
    assert (B1, "x", D1) in c.pops;
    assert (C0, D1) in PopCandidates(c, C0, B1, "x");
    assert Covered(Example(), c', C0, D1);
    var q: Node<int> :| (C0, q) in c'.slm && Le(Example(), D1, q);
    assert (C0, q) in c.slm + PopCandidates(c, C0, B1, "x");
  }

  /** The representative of the second zone of `b` is the first one. */
  lemma RepresentativeOfB(isNew: bool, n: Node<int>)
    requires isNew ==> forall r' :: r' in WithRoot(AfterB(), C0).roots ==> !Equivalent(Example(), r', B2)
    requires !isNew ==> n in WithRoot(AfterB(), C0).roots && Equivalent(Example(), n, B2)
    ensures !isNew && n == B1
  {
    assert B1 in WithRoot(AfterB(), C0).roots && Equivalent(Example(), B1, B2);
  }

  /** The calls that the exploration makes for root `b` with the first zone, and then for root `c`: the push of `c` enters the
      stored root, and with it its pop is stored for `c`, although no well-nested run of `c` gets exactly there. */
  method StoredNotReached() returns (ghost content: Content<int>)
    ensures C0 in content.roots && (C0, D1) in content.slm && !Reaches(Example(), C0, D1)
  {
    hide Rep, RecordsOfRoots, AllSparing, Simulation, Offered, Reaches, Equivalent, PoppedAlready, PopCandidates, PushCandidates;
    var ts := Example();
    ExampleSimulating();
    ExampleUnreached();
    var b := new TsFindBuilder(ts);
    b.JustAddNode(B1, B1);
    assert b.content == WithRoot(Content({}, {}, {}, {}), B1);
    ghost var w, c := b.toDo, b.content;
    FirstRoot(ts);
    NothingPopped(ts);
    assert c.pops + {(B1, "x", D1)} == {(B1, "x", D1)};
    assert c.(pops := c.pops + {(B1, "x", D1)}) == c.(pops := {(B1, "x", D1)});
    b.AppendPopAndMatchPush(B1, D1, "x", false);
    PopOffersNothing(b.content, w, b.toDo);
    b.JustAddNode(C0, C0);
    assert b.content == WithRoot(AfterB(), C0);
    var isNew, n := b.IsNewRoot(B2);
    RepresentativeOfB(isNew, n);
    w, c := b.toDo, b.content;
    assert c.pushes + {(B1, "x", C0)} == {(B1, "x", C0)};
    TwoRoots(ts, AfterB());
    b.AppendPushAndMatchPop(C0, n, "x", false);
    PushStoresPop(b.content, w, b.toDo);
    content := b.content;
  }

  lemma TwoRoots(ts: System<int>, c: Content<int>)
    requires ts == Example() && c.roots == {B1} && c.slm == {(B1, B1)} && c.pushes == {}
    requires forall x :: x in c.pops ==> x.0 == B1
    ensures WellFormed(ts, WithRoot(c, C0))
  {}

  function OnlyB(): Content<int> {
    WithRoot(Content({}, {}, {}, {}), B1)
  }

  function Entered(): Content<int> {
    Content({B1, C0}, {(B1, B1), (C0, C0)}, {(B1, "x", C0)}, {})
  }

  lemma NothingPoppedYet(c': Content<int>, w: Work<int>, w': Work<int>)
    requires Offered(Example(), false, WithRoot(OnlyB(), C0).(pushes := {(B1, "x", C0)}), w, c', w',
                     PopCandidates(WithRoot(OnlyB(), C0), C0, B1, "x"))
    ensures c' == Entered()
  {
    assert PopCandidates(WithRoot(OnlyB(), C0), C0, B1, "x") == {};
  }

  lemma BothAtHome()
    ensures SlmExact(Example(), Entered()) && !Straight(Example(), Entered().slm, C0, "x", B1) && WellFormed(Example(), Entered())
    ensures !PoppedAlready(Example(), Entered(), B1, "x", D1)
  {
    assert IsRun(Example(), B1, Run.Here, B1) && IsRun(Example(), C0, Run.Here, C0);
    forall m: Node<int> | (C0, m) in Entered().slm
      ensures Push("x", B1) !in Example().succ(m)
    {
      assert m == C0;
    }
  }

  /** The push of `c` before any pop of `b` is recorded: it enters the other root just the same. */
  method EnterEarly() returns (b: TsFindBuilder<int>)
    ensures fresh(b) && b.Valid() && b.ts == Example() && b.content == Entered()
  {
    hide Rep, RecordsOfRoots, AllSparing, Simulation, Offered, Equivalent, PopCandidates;
    var ts := Example();
    ExampleSimulating();
    b := new TsFindBuilder(ts);
    b.JustAddNode(B1, B1);
    assert b.content == OnlyB();
    b.JustAddNode(C0, C0);
    assert b.content == WithRoot(OnlyB(), C0);
    var isNew, n := b.IsNewRoot(B2);
    RepresentativeOfBAlone(isNew, n);
    ghost var w, c := b.toDo, b.content;
    assert c.pushes + {(B1, "x", C0)} == {(B1, "x", C0)};
    TwoRoots(ts, OnlyB());
    b.AppendPushAndMatchPop(C0, n, "x", false);
    NothingPoppedYet(b.content, w, b.toDo);
  }

  /** All that is held is still reached exactly: that the push goes straight is not necessary. */
  method EnteredButExact() returns (ghost content: Content<int>)
    ensures (B1, "x", C0) in content.pushes && !Straight(Example(), content.slm, C0, "x", B1) && SlmExact(Example(), content)
  {
    hide SlmExact, Straight;
    var b := EnterEarly();
    BothAtHome();
    content := b.content;
  }

  lemma PopStored(c': Content<int>, w: Work<int>, w': Work<int>)
    requires Offered(Example(), false, Entered().(pops := {(B1, "x", D1)}), w, c', w', PushCandidates(Entered(), B1, D1, "x"))
    ensures (C0, D1) in c'.slm
  {
    assert (B1, "x", C0) in Entered().pushes;
    assert (C0, D1) in PushCandidates(Entered(), B1, D1, "x");
    assert Covered(Example(), c', C0, D1);
    var q: Node<int> :| (C0, q) in c'.slm && Le(Example(), D1, q);
    assert (C0, q) in Entered().slm + PushCandidates(Entered(), B1, D1, "x");
  }

  /** Then the pop of `b` is recorded, and with it stored for `c`: what was exact is so no longer, because the pusher has not pushed
      straight into `b`, and holds nothing yet that makes the target redundant. */
  method PoppedNotReached() returns (ghost content: Content<int>)
    ensures SlmExact(Example(), Entered()) && !SlmExact(Example(), content)
    ensures (C0, D1) in content.slm && !Reaches(Example(), C0, D1)
  {
    hide Rep, RecordsOfRoots, AllSparing, Simulation, Offered, Reaches, Equivalent, PoppedAlready, PushCandidates, Straight;
    ExampleSimulating();
    ExampleUnreached();
    var b := EnterEarly();
    BothAtHome();
    ghost var w, c := b.toDo, b.content;
    assert c.pops + {(B1, "x", D1)} == {(B1, "x", D1)};
    b.AppendPopAndMatchPush(B1, D1, "x", false);
    PopStored(b.content, w, b.toDo);
    content := b.content;
    assert !Reaches(Example(), (C0, D1).0, (C0, D1).1);
  }

  lemma RepresentativeOfBAlone(isNew: bool, n: Node<int>)
    requires isNew ==> forall r' :: r' in WithRoot(OnlyB(), C0).roots ==> !Equivalent(Example(), r', B2)
    requires !isNew ==> n in WithRoot(OnlyB(), C0).roots && Equivalent(Example(), n, B2)
    ensures !isNew && n == B1
  {
    assert B1 in WithRoot(OnlyB(), C0).roots && Equivalent(Example(), B1, B2);
  }

  lemma FirstRoot(ts: System<int>)
    ensures WellFormed(ts, WithRoot(Content({}, {}, {}, {}), B1))
  {}

  lemma NothingPopped(ts: System<int>)
    ensures !PoppedAlready(ts, WithRoot(Content({}, {}, {}, {}), B1), B1, "x", D1)
  {}
}
