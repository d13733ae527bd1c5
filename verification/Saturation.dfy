/** What the two-level table of a pushdown exploration means, which invariants its entries keep,
    and what a saturated table says about well-nested reachability. */
module Saturation {
  import opened Pushdown
  import opened Traces

  /** The content of the table: the roots; which nodes each root's second-level map holds; which roots have
      entered a root by pushing a symbol; which nodes were reached from a root by popping a symbol. */
  datatype Content<Z(==)> = Content(
    roots: set<Node<Z>>,
    slm: set<(Node<Z>, Node<Z>)>,
    pushes: set<(Node<Z>, string, Node<Z>)>,
    pops: set<(Node<Z>, string, Node<Z>)>)

  type Work<Z> = seq<(Node<Z>, Node<Z>)>

  /** The comparison of nodes as the table code uses it: false when `n1` stands for `n2`. */
  predicate Distinct<Z>(ts: System<Z>, n1: Node<Z>, n2: Node<Z>, subsumption: bool) {
    if subsumption then !ts.simulates(n1, n2) else !(ts.simulates(n1, n2) && ts.simulates(n2, n1))
  }

  /** `q` stands for `p`: for subsumption it covers `p`, for equivalence each covers the other. */
  predicate StandsIn<Z>(ts: System<Z>, mode: bool, q: Node<Z>, p: Node<Z>) {
    if mode then Le(ts, p, q) else Equivalent(ts, p, q)
  }

  /** Root `r` holds a node that makes `p` redundant under the chosen comparison. */
  ghost predicate Redundant<Z(!new)>(ts: System<Z>, mode: bool, c: Content<Z>, r: Node<Z>, p: Node<Z>) {
    exists q: Node<Z> :: (r, q) in c.slm && StandsIn(ts, mode, q, p)
  }

  /** Root `r` holds a node that covers `p`. */
  ghost predicate Covered<Z(!new)>(ts: System<Z>, c: Content<Z>, r: Node<Z>, p: Node<Z>) {
    exists q: Node<Z> :: (r, q) in c.slm && Le(ts, p, q)
  }

  // ----- invariants of the content -----

  ghost predicate Rooted<Z(!new)>(c: Content<Z>) {
    && (forall x :: x in c.slm ==> x.0 in c.roots)
    && (forall x :: x in c.pushes ==> x.0 in c.roots && x.2 in c.roots)
    && (forall x :: x in c.pops ==> x.0 in c.roots)
    && (forall r :: r in c.roots ==> (r, r) in c.slm)
  }

  ghost predicate WellFormed<Z(!new)>(ts: System<Z>, c: Content<Z>) {
    Rooted(c) && forall r, r' :: r in c.roots && r' in c.roots && Equivalent(ts, r, r') ==> r == r'
  }

  /** Every push recorded at a root has been matched with every pop recorded there. */
  ghost predicate Matched<Z(!new)>(ts: System<Z>, mode: bool, c: Content<Z>) {
    forall x, y :: x in c.pushes && y in c.pops && x.0 == y.0 && x.1 == y.1 ==> Redundant(ts, mode, c, x.2, y.2)
  }

  /** Everything held is the end of a trace along recorded pushes; pushes and pops leave nodes that are held. */
  ghost predicate Justified<Z(!new)>(ts: System<Z>, c: Content<Z>) {
    && (forall x :: x in c.slm ==> Traced(ts, c.pushes, x.0, x.1))
    && (forall x :: x in c.pushes ==> Pushed(ts, c.slm, x.2, x.1, x.0))
    && (forall x :: x in c.pops ==> Popped(ts, c.slm, x.0, x.1, x.2))
  }

  lemma JustifiedGrows<Z(!new)>(ts: System<Z>, c: Content<Z>, r1: Node<Z>, r2: Node<Z>, a: string)
    requires Justified(ts, c) && Pushed(ts, c.slm, r1, a, r2)
    ensures Justified(ts, c.(pushes := c.pushes + {(r2, a, r1)}))
  {
    hide Traced, Pushed, Popped;
    var pushes := c.pushes + {(r2, a, r1)};
    forall x | x in c.slm ensures Traced(ts, pushes, x.0, x.1) {
      TracedGrows(ts, c.pushes, pushes, x.0, x.1);
    }
  }

  ghost predicate Inv<Z(!new)>(ts: System<Z>, mode: bool, c: Content<Z>) {
    WellFormed(ts, c) && Matched(ts, mode, c) && Justified(ts, c)
  }

  /** The consequence of edge `e`, leaving a node of root `r`, is recorded. */
  ghost predicate Handled<Z(!new)>(ts: System<Z>, mode: bool, c: Content<Z>, r: Node<Z>, e: Edge<Z>) {
    match e
    case Nop(t) => Redundant(ts, mode, c, r, t)
    case Push(a, t) => exists r2: Node<Z> :: (r2, a, r) in c.pushes && Equivalent(ts, t, r2)
    case Pop(a, t) => exists p: Node<Z> :: (r, a, p) in c.pops && Equivalent(ts, t, p)
  }

  ghost predicate HandledAll<Z(!new)>(ts: System<Z>, mode: bool, c: Content<Z>, x: (Node<Z>, Node<Z>)) {
    forall e :: e in ts.succ(x.1) ==> Handled(ts, mode, c, x.0, e)
  }

  /** Every stored node has had all its edges handled. */
  ghost predicate Saturated<Z(!new)>(ts: System<Z>, mode: bool, c: Content<Z>) {
    forall x :: x in c.slm ==> HandledAll(ts, mode, c, x)
  }

  predicate Grows<Z>(c: Content<Z>, c': Content<Z>) {
    c.roots <= c'.roots && c.slm <= c'.slm && c.pushes <= c'.pushes && c.pops <= c'.pops
  }

  lemma HandledGrows<Z(!new)>(ts: System<Z>, mode: bool, c: Content<Z>, c': Content<Z>, x: (Node<Z>, Node<Z>))
    requires Grows(c, c') && HandledAll(ts, mode, c, x)
    ensures HandledAll(ts, mode, c', x)
  {
    forall e | e in ts.succ(x.1)
      ensures Handled(ts, mode, c', x.0, e)
    {
      assert Handled(ts, mode, c, x.0, e);
    }
  }

  // ----- saturated tables are complete and sound -----

  /** What a coarser comparison finds of the invariants. */
  ghost predicate Sane<Z(!new)>(ts: System<Z>, mode: bool, c: Content<Z>) {
    Rooted(c) && Matched(ts, mode, c) && Justified(ts, c)
  }

  lemma HandledCoarser<Z(!new)>(ts: System<Z>, ts': System<Z>, mode: bool, c: Content<Z>, r: Node<Z>, e: Edge<Z>)
    requires Coarser(ts, ts') && Handled(ts, mode, c, r, e)
    ensures Handled(ts', mode, c, r, e)
  {}

  /** The argument about a saturated table may use any comparison that holds at least where the one of the table does. */
  lemma SaneCoarser<Z(!new)>(ts: System<Z>, ts': System<Z>, mode: bool, c: Content<Z>)
    requires Coarser(ts, ts') && Inv(ts, mode, c) && Saturated(ts, mode, c)
    ensures Sane(ts', mode, c) && Saturated(ts', mode, c)
  {
    hide Handled, IsTrace;
    forall x | x in c.slm
      ensures Traced(ts', c.pushes, x.0, x.1) && HandledAll(ts', mode, c, x)
    {
      var trace :| IsTrace(ts, c.pushes, x.0, trace, x.1);
      TraceCoarser(ts, ts', c.pushes, x.0, trace, x.1);
      assert HandledAll(ts, mode, c, x);
      forall e | e in ts'.succ(x.1) ensures Handled(ts', mode, c, x.0, e) {
        HandledCoarser(ts, ts', mode, c, x.0, e);
      }
    }
    forall x | x in c.pushes
      ensures Pushed(ts', c.slm, x.2, x.1, x.0)
    {
      assert Pushed(ts, c.slm, x.2, x.1, x.0);
    }
    forall x | x in c.pops
      ensures Popped(ts', c.slm, x.0, x.1, x.2)
    {
      assert Popped(ts, c.slm, x.0, x.1, x.2);
    }
    forall x, y | x in c.pushes && y in c.pops && x.0 == y.0 && x.1 == y.1
      ensures Redundant(ts', mode, c, x.2, y.2)
    {
      assert Redundant(ts, mode, c, x.2, y.2);
    }
  }

  /** Completeness: in a saturated table, whatever a root, or a node it covers, reaches by a well-nested run
      is covered in the root's second-level map. */
  lemma {:induction false} Complete<Z(!new)>(ts: System<Z>, mode: bool, c: Content<Z>, r: Node<Z>, n: Node<Z>, run: Run<Z>, q: Node<Z>)
    returns (q': Node<Z>)
    requires Simulating(ts) && Rooted(c) && Matched(ts, mode, c) && Saturated(ts, mode, c)
    requires r in c.roots && Le(ts, n, r) && IsRun(ts, n, run, q)
    ensures (r, q') in c.slm && Le(ts, q, q')
    decreases run
  {
    match run
    case Here =>
      q' := r;
    case Step(prev, from) =>
      var from' := Complete(ts, mode, c, r, n, prev, from);
      var f := Match(ts, from, from', Nop(q));
      assert HandledAll(ts, mode, c, (r, from')) && Handled(ts, mode, c, r, f);
      q' :| (r, q') in c.slm && Le(ts, f.tgt, q');
      Transitive(ts, q, f.tgt, q');
    case Call(prev, from, a, entry, inner, exit) =>
      var from' := Complete(ts, mode, c, r, n, prev, from);
      var f := Match(ts, from, from', Push(a, entry));
      assert HandledAll(ts, mode, c, (r, from')) && Handled(ts, mode, c, r, f);
      var r2 :| (r2, a, r) in c.pushes && Le(ts, f.tgt, r2);
      Transitive(ts, entry, f.tgt, r2);
      var exit' := Complete(ts, mode, c, r2, entry, inner, exit);
      var g := Match(ts, exit, exit', Pop(a, q));
      assert HandledAll(ts, mode, c, (r2, exit')) && Handled(ts, mode, c, r2, g);
      var p :| (r2, a, p) in c.pops && Le(ts, g.tgt, p);
      Transitive(ts, q, g.tgt, p);
      assert Covered(ts, c, r, p);
      q' :| (r, q') in c.slm && Le(ts, p, q');
      Transitive(ts, q, p, q');
  }

  ghost predicate HoldsLocation<Z(!new)>(c: Content<Z>, r: Node<Z>, loc: string) {
    exists p: Node<Z> :: (r, p) in c.slm && p.loc == loc
  }

  /** Some well-nested run from `r` ends in location `loc`. */
  ghost predicate ReachesLocation<Z(!new)>(ts: System<Z>, r: Node<Z>, loc: string) {
    exists q: Node<Z> :: Reaches(ts, r, q) && q.loc == loc
  }

  /** A saturated table is exact for every root: its second-level map covers all that the root reaches well nested,
      and holds only what is covered by something reached. */
  lemma SaturatedExact<Z(!new)>(ts: System<Z>, mode: bool, c: Content<Z>, r: Node<Z>)
    requires Simulating(ts) && Sane(ts, mode, c) && Saturated(ts, mode, c) && r in c.roots
    ensures forall q: Node<Z> :: Reaches(ts, r, q) ==> Covered(ts, c, r, q)
    ensures forall p: Node<Z> :: (r, p) in c.slm ==> Reached(ts, r, p)
  {
    forall q: Node<Z> | Reaches(ts, r, q)
      ensures Covered(ts, c, r, q)
    {
      var run :| IsRun(ts, r, run, q);
      var q' := Complete(ts, mode, c, r, r, run, q);
    }
    forall p: Node<Z> | (r, p) in c.slm
      ensures Reached(ts, r, p)
    {
      assert Traced(ts, c.pushes, (r, p).0, (r, p).1);
      var trace :| IsTrace(ts, c.pushes, r, trace, p);
      TraceReached(ts, c.pushes, r, trace, p);
    }
  }

  lemma HeldIsReached<Z(!new)>(ts: System<Z>, mode: bool, c: Content<Z>, r: Node<Z>, loc: string)
    requires Simulating(ts) && Sane(ts, mode, c) && Saturated(ts, mode, c) && r in c.roots && HoldsLocation(c, r, loc)
    ensures ReachesLocation(ts, r, loc)
  {
    hide Simulating, Sane, Saturated, Reaches, Covered;
    SaturatedExact(ts, mode, c, r);
    var p :| (r, p) in c.slm && p.loc == loc;
    assert Reached(ts, r, p);
    var q :| Reaches(ts, r, q) && Le(ts, p, q);
  }

  lemma ReachedIsHeld<Z(!new)>(ts: System<Z>, mode: bool, c: Content<Z>, r: Node<Z>, loc: string)
    requires Simulating(ts) && Sane(ts, mode, c) && Saturated(ts, mode, c) && r in c.roots && ReachesLocation(ts, r, loc)
    ensures HoldsLocation(c, r, loc)
  {
    hide Simulating, Sane, Saturated, Reaches;
    SaturatedExact(ts, mode, c, r);
    var q :| Reaches(ts, r, q) && q.loc == loc;
    assert Covered(ts, c, r, q);
    var p :| (r, p) in c.slm && Le(ts, q, p);
  }

  /** So its second-level map names exactly the locations that the root reaches. */
  lemma SaturatedLocations<Z(!new)>(ts: System<Z>, mode: bool, c: Content<Z>, r: Node<Z>, loc: string)
    requires Simulating(ts) && Sane(ts, mode, c) && Saturated(ts, mode, c) && r in c.roots
    ensures HoldsLocation(c, r, loc) <==> ReachesLocation(ts, r, loc)
  {
    hide Simulating, Sane, Saturated, Reaches, HoldsLocation, ReachesLocation;
    if HoldsLocation(c, r, loc) {
      HeldIsReached(ts, mode, c, r, loc);
    }
    if ReachesLocation(ts, r, loc) {
      ReachedIsHeld(ts, mode, c, r, loc);
    }
  }

  /** Runs depend on the edges alone. */
  lemma {:induction false} RunCoarser<Z(!new)>(ts: System<Z>, ts': System<Z>, n: Node<Z>, run: Run<Z>, q: Node<Z>)
    requires Coarser(ts, ts')
    ensures IsRun(ts, n, run, q) <==> IsRun(ts', n, run, q)
    decreases run
  {
    match run
    case Here =>
    case Step(prev, from) => RunCoarser(ts, ts', n, prev, from);
    case Call(prev, from, a, entry, inner, exit) =>
      RunCoarser(ts, ts', n, prev, from);
      RunCoarser(ts, ts', entry, inner, exit);
  }

  /** A comparison need not be a simulation itself: what a saturated table holds is right as soon as some simulation holds
      wherever the comparison does. */
  lemma HeldExact<Z(!new)>(ts: System<Z>, ts': System<Z>, mode: bool, c: Content<Z>, r: Node<Z>, loc: string)
    requires Coarser(ts, ts') && Simulating(ts') && Inv(ts, mode, c) && Saturated(ts, mode, c) && r in c.roots
    ensures HoldsLocation(c, r, loc) <==> ReachesLocation(ts, r, loc)
  {
    hide Simulating, Inv, Saturated, Sane, Coarser, IsRun;
    SaneCoarser(ts, ts', mode, c);
    SaturatedLocations(ts', mode, c, r, loc);
    forall q: Node<Z>
      ensures Reaches(ts, r, q) <==> Reaches(ts', r, q)
    {
      forall run: Run<Z> ensures IsRun(ts, r, run, q) <==> IsRun(ts', r, run, q) {
        RunCoarser(ts, ts', r, run, q);
      }
    }
  }

  // ----- what equivalence keeps -----

  /** Root `r` holds a node of the same location that simulates `p` and is simulated by it. */
  ghost predicate HoldsEqual<Z(!new)>(ts: System<Z>, c: Content<Z>, r: Node<Z>, p: Node<Z>) {
    exists q: Node<Z> :: (r, q) in c.slm && q.loc == p.loc && ts.simulates(q, p) && ts.simulates(p, q)
  }

  /** A call on the way from `r1`: the root entered for `t`, and what popping `a` out of it leads to. */
  ghost predicate CallHeld<Z(!new)>(ts: System<Z>, c: Content<Z>, r1: Node<Z>, a: string, t: Node<Z>, r: Node<Z>) {
    && r in c.roots && r.loc == t.loc && ts.simulates(r, t) && ts.simulates(t, r)
    && forall n: Node<Z>, u: Node<Z> :: (r, n) in c.slm && Pop(a, u) in ts.succ(n) ==> HoldsEqual(ts, c, r1, u)
  }

  /** With comparison by equivalence, a saturated table is closed under all edges, up to nodes that simulate each other: a node that is
      only simulated by another one is never dropped in its favour. */
  lemma EquivalentsHeld<Z(!new)>(ts: System<Z>, c: Content<Z>)
    requires Preorder(ts) && Inv(ts, false, c) && Saturated(ts, false, c)
    ensures forall r: Node<Z>, s: Node<Z>, t: Node<Z> :: (r, s) in c.slm && Nop(t) in ts.succ(s) ==> HoldsEqual(ts, c, r, t)
    ensures forall r: Node<Z>, a: string, r1: Node<Z>, p: Node<Z> ::
              (r, a, r1) in c.pushes && (r, a, p) in c.pops ==> HoldsEqual(ts, c, r1, p)
    ensures forall r1: Node<Z>, s: Node<Z>, a: string, t: Node<Z> ::
              (r1, s) in c.slm && Push(a, t) in ts.succ(s) ==> exists r: Node<Z> :: CallHeld(ts, c, r1, a, t, r)
  {
    hide Justified;
    forall r: Node<Z>, s: Node<Z>, t: Node<Z> | (r, s) in c.slm && Nop(t) in ts.succ(s)
      ensures HoldsEqual(ts, c, r, t)
    {
      assert HandledAll(ts, false, c, (r, s)) && Handled(ts, false, c, r, Nop(t));
    }
    forall r: Node<Z>, a: string, r1: Node<Z>, p: Node<Z> | (r, a, r1) in c.pushes && (r, a, p) in c.pops
      ensures HoldsEqual(ts, c, r1, p)
    {
      assert Redundant(ts, false, c, (r, a, r1).2, (r, a, p).2);
    }
    forall r1: Node<Z>, s: Node<Z>, a: string, t: Node<Z> | (r1, s) in c.slm && Push(a, t) in ts.succ(s)
      ensures exists r: Node<Z> :: CallHeld(ts, c, r1, a, t, r)
    {
      assert HandledAll(ts, false, c, (r1, s)) && Handled(ts, false, c, r1, Push(a, t));
      var r: Node<Z> :| (r, a, r1) in c.pushes && Equivalent(ts, t, r);
      assert (r, a, r1).0 in c.roots;
      forall n: Node<Z>, u: Node<Z> | (r, n) in c.slm && Pop(a, u) in ts.succ(n)
        ensures HoldsEqual(ts, c, r1, u)
      {
        PoppedHeld(ts, c, r, n, a, u, r1);
      }
      assert CallHeld(ts, c, r1, a, t, r);
    }
  }

  lemma PoppedHeld<Z(!new)>(ts: System<Z>, c: Content<Z>, r: Node<Z>, n: Node<Z>, a: string, u: Node<Z>, r1: Node<Z>)
    requires Preorder(ts) && Inv(ts, false, c) && Saturated(ts, false, c)
    requires (r, n) in c.slm && Pop(a, u) in ts.succ(n) && (r, a, r1) in c.pushes
    ensures HoldsEqual(ts, c, r1, u)
  {
    hide Justified, WellFormed;
    assert HandledAll(ts, false, c, (r, n)) && Handled(ts, false, c, r, Pop(a, u));
    var p: Node<Z> :| (r, a, p) in c.pops && Equivalent(ts, u, p);
    assert Redundant(ts, false, c, (r, a, r1).2, (r, a, p).2);
    var q: Node<Z> :| (r1, q) in c.slm && StandsIn(ts, false, q, p);
    assert Equivalent(ts, p, q);
    assert Le(ts, u, q) && Le(ts, q, u);
  }

  // ----- how the operations change the content -----

  /** The pair is not, up to equivalence, among those held. */
  ghost predicate Novel<Z(!new)>(ts: System<Z>, c: Content<Z>, x: (Node<Z>, Node<Z>)) {
    forall y :: y in c.slm ==> !(Equivalent(ts, y.0, x.0) && Equivalent(ts, y.1, x.1))
  }

  ghost predicate HasNovel<Z(!new)>(ts: System<Z>, c: Content<Z>, c': Content<Z>) {
    exists x :: x in c'.slm && Novel(ts, c, x)
  }

  /** From content `c` with work list `w`, the candidates have been offered one after the other: only such as were not
      redundant have been stored and queued, and all are covered now. */
  ghost predicate Offered<Z(!new)>(ts: System<Z>, mode: bool, c: Content<Z>, w: Work<Z>, c': Content<Z>, w': Work<Z>,
                                   cands: set<(Node<Z>, Node<Z>)>)
  {
    && c'.roots == c.roots && c'.pushes == c.pushes && c'.pops == c.pops
    && c.slm <= c'.slm <= c.slm + cands
    && Queued(c, w, c', w')
    && (forall x :: x in cands ==> Redundant(ts, mode, c', x.0, x.1))
    && (forall x :: x in c'.slm && x !in c.slm ==> !Redundant(ts, mode, c, x.0, x.1))
    && (w' != w ==> HasNovel(ts, c, c'))
  }

  /** Exactly the newly stored pairs, and only stored ones, have been added to the work list. */
  ghost predicate Queued<Z(!new)>(c: Content<Z>, w: Work<Z>, c': Content<Z>, w': Work<Z>) {
    && w <= w'
    && (forall x :: x in c'.slm && x !in c.slm ==> x in w'[|w|..])
    && (forall x :: x in w'[|w|..] ==> x in c'.slm)
  }

  lemma QueuedTransitive<Z(!new)>(c: Content<Z>, w: Work<Z>, c1: Content<Z>, w1: Work<Z>, c2: Content<Z>, w2: Work<Z>)
    requires Queued(c, w, c1, w1) && Queued(c1, w1, c2, w2) && c1.slm <= c2.slm
    ensures Queued(c, w, c2, w2)
  {
    assert w2[|w|..] == w1[|w|..] + w2[|w1|..];
  }

  /** Offering nothing. */
  lemma OfferedNone<Z(!new)>(ts: System<Z>, mode: bool, c: Content<Z>, w: Work<Z>)
    ensures Offered(ts, mode, c, w, c, w, {})
  {}

  /** Offering one more candidate. */
  lemma OfferedMore<Z(!new)>(ts: System<Z>, mode: bool, c: Content<Z>, w: Work<Z>, c1: Content<Z>, w1: Work<Z>,
                             cands: set<(Node<Z>, Node<Z>)>, c2: Content<Z>, w2: Work<Z>, x: (Node<Z>, Node<Z>))
    requires Preorder(ts) && WellFormed(ts, c) && Offered(ts, mode, c, w, c1, w1, cands) && x.0 in c.roots
    requires if Redundant(ts, mode, c1, x.0, x.1) then c2 == c1 && w2 == w1
             else c2 == c1.(slm := c1.slm + {x}) && w2 == w1 + [x]
    ensures Offered(ts, mode, c, w, c2, w2, cands + {x})
  {
    if !Redundant(ts, mode, c1, x.0, x.1) {
      assert Le(ts, x.1, x.1) && (x.0, x.1) in c2.slm;
      assert w2[|w1|..] == [x];
      QueuedTransitive(c, w, c1, w1, c2, w2);
      forall y | y in cands
        ensures Redundant(ts, mode, c2, y.0, y.1)
      {
        assert Redundant(ts, mode, c1, y.0, y.1);
      }
      NotRedundantNovel(ts, mode, c, c1, x);
      assert x in c2.slm;
    }
  }

  lemma NotRedundantNovel<Z(!new)>(ts: System<Z>, mode: bool, c: Content<Z>, c1: Content<Z>, x: (Node<Z>, Node<Z>))
    requires WellFormed(ts, c) && c.slm <= c1.slm && x.0 in c.roots && !Redundant(ts, mode, c1, x.0, x.1)
    ensures Novel(ts, c, x) && !Redundant(ts, mode, c, x.0, x.1)
  {
    forall y | y in c.slm
      ensures !(Equivalent(ts, y.0, x.0) && Equivalent(ts, y.1, x.1))
    {
      assert y.0 in c.roots;
      if y.0 == x.0 {
        assert (x.0, y.1) in c1.slm;
      }
    }
  }

  /** Offering justified candidates keeps the invariants, except that matching must be re-established. */
  lemma OfferedKeeps<Z(!new)>(ts: System<Z>, mode: bool, c: Content<Z>, w: Work<Z>, c': Content<Z>, w': Work<Z>,
                              cands: set<(Node<Z>, Node<Z>)>)
    requires WellFormed(ts, c) && Justified(ts, c) && Offered(ts, mode, c, w, c', w', cands)
    requires forall x :: x in cands ==> x.0 in c.roots && Traced(ts, c.pushes, x.0, x.1)
    ensures WellFormed(ts, c') && Justified(ts, c') && Grows(c, c')
    ensures forall r: Node<Z>, p: Node<Z> :: Redundant(ts, mode, c, r, p) ==> Redundant(ts, mode, c', r, p)
  {}

  // the successor of an edge without stack operation

  lemma NopKeeps<Z(!new)>(ts: System<Z>, mode: bool, c: Content<Z>, w: Work<Z>, c': Content<Z>, w': Work<Z>,
                          r: Node<Z>, m: Node<Z>, t: Node<Z>)
    requires Preorder(ts) && Inv(ts, mode, c) && (r, m) in c.slm && Nop(t) in ts.succ(m)
    requires Offered(ts, mode, c, w, c', w', {(r, t)})
    ensures Inv(ts, mode, c') && Handled(ts, mode, c', r, Nop(t)) && Grows(c, c')
  {
    assert Traced(ts, c.pushes, (r, m).0, (r, m).1);
    TracedStep(ts, c.pushes, r, m, t);
    OfferedKeeps(ts, mode, c, w, c', w', {(r, t)});
    assert (r, t) in {(r, t)};
    forall x, y | x in c'.pushes && y in c'.pops && x.0 == y.0 && x.1 == y.1
      ensures Redundant(ts, mode, c', x.2, y.2)
    {
      assert Redundant(ts, mode, c, x.2, y.2);
    }
  }

  // a push: root `r1` enters root `r2`

  function PopCandidates<Z>(c: Content<Z>, r1: Node<Z>, r2: Node<Z>, a: string): set<(Node<Z>, Node<Z>)> {
    set x | x in c.pops && x.0 == r2 && x.1 == a :: (r1, x.2)
  }

  lemma PushKeeps<Z(!new)>(ts: System<Z>, mode: bool, c: Content<Z>, w: Work<Z>, c': Content<Z>, w': Work<Z>,
                           r1: Node<Z>, r2: Node<Z>, a: string)
    requires Preorder(ts) && Inv(ts, mode, c) && r1 in c.roots && r2 in c.roots && Pushed(ts, c.slm, r1, a, r2)
    requires Offered(ts, mode, c.(pushes := c.pushes + {(r2, a, r1)}), w, c', w', PopCandidates(c, r1, r2, a))
    ensures Inv(ts, mode, c') && (r2, a, r1) in c'.pushes && Grows(c, c')
  {
    hide Preorder, Traced, Pushed, Popped;
    var c1 := c.(pushes := c.pushes + {(r2, a, r1)});
    var cands := PopCandidates(c, r1, r2, a);
    JustifiedGrows(ts, c, r1, r2, a);
    forall x | x in cands
      ensures x.0 in c1.roots && Traced(ts, c1.pushes, x.0, x.1)
    {
      assert (r2, a, x.1) in c1.pops;
      assert Popped(ts, c.slm, (r2, a, x.1).0, (r2, a, x.1).1, (r2, a, x.1).2);
      TracedCall(ts, c1.pushes, c.slm, r1, a, r2, x.1);
    }
    OfferedKeeps(ts, mode, c1, w, c', w', cands);
    forall x, y | x in c'.pushes && y in c'.pops && x.0 == y.0 && x.1 == y.1
      ensures Redundant(ts, mode, c', x.2, y.2)
    {
      if x == (r2, a, r1) {
        assert (r1, y.2) in cands;
      } else {
        assert Redundant(ts, mode, c, x.2, y.2);
        assert Redundant(ts, mode, c1, x.2, y.2);
      }
    }
  }

  // a pop: node `p` is reached from root `r`

  function PushCandidates<Z>(c: Content<Z>, r: Node<Z>, p: Node<Z>, a: string): set<(Node<Z>, Node<Z>)> {
    set x | x in c.pushes && x.0 == r && x.1 == a :: (x.2, p)
  }

  lemma PopKeeps<Z(!new)>(ts: System<Z>, mode: bool, c: Content<Z>, w: Work<Z>, c': Content<Z>, w': Work<Z>,
                          r: Node<Z>, p: Node<Z>, a: string)
    requires Preorder(ts) && Inv(ts, mode, c) && r in c.roots && Popped(ts, c.slm, r, a, p)
    requires Offered(ts, mode, c.(pops := c.pops + {(r, a, p)}), w, c', w', PushCandidates(c, r, p, a))
    ensures Inv(ts, mode, c') && (r, a, p) in c'.pops && Grows(c, c')
  {
    hide Preorder, Traced, Pushed, Popped;
    var c1 := c.(pops := c.pops + {(r, a, p)});
    var cands := PushCandidates(c, r, p, a);
    forall x | x in cands
      ensures x.0 in c1.roots && Traced(ts, c1.pushes, x.0, x.1)
    {
      assert (r, a, x.0) in c.pushes;
      assert Pushed(ts, c.slm, (r, a, x.0).2, (r, a, x.0).1, (r, a, x.0).0);
      TracedCall(ts, c.pushes, c.slm, x.0, a, r, p);
    }
    OfferedKeeps(ts, mode, c1, w, c', w', cands);
    forall x, y | x in c'.pushes && y in c'.pops && x.0 == y.0 && x.1 == y.1
      ensures Redundant(ts, mode, c', x.2, y.2)
    {
      if y == (r, a, p) {
        assert (x.2, p) in cands;
      } else {
        assert Redundant(ts, mode, c, x.2, y.2);
        assert Redundant(ts, mode, c1, x.2, y.2);
      }
    }
  }

  // a new root

  function WithRoot<Z>(c: Content<Z>, r: Node<Z>): Content<Z> {
    c.(roots := c.roots + {r}, slm := c.slm + {(r, r)})
  }

  lemma RootKeeps<Z(!new)>(ts: System<Z>, mode: bool, c: Content<Z>, r: Node<Z>)
    requires Inv(ts, mode, c) && forall r' :: r' in c.roots ==> !Equivalent(ts, r', r)
    ensures Inv(ts, mode, WithRoot(c, r)) && Grows(c, WithRoot(c, r))
  {
    var c' := WithRoot(c, r);
    TracedHere(ts, c.pushes, r);
    forall x, y | x in c'.pushes && y in c'.pops && x.0 == y.0 && x.1 == y.1
      ensures Redundant(ts, mode, c', x.2, y.2)
    {
      assert Redundant(ts, mode, c, x.2, y.2);
    }
    forall r1, r2 | r1 in c'.roots && r2 in c'.roots && Equivalent(ts, r1, r2)
      ensures r1 == r2
    {
      assert Equivalent(ts, r2, r1);
    }
  }

  // ----- when what is held is reached exactly -----

  /** Well-nested runs get to everything held, not only to something that covers it. */
  ghost predicate SlmExact<Z(!new)>(ts: System<Z>, c: Content<Z>) {
    forall x :: x in c.slm ==> Reaches(ts, x.0, x.1)
  }

  /** As long as no push is on record, what is held is reached, whatever the comparison. */
  lemma UnpushedExact<Z(!new)>(ts: System<Z>, c: Content<Z>)
    requires Justified(ts, c) && c.pushes == {}
    ensures SlmExact(ts, c)
  {
    forall x | x in c.slm ensures Reaches(ts, x.0, x.1) {
      var trace :| IsTrace(ts, c.pushes, x.0, trace, x.1);
      var run := TraceUnpushed(ts, x.0, trace, x.1);
    }
  }

  lemma ReachesStep<Z(!new)>(ts: System<Z>, r: Node<Z>, m: Node<Z>, t: Node<Z>)
    requires Reaches(ts, r, m) && Nop(t) in ts.succ(m)
    ensures Reaches(ts, r, t)
  {
    var run :| IsRun(ts, r, run, m);
    assert IsRun(ts, r, Run.Step(run, m), t);
  }

  /** A push straight into a root, and a pop out of something that the root reaches. */
  lemma ReachesCall<Z(!new)>(ts: System<Z>, c: Content<Z>, r: Node<Z>, a: string, entry: Node<Z>, p: Node<Z>)
    requires SlmExact(ts, c) && Straight(ts, c.slm, r, a, entry) && Popped(ts, c.slm, entry, a, p)
    ensures Reaches(ts, r, p)
  {
    var m :| (r, m) in c.slm && Push(a, entry) in ts.succ(m);
    var n :| (entry, n) in c.slm && Pop(a, p) in ts.succ(n);
    assert Reaches(ts, (r, m).0, (r, m).1) && Reaches(ts, (entry, n).0, (entry, n).1);
    var before :| IsRun(ts, r, before, m);
    var inside :| IsRun(ts, entry, inside, n);
    assert IsRun(ts, r, Run.Call(before, m, a, entry, inside, n), p);
  }

  /** A new root and the successor of an edge without stack operation never end exactness. */
  lemma RootKeepsExact<Z(!new)>(ts: System<Z>, c: Content<Z>, r: Node<Z>)
    requires SlmExact(ts, c)
    ensures SlmExact(ts, WithRoot(c, r))
  {
    assert IsRun(ts, r, Run.Here, r);
  }

  lemma NopKeepsExact<Z(!new)>(ts: System<Z>, mode: bool, c: Content<Z>, w: Work<Z>, c': Content<Z>, w': Work<Z>,
                               r: Node<Z>, m: Node<Z>, t: Node<Z>)
    requires SlmExact(ts, c) && (r, m) in c.slm && Nop(t) in ts.succ(m) && Offered(ts, mode, c, w, c', w', {(r, t)})
    ensures SlmExact(ts, c')
  {
    hide Reaches, Redundant, HasNovel;
    assert Reaches(ts, (r, m).0, (r, m).1);
    ReachesStep(ts, r, m, t);
  }

  /** A push keeps exactness if and only if the pushing root reaches the recorded pops that it now holds. It does when the push
      goes straight into the root entered, or when every recorded pop is redundant for the pushing root; both can be seen in
      the table before the call. */
  lemma PushKeepsExact<Z(!new)>(ts: System<Z>, mode: bool, c: Content<Z>, w: Work<Z>, c': Content<Z>, w': Work<Z>,
                                r1: Node<Z>, r2: Node<Z>, a: string)
    requires Justified(ts, c) && SlmExact(ts, c)
    requires Offered(ts, mode, c.(pushes := c.pushes + {(r2, a, r1)}), w, c', w', PopCandidates(c, r1, r2, a))
    ensures SlmExact(ts, c') <==> forall p :: (r2, a, p) in c.pops && (r1, p) in c'.slm ==> Reaches(ts, r1, p)
    ensures Straight(ts, c.slm, r1, a, r2) || (forall p :: (r2, a, p) in c.pops ==> Redundant(ts, mode, c, r1, p)) ==>
              SlmExact(ts, c')
  {
    hide Reaches, Straight, Popped, HasNovel, Traced, Pushed;
    var c1 := c.(pushes := c.pushes + {(r2, a, r1)});
    forall x | x in c'.slm && x !in c.slm
      ensures x.0 == r1 && (r2, a, x.1) in c.pops && !Redundant(ts, mode, c, r1, x.1)
    {
      assert x in PopCandidates(c, r1, r2, a) && !Redundant(ts, mode, c1, x.0, x.1);
    }
    hide Redundant;
    if forall p :: (r2, a, p) in c.pops && (r1, p) in c'.slm ==> Reaches(ts, r1, p) {
      assert forall x :: x in c'.slm && x !in c.slm ==> x == (r1, x.1);
    }
    forall p | SlmExact(ts, c') && (r2, a, p) in c.pops && (r1, p) in c'.slm
      ensures Reaches(ts, r1, p)
    {
      assert Reaches(ts, (r1, p).0, (r1, p).1);
    }
    if Straight(ts, c.slm, r1, a, r2) {
      forall p | (r2, a, p) in c.pops
        ensures Reaches(ts, r1, p)
      {
        assert Popped(ts, c.slm, (r2, a, p).0, (r2, a, p).1, (r2, a, p).2);
        ReachesCall(ts, c, r1, a, r2, p);
      }
    }
  }

  /** A pop keeps exactness if and only if the recorded pushers that now hold its target reach it. They do when each of them has
      pushed straight into the root, or already holds something that makes the target redundant. */
  lemma PopKeepsExact<Z(!new)>(ts: System<Z>, mode: bool, c: Content<Z>, w: Work<Z>, c': Content<Z>, w': Work<Z>,
                               r: Node<Z>, p: Node<Z>, a: string)
    requires SlmExact(ts, c) && Popped(ts, c.slm, r, a, p)
    requires Offered(ts, mode, c.(pops := c.pops + {(r, a, p)}), w, c', w', PushCandidates(c, r, p, a))
    ensures SlmExact(ts, c') <==> forall r1 :: (r, a, r1) in c.pushes && (r1, p) in c'.slm ==> Reaches(ts, r1, p)
    ensures (forall r1 :: (r, a, r1) in c.pushes ==> Straight(ts, c.slm, r1, a, r) || Redundant(ts, mode, c, r1, p)) ==>
              SlmExact(ts, c')
  {
    hide Reaches, Straight, Popped, HasNovel;
    var c1 := c.(pops := c.pops + {(r, a, p)});
    forall x | x in c'.slm && x !in c.slm
      ensures x.1 == p && (r, a, x.0) in c.pushes && !Redundant(ts, mode, c, x.0, p)
    {
      assert x in PushCandidates(c, r, p, a) && !Redundant(ts, mode, c1, x.0, x.1);
    }
    hide Redundant;
    forall r1 | SlmExact(ts, c') && (r, a, r1) in c.pushes && (r1, p) in c'.slm
      ensures Reaches(ts, r1, p)
    {
      assert Reaches(ts, (r1, p).0, (r1, p).1);
    }
    forall r1 | (r, a, r1) in c.pushes && Straight(ts, c.slm, r1, a, r)
      ensures Reaches(ts, r1, p)
    {
      ReachesCall(ts, c, r1, a, r, p);
    }
  }
}
