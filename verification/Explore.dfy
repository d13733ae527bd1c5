/** The exploration loop: pairs of a root and a node are taken from the work list until it is empty. */
module Explore {
  import opened Pushdown
  import opened Saturation
  import opened Traces
  import opened FindBuilder

  /** Finitely many classes of good nodes: nodes of one class are equivalent, and no edge leaves the good nodes. Only the argument
      that the exploration ends needs it. */
  datatype Index<!Z, !C> = Index(good: Node<Z> -> bool, cls: Node<Z> -> C, classes: set<C>)

  ghost predicate Finite<Z(!new), C>(ts: System<Z>, ix: Index<Z, C>) {
    && (forall n: Node<Z>, e: Edge<Z> :: ix.good(n) && e in ts.succ(n) ==> ix.good(e.tgt))
    && (forall n: Node<Z> :: ix.good(n) ==> ix.cls(n) in ix.classes)
    && (forall n: Node<Z>, m: Node<Z> :: ix.good(n) && ix.good(m) && ix.cls(n) == ix.cls(m) ==> Equivalent(ts, n, m))
  }

  /** Everything stored is good. */
  ghost predicate Inside<Z(!new), C>(c: Content<Z>, ix: Index<Z, C>) {
    && (forall x :: x in c.slm ==> ix.good(x.0) && ix.good(x.1))
    && (forall x :: x in c.pops ==> ix.good(x.2))
  }

  ghost function AllPairs<Z, C>(ix: Index<Z, C>): set<(C, C)> {
    set r, p | r in ix.classes && p in ix.classes :: (r, p)
  }

  /** The classes of the pairs held. */
  ghost function ClassPairs<Z, C>(c: Content<Z>, ix: Index<Z, C>): set<(C, C)> {
    set x | x in c.slm :: (ix.cls(x.0), ix.cls(x.1))
  }

  /** What every step of the exploration does to the content and the work list. */
  ghost predicate Advances<Z(!new)>(ts: System<Z>, c: Content<Z>, w: Work<Z>, c': Content<Z>, w': Work<Z>) {
    Grows(c, c') && Queued(c, w, c', w') && (w' != w ==> HasNovel(ts, c, c'))
  }

  lemma AdvancesTransitive<Z(!new)>(ts: System<Z>, c: Content<Z>, w: Work<Z>, c1: Content<Z>, w1: Work<Z>, c2: Content<Z>, w2: Work<Z>)
    requires Advances(ts, c, w, c1, w1) && Advances(ts, c1, w1, c2, w2)
    ensures Advances(ts, c, w, c2, w2)
  {
    QueuedTransitive(c, w, c1, w1, c2, w2);
  }

  lemma OfferedAdvances<Z(!new), C>(ts: System<Z>, mode: bool, c: Content<Z>, w: Work<Z>, c': Content<Z>, w': Work<Z>,
                                 cands: set<(Node<Z>, Node<Z>)>, ix: Index<Z, C>)
    requires Offered(ts, mode, c, w, c', w', cands)
    requires Inside(c, ix) && forall x :: x in cands ==> ix.good(x.0) && ix.good(x.1)
    ensures Advances(ts, c, w, c', w') && Inside(c', ix)
  {
    hide Covered;
  }

  lemma RootAdvances<Z(!new), C>(ts: System<Z>, mode: bool, c: Content<Z>, w: Work<Z>, r: Node<Z>, ix: Index<Z, C>)
    requires Preorder(ts) && Inv(ts, mode, c) && Inside(c, ix) && ix.good(r)
    requires forall r' :: r' in c.roots ==> !Equivalent(ts, r', r)
    ensures Advances(ts, c, w, WithRoot(c, r), w + [(r, r)]) && Inv(ts, mode, WithRoot(c, r)) && Inside(WithRoot(c, r), ix)
  {
    hide Matched, Justified;
    RootKeeps(ts, mode, c, r);
    assert Le(ts, r, r) && r !in c.roots;
    assert forall x :: x in c.slm ==> x.0 in c.roots;
    assert Novel(ts, c, (r, r));
    assert (w + [(r, r)])[|w|..] == [(r, r)];
  }

  lemma PushAdvances<Z(!new), C>(ts: System<Z>, mode: bool, c: Content<Z>, w: Work<Z>, c': Content<Z>, w': Work<Z>,
                              r1: Node<Z>, r2: Node<Z>, a: string, ix: Index<Z, C>)
    requires Inv(ts, mode, c) && r1 in c.roots && r2 in c.roots && Inside(c, ix)
    requires Offered(ts, mode, c.(pushes := c.pushes + {(r2, a, r1)}), w, c', w', PopCandidates(c, r1, r2, a))
    ensures Advances(ts, c, w, c', w') && Inside(c', ix)
  {
    hide Matched, Justified, Redundant, Covered;
    RootInside(ts, c, r1, ix);
    OfferedAdvances(ts, mode, c.(pushes := c.pushes + {(r2, a, r1)}), w, c', w', PopCandidates(c, r1, r2, a), ix);
  }

  lemma PopAdvances<Z(!new), C>(ts: System<Z>, mode: bool, c: Content<Z>, w: Work<Z>, c': Content<Z>, w': Work<Z>,
                             r: Node<Z>, p: Node<Z>, a: string, ix: Index<Z, C>)
    requires Inv(ts, mode, c) && r in c.roots && Inside(c, ix) && ix.good(p)
    requires Offered(ts, mode, c.(pops := c.pops + {(r, a, p)}), w, c', w', PushCandidates(c, r, p, a))
    ensures Advances(ts, c, w, c', w') && Inside(c', ix)
  {
    hide Matched, Justified, Redundant, Covered;
    forall x | x in PushCandidates(c, r, p, a)
      ensures ix.good(x.0)
    {
      assert (r, a, x.0).2 in c.roots;
      RootInside(ts, c, x.0, ix);
    }
    OfferedAdvances(ts, mode, c.(pops := c.pops + {(r, a, p)}), w, c', w', PushCandidates(c, r, p, a), ix);
  }

  lemma RootInside<Z(!new), C>(ts: System<Z>, c: Content<Z>, r: Node<Z>, ix: Index<Z, C>)
    requires WellFormed(ts, c) && r in c.roots && Inside(c, ix)
    ensures ix.good(r)
  {
    assert (r, r) in c.slm;
  }

  lemma TargetInside<Z(!new), C>(ts: System<Z>, c: Content<Z>, x: (Node<Z>, Node<Z>), e: Edge<Z>, ix: Index<Z, C>)
    requires x in c.slm && Inside(c, ix) && Finite(ts, ix) && e in ts.succ(x.1)
    ensures ix.good(e.tgt) && ix.good(x.0)
  {}

  lemma EntersHere<Z(!new)>(ts: System<Z>, c: Content<Z>, root: Node<Z>, sub: Node<Z>, a: string, t: Node<Z>, r: Node<Z>)
    requires Justified(ts, c) && (root, sub) in c.slm && Push(a, t) in ts.succ(sub) && Equivalent(ts, r, t)
    ensures Pushed(ts, c.slm, root, a, r)
  {}

  lemma LeavesHere<Z(!new)>(ts: System<Z>, c: Content<Z>, root: Node<Z>, sub: Node<Z>, a: string, t: Node<Z>)
    requires Justified(ts, c) && (root, sub) in c.slm && Pop(a, t) in ts.succ(sub)
    ensures Popped(ts, c.slm, root, a, t)
  {}

  // ----- one edge -----

  method ExpandNop<Z(==, !new), C>(b: TsFindBuilder<Z>, root: Node<Z>, sub: Node<Z>, t: Node<Z>, eqOrSim: bool,
                                ghost ix: Index<Z, C>)
    requires b.Valid() && Preorder(b.ts) && Inv(b.ts, eqOrSim, b.content) && Finite(b.ts, ix) && Inside(b.content, ix)
    requires (root, sub) in b.content.slm && Nop(t) in b.ts.succ(sub)
    modifies b`tlm, b`toDo, b`content
    ensures b.Valid() && Inv(b.ts, eqOrSim, b.content) && Inside(b.content, ix) && Handled(b.ts, eqOrSim, b.content, root, Nop(t))
    ensures Advances(b.ts, old(b.content), old(b.toDo), b.content, b.toDo)
    ensures old(AllSparing(b.ts, eqOrSim, b.tlm)) ==> AllSparing(b.ts, eqOrSim, b.tlm)
  {
    hide AllSparing, Rep, RecordsOfRoots, Matched, Justified, Offered, Advances, Finite;
    TargetInside(b.ts, b.content, (root, sub), Nop(t), ix);
    assert (root, sub).0 in b.content.roots;
    ghost var c, w := b.content, b.toDo;
    OfferedNone(b.ts, eqOrSim, c, w);
    b.Offer(root, t, eqOrSim, c, w, {});
    assert {} + {(root, t)} == {(root, t)};
    NopKeeps(b.ts, eqOrSim, c, w, b.content, b.toDo, root, sub, t);
    OfferedAdvances(b.ts, eqOrSim, c, w, b.content, b.toDo, {(root, t)}, ix);
  }

  method ExpandPush<Z(==, !new), C>(b: TsFindBuilder<Z>, root: Node<Z>, sub: Node<Z>, a: string, t: Node<Z>, eqOrSim: bool,
                                 ghost ix: Index<Z, C>)
    requires b.Valid() && Preorder(b.ts) && Inv(b.ts, eqOrSim, b.content) && Finite(b.ts, ix) && Inside(b.content, ix)
    requires (root, sub) in b.content.slm && Push(a, t) in b.ts.succ(sub)
    modifies b`tlm, b`toDo, b`content
    ensures b.Valid() && Inv(b.ts, eqOrSim, b.content) && Inside(b.content, ix) && Handled(b.ts, eqOrSim, b.content, root, Push(a, t))
    ensures Advances(b.ts, old(b.content), old(b.toDo), b.content, b.toDo)
    ensures old(AllSparing(b.ts, eqOrSim, b.tlm)) ==> AllSparing(b.ts, eqOrSim, b.tlm)
  {
    hide AllSparing, Rep, RecordsOfRoots, Matched, Justified, Offered, Advances, Finite;
    TargetInside(b.ts, b.content, (root, sub), Push(a, t), ix);
    assert (root, sub).0 in b.content.roots;
    ghost var c, w := b.content, b.toDo;
    var isNew, n := b.IsNewRoot(t);
    assert Le(b.ts, t, t);
    if isNew {
      NewRootNotRedundant(b.ts, eqOrSim, c, t);
      b.JustAddNode(t, t);
      assert b.content == WithRoot(c, t);
      RootAdvances(b.ts, eqOrSim, c, w, t, ix);
    } else {
      AdvancesNowhere(b.ts, c, w);
    }
    ghost var c1, w1 := b.content, b.toDo;
    EntersHere(b.ts, c1, root, sub, a, t, n);
    b.AppendPushAndMatchPop(root, n, a, eqOrSim);
    if (n, a, root) in c1.pushes {
      AdvancesNowhere(b.ts, c1, w1);
    } else {
      PushKeeps(b.ts, eqOrSim, c1, w1, b.content, b.toDo, root, n, a);
      PushAdvances(b.ts, eqOrSim, c1, w1, b.content, b.toDo, root, n, a, ix);
    }
    AdvancesTransitive(b.ts, c, w, c1, w1, b.content, b.toDo);
  }

  method ExpandPop<Z(==, !new), C>(b: TsFindBuilder<Z>, root: Node<Z>, sub: Node<Z>, a: string, t: Node<Z>, eqOrSim: bool,
                                ghost ix: Index<Z, C>)
    requires b.Valid() && Preorder(b.ts) && Inv(b.ts, eqOrSim, b.content) && Finite(b.ts, ix) && Inside(b.content, ix)
    requires (root, sub) in b.content.slm && Pop(a, t) in b.ts.succ(sub)
    modifies b`tlm, b`toDo, b`content
    ensures b.Valid() && Inv(b.ts, eqOrSim, b.content) && Inside(b.content, ix) && Handled(b.ts, eqOrSim, b.content, root, Pop(a, t))
    ensures Advances(b.ts, old(b.content), old(b.toDo), b.content, b.toDo)
    ensures old(AllSparing(b.ts, eqOrSim, b.tlm)) ==> AllSparing(b.ts, eqOrSim, b.tlm)
  {
    hide AllSparing, Rep, RecordsOfRoots, Matched, Justified, Offered, Advances, Finite;
    TargetInside(b.ts, b.content, (root, sub), Pop(a, t), ix);
    assert (root, sub).0 in b.content.roots;
    ghost var c, w := b.content, b.toDo;
    LeavesHere(b.ts, c, root, sub, a, t);
    b.AppendPopAndMatchPush(root, t, a, eqOrSim);
    if PoppedAlready(b.ts, c, root, a, t) {
      AdvancesNowhere(b.ts, c, w);
    } else {
      assert Le(b.ts, t, t);
      PopKeeps(b.ts, eqOrSim, c, w, b.content, b.toDo, root, t, a);
      PopAdvances(b.ts, eqOrSim, c, w, b.content, b.toDo, root, t, a, ix);
    }
  }

  /** Nothing is stored for a root that is not there yet. */
  lemma NewRootNotRedundant<Z(!new)>(ts: System<Z>, mode: bool, c: Content<Z>, r: Node<Z>)
    requires RecordsOfRoots(c) && r !in c.roots
    ensures !Redundant(ts, mode, c, r, r)
  {
    forall q: Node<Z>
      ensures (r, q) !in c.slm
    {
      assert (r, q) in c.slm ==> (r, q).0 in c.roots;
    }
  }

  lemma AdvancesNowhere<Z(!new)>(ts: System<Z>, c: Content<Z>, w: Work<Z>)
    ensures Advances(ts, c, w, c, w)
  {}

  /** All edges of one node, for one root. */
  method ExpandPair<Z(==, !new), C>(b: TsFindBuilder<Z>, root: Node<Z>, sub: Node<Z>, eqOrSim: bool,
                                 ghost ix: Index<Z, C>)
    requires b.Valid() && Preorder(b.ts) && Inv(b.ts, eqOrSim, b.content) && Finite(b.ts, ix) && Inside(b.content, ix)
    requires (root, sub) in b.content.slm
    modifies b`tlm, b`toDo, b`content
    ensures b.Valid() && Inv(b.ts, eqOrSim, b.content) && Inside(b.content, ix) && HandledAll(b.ts, eqOrSim, b.content, (root, sub))
    ensures Advances(b.ts, old(b.content), old(b.toDo), b.content, b.toDo)
    ensures old(AllSparing(b.ts, eqOrSim, b.tlm)) ==> AllSparing(b.ts, eqOrSim, b.tlm)
  {
    hide AllSparing, Rep, RecordsOfRoots, Inv, Preorder, Handled, Finite, Inside, Queued;
    ghost var c, w := b.content, b.toDo;
    AdvancesNowhere(b.ts, c, w);
    var edges := b.ts.succ(sub);
    for i := 0 to |edges|
      invariant b.Valid() && Inv(b.ts, eqOrSim, b.content) && Inside(b.content, ix) && Advances(b.ts, c, w, b.content, b.toDo)
      invariant forall j :: 0 <= j < i ==> Handled(b.ts, eqOrSim, b.content, root, edges[j])
      invariant old(AllSparing(b.ts, eqOrSim, b.tlm)) ==> AllSparing(b.ts, eqOrSim, b.tlm)
    {
      ghost var c1, w1 := b.content, b.toDo;
      assert (root, sub) in c1.slm && edges[i] in b.ts.succ(sub);
      match edges[i] {
        case Nop(t) => ExpandNop(b, root, sub, t, eqOrSim, ix);
        case Push(a, t) => ExpandPush(b, root, sub, a, t, eqOrSim, ix);
        case Pop(a, t) => ExpandPop(b, root, sub, a, t, eqOrSim, ix);
      }
      AdvancesTransitive(b.ts, c, w, c1, w1, b.content, b.toDo);
      forall j | 0 <= j < i
        ensures Handled(b.ts, eqOrSim, b.content, root, edges[j])
      {
        HandledStays(b.ts, eqOrSim, c1, b.content, root, edges[j]);
      }
    }
  }

  lemma HandledStays<Z(!new)>(ts: System<Z>, mode: bool, c: Content<Z>, c': Content<Z>, r: Node<Z>, e: Edge<Z>)
    requires Grows(c, c') && Handled(ts, mode, c, r, e)
    ensures Handled(ts, mode, c', r, e)
  {}

  // ----- the whole exploration -----

  /** Stored pairs are waiting or completely handled; waiting pairs are stored. */
  ghost predicate Progress<Z(!new)>(ts: System<Z>, mode: bool, c: Content<Z>, w: Work<Z>) {
    && (forall x :: x in w ==> x in c.slm)
    && (forall x :: x in c.slm ==> x in w || HandledAll(ts, mode, c, x))
  }

  lemma ProgressKept<Z(!new)>(ts: System<Z>, mode: bool, c: Content<Z>, w: Work<Z>, x: (Node<Z>, Node<Z>), c': Content<Z>, w': Work<Z>)
    requires Progress(ts, mode, c, w + [x]) && Advances(ts, c, w, c', w') && HandledAll(ts, mode, c', x)
    ensures Progress(ts, mode, c', w')
  {
    hide HandledAll;
    assert w' == w + w'[|w|..];
    forall y | y in w'
      ensures y in c'.slm
    {
      assert y in w || y in w'[|w|..];
      assert y in w ==> y in w + [x];
    }
    forall y | y in c'.slm
      ensures y in w' || HandledAll(ts, mode, c', y)
    {
      if y in c.slm && y !in w && y != x {
        assert y !in w + [x];
        HandledGrows(ts, mode, c, c', y);
      }
    }
  }

  /** The reported locations are those of the pairs of the initial root that have been taken from the work list. */
  ghost predicate Reported<Z(!new)>(c: Content<Z>, w: Work<Z>, init: Node<Z>, all: set<string>) {
    && (forall x :: x in c.slm && x.0 == init ==> x in w || x.1.loc in all)
    && (forall loc :: loc in all ==> HoldsLocation(c, init, loc))
  }

  lemma ReportedKept<Z(!new)>(ts: System<Z>, c: Content<Z>, w: Work<Z>, x: (Node<Z>, Node<Z>), c': Content<Z>, w': Work<Z>, init: Node<Z>,
                              all: set<string>, all': set<string>)
    requires Reported(c, w + [x], init, all) && x in c.slm && Advances(ts, c, w, c', w')
    requires all' == if x.0 == init then all + {x.1.loc} else all
    ensures Reported(c', w', init, all')
  {
    assert w' == w + w'[|w|..];
    forall y | y in c'.slm && y.0 == init
      ensures y in w' || y.1.loc in all'
    {
      if y in c.slm && y != x {
        assert y in w + [x] ==> y in w;
      }
    }
    forall loc | loc in all'
      ensures HoldsLocation(c', init, loc)
    {
      if loc in all {
        var p :| (init, p) in c.slm && p.loc == loc;
        assert (init, p) in c'.slm;
      } else {
        assert (init, x.1) in c'.slm;
      }
    }
  }

  ghost predicate Exploring<Z(!new)>(ts: System<Z>, mode: bool, c: Content<Z>, w: Work<Z>, init: Node<Z>, all: set<string>) {
    Inv(ts, mode, c) && init in c.roots && Progress(ts, mode, c, w) && Reported(c, w, init, all)
  }

  lemma IterationKeeps<Z(!new)>(ts: System<Z>, mode: bool, c: Content<Z>, w: Work<Z>, x: (Node<Z>, Node<Z>), c': Content<Z>, w': Work<Z>,
                                init: Node<Z>, all: set<string>, all': set<string>)
    requires Exploring(ts, mode, c, w + [x], init, all)
    requires Inv(ts, mode, c') && Advances(ts, c, w, c', w') && HandledAll(ts, mode, c', x)
    requires all' == if x.0 == init then all + {x.1.loc} else all
    ensures Exploring(ts, mode, c', w', init, all')
  {
    hide Inv, HandledAll;
    assert x in w + [x];
    ProgressKept(ts, mode, c, w, x, c', w');
    ReportedKept(ts, c, w, x, c', w', init, all, all');
  }

  /** One iteration of the exploration loop: the pair that was stored last is taken, and reported if it belongs to the initial root. */
  method TakeOne<Z(==, !new), C>(b: TsFindBuilder<Z>, init: Node<Z>, eqOrSim: bool, reachable: seq<string>, all: set<string>,
                              ghost ix: Index<Z, C>)
    returns (reachable': seq<string>, all': set<string>)
    requires b.Valid() && Preorder(b.ts) && Finite(b.ts, ix) && Inside(b.content, ix) && b.toDo != []
    requires Exploring(b.ts, eqOrSim, b.content, b.toDo, init, all)
    requires Listed(reachable, all)
    modifies b`tlm, b`toDo, b`content
    ensures b.Valid() && Inside(b.content, ix) && Exploring(b.ts, eqOrSim, b.content, b.toDo, init, all') && Listed(reachable', all')
    ensures var before, after := AllPairs(ix) - ClassPairs(old(b.content), ix), AllPairs(ix) - ClassPairs(b.content, ix);
            after < before || (after == before && |b.toDo| == |old(b.toDo)| - 1)
    ensures old(AllSparing(b.ts, eqOrSim, b.tlm)) ==> AllSparing(b.ts, eqOrSim, b.tlm)
    ensures old(b.toDo)[..|old(b.toDo)| - 1] <= b.toDo
    ensures var x := old(b.toDo)[|old(b.toDo)| - 1];
            reachable' == if x.0 == init && x.1.loc !in reachable then reachable + [x.1.loc] else reachable
  {
    hide AllSparing, Rep, RecordsOfRoots, Preorder, Simulation, Finite, Inside, Matched, Justified, HandledAll, Reported;
    ghost var c := b.content;
    var top := b.toDo[|b.toDo| - 1];
    ghost var w := b.toDo[..|b.toDo| - 1];
    assert b.toDo == w + [top];
    b.toDo := b.toDo[..|b.toDo| - 1];
    assert top in c.slm;
    reachable', all' := reachable, all;
    if top.0.loc == init.loc && !Distinct(b.ts, top.0, init, false) {
      all' := all + {top.1.loc};
      if top.1.loc !in all {
        reachable' := reachable + [top.1.loc];
      }
    }
    InitialRoot(b.ts, c, top, init);
    ExpandPair(b, top.0, top.1, eqOrSim, ix);
    IterationKeeps(b.ts, eqOrSim, c, w, top, b.content, b.toDo, init, all, all');
    Terminates(b.ts, c, w, b.content, b.toDo, ix);
  }

  /** The list holds the elements of the set, each once. */
  ghost predicate Listed(s: seq<string>, all: set<string>) {
    && (forall loc :: loc in all <==> loc in s)
    && (forall i, j :: 0 <= i < j < |s| ==> s[i] != s[j])
  }

  /** A finished exploration: a saturated table that keeps the invariants, and the locations that it holds for the initial node. */
  ghost predicate Answers<Z(!new)>(ts: System<Z>, mode: bool, init: Node<Z>, reachable: seq<string>, content: Content<Z>) {
    && Inv(ts, mode, content) && Saturated(ts, mode, content) && init in content.roots
    && forall loc :: loc in reachable <==> HoldsLocation(content, init, loc)
  }

  /** Explores everything from the initial node `init`. For any comparison that is a preorder of finite index the exploration
      terminates, in a saturated table that keeps all invariants, reports exactly the locations held for the initial node, each
      once, and no second-level map lists a node that an earlier one makes redundant. When the comparison is a simulation, what
      it reports are exactly the locations at the end of well-nested runs. */
  method Run<Z(==, !new), C>(ts: System<Z>, init: Node<Z>, eqOrSim: bool, ghost ix: Index<Z, C>)
    returns (reachable: seq<string>, ghost content: Content<Z>, ghost table: Table<Z>)
    requires Preorder(ts) && Finite(ts, ix) && ix.good(init)
    ensures forall i, j :: 0 <= i < j < |reachable| ==> reachable[i] != reachable[j]
    ensures Answers(ts, eqOrSim, init, reachable, content)
    ensures Rep(table, content) && AllSparing(ts, eqOrSim, table)
    ensures Simulating(ts) ==> forall loc :: loc in reachable <==> ReachesLocation(ts, init, loc)
    ensures !eqOrSim ==> forall r: Node<Z>, s: Node<Z>, t: Node<Z> ::
              (r, s) in content.slm && Nop(t) in ts.succ(s) ==> HoldsEqual(ts, content, r, t)
    ensures !eqOrSim ==> forall r1: Node<Z>, s: Node<Z>, a: string, t: Node<Z> ::
              (r1, s) in content.slm && Push(a, t) in ts.succ(s) ==> exists r: Node<Z> :: CallHeld(ts, content, r1, a, t, r)
  {
    hide AllSparing, Redundant, Rep, RecordsOfRoots, Preorder, Finite, Matched, Justified, HandledAll, HoldsLocation, ReachesLocation, Simulating;
    var b := new TsFindBuilder(ts);
    EmptyTable(ts, eqOrSim);
    EmptySparing(ts, eqOrSim);
    NewRootNotRedundant(ts, eqOrSim, b.content, init);
    b.JustAddNode(init, init);
    assert b.content == WithRoot(Content({}, {}, {}, {}), init);
    RootKeeps(ts, eqOrSim, Content({}, {}, {}, {}), init);
    reachable := [];
    var all: set<string> := {};
    while b.toDo != []
      invariant b.Valid() && b.ts == ts && Inside(b.content, ix)
      invariant Exploring(ts, eqOrSim, b.content, b.toDo, init, all) && Listed(reachable, all)
      invariant AllSparing(ts, eqOrSim, b.tlm)
      decreases AllPairs(ix) - ClassPairs(b.content, ix), |b.toDo|
    {
      reachable, all := TakeOne(b, init, eqOrSim, reachable, all, ix);
    }
    content, table := b.content, b.tlm;
    forall loc
      ensures loc in reachable <==> HoldsLocation(content, init, loc)
      ensures Simulating(ts) ==> (loc in reachable <==> ReachesLocation(ts, init, loc))
    {
      if Simulating(ts) {
        SaturatedLocations(ts, eqOrSim, content, init, loc);
      }
      AllReported(content, init, all, loc);
    }
    if !eqOrSim {
      EquivalentsHeld(ts, content);
    }
  }

  lemma EmptySparing<Z(!new)>(ts: System<Z>, mode: bool)
    ensures AllSparing(ts, mode, map[])
  {}

  lemma EmptyTable<Z(!new)>(ts: System<Z>, mode: bool)
    ensures Inv(ts, mode, Content({}, {}, {}, {}))
  {}

  /** The only root equivalent to the initial node is the initial node. */
  lemma InitialRoot<Z(!new)>(ts: System<Z>, c: Content<Z>, x: (Node<Z>, Node<Z>), init: Node<Z>)
    requires Preorder(ts) && WellFormed(ts, c) && x in c.slm && init in c.roots
    ensures x.0.loc == init.loc && !Distinct(ts, x.0, init, false) <==> x.0 == init
  {
    assert x.0 in c.roots;
    assert Le(ts, init, init);
    assert Equivalent(ts, x.0, init) <==> x.0.loc == init.loc && !Distinct(ts, x.0, init, false);
  }

  lemma AllReported<Z(!new)>(c: Content<Z>, init: Node<Z>, all: set<string>, loc: string)
    requires Reported(c, [], init, all)
    ensures loc in all <==> HoldsLocation(c, init, loc)
  {
    if HoldsLocation(c, init, loc) {
      var p :| (init, p) in c.slm && p.loc == loc;
      assert (init, p).1.loc in all;
    }
  }

  /** A class that no pair held had is used up with every pair that is queued. */
  lemma Terminates<Z(!new), C>(ts: System<Z>, c: Content<Z>, w: Work<Z>, c': Content<Z>, w': Work<Z>, ix: Index<Z, C>)
    requires Advances(ts, c, w, c', w') && Finite(ts, ix) && Inside(c', ix)
    ensures var a, a' := AllPairs(ix) - ClassPairs(c, ix), AllPairs(ix) - ClassPairs(c', ix);
            a' < a || (a' == a && w' == w)
  {
    var p, p' := ClassPairs(c, ix), ClassPairs(c', ix);
    assert p <= p' <= AllPairs(ix);
    if w' == w {
      assert w'[|w|..] == [];
      assert c'.slm == c.slm;
    } else {
      var x :| x in c'.slm && Novel(ts, c, x);
      var k := (ix.cls(x.0), ix.cls(x.1));
      assert k in p';
      forall y | y in c.slm
        ensures (ix.cls(y.0), ix.cls(y.1)) != k
      {
        assert y in c'.slm;
      }
    }
  }
}
