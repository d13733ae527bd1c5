/** Symbolic pushdown systems: nodes are a location and a zone, edges push, pop or leave the stack alone.
    A well-nested run pops exactly what it has pushed. */
module Pushdown {

  datatype Node<Z> = Node(loc: string, zone: Z)

  datatype Edge<Z> =
    | Nop(tgt: Node<Z>)
    | Push(symbol: string, tgt: Node<Z>)
    | Pop(symbol: string, tgt: Node<Z>)

  /** `succ` lists the non-empty successors of a node; `simulates(n1, n2)` compares the zones of two nodes. */
  datatype System<!Z> = System(succ: Node<Z> -> seq<Edge<Z>>, simulates: (Node<Z>, Node<Z>) -> bool)

  /** `n` is covered by `m`. */
  predicate Le<Z>(ts: System<Z>, n: Node<Z>, m: Node<Z>) {
    n.loc == m.loc && ts.simulates(m, n)
  }

  predicate Equivalent<Z>(ts: System<Z>, n: Node<Z>, m: Node<Z>) {
    Le(ts, n, m) && Le(ts, m, n)
  }

  /** The same stack operation, to a covering target. */
  predicate Matches<Z>(ts: System<Z>, e: Edge<Z>, f: Edge<Z>) {
    match e
    case Nop(t) => f.Nop? && Le(ts, t, f.tgt)
    case Push(a, t) => f.Push? && f.symbol == a && Le(ts, t, f.tgt)
    case Pop(a, t) => f.Pop? && f.symbol == a && Le(ts, t, f.tgt)
  }

  ghost predicate Preorder<Z(!new)>(ts: System<Z>) {
    && (forall n: Node<Z> :: Le(ts, n, n))
    && (forall n: Node<Z>, m: Node<Z>, p: Node<Z> :: Le(ts, n, m) && Le(ts, m, p) ==> Le(ts, n, p))
  }

  ghost predicate Simulation<Z(!new)>(ts: System<Z>) {
    forall n: Node<Z>, m: Node<Z>, e: Edge<Z> :: Le(ts, n, m) && e in ts.succ(n) ==> HasMatch(ts, e, m)
  }

  ghost predicate HasMatch<Z(!new)>(ts: System<Z>, e: Edge<Z>, m: Node<Z>) {
    exists f: Edge<Z> :: f in ts.succ(m) && Matches(ts, e, f)
  }

  ghost predicate Simulating<Z(!new)>(ts: System<Z>) {
    Preorder(ts) && Simulation(ts)
  }

  /** The same edges, and a comparison that holds wherever the first one does. */
  ghost predicate Coarser<Z(!new)>(ts: System<Z>, ts': System<Z>) {
    && (forall n: Node<Z> :: ts'.succ(n) == ts.succ(n))
    && (forall n: Node<Z>, m: Node<Z> :: Le(ts, n, m) ==> Le(ts', n, m))
  }

  // ----- well-nested runs -----

  /** The derivation of a well-nested run, last step outermost. */
  datatype Run<Z> =
    | Here
    | Step(prev: Run<Z>, from: Node<Z>)
    | Call(prev: Run<Z>, from: Node<Z>, symbol: string, entry: Node<Z>, inner: Run<Z>, exit: Node<Z>)

  ghost predicate IsRun<Z>(ts: System<Z>, n: Node<Z>, run: Run<Z>, q: Node<Z>)
    decreases run
  {
    match run
    case Here => q == n
    case Step(prev, from) => IsRun(ts, n, prev, from) && Nop(q) in ts.succ(from)
    case Call(prev, from, a, entry, inner, exit) =>
      && IsRun(ts, n, prev, from) && Push(a, entry) in ts.succ(from)
      && IsRun(ts, entry, inner, exit) && Pop(a, q) in ts.succ(exit)
  }

  /** `q` is reached from `n` by a well-nested run. */
  ghost predicate Reaches<Z(!new)>(ts: System<Z>, n: Node<Z>, q: Node<Z>) {
    exists run: Run<Z> :: IsRun(ts, n, run, q)
  }

  /** `p` is covered by something reached from `n`. */
  ghost predicate Reached<Z(!new)>(ts: System<Z>, n: Node<Z>, p: Node<Z>) {
    exists q: Node<Z> :: Reaches(ts, n, q) && Le(ts, p, q)
  }

  lemma Match<Z(!new)>(ts: System<Z>, n: Node<Z>, m: Node<Z>, e: Edge<Z>) returns (f: Edge<Z>)
    requires Simulating(ts) && Le(ts, n, m) && e in ts.succ(n)
    ensures f in ts.succ(m) && Matches(ts, e, f)
  {
    assert HasMatch(ts, e, m);
    f :| f in ts.succ(m) && Matches(ts, e, f);
  }

  lemma Transitive<Z(!new)>(ts: System<Z>, n: Node<Z>, m: Node<Z>, p: Node<Z>)
    requires Simulating(ts) && Le(ts, n, m) && Le(ts, m, p)
    ensures Le(ts, n, p)
  {}

  /** A covering node has a covering well-nested run for every well-nested run. */
  lemma {:induction false} RunCovered<Z(!new)>(ts: System<Z>, n: Node<Z>, m: Node<Z>, run: Run<Z>, q: Node<Z>)
    returns (run': Run<Z>, q': Node<Z>)
    requires Simulating(ts) && Le(ts, n, m) && IsRun(ts, n, run, q)
    ensures IsRun(ts, m, run', q') && Le(ts, q, q')
    decreases run
  {
    match run
    case Here =>
      run', q' := Here, m;
    case Step(prev, from) =>
      var prev', from' := RunCovered(ts, n, m, prev, from);
      var f := Match(ts, from, from', Nop(q));
      run', q' := Step(prev', from'), f.tgt;
    case Call(prev, from, a, entry, inner, exit) =>
      var prev', from' := RunCovered(ts, n, m, prev, from);
      var f := Match(ts, from, from', Push(a, entry));
      var inner', exit' := RunCovered(ts, entry, f.tgt, inner, exit);
      var g := Match(ts, exit, exit', Pop(a, q));
      run', q' := Call(prev', from', a, f.tgt, inner', exit'), g.tgt;
  }

  lemma ReachedFromCover<Z(!new)>(ts: System<Z>, n: Node<Z>, m: Node<Z>, p: Node<Z>)
    requires Simulating(ts) && Le(ts, n, m) && Reached(ts, n, p)
    ensures Reached(ts, m, p)
  {
    var q :| Reaches(ts, n, q) && Le(ts, p, q);
    var run :| IsRun(ts, n, run, q);
    var run', q' := RunCovered(ts, n, m, run, q);
    Transitive(ts, p, q, q');
    assert Reaches(ts, m, q');
  }

  lemma ReachedHere<Z(!new)>(ts: System<Z>, n: Node<Z>)
    requires Simulating(ts)
    ensures Reached(ts, n, n)
  {
    assert IsRun(ts, n, Here, n);
    assert Reaches(ts, n, n);
  }

  lemma ReachedStep<Z(!new)>(ts: System<Z>, n: Node<Z>, m: Node<Z>, t: Node<Z>)
    requires Simulating(ts) && Reached(ts, n, m) && Nop(t) in ts.succ(m)
    ensures Reached(ts, n, t)
  {
    var q :| Reaches(ts, n, q) && Le(ts, m, q);
    var run :| IsRun(ts, n, run, q);
    var f := Match(ts, m, q, Nop(t));
    assert IsRun(ts, n, Step(run, q), f.tgt);
    assert Reaches(ts, n, f.tgt);
  }

  /** `n` can get, well nested, to a push of `a` that leads to a node covering `entry`. */
  ghost predicate Enters<Z(!new)>(ts: System<Z>, n: Node<Z>, a: string, entry: Node<Z>) {
    exists m: Node<Z>, t: Node<Z> :: Reached(ts, n, m) && Push(a, t) in ts.succ(m) && Le(ts, entry, t)
  }

  /** `n` can get, well nested, to a pop of `a` that leads to a node covering `p`. */
  ghost predicate Leaves<Z(!new)>(ts: System<Z>, n: Node<Z>, a: string, p: Node<Z>) {
    exists m: Node<Z>, t: Node<Z> :: Reached(ts, n, m) && Pop(a, t) in ts.succ(m) && Le(ts, p, t)
  }

  /** A push into `entry` and a pop of the same symbol out of it make one well-nested step. */
  lemma ReachedCall<Z(!new)>(ts: System<Z>, n: Node<Z>, a: string, entry: Node<Z>, p: Node<Z>)
    requires Simulating(ts) && Enters(ts, n, a, entry) && Leaves(ts, entry, a, p)
    ensures Reached(ts, n, p)
  {
    var m, t :| Reached(ts, n, m) && Push(a, t) in ts.succ(m) && Le(ts, entry, t);
    var x, y :| Reached(ts, entry, x) && Pop(a, y) in ts.succ(x) && Le(ts, p, y);
    var q :| Reaches(ts, n, q) && Le(ts, m, q);
    var run :| IsRun(ts, n, run, q);
    var f := Match(ts, m, q, Push(a, t));
    Transitive(ts, entry, t, f.tgt);
    ReachedFromCover(ts, entry, f.tgt, x);
    var z :| Reaches(ts, f.tgt, z) && Le(ts, x, z);
    var inner :| IsRun(ts, f.tgt, inner, z);
    var g := Match(ts, x, z, Pop(a, y));
    Transitive(ts, p, y, g.tgt);
    assert IsRun(ts, n, Call(run, q, a, f.tgt, inner, z), g.tgt);
    assert Reaches(ts, n, g.tgt);
  }
}
