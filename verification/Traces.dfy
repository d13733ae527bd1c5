/** Well-nested runs as the exploration table puts them together: a push may enter an equivalent root instead of its target,
    and every push is on record. */
module Traces {
  import opened Pushdown

  /** For a root, a symbol and another root: the second enters the first by pushing the symbol. */
  type Pushes<Z(==)> = set<(Node<Z>, string, Node<Z>)>

  datatype Trace<Z> =
    | Start
    | Internal(prev: Trace<Z>, from: Node<Z>)
    | Call(prev: Trace<Z>, from: Node<Z>, symbol: string, target: Node<Z>, entry: Node<Z>, inner: Trace<Z>, exit: Node<Z>)

  ghost predicate IsTrace<Z>(ts: System<Z>, pushes: Pushes<Z>, r: Node<Z>, trace: Trace<Z>, q: Node<Z>)
    decreases trace
  {
    match trace
    case Start => q == r
    case Internal(prev, from) => IsTrace(ts, pushes, r, prev, from) && Nop(q) in ts.succ(from)
    case Call(prev, from, a, target, entry, inner, exit) =>
      && IsTrace(ts, pushes, r, prev, from) && Push(a, target) in ts.succ(from)
      && Equivalent(ts, entry, target) && (entry, a, r) in pushes
      && IsTrace(ts, pushes, entry, inner, exit) && Pop(a, q) in ts.succ(exit)
  }

  ghost predicate Traced<Z(!new)>(ts: System<Z>, pushes: Pushes<Z>, r: Node<Z>, q: Node<Z>) {
    exists trace: Trace<Z> :: IsTrace(ts, pushes, r, trace, q)
  }

  /** Pairs of a root and a node held for it. */
  type Held<Z(==)> = set<(Node<Z>, Node<Z>)>

  /** A push of `a` out of something held for `r` leads to a node that `entry` stands for. */
  ghost predicate Pushed<Z(!new)>(ts: System<Z>, held: Held<Z>, r: Node<Z>, a: string, entry: Node<Z>) {
    exists m: Node<Z>, t: Node<Z> :: (r, m) in held && Push(a, t) in ts.succ(m) && Equivalent(ts, entry, t)
  }

  /** A pop of `a` out of something held for `r` leads to `p`. */
  ghost predicate Popped<Z(!new)>(ts: System<Z>, held: Held<Z>, r: Node<Z>, a: string, p: Node<Z>) {
    exists m: Node<Z> :: (r, m) in held && Pop(a, p) in ts.succ(m)
  }

  /** A push of `a` out of something held for `r` leads to `entry` itself. */
  ghost predicate Straight<Z(!new)>(ts: System<Z>, held: Held<Z>, r: Node<Z>, a: string, entry: Node<Z>) {
    exists m: Node<Z> :: (r, m) in held && Push(a, entry) in ts.succ(m)
  }

  lemma {:induction false} TraceGrows<Z>(ts: System<Z>, pushes: Pushes<Z>, pushes': Pushes<Z>, r: Node<Z>, trace: Trace<Z>,
                                         q: Node<Z>)
    requires pushes <= pushes' && IsTrace(ts, pushes, r, trace, q)
    ensures IsTrace(ts, pushes', r, trace, q)
    decreases trace
  {
    match trace
    case Start =>
    case Internal(prev, from) => TraceGrows(ts, pushes, pushes', r, prev, from);
    case Call(prev, from, a, target, entry, inner, exit) =>
      TraceGrows(ts, pushes, pushes', r, prev, from);
      TraceGrows(ts, pushes, pushes', entry, inner, exit);
  }

  lemma TracedGrows<Z(!new)>(ts: System<Z>, pushes: Pushes<Z>, pushes': Pushes<Z>, r: Node<Z>, q: Node<Z>)
    requires pushes <= pushes' && Traced(ts, pushes, r, q)
    ensures Traced(ts, pushes', r, q)
  {
    var trace :| IsTrace(ts, pushes, r, trace, q);
    TraceGrows(ts, pushes, pushes', r, trace, q);
  }

  lemma TracedHere<Z(!new)>(ts: System<Z>, pushes: Pushes<Z>, r: Node<Z>)
    ensures Traced(ts, pushes, r, r)
  {
    assert IsTrace(ts, pushes, r, Start, r);
  }

  lemma TracedStep<Z(!new)>(ts: System<Z>, pushes: Pushes<Z>, r: Node<Z>, m: Node<Z>, t: Node<Z>)
    requires Traced(ts, pushes, r, m) && Nop(t) in ts.succ(m)
    ensures Traced(ts, pushes, r, t)
  {
    var trace :| IsTrace(ts, pushes, r, trace, m);
    assert IsTrace(ts, pushes, r, Internal(trace, m), t);
  }

  /** A recorded push and a pop of the same symbol make one step. */
  lemma TracedCall<Z(!new)>(ts: System<Z>, pushes: Pushes<Z>, held: Held<Z>, r: Node<Z>, a: string, entry: Node<Z>, p: Node<Z>)
    requires forall x :: x in held ==> Traced(ts, pushes, x.0, x.1)
    requires Pushed(ts, held, r, a, entry) && (entry, a, r) in pushes && Popped(ts, held, entry, a, p)
    ensures Traced(ts, pushes, r, p)
  {
    var m, t :| (r, m) in held && Push(a, t) in ts.succ(m) && Equivalent(ts, entry, t);
    var n :| (entry, n) in held && Pop(a, p) in ts.succ(n);
    assert Traced(ts, pushes, (r, m).0, (r, m).1) && Traced(ts, pushes, (entry, n).0, (entry, n).1);
    var prev :| IsTrace(ts, pushes, r, prev, m);
    var inner :| IsTrace(ts, pushes, entry, inner, n);
    assert IsTrace(ts, pushes, r, Trace.Call(prev, m, a, t, entry, inner, n), p);
  }

  /** A coarser comparison allows all the traces of a finer one. */
  lemma {:induction false} TraceCoarser<Z(!new)>(ts: System<Z>, ts': System<Z>, pushes: Pushes<Z>, r: Node<Z>, trace: Trace<Z>,
                                                 q: Node<Z>)
    requires Coarser(ts, ts') && IsTrace(ts, pushes, r, trace, q)
    ensures IsTrace(ts', pushes, r, trace, q)
    decreases trace
  {
    match trace
    case Start =>
    case Internal(prev, from) => TraceCoarser(ts, ts', pushes, r, prev, from);
    case Call(prev, from, a, target, entry, inner, exit) =>
      TraceCoarser(ts, ts', pushes, r, prev, from);
      TraceCoarser(ts, ts', pushes, entry, inner, exit);
  }

  // ----- traces against runs -----

  /** Without pushes on record a trace is a run. */
  lemma {:induction false} TraceUnpushed<Z(!new)>(ts: System<Z>, r: Node<Z>, trace: Trace<Z>, q: Node<Z>) returns (run: Run<Z>)
    requires IsTrace(ts, {}, r, trace, q)
    ensures IsRun(ts, r, run, q)
    decreases trace
  {
    match trace
    case Start => run := Here;
    case Internal(prev, from) =>
      var run' := TraceUnpushed(ts, r, prev, from);
      run := Step(run', from);
  }

  /** What is traced is reached by a well-nested run, up to simulation. */
  lemma {:induction false} TraceReached<Z(!new)>(ts: System<Z>, pushes: Pushes<Z>, r: Node<Z>, trace: Trace<Z>, q: Node<Z>)
    requires Simulating(ts) && IsTrace(ts, pushes, r, trace, q)
    ensures Reached(ts, r, q)
    decreases trace
  {
    match trace
    case Start => ReachedHere(ts, r);
    case Internal(prev, from) =>
      TraceReached(ts, pushes, r, prev, from);
      ReachedStep(ts, r, from, q);
    case Call(prev, from, a, target, entry, inner, exit) =>
      TraceReached(ts, pushes, r, prev, from);
      TraceReached(ts, pushes, entry, inner, exit);
      assert Le(ts, q, q);
      assert Enters(ts, r, a, entry) && Leaves(ts, entry, a, q);
      ReachedCall(ts, r, a, entry, q);
  }
}
