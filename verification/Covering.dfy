/** What a covering graph says about a transition system: every node has been reached, and every successor of an expanded node is
    represented by a node at least as big. */
module Covering {
  import opened CoverGraph

  /** `succ` lists the non-empty successors; `le` compares states; `key` is the hash of a state. */
  datatype System<!S> = System(initial: seq<S>, succ: S -> seq<S>, le: Order<S>, key: S -> nat, accepting: S -> bool)

  ghost predicate Preorder<S(!new)>(ts: System<S>) {
    && (forall s: S :: ts.le(s, s))
    && (forall s: S, t: S, u: S :: ts.le(s, t) && ts.le(t, u) ==> ts.le(s, u))
  }

  ghost predicate HasMatch<S(!new)>(ts: System<S>, s: S, t: S) {
    exists t': S :: t' in ts.succ(t) && ts.le(s, t')
  }

  /** Bigger states can do more, bigger states of accepting ones are accepting, and comparable states have the same key. */
  ghost predicate Simulating<S(!new)>(ts: System<S>) {
    && Preorder(ts)
    && (forall s: S, t: S, s': S :: ts.le(s, t) && s' in ts.succ(s) ==> HasMatch(ts, s', t))
    && (forall s: S, t: S :: ts.le(s, t) && ts.accepting(s) ==> ts.accepting(t))
    && (forall s: S, t: S :: ts.le(s, t) ==> ts.key(s) == ts.key(t))
  }

  // ----- runs -----

  ghost predicate IsRun<S(!new)>(ts: System<S>, run: seq<S>, s: S) {
    && run != [] && run[0] in ts.initial && run[|run| - 1] == s
    && forall i :: 0 < i < |run| ==> run[i] in ts.succ(run[i - 1])
  }

  ghost predicate Reachable<S(!new)>(ts: System<S>, s: S) {
    exists run: seq<S> :: IsRun(ts, run, s)
  }

  lemma InitialReachable<S(!new)>(ts: System<S>, s: S)
    requires s in ts.initial
    ensures Reachable(ts, s)
  {
    assert IsRun(ts, [s], s);
  }

  lemma SuccessorReachable<S(!new)>(ts: System<S>, s: S, t: S)
    requires Reachable(ts, s) && t in ts.succ(s)
    ensures Reachable(ts, t)
  {
    var run: seq<S> :| IsRun(ts, run, s);
    assert IsRun(ts, run + [t], t);
  }

  // ----- edges -----

  datatype Kind = Actual | Abstract

  datatype Edge<S> = Edge(src: Node<S>, kind: Kind, tgt: Node<S>)

  /** An edge stands for a transition; an actual one leads to just what the transition leads to. */
  ghost predicate Leads<S(!new)>(ts: System<S>, e: Edge<S>) {
    exists s: S :: s in ts.succ(e.src.state) && ts.le(s, e.tgt.state) && (e.kind.Actual? ==> e.tgt.state == s)
  }

  ghost predicate Sound<S(!new)>(ts: System<S>, nodes: set<Node<S>>, edges: set<Edge<S>>) {
    && (forall e :: e in edges ==> e.src in nodes && e.tgt in nodes && Leads(ts, e))
    && (forall n :: n in nodes ==> Reachable(ts, n.state))
  }

  ghost predicate EdgeFor<S(!new)>(ts: System<S>, edges: set<Edge<S>>, x: Node<S>, s: S) {
    exists e :: e in edges && e.src == x && ts.le(s, e.tgt.state)
  }

  ghost predicate Expanded<S(!new)>(ts: System<S>, edges: set<Edge<S>>, x: Node<S>) {
    forall s: S :: s in ts.succ(x.state) ==> EdgeFor(ts, edges, x, s)
  }

  /** All nodes but the open ones have been expanded, and are not accepting. */
  ghost predicate Worked<S(!new)>(ts: System<S>, nodes: set<Node<S>>, edges: set<Edge<S>>, open: set<Node<S>>) {
    forall x :: x in nodes && x !in open ==> Expanded(ts, edges, x) && !ts.accepting(x.state)
  }

  ghost predicate Represented<S(!new)>(ts: System<S>, nodes: set<Node<S>>, s: S) {
    exists y :: y in nodes && ts.le(s, y.state)
  }

  ghost predicate Initials<S(!new)>(ts: System<S>, nodes: set<Node<S>>) {
    forall s :: s in ts.initial ==> exists y :: y in nodes && y.isProtected && y.state == s
  }

  ghost predicate AllRepresented<S(!new)>(ts: System<S>, nodes: set<Node<S>>, seen: set<S>) {
    forall s :: s in seen ==> Represented(ts, nodes, s)
  }

  /** No node may replace another. */
  ghost predicate Sparse<S(!new)>(ts: System<S>, nodes: set<Node<S>>) {
    forall x, y :: x in nodes && y in nodes ==> !Covers(ts.le, x, y)
  }

  // ----- one node replaces another -----

  /** Incoming edges of `n1` become abstract edges to `n2`; all other edges of `n1` go. */
  function Moved<S>(e: Edge<S>, n1: Node<S>, n2: Node<S>): Edge<S> {
    if e.tgt == n1 then Edge(e.src, Abstract, n2) else e
  }

  function Replaced<S>(edges: set<Edge<S>>, n1: Node<S>, n2: Node<S>): set<Edge<S>> {
    set e | e in edges && e.src != n1 :: Moved(e, n1, n2)
  }

  lemma ReplaceSound<S(!new)>(ts: System<S>, nodes: set<Node<S>>, edges: set<Edge<S>>, n1: Node<S>, n2: Node<S>)
    requires Preorder(ts) && Sound(ts, nodes, edges) && n2 in nodes && n1 != n2 && ts.le(n1.state, n2.state)
    ensures Sound(ts, nodes - {n1}, Replaced(edges, n1, n2))
  {
    forall f | f in Replaced(edges, n1, n2)
      ensures f.src in nodes - {n1} && f.tgt in nodes - {n1} && Leads(ts, f)
    {
      var e :| e in edges && e.src != n1 && f == Moved(e, n1, n2);
      assert Leads(ts, e);
    }
  }

  lemma ReplaceWorked<S(!new)>(ts: System<S>, nodes: set<Node<S>>, edges: set<Edge<S>>, open: set<Node<S>>, n1: Node<S>,
                               n2: Node<S>)
    requires Preorder(ts) && Worked(ts, nodes, edges, open) && ts.le(n1.state, n2.state)
    ensures Worked(ts, nodes - {n1}, Replaced(edges, n1, n2), open)
  {
    forall x, s: S | x in nodes - {n1} && x !in open && s in ts.succ(x.state)
      ensures EdgeFor(ts, Replaced(edges, n1, n2), x, s)
    {
      assert Expanded(ts, edges, x) && EdgeFor(ts, edges, x, s);
      var e :| e in edges && e.src == x && ts.le(s, e.tgt.state);
      assert Moved(e, n1, n2) in Replaced(edges, n1, n2);
    }
  }

  lemma ReplaceRepresented<S(!new)>(ts: System<S>, nodes: set<Node<S>>, seen: set<S>, n1: Node<S>, n2: Node<S>)
    requires Preorder(ts) && AllRepresented(ts, nodes, seen) && n2 in nodes && n1 != n2 && ts.le(n1.state, n2.state)
    ensures AllRepresented(ts, nodes - {n1}, seen)
  {
    forall s | s in seen
      ensures Represented(ts, nodes - {n1}, s)
    {
      assert Represented(ts, nodes, s);
      var y :| y in nodes && ts.le(s, y.state);
      var z := if y == n1 then n2 else y;
      assert z in nodes - {n1} && ts.le(s, z.state);
    }
  }

  // ----- a finished graph -----

  /** With no open nodes, every state at the end of a run is represented. */
  lemma {:induction false} RunRepresented<S(!new)>(ts: System<S>, nodes: set<Node<S>>, edges: set<Edge<S>>, run: seq<S>, s: S)
    requires Simulating(ts) && Sound(ts, nodes, edges) && Worked(ts, nodes, edges, {}) && Initials(ts, nodes)
    requires IsRun(ts, run, s)
    ensures Represented(ts, nodes, s)
    decreases |run|
  {
    if |run| == 1 {
      var y :| y in nodes && y.isProtected && y.state == s;
      assert ts.le(s, y.state);
    } else {
      var prev, k := run[..|run| - 1], |run| - 2;
      assert IsRun(ts, prev, run[k]);
      RunRepresented(ts, nodes, edges, prev, run[k]);
      var y :| y in nodes && ts.le(run[k], y.state);
      assert run[k + 1] in ts.succ(run[k]) && HasMatch(ts, s, y.state);
      var t :| t in ts.succ(y.state) && ts.le(s, t);
      assert Expanded(ts, edges, y) && EdgeFor(ts, edges, y, t);
      var e :| e in edges && e.src == y && ts.le(t, e.tgt.state);
      assert e.tgt in nodes && ts.le(s, e.tgt.state);
    }
  }

  /** So it has a node for everything reachable, only nodes that are reachable, and no accepting state is reachable. */
  lemma FinishedExact<S(!new)>(ts: System<S>, nodes: set<Node<S>>, edges: set<Edge<S>>)
    requires Simulating(ts) && Sound(ts, nodes, edges) && Worked(ts, nodes, edges, {}) && Initials(ts, nodes)
    ensures forall s: S :: Reachable(ts, s) ==> Represented(ts, nodes, s) && !ts.accepting(s)
    ensures forall n :: n in nodes ==> Reachable(ts, n.state)
  {
    forall s: S | Reachable(ts, s)
      ensures Represented(ts, nodes, s) && !ts.accepting(s)
    {
      var run :| IsRun(ts, run, s);
      RunRepresented(ts, nodes, edges, run, s);
    }
  }
}
