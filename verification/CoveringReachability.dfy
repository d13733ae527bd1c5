/** Reachability with covering: nodes are expanded one after the other, and small nodes give way to bigger ones. */
module CoveringReachability {
  import opened CoverGraph
  import opened Covering

  datatype Verdict = Reached | Unreached | Failed

  ghost function Elements<T>(s: seq<T>): set<T> {
    set x | x in s
  }

  /** Between two rounds: `open` nodes are still to be expanded; the pending ones among them have not been compared with the
      others yet; `seen` are the states of all nodes that have ever been kept. */
  ghost predicate Exploring<S(!new)>(ts: System<S>, nodes: set<Node<S>>, edges: set<Edge<S>>, open: set<Node<S>>,
                                     pending: set<Node<S>>, seen: set<S>) {
    && Sound(ts, nodes, edges) && Worked(ts, nodes, edges, open) && Initials(ts, nodes)
    && AllRepresented(ts, nodes - pending, seen) && Sparse(ts, nodes - pending)
    && (forall s :: s in seen ==> Reachable(ts, s))
    && forall n :: n in pending ==> !n.isProtected
  }

  ghost predicate Novel<S>(ts: System<S>, seen: set<S>, s: S) {
    forall t :: t in seen ==> !ts.le(s, t)
  }

  // ----- the steps, on values -----

  lemma Insert<S(!new)>(ts: System<S>, nodes: set<Node<S>>, edges: set<Edge<S>>, open: set<Node<S>>, pending: set<Node<S>>,
                        seen: set<S>, x: Node<S>, y: Node<S>)
    requires Preorder(ts) && Exploring(ts, nodes, edges, open, pending, seen)
    requires x in nodes && y !in nodes && !y.isProtected && y.state in ts.succ(x.state)
    ensures Exploring(ts, nodes + {y}, edges + {Edge(x, Actual, y)}, open + {y}, pending + {y}, seen)
    ensures EdgeFor(ts, edges + {Edge(x, Actual, y)}, x, y.state)
  {
    var edges' := edges + {Edge(x, Actual, y)};
    SuccessorReachable(ts, x.state, y.state);
    assert Leads(ts, Edge(x, Actual, y));
    assert Edge(x, Actual, y) in edges';
    forall z, s: S | z in nodes && z !in open && s in ts.succ(z.state)
      ensures EdgeFor(ts, edges', z, s)
    {
      assert Expanded(ts, edges, z) && EdgeFor(ts, edges, z, s);
      var e :| e in edges && e.src == z && ts.le(s, e.tgt.state);
      assert e in edges';
    }
    assert (nodes + {y}) - (pending + {y}) == nodes - pending - {y};
    assert y !in nodes - pending;
    assert nodes - pending - {y} == nodes - pending;
  }

  /** A pending node gives way to one that covers it. */
  lemma Discard<S(!new)>(ts: System<S>, nodes: set<Node<S>>, edges: set<Edge<S>>, open: set<Node<S>>, pending: set<Node<S>>,
                         seen: set<S>, x: Node<S>, y: Node<S>)
    requires Preorder(ts) && Exploring(ts, nodes, edges, open, pending + {x}, seen)
    requires x in nodes && y in nodes && Covers(ts.le, x, y)
    ensures Exploring(ts, nodes - {x}, Replaced(edges, x, y), open, pending, seen)
  {
    ReplaceSound(ts, nodes, edges, x, y);
    ReplaceWorked(ts, nodes, edges, open, x, y);
    assert nodes - {x} - pending == nodes - (pending + {x});
    forall s | s in ts.initial
      ensures exists z :: z in nodes - {x} && z.isProtected && z.state == s
    {
      var z :| z in nodes && z.isProtected && z.state == s;
      assert z in nodes - {x};
    }
  }

  /** A pending node `x` that nothing covers is being kept; the nodes in `rest` are still to give way to it. */
  ghost predicate Settling<S(!new)>(ts: System<S>, nodes: set<Node<S>>, edges: set<Edge<S>>, open: set<Node<S>>,
                                    pending: set<Node<S>>, seen: set<S>, x: Node<S>, rest: set<Node<S>>) {
    && Sound(ts, nodes, edges) && Worked(ts, nodes, edges, open) && Initials(ts, nodes)
    && AllRepresented(ts, nodes - pending, seen) && Sparse(ts, nodes - pending - {x})
    && (forall s :: s in seen ==> Reachable(ts, s))
    && (forall n :: n in pending ==> !n.isProtected)
    && x in nodes - pending
    && (forall m :: m in nodes ==> !Covers(ts.le, x, m))
    && (forall m :: m in nodes && Covers(ts.le, m, x) ==> m in rest)
  }

  /** Nothing seen before is as big. */
  lemma Keep<S(!new)>(ts: System<S>, nodes: set<Node<S>>, edges: set<Edge<S>>, open: set<Node<S>>, pending: set<Node<S>>,
                      seen: set<S>, x: Node<S>, rest: set<Node<S>>)
    requires Preorder(ts) && Exploring(ts, nodes, edges, open, pending + {x}, seen) && x in nodes && x !in pending
    requires forall m :: m in nodes ==> !Covers(ts.le, x, m)
    requires forall m :: m in nodes && Covers(ts.le, m, x) ==> m in rest
    ensures Novel(ts, seen, x.state) && Settling(ts, nodes, edges, open, pending, seen + {x.state}, x, rest)
  {
    assert nodes - pending - {x} == nodes - (pending + {x});
    assert !x.isProtected;
    forall s | s in seen
      ensures !ts.le(x.state, s)
    {
      assert Represented(ts, nodes - (pending + {x}), s);
    }
    forall s | s in seen + {x.state}
      ensures Represented(ts, nodes - pending, s)
    {
      if s == x.state {
        assert x in nodes - pending && ts.le(s, x.state);
      } else {
        assert Represented(ts, nodes - (pending + {x}), s);
        var y :| y in nodes - (pending + {x}) && ts.le(s, y.state);
        assert y in nodes - pending;
      }
    }
  }

  lemma Dislodge<S(!new)>(ts: System<S>, nodes: set<Node<S>>, edges: set<Edge<S>>, open: set<Node<S>>, pending: set<Node<S>>,
                          seen: set<S>, x: Node<S>, m: Node<S>, rest: set<Node<S>>)
    requires Preorder(ts) && Settling(ts, nodes, edges, open, pending, seen, x, rest + {m})
    requires m in nodes && Covers(ts.le, m, x)
    ensures Settling(ts, nodes - {m}, Replaced(edges, m, x), open, pending, seen, x, rest)
  {
    ReplaceSound(ts, nodes, edges, m, x);
    ReplaceWorked(ts, nodes, edges, open, m, x);
    ReplaceRepresented(ts, nodes - pending, seen, m, x);
    assert nodes - {m} - pending == nodes - pending - {m};
    forall s | s in ts.initial
      ensures exists z :: z in nodes - {m} && z.isProtected && z.state == s
    {
      var z :| z in nodes && z.isProtected && z.state == s;
      assert z in nodes - {m};
    }
  }

  lemma Settled<S(!new)>(ts: System<S>, nodes: set<Node<S>>, edges: set<Edge<S>>, open: set<Node<S>>, pending: set<Node<S>>,
                         seen: set<S>, x: Node<S>)
    requires Settling(ts, nodes, edges, open, pending, seen, x, {})
    ensures Exploring(ts, nodes, edges, open, pending, seen)
  {
    forall y, z | y in nodes - pending && z in nodes - pending
      ensures !Covers(ts.le, y, z)
    {
      if y != x && z != x {
        assert y in nodes - pending - {x} && z in nodes - pending - {x};
      }
    }
  }

  /** What a verdict says. */
  ghost predicate Answers<S(!new)>(ts: System<S>, verdict: Verdict) {
    && (verdict.Reached? ==> exists s: S :: Reachable(ts, s) && ts.accepting(s))
    && (verdict.Unreached? ==> forall s: S :: Reachable(ts, s) ==> !ts.accepting(s))
  }

  lemma AnswersReached<S(!new)>(ts: System<S>, s: S)
    requires Reachable(ts, s) && ts.accepting(s)
    ensures Answers(ts, Reached)
  {}

  lemma AnswersOtherwise<S(!new)>(ts: System<S>)
    ensures Answers(ts, Failed)
    ensures (forall s: S :: Reachable(ts, s) ==> !ts.accepting(s)) ==> Answers(ts, Unreached)
  {}

  // ----- the search -----

  class Search<!S(!new)> {
    const ts: System<S>
    const graph: NodeTable<S>
    var edges: set<Edge<S>>
    var waiting: seq<Node<S>>
    /** All nodes that have ever been made, and the states of those that have been kept. */
    ghost var created: set<Node<S>>
    ghost var seen: set<S>

    /** The active nodes are exactly those in the graph. */
    ghost predicate Valid()
      reads this, graph, graph.nodes, created
    {
      && graph.Valid() && graph.key == ts.key && graph.le == ts.le && graph.nodes <= created
      && (forall n :: n in created ==> (n.active <==> n in graph.nodes))
      && (forall n :: n in waiting ==> n in created)
    }

    constructor (ts: System<S>, tableSize: nat)
      ensures Valid() && fresh(graph) && this.ts == ts && |graph.table| == tableSize
      ensures graph.nodes == {} && edges == {} && waiting == [] && created == {} && seen == {}
    {
      this.ts := ts;
      graph := new NodeTable(tableSize, ts.key, ts.le);
      edges, waiting := {}, [];
      created, seen := {}, {};
    }

    ghost predicate Full()
      reads this, graph
    {
      |graph.table| == 0 || exists b: nat :: b < |graph.table| && |graph.table[b]| >= NOT_A_POSITION
    }

    /** Lets `n2` replace `n1`. */
    method CoverNode(n1: Node<S>, n2: Node<S>)
      requires Valid() && n1 in graph.nodes
      modifies this`edges, graph`table, graph`nodes, created
      ensures Valid() && graph.nodes == old(graph.nodes) - {n1} && edges == Replaced(old(edges), n1, n2)
    {
      edges := Replaced(edges, n1, n2);
      var outcome := graph.RemoveNode(n1);
      n1.active := false;
    }

    /** Adds a new node; fails only when its container is full or missing. */
    method MakeNode(s: S, isProtected: bool) returns (n: Node<S>, ok: bool)
      requires Valid()
      modifies this`created, graph`table, graph`nodes
      ensures fresh(n) && n.state == s && n.isProtected == isProtected && n !in old(created) && created == old(created) + {n}
      ensures ok ==> Valid() && graph.nodes == old(graph.nodes) + {n}
      ensures !ok ==> Full()
    {
      n := new Node(s, isProtected);
      var outcome := graph.AddNode(n);
      ok := outcome.Done?;
      created := created + {n};
      assert !ok ==> Full();
    }

    /** The next waiting node that is still active, if there is one: the oldest of a queue, the youngest of a stack. */
    method TakeFirst(fifo: bool) returns (node: Node?<S>)
      requires Valid()
      modifies this`waiting
      ensures Valid()
      ensures node == null ==> waiting == [] && forall n :: n in old(waiting) ==> n !in graph.nodes
      ensures node != null ==> node in graph.nodes && exists i :: Taken(old(waiting), i, node, waiting, fifo)
    {
      ghost var w := waiting;
      while waiting != []
        invariant Valid() && |waiting| <= |w|
        invariant if fifo then waiting == w[|w| - |waiting|..] else waiting == w[..|waiting|]
        invariant forall j :: 0 <= j < |w| && !Within(j, w, waiting, fifo) ==> w[j] !in graph.nodes
        decreases |waiting|
      {
        ghost var i := if fifo then |w| - |waiting| else |waiting| - 1;
        if fifo {
          node, waiting := waiting[0], waiting[1..];
        } else {
          node, waiting := waiting[|waiting| - 1], waiting[..|waiting| - 1];
        }
        assert w[i] == node && node in w;
        if node.active {
          assert Taken(w, i, node, waiting, fifo);
          return;
        }
      }
      node := null;
    }

    /** Is position `j` of `w` still among the waiting nodes? */
    ghost predicate Within(j: int, w: seq<Node<S>>, left: seq<Node<S>>, fifo: bool) {
      if fifo then j >= |w| - |left| else j < |left|
    }

    /** The node at position `i` is the first that is in the graph, and what comes after it is left. */
    ghost predicate Taken(w: seq<Node<S>>, i: int, node: Node<S>, left: seq<Node<S>>, fifo: bool)
      reads graph
    {
      && 0 <= i < |w| && w[i] == node
      && left == (if fifo then w[i + 1..] else w[..i])
      && forall j :: 0 <= j < |w| && (if fifo then j < i else j > i) ==> w[j] !in graph.nodes
    }

    /** So the nodes of the graph that have been waiting still are, but for the one taken. */
    lemma TakenOne(w: seq<Node<S>>, i: int, node: Node<S>, fifo: bool)
      requires Taken(w, i, node, waiting, fifo)
      ensures node in w && |waiting| < |w|
      ensures forall n :: n in w && n in graph.nodes ==> n in waiting || n == node
      ensures forall n :: n in waiting ==> n in w
    {
      assert w == w[..i] + [w[i]] + w[i + 1..];
    }

    /** Adds one successor of a node. */
    method AddSuccessor(node: Node<S>, s: S, ghost open: set<Node<S>>, ghost pending: set<Node<S>>) returns (n: Node<S>, ok: bool)
      requires Valid() && Preorder(ts) && node in graph.nodes && s in ts.succ(node.state)
      requires Exploring(ts, graph.nodes, edges, open, pending, seen)
      modifies this`edges, this`created, graph`table, graph`nodes
      ensures fresh(n) && n.state == s && created == old(created) + {n}
      ensures !ok ==> Full()
      ensures ok ==> Valid() && graph.nodes == old(graph.nodes) + {n} && edges == old(edges) + {Edge(node, Actual, n)}
      ensures ok ==> Exploring(ts, graph.nodes, edges, open + {n}, pending + {n}, seen) && EdgeFor(ts, edges, node, s)
    {
      hide Exploring, Preorder;
      n, ok := MakeNode(s, false);
      if ok {
        Insert(ts, old(graph.nodes), edges, open, pending, seen, node, n);
        edges := edges + {Edge(node, Actual, n)};
      }
    }

    /** Adds all successors of a node that waits no longer. */
    method Expand(node: Node<S>) returns (nodes: seq<Node<S>>, ok: bool)
      requires Valid() && Preorder(ts) && node in graph.nodes && !ts.accepting(node.state)
      requires Exploring(ts, graph.nodes, edges, Elements(waiting) + {node}, {}, seen)
      modifies this`edges, this`created, graph`table, graph`nodes
      ensures fresh(created - old(created)) && old(created) <= created
      ensures !ok ==> Full()
      ensures ok ==> Valid() && Elements(nodes) <= graph.nodes && NoRepeat(nodes)
      ensures ok ==> Exploring(ts, graph.nodes, edges, Elements(waiting) + Elements(nodes), Elements(nodes), seen)
      ensures ok ==> forall n :: n in nodes ==> n.state in ts.succ(node.state)
    {
      hide Valid, Exploring, Preorder, Full, EdgeFor;
      nodes := [];
      ghost var open, pending := Elements(waiting) + {node}, {};
      var next := ts.succ(node.state);
      for i := 0 to |next|
        invariant Valid() && node in graph.nodes && |nodes| == i
        invariant old(created) <= created && fresh(created - old(created))
        invariant pending == Elements(nodes) <= graph.nodes && NoRepeat(nodes)
        invariant open == Elements(waiting) + pending + {node}
        invariant Exploring(ts, graph.nodes, edges, open, pending, seen)
        invariant forall n :: n in nodes ==> n.state in ts.succ(node.state)
        invariant forall j :: 0 <= j < i ==> EdgeFor(ts, edges, node, next[j])
      {
        var n;
        ghost var edges0 := edges;
        n, ok := AddSuccessor(node, next[i], open, pending);
        if !ok {
          return;
        }
        forall j | 0 <= j < i
          ensures EdgeFor(ts, edges, node, next[j])
        {
          EdgeKept(ts, edges0, edges, node, next[j]);
        }
        nodes, open, pending := nodes + [n], open + {n}, pending + {n};
      }
      NoLongerOpen(ts, graph.nodes, edges, Elements(waiting) + pending, pending, seen, node);
      ok := true;
    }

    /** Compares a pending node with all others: a bigger one replaces it, or it replaces all smaller ones and waits. */
    method Settle(x: Node<S>, ghost pending: set<Node<S>>)
      requires Valid() && Simulating(ts) && x in graph.nodes && x !in pending
      requires Exploring(ts, graph.nodes, edges, Elements(waiting) + (pending + {x}), pending + {x}, seen)
      modifies this`edges, this`waiting, this`seen, graph`table, graph`nodes, created
      ensures Valid() && graph.nodes <= old(graph.nodes) && Advanced(ts, old(waiting), old(seen), waiting, seen)
      ensures Exploring(ts, graph.nodes, edges, Elements(waiting) + pending, pending, seen)
    {
      hide Valid, Exploring, Settling, Preorder;
      ghost var open := Elements(waiting) + (pending + {x});
      var covering := FindCovering(x);
      if covering != null {
        Discard(ts, graph.nodes, edges, open, pending, seen, x, covering);
        CoverNode(x, covering);
        OpenAmong(ts, graph.nodes, edges, open, Elements(waiting) + pending, pending, seen);
        return;
      }
      var covered := FindCovered(x);
      Keep(ts, graph.nodes, edges, open, pending, seen, x, Elements(covered));
      Enqueue(x);
      assert Elements(waiting) + pending == open;
      for i := 0 to |covered|
        invariant Valid() && waiting == old(waiting) + [x] && seen == old(seen) + {x.state} && created == old(created)
        invariant Elements(covered[i..]) <= graph.nodes <= old(graph.nodes)
        invariant Settling(ts, graph.nodes, edges, open, pending, seen, x, Elements(covered[i..]))
      {
        var m := covered[i];
        assert covered[i..] == [m] + covered[i + 1..];
        assert Elements(covered[i..]) == Elements(covered[i + 1..]) + {m};
        assert m !in covered[i + 1..];
        Dislodge(ts, graph.nodes, edges, open, pending, seen, x, m, Elements(covered[i + 1..]));
        CoverNode(m, x);
      }
      assert Elements(covered[|covered|..]) == {};
      Settled(ts, graph.nodes, edges, open, pending, seen, x);
    }

    /** A node that may replace `x`, in the whole graph: comparable states are in the same container. */
    method FindCovering(x: Node<S>) returns (covering: Node?<S>)
      requires Valid() && Simulating(ts) && x in graph.nodes
      ensures covering != null ==> covering in graph.nodes && Covers(ts.le, x, covering)
      ensures covering == null ==> forall m :: m in graph.nodes ==> !Covers(ts.le, x, m)
    {
      covering := graph.IsCovered(x);
      assert forall m :: m in graph.nodes && ts.key(m.state) == ts.key(x.state) ==> m.inTable == x.inTable;
    }

    /** All nodes in the graph that `x` may replace. */
    method FindCovered(x: Node<S>) returns (covered: seq<Node<S>>)
      requires Valid() && Simulating(ts) && x in graph.nodes
      ensures NoRepeat(covered) && forall m :: m in covered <==> m in graph.nodes && Covers(ts.le, m, x)
    {
      covered := graph.CoveredNodes(x);
      assert forall m :: m in graph.nodes && ts.key(m.state) == ts.key(x.state) ==> m.inTable == x.inTable;
    }

    /** A kept node waits. */
    method Enqueue(x: Node<S>)
      requires Valid() && x in graph.nodes
      modifies this`waiting, this`seen
      ensures Valid() && waiting == old(waiting) + [x] && seen == old(seen) + {x.state}
    {
      waiting := waiting + [x];
      seen := seen + {x.state};
    }

    /** Compares new nodes one after the other; those that have given way already are skipped. */
    method SettleAll(nodes: seq<Node<S>>)
      requires Valid() && Simulating(ts) && NoRepeat(nodes) && Elements(nodes) <= created
      requires Exploring(ts, graph.nodes, edges, Elements(waiting) + Elements(nodes), Elements(nodes), seen)
      modifies this`edges, this`waiting, this`seen, graph`table, graph`nodes, created
      ensures Valid() && Advanced(ts, old(waiting), old(seen), waiting, seen)
      ensures Exploring(ts, graph.nodes, edges, Elements(waiting), {}, seen)
    {
      hide Valid, Exploring, Simulating;
      assert nodes[0..] == nodes;
      for i := 0 to |nodes|
        invariant Valid() && created == old(created) && Advanced(ts, old(waiting), old(seen), waiting, seen)
        invariant Exploring(ts, graph.nodes, edges, Elements(waiting) + Elements(nodes[i..]), Elements(nodes[i..]), seen)
      {
        var x := nodes[i];
        ghost var rest := Elements(nodes[i + 1..]);
        assert nodes[i..] == [x] + nodes[i + 1..];
        assert Elements(nodes[i..]) == rest + {x};
        assert x !in nodes[i + 1..];
        assert x in Elements(nodes);
        ActiveInGraph(x);
        if x.active {
          Settle(x, rest);
        } else {
          Absent(ts, graph.nodes, edges, Elements(waiting), rest, seen, x);
        }
      }
      assert Elements(nodes[|nodes|..]) == {};
      assert Elements(waiting) + {} == Elements(waiting);
    }

    lemma GraphAmongCreated()
      requires Valid()
      ensures graph.nodes <= created
    {}

    lemma ActiveInGraph(x: Node<S>)
      requires Valid() && x in created
      ensures x.active <==> x in graph.nodes
    {}

    /** The initial nodes: protected, and all of them wait. */
    method Start() returns (ok: bool)
      requires Valid() && Preorder(ts) && graph.nodes == {} && edges == {} && waiting == [] && seen == {}
      modifies this`waiting, this`created, this`seen, graph`table, graph`nodes
      ensures fresh(created - old(created)) && old(created) <= created
      ensures !ok ==> Full()
      ensures ok ==> Valid() && Exploring(ts, graph.nodes, edges, Elements(waiting), {}, seen)
    {
      hide Valid, Started, Preorder, Full;
      StartedNone(ts);
      GraphAmongCreated();
      for i := 0 to |ts.initial|
        invariant graph.nodes <= created
        invariant Valid() && edges == {} && old(created) <= created && fresh(created - old(created))
        invariant Started(ts, graph.nodes, waiting, seen, i)
      {
        var n;
        n, ok := MakeNode(ts.initial[i], true);
        if !ok {
          return;
        }
        GraphAmongCreated();
        StartedMore(ts, graph.nodes - {n}, waiting, seen, i, n);
        Enqueue(n);
      }
      StartedExploring(ts, graph.nodes, waiting, seen);
      ok := true;
    }

    /** Explores until an accepting node is found or no node waits. The verdict is right, and without accepting states the graph
        that is left has a node above every reachable state, only reachable nodes, no unprotected node that another covers, and an edge
        for every transition. When the comparison has finitely many classes, this ends. */
    method Run<C>(fifo: bool, ghost ix: Index<S, C>) returns (verdict: Verdict)
      requires Valid() && Simulating(ts) && Finite(ts, ix)
      requires graph.nodes == {} && edges == {} && waiting == [] && seen == {}
      modifies this`edges, this`waiting, this`created, this`seen, graph`table, graph`nodes, created
      ensures Answers(ts, verdict)
      ensures verdict.Unreached? ==> forall s: S :: Reachable(ts, s) ==> Represented(ts, graph.nodes, s)
      ensures verdict.Unreached? ==> Valid() && Sparse(ts, graph.nodes) && Sound(ts, graph.nodes, edges)
      ensures verdict.Unreached? ==> forall x :: x in graph.nodes ==> Expanded(ts, edges, x)
      ensures verdict.Failed? ==> Full()
    {
      hide Valid, Simulating, Preorder, Reachable, Expanded, Sound, Sparse, AllRepresented, Full, Finite, Advanced, Answers;
      assert Preorder(ts) by { SimulatingPreorder(ts); }
      AnswersOtherwise(ts);
      var ok := Start();
      if !ok {
        return Failed;
      }
      ReachableGood(ts, ix);
      while true
        invariant Valid() && old(created) <= created && fresh(created - old(created))
        invariant Exploring(ts, graph.nodes, edges, Elements(waiting), {}, seen)
        decreases ix.classes - ClassesOf(ix, seen), |waiting|
      {
        ghost var before, seen0 := waiting, seen;
        var node := TakeFirst(fifo);
        if node == null {
          OpenAmong(ts, graph.nodes, edges, Elements(before), {}, {}, seen);
          assert graph.nodes - {} == graph.nodes;
          FinishedExact(ts, graph.nodes, edges);
          return Unreached;
        }
        ghost var i :| Taken(before, i, node, waiting, fifo);
        TakenOne(before, i, node, fifo);
        OpenAmong(ts, graph.nodes, edges, Elements(before), Elements(waiting) + {node}, {}, seen);
        NodeReachable(ts, graph.nodes, edges, Elements(waiting) + {node}, seen, node);
        if ts.accepting(node.state) {
          AnswersReached(ts, node.state);
          return Reached;
        }
        var nodes;
        nodes, ok := Expand(node);
        if !ok {
          return Failed;
        }
        GraphAmongCreated();
        ghost var left := waiting;
        SettleAll(nodes);
        SeenGood(ts, ix, graph.nodes, edges, Elements(waiting), seen);
        ClassUsed(ts, ix, left, seen0, waiting, seen);
      }
    }
  }

  lemma SeenGood<S(!new), C>(ts: System<S>, ix: Index<S, C>, nodes: set<Node<S>>, edges: set<Edge<S>>, open: set<Node<S>>, seen: set<S>)
    requires Exploring(ts, nodes, edges, open, {}, seen) && forall s: S :: Reachable(ts, s) ==> ix.good(s)
    ensures forall s :: s in seen ==> ix.good(s)
  {}

  lemma NodeReachable<S(!new)>(ts: System<S>, nodes: set<Node<S>>, edges: set<Edge<S>>, open: set<Node<S>>, seen: set<S>, x: Node<S>)
    requires Exploring(ts, nodes, edges, open, {}, seen) && x in nodes
    ensures Reachable(ts, x.state)
  {}

  lemma ReachableGood<S(!new), C>(ts: System<S>, ix: Index<S, C>)
    requires Finite(ts, ix)
    ensures forall s: S :: Reachable(ts, s) ==> ix.good(s)
  {
    forall s: S | Reachable(ts, s)
      ensures ix.good(s)
    {
      var run: seq<S> :| IsRun(ts, run, s);
      RunGood(ts, ix, run, s);
    }
  }

  lemma {:induction false} RunGood<S(!new), C>(ts: System<S>, ix: Index<S, C>, run: seq<S>, s: S)
    requires Finite(ts, ix) && IsRun(ts, run, s)
    ensures ix.good(s)
    decreases |run|
  {
    if |run| > 1 {
      var prev := run[..|run| - 1];
      assert IsRun(ts, prev, run[|run| - 2]);
      RunGood(ts, ix, prev, run[|run| - 2]);
    }
  }

  /** Finitely many classes of good states: a state is below all others of its class, and no transition leaves the good states.
      Only the argument that the search ends needs it. */
  datatype Index<!S, !C> = Index(good: S -> bool, cls: S -> C, classes: set<C>)

  ghost predicate Finite<S(!new), C>(ts: System<S>, ix: Index<S, C>) {
    && (forall s :: s in ts.initial ==> ix.good(s))
    && (forall s: S, t: S :: ix.good(s) && t in ts.succ(s) ==> ix.good(t))
    && (forall s: S :: ix.good(s) ==> ix.cls(s) in ix.classes)
    && (forall s: S, t: S :: ix.good(s) && ix.good(t) && ix.cls(s) == ix.cls(t) ==> ts.le(s, t))
  }

  /** The classes of the states seen. */
  ghost function ClassesOf<S, C>(ix: Index<S, C>, seen: set<S>): set<C> {
    set s | s in seen :: ix.cls(s)
  }

  /** A class that no state seen had is used up with every node that is kept. */
  lemma ClassUsed<S(!new), C>(ts: System<S>, ix: Index<S, C>, w: seq<Node<S>>, seen: set<S>, w': seq<Node<S>>, seen': set<S>)
    requires Finite(ts, ix) && Advanced(ts, w, seen, w', seen') && forall s :: s in seen' ==> ix.good(s)
    ensures ix.classes - ClassesOf(ix, seen') <= ix.classes - ClassesOf(ix, seen)
    ensures (w' == w && seen' == seen) || ix.classes - ClassesOf(ix, seen') < ix.classes - ClassesOf(ix, seen)
  {
    assert ClassesOf(ix, seen) <= ClassesOf(ix, seen');
    if !(w' == w && seen' == seen) {
      var s :| s in seen' && Novel(ts, seen, s);
      assert ix.cls(s) in ClassesOf(ix, seen') && ix.cls(s) !in ClassesOf(ix, seen);
    }
  }

  lemma SimulatingPreorder<S(!new)>(ts: System<S>)
    requires Simulating(ts)
    ensures Preorder(ts)
  {}

  lemma Absent<S(!new)>(ts: System<S>, nodes: set<Node<S>>, edges: set<Edge<S>>, open: set<Node<S>>, pending: set<Node<S>>,
                        seen: set<S>, x: Node<S>)
    requires Exploring(ts, nodes, edges, open + (pending + {x}), pending + {x}, seen) && x !in nodes
    ensures Exploring(ts, nodes, edges, open + pending, pending, seen)
  {
    assert nodes - (pending + {x}) == nodes - pending;
  }

  ghost predicate HasNode<S(!new)>(nodes: set<Node<S>>, s: S) {
    exists n :: n in nodes && n.state == s
  }

  /** The first `k` initial states have nodes. */
  ghost predicate Started<S(!new)>(ts: System<S>, nodes: set<Node<S>>, waiting: seq<Node<S>>, seen: set<S>, k: nat) {
    && k <= |ts.initial| && Elements(waiting) == nodes
    && (forall n :: n in nodes ==> n.isProtected && n.state in ts.initial[..k])
    && (forall j :: 0 <= j < k ==> HasNode(nodes, ts.initial[j]))
    && (forall s :: s in seen <==> s in ts.initial[..k])
  }

  lemma StartedNone<S(!new)>(ts: System<S>)
    ensures Started(ts, {}, [], {}, 0)
  {}

  lemma StartedMore<S(!new)>(ts: System<S>, nodes: set<Node<S>>, waiting: seq<Node<S>>, seen: set<S>, k: nat, n: Node<S>)
    requires Started(ts, nodes, waiting, seen, k) && k < |ts.initial| && n.isProtected && n.state == ts.initial[k]
    ensures Started(ts, nodes + {n}, waiting + [n], seen + {n.state}, k + 1)
  {
    var nodes' := nodes + {n};
    assert ts.initial[..k + 1] == ts.initial[..k] + [ts.initial[k]];
    forall j | 0 <= j < k + 1
      ensures HasNode(nodes', ts.initial[j])
    {
      if j == k {
        assert n in nodes';
      } else {
        assert HasNode(nodes, ts.initial[j]);
        var m :| m in nodes && m.state == ts.initial[j];
        assert m in nodes';
      }
    }
  }

  lemma StartedExploring<S(!new)>(ts: System<S>, nodes: set<Node<S>>, waiting: seq<Node<S>>, seen: set<S>)
    requires Preorder(ts) && Started(ts, nodes, waiting, seen, |ts.initial|)
    ensures Exploring(ts, nodes, {}, Elements(waiting), {}, seen)
  {
    hide Reachable, IsRun;
    assert ts.initial[..|ts.initial|] == ts.initial && nodes - {} == nodes;
    forall n | n in nodes ensures Reachable(ts, n.state) {
      InitialReachable(ts, n.state);
    }
    forall s | s in ts.initial
      ensures exists n :: n in nodes && n.isProtected && n.state == s
      ensures Represented(ts, nodes, s) && Reachable(ts, s)
    {
      InitialReachable(ts, s);
      var j :| 0 <= j < |ts.initial| && ts.initial[j] == s;
      assert HasNode(nodes, ts.initial[j]);
      var n :| n in nodes && n.state == ts.initial[j];
      assert n.isProtected && ts.le(s, n.state);
    }
  }

  /** Nothing, or a node with a state that is not below any earlier one, has been added to the waiting nodes. */
  ghost predicate Advanced<S(!new)>(ts: System<S>, w: seq<Node<S>>, seen: set<S>, w': seq<Node<S>>, seen': set<S>) {
    && seen <= seen'
    && ((w' == w && seen' == seen) || exists s :: s in seen' && Novel(ts, seen, s))
  }

  lemma OpenAmong<S(!new)>(ts: System<S>, nodes: set<Node<S>>, edges: set<Edge<S>>, open: set<Node<S>>, open': set<Node<S>>,
                           pending: set<Node<S>>, seen: set<S>)
    requires Exploring(ts, nodes, edges, open, pending, seen)
    requires forall x :: x in nodes && x in open ==> x in open'
    ensures Exploring(ts, nodes, edges, open', pending, seen)
  {}

  ghost predicate NoRepeat<T>(s: seq<T>) {
    forall i, j :: 0 <= i < j < |s| ==> s[i] != s[j]
  }

  lemma EdgeKept<S(!new)>(ts: System<S>, edges: set<Edge<S>>, edges': set<Edge<S>>, x: Node<S>, s: S)
    requires edges <= edges' && EdgeFor(ts, edges, x, s)
    ensures EdgeFor(ts, edges', x, s)
  {}

  lemma NoLongerOpen<S(!new)>(ts: System<S>, nodes: set<Node<S>>, edges: set<Edge<S>>, open: set<Node<S>>, pending: set<Node<S>>,
                              seen: set<S>, x: Node<S>)
    requires Exploring(ts, nodes, edges, open + {x}, pending, seen) && Expanded(ts, edges, x) && !ts.accepting(x.state)
    ensures Exploring(ts, nodes, edges, open, pending, seen)
  {
    forall y | y in nodes && y !in open
      ensures Expanded(ts, edges, y) && !ts.accepting(y.state)
    {
      assert y == x || y !in open + {x};
    }
  }
}
