/** The node table of a covering graph: containers of nodes, one for all keys with the same remainder. Every node knows where it
    is, so that it is removed in constant time by moving the last node of its container into its place. */
module CoverGraph {

  const NOT_A_POSITION: nat := 0xFFFF_FFFF

  class Node<S> {
    const state: S
    /** Initial nodes are protected: they are never covered. */
    const isProtected: bool
    var inTable: nat
    var inContainer: nat
    var active: bool

    constructor (state: S, isProtected: bool)
      ensures this.state == state && this.isProtected == isProtected && active && !IsStored()
    {
      this.state, this.isProtected := state, isProtected;
      active, inTable, inContainer := true, 0, NOT_A_POSITION;
    }

    predicate IsStored()
      reads this`inTable, this`inContainer
    {
      inTable != 0 || inContainer != NOT_A_POSITION
    }
  }

  datatype Outcome = Done | Rejected | DividesByZero

  type Order<!S> = (S, S) -> bool

  /** May `m` replace `n`? */
  predicate Covers<S>(le: Order<S>, n: Node<S>, m: Node<S>) {
    n != m && !n.isProtected && le(n.state, m.state)
  }

  // ----- the table against the set of its nodes -----

  type Table<S> = seq<seq<Node<S>>>

  ghost predicate InTable<S>(t: Table<S>, b: nat, i: nat) {
    b < |t| && i < |t[b]|
  }

  /** The node at a place of the table knows the place. */
  ghost predicate Knows<S>(n: Node<S>, b: nat, i: nat)
    reads n`inTable, n`inContainer
  {
    n.inTable == b && n.inContainer == i
  }

  class NodeTable<!S(!new)> {
    const key: S -> nat
    const le: Order<S>
    var table: Table<S>
    ghost var nodes: set<Node<S>>

    ghost predicate Valid()
      reads this, nodes
    {
      && (forall n :: n in nodes ==> InTable(table, n.inTable, n.inContainer) && table[n.inTable][n.inContainer] == n
                                     && n.inTable == key(n.state) % |table|)
      && (forall b: nat, i: nat :: InTable(table, b, i) ==> table[b][i] in nodes && Knows(table[b][i], b, i))
      && (forall b: nat :: b < |table| ==> |table[b]| <= NOT_A_POSITION)
    }

    constructor (size: nat, key: S -> nat, le: Order<S>)
      ensures Valid() && nodes == {} && |table| == size && this.key == key && this.le == le
    {
      this.key, this.le := key, le;
      table := seq(size, _ => []);
      nodes := {};
    }

    /** The container in which a node of this state belongs is full. */
    predicate Full(s: S)
      reads this`table
    {
      |table| > 0 && |table[key(s) % |table|]| >= NOT_A_POSITION
    }

    /** A stored node is rejected. When the container is full, the exception leaves the position in the table behind: unless that
        is position 0, the node counts as stored although it is not. */
    method AddNode(n: Node<S>) returns (outcome: Outcome)
      requires Valid()
      modifies this`table, this`nodes, n`inTable, n`inContainer
      ensures Valid() && |table| == |old(table)|
      ensures outcome == if old(n.IsStored()) then Rejected else if |table| == 0 then DividesByZero
                         else if old(Full(n.state)) then Rejected else Done
      ensures outcome.Done? ==> n !in old(nodes) && nodes == old(nodes) + {n} && n.IsStored()
      ensures outcome.Done? ==> var b := key(n.state) % |table|; table == old(table)[b := old(table)[b] + [n]]
      ensures !outcome.Done? ==> nodes == old(nodes) && table == old(table)
      ensures !outcome.Done? && !old(n.IsStored()) ==> (n.IsStored() <==> |table| > 0 && key(n.state) % |table| != 0)
    {
      if n.IsStored() {
        return Rejected;
      }
      if |table| == 0 {
        return DividesByZero;
      }
      assert n !in nodes;
      var position := key(n.state) % |table|;
      n.inTable := position;
      if |table[position]| >= NOT_A_POSITION {
        return Rejected;
      }
      n.inContainer := |table[position]|;
      table := table[position := table[position] + [n]];
      nodes := nodes + {n};
      return Done;
    }

    /** Removes exactly the nodes of this table. */
    method RemoveNode(n: Node<S>) returns (outcome: Outcome)
      requires Valid()
      modifies this`table, this`nodes, nodes`inContainer, n`inTable, n`inContainer
      ensures Valid() && |table| == |old(table)|
      ensures outcome == if n in old(nodes) then Done else Rejected
      ensures nodes == old(nodes) - {n}
      ensures n in old(nodes) ==> !n.IsStored()
      ensures n !in old(nodes) ==> table == old(table) && n.inTable == old(n.inTable) && n.inContainer == old(n.inContainer)
    {
      if !n.IsStored() || n.inTable >= |table| {
        return Rejected;
      }
      var b, position := n.inTable, n.inContainer;
      if position >= |table[b]| || table[b][position] != n {
        return Rejected;
      }
      TakeOut(n, b, position);
      return Done;
    }

    /** The last node of the container takes the place of the node removed. */
    method TakeOut(n: Node<S>, b: nat, position: nat)
      requires Valid() && InTable(table, b, position) && table[b][position] == n
      modifies this`table, this`nodes, nodes`inContainer, n`inTable, n`inContainer
      ensures Valid() && |table| == |old(table)| && nodes == old(nodes) - {n} && n in old(nodes) && !n.IsStored()
      ensures var c := old(table)[b]; var k := |c| - 1; table == old(table)[b := c[position := c[k]][..k]]
    {
      var container := table[b];
      var k := |container| - 1;
      var last := container[k];
      assert InTable(table, b, k) && Knows(last, b, k) && Knows(n, b, position);
      last.inContainer := position;
      n.inTable, n.inContainer := 0, NOT_A_POSITION;
      ghost var before := table;
      table := table[b := container[position := last][..k]];
      nodes := nodes - {n};
      forall c: nat, i: nat | InTable(table, c, i)
        ensures table[c][i] in nodes && Knows(table[c][i], c, i)
      {
        assert InTable(before, c, i);
        assert table[c][i] == if c == b && i == position then last else before[c][i];
      }
    }

    /** A node of the same container that may replace `n`. */
    method IsCovered(n: Node<S>) returns (covering: Node?<S>)
      requires Valid() && n.inTable < |table|
      ensures covering != null ==> covering in nodes && Covers(le, n, covering)
      ensures covering == null ==> forall m :: m in nodes && m.inTable == n.inTable ==> !Covers(le, n, m)
    {
      var container := table[n.inTable];
      for i := 0 to |container|
        invariant forall j :: 0 <= j < i ==> !Covers(le, n, container[j])
      {
        if Covers(le, n, container[i]) {
          assert InTable(table, n.inTable, i);
          return container[i];
        }
      }
      return null;
    }

    /** All nodes of the same container that `n` may replace, each once. */
    method CoveredNodes(n: Node<S>) returns (covered: seq<Node<S>>)
      requires Valid() && n.inTable < |table|
      ensures forall m :: m in covered <==> m in nodes && m.inTable == n.inTable && Covers(le, m, n)
      ensures forall i, j :: 0 <= i < j < |covered| ==> covered[i] != covered[j]
    {
      var b := n.inTable;
      var container := table[b];
      covered := [];
      for i := 0 to |container|
        invariant forall m :: m in covered <==> exists j :: 0 <= j < i && container[j] == m && Covers(le, m, n)
        invariant forall j, k :: 0 <= j < k < |covered| ==> covered[j] != covered[k]
      {
        assert InTable(table, b, i) && Knows(container[i], b, i);
        if Covers(le, container[i], n) {
          assert forall j :: 0 <= j < i ==> InTable(table, b, j) && Knows(container[j], b, j);
          covered := covered + [container[i]];
        }
      }
      forall m | m in covered
        ensures m in nodes && m.inTable == b
      {
        var j :| 0 <= j < |container| && container[j] == m && Covers(le, m, n);
        assert InTable(table, b, j) && Knows(table[b][j], b, j);
      }
    }

    method NodesCount() returns (count: nat)
      requires Valid()
      ensures count == |nodes|
    {
      hide Valid;
      count := 0;
      AllBefore();
      for b := 0 to |table|
        invariant count == |Before(b)|
      {
        CountBefore(b);
        count := count + |table[b]|;
      }
    }

    ghost function Before(b: nat): set<Node<S>>
      reads this, nodes
    {
      set n | n in nodes && n.inTable < b
    }

    lemma AllBefore()
      requires Valid()
      ensures Before(0) == {} && Before(|table|) == nodes
    {}

    lemma CountBefore(b: nat)
      requires Valid() && b < |table|
      ensures |Before(b + 1)| == |Before(b)| + |table[b]|
    {
      var here := set n | n in nodes && n.inTable == b;
      CountContainer(here, b, |table[b]|);
      assert here !! Before(b) && Before(b + 1) == Before(b) + here;
    }

    /** The first `k` places of a container hold `k` nodes. */
    lemma {:induction false} CountContainer(here: set<Node<S>>, b: nat, k: nat)
      requires Valid() && b < |table| && k <= |table[b]|
      requires forall n :: n in here <==> n in nodes && n.inTable == b && n.inContainer < k
      ensures |here| == k
      decreases k
    {
      if k == 0 {
        assert here == {};
      } else {
        var n := table[b][k - 1];
        assert InTable(table, b, k - 1) && Knows(n, b, k - 1);
        CountContainer(here - {n}, b, k - 1);
        assert here == (here - {n}) + {n};
      }
    }

    /** Empties the table, for good: it has no containers any more, and nothing can be added. */
    method Clear()
      requires Valid()
      modifies this`table, this`nodes, nodes`inTable, nodes`inContainer
      ensures Valid() && nodes == {} && table == []
      ensures forall n :: n in old(nodes) ==> !n.IsStored()
    {
      for b := 0 to |table|
        invariant table == old(table) && nodes == old(nodes)
        invariant forall n :: n in nodes && old(n.inTable) < b ==> !n.IsStored()
        invariant forall n :: n in nodes && old(n.inTable) >= b ==> n.inTable == old(n.inTable) && n.inContainer == old(n.inContainer)
      {
        var container := table[b];
        for i := 0 to |container|
          invariant table == old(table) && nodes == old(nodes)
          invariant forall n :: n in nodes && old(n.inTable) < b ==> !n.IsStored()
          invariant forall n :: n in nodes && old(n.inTable) == b && old(n.inContainer) < i ==> !n.IsStored()
          invariant forall n :: n in nodes && (old(n.inTable) > b || (old(n.inTable) == b && old(n.inContainer) >= i)) ==>
                      n.inTable == old(n.inTable) && n.inContainer == old(n.inContainer)
        {
          var n := container[i];
          assert old(InTable(table, b, i) && Knows(table[b][i], b, i) && table[b][i] in nodes);
          n.inTable, n.inContainer := 0, NOT_A_POSITION;
        }
      }
      table := [];
      nodes := {};
    }
  }
}
