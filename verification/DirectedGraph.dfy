/** Directed graphs on intrusive lists: every edge is a cell of two singly linked lists, the outgoing edges of its source
    and the incoming edges of its target. */
module DirectedGraph {

  /** Which of the two lists of a node, and which of the two links of an edge. */
  datatype Tag = Incoming | Outgoing

  class Node {
    var incomingHead: Edge?
    var outgoingHead: Edge?

    constructor ()
      ensures incomingHead == null && outgoingHead == null
    {
      incomingHead, outgoingHead := null, null;
    }

    function Head(tag: Tag): Edge?
      reads this
    {
      if tag.Incoming? then incomingHead else outgoingHead
    }
  }

  class Edge {
    var incomingNext: Edge?
    var outgoingNext: Edge?
    /** The node in whose incoming list the edge is: its target. */
    var incomingNode: Node?
    /** The node in whose outgoing list the edge is: its source. */
    var outgoingNode: Node?

    constructor ()
      ensures forall t: Tag :: Next(t) == null && Owner(t) == null
    {
      incomingNext, outgoingNext, incomingNode, outgoingNode := null, null, null, null;
    }

    function Next(tag: Tag): Edge?
      reads this
    {
      if tag.Incoming? then incomingNext else outgoingNext
    }

    function Owner(tag: Tag): Node?
      reads this
    {
      if tag.Incoming? then incomingNode else outgoingNode
    }
  }

  // ----- the pointers of one kind -----

  /** All head, next and node pointers of one kind. */
  datatype Pointers = Pointers(head: map<Node, Edge?>, next: map<Edge, Edge?>, owner: map<Edge, Node?>)

  ghost function Heads(tag: Tag, nodes: set<Node>): map<Node, Edge?>
    reads nodes
  {
    map n | n in nodes :: n.Head(tag)
  }

  ghost function Nexts(tag: Tag, edges: set<Edge>): map<Edge, Edge?>
    reads edges
  {
    map e | e in edges :: e.Next(tag)
  }

  ghost function Owners(tag: Tag, edges: set<Edge>): map<Edge, Node?>
    reads edges
  {
    map e | e in edges :: e.Owner(tag)
  }

  ghost function Snapshot(tag: Tag, nodes: set<Node>, edges: set<Edge>): Pointers
    reads nodes, edges
  {
    Pointers(Heads(tag, nodes), Nexts(tag, edges), Owners(tag, edges))
  }

  type Lists = map<Node, seq<Edge>>

  function First(s: seq<Edge>): Edge? {
    if s == [] then null else s[0]
  }

  function Following(s: seq<Edge>, i: int): Edge?
    requires 0 <= i < |s|
  {
    if i + 1 < |s| then s[i + 1] else null
  }

  ghost predicate NoRepeat(s: seq<Edge>) {
    forall i, j :: 0 <= i < j < |s| ==> s[i] != s[j]
  }

  ghost predicate Known(p: Pointers) {
    p.next.Keys == p.owner.Keys
  }

  /** The list of node `n` is `s`: linked from its head to null, without repetition, through edges that know their node. */
  ghost predicate Chain(p: Pointers, n: Node, s: seq<Edge>) {
    && n in p.head && p.head[n] == First(s) && NoRepeat(s)
    && forall i :: 0 <= i < |s| ==> CellAt(p, n, s, i)
  }

  ghost predicate CellAt(p: Pointers, n: Node, s: seq<Edge>, i: int)
    requires 0 <= i < |s|
  {
    s[i] in p.next && s[i] in p.owner && p.next[s[i]] == Following(s, i) && p.owner[s[i]] == n
  }

  /** Every edge with a node is in the list of that node, and the others are not linked. */
  ghost predicate Linked(p: Pointers, lists: Lists) {
    && lists.Keys == p.head.Keys && Known(p)
    && (forall n :: n in lists ==> Chain(p, n, lists[n]))
    && (forall e :: e in p.owner ==> Placed(p, lists, e))
  }

  ghost predicate Placed(p: Pointers, lists: Lists, e: Edge)
    requires e in p.owner && Known(p)
  {
    if p.owner[e] == null then p.next[e] == null
    else p.owner[e] in lists && e in lists[p.owner[e]]
  }

  /** No edge is in two places: an edge occurs once, and in the list of one node only. */
  lemma EachOnce(p: Pointers, lists: Lists, n: Node, i: nat, n': Node, i': nat)
    requires Linked(p, lists) && n in lists && n' in lists && i < |lists[n]| && i' < |lists[n']|
    requires lists[n][i] == lists[n'][i']
    ensures n == n' && i == i'
  {
    assert Chain(p, n, lists[n]) && Chain(p, n', lists[n']);
    assert CellAt(p, n, lists[n], i) && CellAt(p, n', lists[n'], i');
  }

  /** Where `k` next pointers lead from `e`. */
  ghost function Follow(p: Pointers, e: Edge?, k: nat): Edge?
    decreases k
  {
    if e == null || k == 0 then e else if e !in p.next then null else Follow(p, p.next[e], k - 1)
  }

  /** The lists have no cycles: from the head, the next pointers go through the whole list and end. */
  lemma {:induction false} ListEnds(p: Pointers, lists: Lists, n: Node, i: nat)
    requires Linked(p, lists) && n in lists && i <= |lists[n]|
    ensures Follow(p, First(lists[n][i..]), |lists[n]| - i) == null
    ensures i < |lists[n]| ==> First(lists[n][i..]) == lists[n][i]
    decreases |lists[n]| - i
  {
    if i < |lists[n]| {
      assert Chain(p, n, lists[n]) && CellAt(p, n, lists[n], i);
      ListEnds(p, lists, n, i + 1);
      assert Following(lists[n], i) == First(lists[n][i + 1..]);
    }
  }

  // ----- adding -----

  ghost function Front(p: Pointers, n: Node, e: Edge): Pointers
    requires n in p.head
  {
    Pointers(p.head[n := e], p.next[e := p.head[n]], p.owner[e := n])
  }

  lemma FrontLinked(p: Pointers, lists: Lists, n: Node, e: Edge)
    requires Linked(p, lists) && n in lists && e in p.owner && p.owner[e] == null
    ensures Linked(Front(p, n, e), lists[n := [e] + lists[n]])
  {
    var p', lists' := Front(p, n, e), lists[n := [e] + lists[n]];
    forall x | x in lists'
      ensures Chain(p', x, lists'[x])
    {
      var s, s' := lists[x], lists'[x];
      assert Chain(p, x, s);
      forall i | 0 <= i < |s|
        ensures s[i] != e
      {
        assert CellAt(p, x, s, i);
      }
      forall i | 0 <= i < |s'|
        ensures CellAt(p', x, s', i)
      {
        if x != n {
          assert CellAt(p, x, s, i);
        } else if i > 0 {
          assert CellAt(p, x, s, i - 1);
        }
      }
    }
    forall x | x in p'.owner
      ensures Placed(p', lists', x)
    {
      assert Placed(p, lists, x);
      if x == e {
        assert lists'[n][0] == e;
      } else if p.owner[x] == n {
        assert x in [e] + lists[n];
      }
    }
  }

  // ----- removing -----

  ghost function Unlinked(p: Pointers, n: Node, s: seq<Edge>, i: int): Pointers
    requires n in p.head && 0 <= i < |s|
  {
    var after := Following(s, i);
    if i == 0 then Pointers(p.head[n := after], p.next[s[i] := null], p.owner[s[i] := null])
    else Pointers(p.head, p.next[s[i - 1] := after][s[i] := null], p.owner[s[i] := null])
  }

  function Without(s: seq<Edge>, i: int): seq<Edge>
    requires 0 <= i < |s|
  {
    s[..i] + s[i + 1..]
  }

  lemma UnlinkedLinked(p: Pointers, lists: Lists, n: Node, i: int)
    requires Linked(p, lists) && n in lists && 0 <= i < |lists[n]|
    ensures Linked(Unlinked(p, n, lists[n], i), lists[n := Without(lists[n], i)])
  {
    var s := lists[n];
    var s' := Without(s, i);
    var p', lists' := Unlinked(p, n, s, i), lists[n := s'];
    assert Chain(p, n, s) && CellAt(p, n, s, i);
    if i > 0 {
      assert CellAt(p, n, s, i - 1);
    }
    forall x | x in lists'
      ensures Chain(p', x, lists'[x])
    {
      assert Chain(p, x, lists[x]);
      forall k | 0 <= k < |lists'[x]|
        ensures CellAt(p', x, lists'[x], k)
      {
        if x != n {
          assert CellAt(p, x, lists[x], k);
        } else {
          assert s'[k] == s[if k < i then k else k + 1];
          assert CellAt(p, n, s, if k < i then k else k + 1);
        }
      }
    }
    forall x | x in p'.owner
      ensures Placed(p', lists', x)
    {
      assert Placed(p, lists, x);
      if p.owner[x] == n && x != s[i] {
        var k :| 0 <= k < |s| && s[k] == x;
        assert s'[if k < i then k else k - 1] == x;
      }
    }
  }

  // ----- pointer updates -----

  method SetHead(tag: Tag, n: Node, x: Edge?, ghost nodes: set<Node>)
    requires n in nodes
    modifies n
    ensures Heads(tag, nodes) == old(Heads(tag, nodes))[n := x]
    ensures forall t: Tag :: t != tag ==> Heads(t, nodes) == old(Heads(t, nodes))
  {
    if tag.Incoming? {
      n.incomingHead := x;
    } else {
      n.outgoingHead := x;
    }
  }

  method SetNext(tag: Tag, e: Edge, x: Edge?, ghost edges: set<Edge>)
    requires e in edges
    modifies e`incomingNext, e`outgoingNext
    ensures Nexts(tag, edges) == old(Nexts(tag, edges))[e := x]
    ensures forall t: Tag :: t != tag ==> Nexts(t, edges) == old(Nexts(t, edges))
    ensures forall t: Tag :: Owners(t, edges) == old(Owners(t, edges))
  {
    if tag.Incoming? {
      e.incomingNext := x;
    } else {
      e.outgoingNext := x;
    }
  }

  method SetOwner(tag: Tag, e: Edge, x: Node?, ghost edges: set<Edge>)
    requires e in edges
    modifies e`incomingNode, e`outgoingNode
    ensures Owners(tag, edges) == old(Owners(tag, edges))[e := x]
    ensures forall t: Tag :: t != tag ==> Owners(t, edges) == old(Owners(t, edges))
    ensures forall t: Tag :: Nexts(t, edges) == old(Nexts(t, edges))
  {
    if tag.Incoming? {
      e.incomingNode := x;
    } else {
      e.outgoingNode := x;
    }
  }

  // ----- the list operations -----

  method AddTo(tag: Tag, n: Node, e: Edge, ghost nodes: set<Node>, ghost edges: set<Edge>, ghost lists: Lists)
    requires n in nodes && e in edges && Linked(Snapshot(tag, nodes, edges), lists) && e.Owner(tag) == null
    modifies n, e
    ensures n in lists && Linked(Snapshot(tag, nodes, edges), lists[n := [e] + lists[n]])
    ensures Owners(tag, edges) == old(Owners(tag, edges))[e := n]
    ensures forall t: Tag :: t != tag ==> Snapshot(t, nodes, edges) == old(Snapshot(t, nodes, edges))
  {
    hide Heads, Nexts, Owners, Linked;
    ghost var p := Snapshot(tag, nodes, edges);
    OwnersAt(tag, nodes, edges);
    LinkedKeys(p, lists);
    FrontLinked(p, lists, n, e);
    var first := n.Head(tag);
    SetNext(tag, e, first, edges);
    SetHead(tag, n, e, nodes);
    SetOwner(tag, e, n, edges);
  }

  /** Walks along the list of its node to `e`. */
  method Find(tag: Tag, e: Edge, n: Node, ghost s: seq<Edge>, ghost nodes: set<Node>, ghost edges: set<Edge>)
    returns (prev: Edge?, ghost i: nat)
    requires n in nodes && Chain(Snapshot(tag, nodes, edges), n, s) && e in s
    ensures i < |s| && s[i] == e && prev == if i == 0 then null else s[i - 1]
  {
    ghost var p := Snapshot(tag, nodes, edges);
    prev := null;
    var it := n.Head(tag);
    i := 0;
    while it != e
      invariant 0 <= i < |s| && it == s[i] && prev == (if i == 0 then null else s[i - 1])
      invariant forall k :: 0 <= k < i ==> s[k] != e
      decreases |s| - i
    {
      assert CellAt(p, n, s, i);
      prev := it;
      it := it.Next(tag);
      i := i + 1;
    }
  }

  function Detached(p: Pointers, n: Node, e: Edge, prev: Edge?, next: Edge?): Pointers {
    Pointers(if prev == null then p.head[n := next] else p.head,
             (if prev == null then p.next else p.next[prev := next])[e := null],
             p.owner[e := null])
  }

  /** Takes `e` out of the list of `n`, where it follows `prev`, or comes first. */
  method Unlink(tag: Tag, n: Node, e: Edge, prev: Edge?, ghost nodes: set<Node>, ghost edges: set<Edge>)
    requires n in nodes && e in edges && (prev != null ==> prev in edges && prev != e)
    modifies nodes, edges
    ensures Snapshot(tag, nodes, edges) == Detached(old(Snapshot(tag, nodes, edges)), n, e, prev, old(e.Next(tag)))
    ensures forall t: Tag :: t != tag ==> Snapshot(t, nodes, edges) == old(Snapshot(t, nodes, edges))
  {
    hide Heads, Nexts, Owners;
    var next := e.Next(tag);
    if prev == null {
      SetHead(tag, n, next, nodes);
    } else {
      SetNext(tag, prev, next, edges);
    }
    SetNext(tag, e, null, edges);
    SetOwner(tag, e, null, edges);
  }

  /** The sequence without the first occurrence of `e`. */
  function Minus(s: seq<Edge>, e: Edge): seq<Edge> {
    if s == [] then [] else if s[0] == e then s[1..] else [s[0]] + Minus(s[1..], e)
  }

  lemma {:induction false} WithoutIsMinus(s: seq<Edge>, i: nat)
    requires i < |s| && NoRepeat(s)
    ensures Without(s, i) == Minus(s, s[i])
  {
    if i > 0 {
      WithoutIsMinus(s[1..], i - 1);
      assert Without(s, i) == [s[0]] + Without(s[1..], i - 1);
    }
  }

  method RemoveFrom(tag: Tag, e: Edge, ghost nodes: set<Node>, ghost edges: set<Edge>, ghost lists: Lists)
    requires e in edges && Linked(Snapshot(tag, nodes, edges), lists) && e.Owner(tag) != null
    modifies nodes, edges
    ensures old(e.Owner(tag)) in lists && e in lists[old(e.Owner(tag))]
    ensures var n := old(e.Owner(tag)); Linked(Snapshot(tag, nodes, edges), lists[n := Minus(lists[n], e)])
    ensures Owners(tag, edges) == old(Owners(tag, edges))[e := null]
    ensures forall t: Tag :: t != tag ==> Snapshot(t, nodes, edges) == old(Snapshot(t, nodes, edges))
  {
    hide Heads, Nexts, Owners, Linked;
    var n := e.Owner(tag);
    ghost var p := Snapshot(tag, nodes, edges);
    OwnersAt(tag, nodes, edges);
    OwnerKnows(p, lists, e);
    var prev: Edge?;
    ghost var i: nat;
    prev, i := Find(tag, e, n, lists[n], nodes, edges);
    UnlinkedLinked(p, lists, n, i);
    WithoutIsMinus(lists[n], i);
    NextAt(p, lists, n, i);
    Unlink(tag, n, e, prev, nodes, edges);
  }

  /** The snapshot says what the fields say. */
  lemma OwnersAt(tag: Tag, nodes: set<Node>, edges: set<Edge>)
    ensures forall e :: e in edges ==> e in Owners(tag, edges) && Owners(tag, edges)[e] == e.Owner(tag)
    ensures forall e :: e in edges ==> e in Nexts(tag, edges) && Nexts(tag, edges)[e] == e.Next(tag)
    ensures forall n :: n in nodes ==> n in Heads(tag, nodes) && Heads(tag, nodes)[n] == n.Head(tag)
    ensures Owners(tag, edges).Keys == Nexts(tag, edges).Keys == edges && Heads(tag, nodes).Keys == nodes
  {}

  lemma LinkedKeys(p: Pointers, lists: Lists)
    requires Linked(p, lists)
    ensures lists.Keys == p.head.Keys && p.next.Keys == p.owner.Keys
  {}

  lemma OwnerKnows(p: Pointers, lists: Lists, e: Edge)
    requires Linked(p, lists) && e in p.owner && p.owner[e] != null
    ensures p.owner[e] in lists && p.owner[e] in p.head && e in lists[p.owner[e]] && Chain(p, p.owner[e], lists[p.owner[e]])
  {
    assert Placed(p, lists, e);
  }

  lemma NextAt(p: Pointers, lists: Lists, n: Node, i: int)
    requires Linked(p, lists) && n in lists && 0 <= i < |lists[n]|
    ensures lists[n][i] in p.next && p.next[lists[n][i]] == Following(lists[n], i)
    ensures i > 0 ==> lists[n][i - 1] in p.next
  {
    assert Chain(p, n, lists[n]) && CellAt(p, n, lists[n], i);
    if i > 0 {
      assert CellAt(p, n, lists[n], i - 1);
    }
  }

  // ----- the graph -----

  /** Every edge is in both kinds of lists or in none. */
  ghost predicate Paired(tgt: map<Edge, Node?>, src: map<Edge, Node?>) {
    tgt.Keys == src.Keys && forall e :: e in tgt ==> (tgt[e] == null <==> src[e] == null)
  }

  /** The nodes of the edges, after the edges of `n` have been removed. */
  ghost function WithoutEdgesOf(at: map<Edge, Node?>, tgt: map<Edge, Node?>, src: map<Edge, Node?>, n: Node): map<Edge, Node?>
    requires at.Keys == tgt.Keys == src.Keys
  {
    map e | e in at :: if tgt[e] == n || src[e] == n then null else at[e]
  }

  /** Some edges of `n` have been removed, and no others. */
  ghost predicate Pruning(tgt: map<Edge, Node?>, src: map<Edge, Node?>, tgt': map<Edge, Node?>, src': map<Edge, Node?>, n: Node) {
    && tgt.Keys == src.Keys == tgt'.Keys == src'.Keys
    && forall e :: e in tgt ==> PrunedAt(tgt, src, tgt', src', n, e)
  }

  ghost predicate PrunedAt(tgt: map<Edge, Node?>, src: map<Edge, Node?>, tgt': map<Edge, Node?>, src': map<Edge, Node?>,
                           n: Node, e: Edge)
    requires e in tgt && e in src && e in tgt' && e in src'
  {
    || (tgt'[e] == tgt[e] && src'[e] == src[e])
    || ((tgt[e] == n || src[e] == n) && tgt'[e] == null && src'[e] == null)
  }

  lemma PruneOne(tgt: map<Edge, Node?>, src: map<Edge, Node?>, tgt': map<Edge, Node?>, src': map<Edge, Node?>, n: Node, e: Edge)
    requires Pruning(tgt, src, tgt', src', n) && e in tgt' && e in src' && (tgt'[e] == n || src'[e] == n)
    ensures Pruning(tgt, src, tgt'[e := null], src'[e := null], n)
  {
    assert PrunedAt(tgt, src, tgt', src', n, e);
    forall x | x in tgt
      ensures PrunedAt(tgt, src, tgt'[e := null], src'[e := null], n, x)
    {
      assert PrunedAt(tgt, src, tgt', src', n, x);
    }
  }

  /** The list of a node and its head pointer tell the same. */
  lemma HeadOfList(p: Pointers, lists: Lists, n: Node)
    requires Linked(p, lists) && n in lists
    ensures n in p.head && p.head[n] == First(lists[n])
    ensures lists[n] != [] ==>
              && lists[n][0] in p.owner && p.owner[lists[n][0]] == n
              && lists[n][0] in p.next && p.next[lists[n][0]] == First(lists[n][1..])
              && Minus(lists[n], lists[n][0]) == lists[n][1..]
    ensures lists[n] == [] ==> forall e :: e in p.owner ==> p.owner[e] != n
  {
    assert Chain(p, n, lists[n]);
    if lists[n] != [] {
      assert CellAt(p, n, lists[n], 0);
    } else {
      forall e | e in p.owner
        ensures p.owner[e] != n
      {
        assert Placed(p, lists, e);
      }
    }
  }

  lemma EdgeFields(nodes: set<Node>, edges: set<Edge>, e: Edge)
    requires e in edges
    ensures e in Owners(Incoming, edges) && Owners(Incoming, edges)[e] == e.incomingNode == e.Owner(Incoming)
    ensures e in Owners(Outgoing, edges) && Owners(Outgoing, edges)[e] == e.outgoingNode == e.Owner(Outgoing)
  {}

  lemma ListOf(tag: Tag, nodes: set<Node>, edges: set<Edge>, lists: Lists, n: Node)
    requires Linked(Snapshot(tag, nodes, edges), lists) && n in nodes
    ensures n in lists
  {}

  lemma PairedAt(tgt: map<Edge, Node?>, src: map<Edge, Node?>, e: Edge)
    requires Paired(tgt, src) && e in tgt
    ensures e in src && (tgt[e] == null <==> src[e] == null)
  {}

  lemma PairedSet(tgt: map<Edge, Node?>, src: map<Edge, Node?>, e: Edge, t: Node?, s: Node?)
    requires Paired(tgt, src) && (t == null <==> s == null)
    ensures Paired(tgt[e := t], src[e := s])
  {}

  function Reversed(s: seq<Edge>): seq<Edge> {
    if s == [] then [] else Reversed(s[1..]) + [s[0]]
  }

  class Graph {
    /** The nodes and edges that the graph has been given, linked or not. */
    ghost var nodes: set<Node>
    ghost var edges: set<Edge>
    /** The lists, as they stand. */
    ghost var incoming: Lists
    ghost var outgoing: Lists

    /** Both kinds of lists are consistent, and they list the same edges. */
    ghost predicate Valid()
      reads this, nodes, edges
    {
      && Linked(Snapshot(Incoming, nodes, edges), incoming)
      && Linked(Snapshot(Outgoing, nodes, edges), outgoing)
      && Paired(Owners(Incoming, edges), Owners(Outgoing, edges))
    }

    /** A graph over nodes and edges that are not linked yet. */
    constructor (ghost nodes: set<Node>, ghost edges: set<Edge>)
      requires forall n, t: Tag :: n in nodes ==> n.Head(t) == null
      requires forall e, t: Tag :: e in edges ==> e.Next(t) == null && e.Owner(t) == null
      ensures Valid() && this.nodes == nodes && this.edges == edges
      ensures incoming == outgoing == map n | n in nodes :: []
    {
      this.nodes, this.edges := nodes, edges;
      incoming, outgoing := map n | n in nodes :: [], map n | n in nodes :: [];
    }

    /** `e` goes from `src` to `tgt`. */
    method AddEdge(src: Node, tgt: Node, e: Edge)
      requires Valid() && src in nodes && tgt in nodes && e in edges && e.incomingNode == null
      modifies this`incoming, this`outgoing, nodes, edges
      ensures Valid()
      ensures tgt in old(incoming) && incoming == old(incoming)[tgt := [e] + old(incoming)[tgt]]
      ensures src in old(outgoing) && outgoing == old(outgoing)[src := [e] + old(outgoing)[src]]
      ensures Owners(Incoming, edges) == old(Owners(Incoming, edges))[e := tgt]
      ensures Owners(Outgoing, edges) == old(Owners(Outgoing, edges))[e := src]
    {
      hide Linked, Heads, Nexts, Owners, Paired, Front;
      EdgeFields(nodes, edges, e);
      ListOf(Incoming, nodes, edges, incoming, tgt);
      ListOf(Outgoing, nodes, edges, outgoing, src);
      PairedAt(Owners(Incoming, edges), Owners(Outgoing, edges), e);
      PairedSet(Owners(Incoming, edges), Owners(Outgoing, edges), e, tgt, src);
      AddTo(Incoming, tgt, e, nodes, edges, incoming);
      incoming := incoming[tgt := [e] + incoming[tgt]];
      EdgeFields(nodes, edges, e);
      AddTo(Outgoing, src, e, nodes, edges, outgoing);
      outgoing := outgoing[src := [e] + outgoing[src]];
    }

    /** Takes `e` out of the lists of its source and of its target. */
    method RemoveEdge(e: Edge)
      requires Valid() && e in edges && e.incomingNode != null
      modifies this`incoming, this`outgoing, nodes, edges
      ensures Valid()
      ensures var tgt := old(e.incomingNode);
              tgt in old(incoming) && incoming == old(incoming)[tgt := Minus(old(incoming)[tgt], e)]
      ensures var src := old(e.outgoingNode);
              src in old(outgoing) && outgoing == old(outgoing)[src := Minus(old(outgoing)[src], e)]
      ensures Owners(Incoming, edges) == old(Owners(Incoming, edges))[e := null]
      ensures Owners(Outgoing, edges) == old(Owners(Outgoing, edges))[e := null]
    {
      hide Linked, Heads, Nexts, Owners, Minus, Paired;
      EdgeFields(nodes, edges, e);
      PairedAt(Owners(Incoming, edges), Owners(Outgoing, edges), e);
      PairedSet(Owners(Incoming, edges), Owners(Outgoing, edges), e, null, null);
      ghost var tgt, src := e.incomingNode, e.outgoingNode;
      RemoveFrom(Incoming, e, nodes, edges, incoming);
      incoming := incoming[tgt := Minus(incoming[tgt], e)];
      EdgeFields(nodes, edges, e);
      RemoveFrom(Outgoing, e, nodes, edges, outgoing);
      outgoing := outgoing[src := Minus(outgoing[src], e)];
    }

    /** Takes every edge of `n`, self-loops included, out of all lists, and no other edge. */
    method RemoveEdges(n: Node)
      requires Valid() && n in nodes
      modifies this`incoming, this`outgoing, nodes, edges
      ensures Valid()
      ensures Owners(Incoming, edges) == WithoutEdgesOf(old(Owners(Incoming, edges)), old(Owners(Incoming, edges)), old(Owners(Outgoing, edges)), n)
      ensures Owners(Outgoing, edges) == WithoutEdgesOf(old(Owners(Outgoing, edges)), old(Owners(Incoming, edges)), old(Owners(Outgoing, edges)), n)
    {
      hide Linked, Heads, Nexts, Owners, Paired, Pruning, Minus;
      ghost var tgt, src := Owners(Incoming, edges), Owners(Outgoing, edges);
      PruneNone(tgt, src, n);
      var it := n.outgoingHead;
      HeadField(Outgoing, nodes, edges, outgoing, n);
      while it != null
        invariant Valid() && Pruning(tgt, src, Owners(Incoming, edges), Owners(Outgoing, edges), n)
        invariant n in outgoing && it == First(outgoing[n])
        decreases |outgoing[n]|
      {
        HeadField(Outgoing, nodes, edges, outgoing, n);
        EdgeFields(nodes, edges, it);
        PairedAt(Owners(Incoming, edges), Owners(Outgoing, edges), it);
        PruneOne(tgt, src, Owners(Incoming, edges), Owners(Outgoing, edges), n, it);
        var edge := it;
        it := it.outgoingNext;
        RemoveEdge(edge);
      }
      HeadField(Outgoing, nodes, edges, outgoing, n);
      it := n.incomingHead;
      HeadField(Incoming, nodes, edges, incoming, n);
      while it != null
        invariant Valid() && Pruning(tgt, src, Owners(Incoming, edges), Owners(Outgoing, edges), n)
        invariant n in incoming && it == First(incoming[n])
        invariant forall e :: e in Owners(Outgoing, edges) ==> Owners(Outgoing, edges)[e] != n
        decreases |incoming[n]|
      {
        HeadField(Incoming, nodes, edges, incoming, n);
        EdgeFields(nodes, edges, it);
        PairedAt(Owners(Incoming, edges), Owners(Outgoing, edges), it);
        PruneOne(tgt, src, Owners(Incoming, edges), Owners(Outgoing, edges), n, it);
        var edge := it;
        it := it.incomingNext;
        RemoveEdge(edge);
      }
      HeadField(Incoming, nodes, edges, incoming, n);
      PruningComplete(tgt, src, Owners(Incoming, edges), Owners(Outgoing, edges), n);
    }

    /** Takes the edges of all the nodes of `ns` out of all lists, and no other edge. */
    method Clear(ns: seq<Node>)
      requires Valid() && forall i :: 0 <= i < |ns| ==> ns[i] in nodes
      modifies this`incoming, this`outgoing, nodes, edges
      ensures Valid()
      ensures Stripped(old(Owners(Incoming, edges)), old(Owners(Outgoing, edges)), Owners(Incoming, edges), Owners(Outgoing, edges), ns)
    {
      hide Linked, Heads, Nexts, Owners, Paired, Stripped;
      ghost var tgt, src := Owners(Incoming, edges), Owners(Outgoing, edges);
      StrippedNone(tgt, src);
      assert ns[..0] == [];
      for i := 0 to |ns|
        invariant Valid() && Stripped(tgt, src, Owners(Incoming, edges), Owners(Outgoing, edges), ns[..i])
      {
        PairedKeys(Owners(Incoming, edges), Owners(Outgoing, edges));
        StrippedMore(tgt, src, Owners(Incoming, edges), Owners(Outgoing, edges), ns[..i], ns[i]);
        assert ns[..i + 1] == ns[..i] + [ns[i]];
        RemoveEdges(ns[i]);
      }
      assert ns[..|ns|] == ns;
    }

    /** Takes `e` out of the list of its target and adds it to that of `n2`. */
    method MoveEdge(e: Edge, n2: Node)
      requires Valid() && n2 in nodes && e in edges && e.incomingNode != null && e.incomingNode != n2
      modifies this`incoming, nodes, edges
      ensures Valid()
      ensures var n1 := old(e.incomingNode);
              && n1 in old(incoming) && n2 in old(incoming)
              && incoming == old(incoming)[n1 := Minus(old(incoming)[n1], e)][n2 := [e] + old(incoming)[n2]]
      ensures Owners(Outgoing, edges) == old(Owners(Outgoing, edges))
      ensures Owners(Incoming, edges) == old(Owners(Incoming, edges))[e := n2]
    {
      hide Linked, Heads, Nexts, Owners, Paired, Minus;
      EdgeFields(nodes, edges, e);
      MovePaired(Owners(Incoming, edges), Owners(Outgoing, edges), e, n2);
      ListOf(Incoming, nodes, edges, incoming, n2);
      ghost var n1 := e.incomingNode;
      RemoveFrom(Incoming, e, nodes, edges, incoming);
      incoming := incoming[n1 := Minus(incoming[n1], e)];
      EdgeFields(nodes, edges, e);
      AddTo(Incoming, n2, e, nodes, edges, incoming);
      incoming := incoming[n2 := [e] + incoming[n2]];
    }

    /** All edges into `n1` now go into `n2`; the sources stay. */
    method MoveIncomingEdges(n1: Node, n2: Node)
      requires Valid() && n1 in nodes && n2 in nodes
      modifies this`incoming, nodes, edges
      ensures Valid()
      ensures n1 in old(incoming) && n2 in old(incoming)
      ensures n1 == n2 ==> incoming == old(incoming)
      ensures n1 != n2 ==> incoming == old(incoming)[n1 := []][n2 := Reversed(old(incoming)[n1]) + old(incoming)[n2]]
      ensures Owners(Outgoing, edges) == old(Owners(Outgoing, edges))
      ensures Owners(Incoming, edges) == Redirected(old(Owners(Incoming, edges)), n1, n2)
    {
      hide Linked, Heads, Nexts, Owners, Paired, Minus, Moving, Redirected;
      ghost var tgt, src := Owners(Incoming, edges), Owners(Outgoing, edges);
      HeadField(Incoming, nodes, edges, incoming, n1);
      ListOf(Incoming, nodes, edges, incoming, n2);
      if n1 == n2 {
        RedirectedNowhere(tgt, n1);
        return;
      }
      ghost var lists, s, into := incoming, incoming[n1], incoming[n2];
      var it := n1.incomingHead;
      ghost var i := 0;
      MovingStarts(tgt, n1, n2, s, into, incoming);
      while it != null
        invariant Valid() && 0 <= i <= |s| && incoming == Moved(lists, n1, n2, i) && it == First(s[i..])
        invariant Owners(Outgoing, edges) == src && Moving(tgt, Owners(Incoming, edges), n1, n2)
        decreases |s| - i
      {
        HeadField(Incoming, nodes, edges, incoming, n1);
        EdgeFields(nodes, edges, it);
        MoveOne(tgt, Owners(Incoming, edges), n1, n2, it);
        MovedNext(lists, n1, n2, i);
        var e := it;
        it := it.incomingNext;
        MoveEdge(e, n2);
        i := i + 1;
      }
      HeadField(Incoming, nodes, edges, incoming, n1);
      assert s[..i] == s;
      MovingEnds(tgt, Owners(Incoming, edges), n1, n2);
    }
  }

  /** The edges of the nodes of `ns` are not linked any more, the others are as before. */
  ghost predicate Stripped(tgt: map<Edge, Node?>, src: map<Edge, Node?>, tgt': map<Edge, Node?>, src': map<Edge, Node?>,
                           ns: seq<Node>) {
    && tgt.Keys == src.Keys == tgt'.Keys == src'.Keys
    && forall e :: e in tgt ==>
         if (tgt[e] != null && tgt[e] in ns) || (src[e] != null && src[e] in ns) then tgt'[e] == null && src'[e] == null
         else tgt'[e] == tgt[e] && src'[e] == src[e]
  }

  lemma StrippedNone(tgt: map<Edge, Node?>, src: map<Edge, Node?>)
    requires Paired(tgt, src)
    ensures Stripped(tgt, src, tgt, src, [])
  {}

  lemma PairedKeys(tgt: map<Edge, Node?>, src: map<Edge, Node?>)
    requires Paired(tgt, src)
    ensures tgt.Keys == src.Keys
  {}

  lemma StrippedMore(tgt: map<Edge, Node?>, src: map<Edge, Node?>, tgt': map<Edge, Node?>, src': map<Edge, Node?>,
                     ns: seq<Node>, n: Node)
    requires Stripped(tgt, src, tgt', src', ns) && tgt'.Keys == src'.Keys
    ensures Stripped(tgt, src, WithoutEdgesOf(tgt', tgt', src', n), WithoutEdgesOf(src', tgt', src', n), ns + [n])
  {}

  lemma PruneNone(tgt: map<Edge, Node?>, src: map<Edge, Node?>, n: Node)
    requires Paired(tgt, src)
    ensures Pruning(tgt, src, tgt, src, n)
  {
    assert forall e :: e in tgt ==> PrunedAt(tgt, src, tgt, src, n, e);
  }

  lemma PruningComplete(tgt: map<Edge, Node?>, src: map<Edge, Node?>, tgt': map<Edge, Node?>, src': map<Edge, Node?>, n: Node)
    requires Pruning(tgt, src, tgt', src', n)
    requires forall e :: e in tgt' ==> tgt'[e] != n
    requires forall e :: e in src' ==> src'[e] != n
    ensures tgt.Keys == src.Keys
    ensures tgt' == WithoutEdgesOf(tgt, tgt, src, n) && src' == WithoutEdgesOf(src, tgt, src, n)
  {
    forall e | e in tgt
      ensures tgt'[e] == WithoutEdgesOf(tgt, tgt, src, n)[e] && src'[e] == WithoutEdgesOf(src, tgt, src, n)[e]
    {
      assert PrunedAt(tgt, src, tgt', src', n, e);
    }
  }

  /** What the head field of a node says about its list. */
  lemma HeadField(tag: Tag, nodes: set<Node>, edges: set<Edge>, lists: Lists, n: Node)
    requires Linked(Snapshot(tag, nodes, edges), lists) && n in nodes
    ensures n in lists && n.Head(tag) == First(lists[n])
    ensures lists[n] != [] ==>
              && lists[n][0] in edges && lists[n][0].Owner(tag) == n && lists[n][0].Next(tag) == First(lists[n][1..])
              && Minus(lists[n], lists[n][0]) == lists[n][1..]
    ensures lists[n] == [] ==> forall e :: e in Owners(tag, edges) ==> Owners(tag, edges)[e] != n
  {
    hide Linked;
    ListOf(tag, nodes, edges, lists, n);
    HeadOfList(Snapshot(tag, nodes, edges), lists, n);
  }

  // ----- moving edges -----

  /** Edges into `n1` go into `n2` instead. */
  ghost function Redirected(tgt: map<Edge, Node?>, n1: Node, n2: Node): map<Edge, Node?> {
    map e | e in tgt :: if tgt[e] == n1 then n2 else tgt[e]
  }

  /** Some edges into `n1` have been redirected, and no others. */
  ghost predicate Moving(tgt: map<Edge, Node?>, tgt': map<Edge, Node?>, n1: Node, n2: Node) {
    tgt.Keys == tgt'.Keys && forall e :: e in tgt ==> tgt'[e] == tgt[e] || (tgt[e] == n1 && tgt'[e] == n2)
  }

  lemma RedirectedNowhere(tgt: map<Edge, Node?>, n: Node)
    ensures Redirected(tgt, n, n) == tgt
  {}

  /** The lists after the first `i` edges into `n1` have been moved. */
  ghost function Moved(lists: Lists, n1: Node, n2: Node, i: int): Lists
    requires n1 in lists && n2 in lists && 0 <= i <= |lists[n1]|
  {
    lists[n1 := lists[n1][i..]][n2 := Reversed(lists[n1][..i]) + lists[n2]]
  }

  lemma MovingStarts(tgt: map<Edge, Node?>, n1: Node, n2: Node, s: seq<Edge>, into: seq<Edge>, lists: Lists)
    requires n1 in lists && n2 in lists && lists[n1] == s && lists[n2] == into && n1 != n2
    ensures Moving(tgt, tgt, n1, n2) && s[0..] == s && Moved(lists, n1, n2, 0) == lists
  {
    assert s[..0] == [] && [] + into == into;
  }

  lemma MovedNext(lists: Lists, n1: Node, n2: Node, i: int)
    requires n1 in lists && n2 in lists && n1 != n2 && 0 <= i < |lists[n1]|
    ensures var m, s := Moved(lists, n1, n2, i), lists[n1];
            && n1 in m && n2 in m && m[n1] == s[i..] && s[i..][0] == s[i]
            && Moved(lists, n1, n2, i + 1) == m[n1 := s[i..][1..]][n2 := [s[i]] + m[n2]]
            && First(s[i..][1..]) == First(s[i + 1..])
  {
    var s := lists[n1];
    assert s[..i + 1] == s[..i] + [s[i]];
    ReversedSnoc(s[..i], s[i]);
    assert s[i..][1..] == s[i + 1..];
    assert [s[i]] + (Reversed(s[..i]) + lists[n2]) == Reversed(s[..i + 1]) + lists[n2];
  }

  lemma MovePaired(tgt: map<Edge, Node?>, src: map<Edge, Node?>, e: Edge, n2: Node)
    requires Paired(tgt, src) && e in tgt && tgt[e] != null
    ensures Paired(tgt[e := n2], src) && tgt[e := null][e := n2] == tgt[e := n2]
  {}

  lemma MoveOne(tgt: map<Edge, Node?>, tgt': map<Edge, Node?>, n1: Node, n2: Node, e: Edge)
    requires Moving(tgt, tgt', n1, n2) && e in tgt' && tgt'[e] == n1 && n1 != n2
    ensures Moving(tgt, tgt'[e := n2], n1, n2)
  {}

  lemma MovingEnds(tgt: map<Edge, Node?>, tgt': map<Edge, Node?>, n1: Node, n2: Node)
    requires Moving(tgt, tgt', n1, n2) && n1 != n2 && forall e :: e in tgt' ==> tgt'[e] != n1
    ensures tgt' == Redirected(tgt, n1, n2)
  {}

  lemma {:induction false} ReversedSnoc(s: seq<Edge>, e: Edge)
    ensures Reversed(s + [e]) == [e] + Reversed(s)
  {
    if s == [] {
      assert s + [e] == [e];
    } else {
      assert (s + [e])[1..] == s[1..] + [e];
      ReversedSnoc(s[1..], e);
    }
  }
}
