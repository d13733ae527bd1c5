/** The exploration table.

    Per location, a list of roots; per root, its second-level map and the push and pop records, all keyed by location. */
module FindBuilder {
  import opened Pushdown
  import opened Saturation

  type Nodes<Z> = map<string, seq<Node<Z>>>

  datatype Entry<Z> = Entry(slm: Nodes<Z>, pushes: map<string, Nodes<Z>>, pops: map<string, Nodes<Z>>, node: Node<Z>)

  type Table<Z> = map<string, seq<Entry<Z>>>

  // ----- lists keyed by location -----

  ghost predicate Lists<Z>(m: Nodes<Z>, p: Node<Z>) {
    p.loc in m && p in m[p.loc]
  }

  ghost predicate Keyed<Z>(m: Nodes<Z>) {
    forall q, i :: q in m && 0 <= i < |m[q]| ==> m[q][i].loc == q
  }

  function Append<Z>(m: Nodes<Z>, p: Node<Z>): (r: Nodes<Z>) {
    m[p.loc := (if p.loc in m then m[p.loc] else []) + [p]]
  }

  lemma AppendLists<Z>(m: Nodes<Z>, p: Node<Z>, q: Node<Z>)
    ensures Lists(Append(m, p), q) <==> Lists(m, q) || q == p
  {}

  lemma AppendKeyed<Z>(m: Nodes<Z>, p: Node<Z>)
    requires Keyed(m)
    ensures Keyed(Append(m, p))
  {}

  /** The nodes recorded for a symbol. */
  function At<Z>(m: map<string, Nodes<Z>>, a: string): Nodes<Z> {
    if a in m then m[a] else map[]
  }

  // ----- the table represents a content -----

  ghost predicate EntryRep<Z(!new)>(e: Entry<Z>, c: Content<Z>) {
    && e.node in c.roots && Keyed(e.slm)
    && (forall p: Node<Z> :: Lists(e.slm, p) <==> (e.node, p) in c.slm)
    && (forall a: string :: Keyed(At(e.pushes, a)) && Keyed(At(e.pops, a)))
    && (forall a: string, p: Node<Z> :: Lists(At(e.pushes, a), p) <==> (e.node, a, p) in c.pushes)
    && (forall a: string, p: Node<Z> :: Lists(At(e.pops, a), p) <==> (e.node, a, p) in c.pops)
  }

  ghost predicate EntryAt<Z>(t: Table<Z>, q: string, i: int) {
    q in t && 0 <= i < |t[q]|
  }

  ghost predicate RootAt<Z>(t: Table<Z>, r: Node<Z>, i: int) {
    EntryAt(t, r.loc, i) && t[r.loc][i].node == r
  }

  ghost predicate Rep<Z(!new)>(t: Table<Z>, c: Content<Z>) {
    && (forall q, i :: EntryAt(t, q, i) ==> t[q][i].node.loc == q && EntryRep(t[q][i], c))
    && (forall q, i, j :: EntryAt(t, q, i) && EntryAt(t, q, j) && t[q][i].node == t[q][j].node ==> i == j)
    && (forall r: Node<Z> :: r in c.roots ==> exists i :: RootAt(t, r, i))
  }

  /** The contents differ only in what they record for `r`. */
  ghost predicate AgreeElsewhere<Z(!new)>(c: Content<Z>, c': Content<Z>, r: Node<Z>) {
    && c.roots <= c'.roots
    && (forall n: Node<Z>, p: Node<Z> :: n != r ==> ((n, p) in c.slm <==> (n, p) in c'.slm))
    && (forall n: Node<Z>, a: string, p: Node<Z> :: n != r ==> ((n, a, p) in c.pushes <==> (n, a, p) in c'.pushes))
    && (forall n: Node<Z>, a: string, p: Node<Z> :: n != r ==> ((n, a, p) in c.pops <==> (n, a, p) in c'.pops))
  }

  lemma EntryKept<Z(!new)>(e: Entry<Z>, c: Content<Z>, c': Content<Z>, r: Node<Z>)
    requires EntryRep(e, c) && AgreeElsewhere(c, c', r) && e.node != r
    ensures EntryRep(e, c')
  {}

  function Replace<Z>(t: Table<Z>, q: string, i: nat, e: Entry<Z>): Table<Z>
    requires q in t && i < |t[q]|
  {
    t[q := t[q][i := e]]
  }

  lemma RepReplace<Z(!new)>(t: Table<Z>, c: Content<Z>, q: string, i: nat, e: Entry<Z>, c': Content<Z>)
    requires Rep(t, c) && EntryAt(t, q, i) && e.node == t[q][i].node && c'.roots == c.roots
    requires EntryRep(e, c') && AgreeElsewhere(c, c', e.node)
    ensures Rep(Replace(t, q, i, e), c')
  {
    hide EntryRep, AgreeElsewhere;
    var t': Table<Z> := Replace(t, q, i, e);
    forall q', j | EntryAt(t', q', j)
      ensures t'[q'][j].node.loc == q' && EntryRep(t'[q'][j], c')
    {
      assert EntryAt(t, q', j);
      if !(q' == q && j == i) {
        EntryKept(t[q'][j], c, c', e.node);
      }
    }
    forall r: Node<Z> | r in c'.roots
      ensures exists j :: RootAt(t', r, j)
    {
      var j :| RootAt(t, r, j);
      assert RootAt(t', r, j);
    }
  }

  function Extended<Z>(t: Table<Z>, q: string, e: Entry<Z>): Table<Z> {
    t[q := (if q in t then t[q] else []) + [e]]
  }

  lemma RepExtended<Z(!new)>(t: Table<Z>, c: Content<Z>, e: Entry<Z>, c': Content<Z>)
    requires Rep(t, c) && e.node !in c.roots && c'.roots == c.roots + {e.node}
    requires EntryRep(e, c') && AgreeElsewhere(c, c', e.node)
    ensures Rep(Extended(t, e.node.loc, e), c')
  {
    hide EntryRep, AgreeElsewhere;
    var t': Table<Z> := Extended(t, e.node.loc, e);
    forall q, j | EntryAt(t', q, j)
      ensures t'[q][j].node.loc == q && EntryRep(t'[q][j], c')
      ensures EntryAt(t, q, j) ==> t'[q][j] == t[q][j]
      ensures !EntryAt(t, q, j) ==> q == e.node.loc && j == |t'[q]| - 1
    {
      if EntryAt(t, q, j) {
        NodeIsRoot(t, c, q, j);
        EntryKept(t[q][j], c, c', e.node);
      }
    }
    forall q, i, j | EntryAt(t', q, i) && EntryAt(t', q, j) && t'[q][i].node == t'[q][j].node
      ensures i == j
    {
      if EntryAt(t, q, i) { NodeIsRoot(t, c, q, i); }
      if EntryAt(t, q, j) { NodeIsRoot(t, c, q, j); }
    }
    forall r: Node<Z> | r in c'.roots
      ensures exists j :: RootAt(t', r, j)
    {
      if r in c.roots {
        var j :| RootAt(t, r, j);
        assert RootAt(t', r, j);
      } else {
        assert RootAt(t', r, |t'[r.loc]| - 1);
      }
    }
  }

  lemma NodeIsRoot<Z(!new)>(t: Table<Z>, c: Content<Z>, q: string, i: nat)
    requires Rep(t, c) && EntryAt(t, q, i)
    ensures t[q][i].node in c.roots && t[q][i].node.loc == q
  {
    assert EntryRep(t[q][i], c);
  }

  // ----- one entry changes -----

  lemma SlmEntry<Z(!new)>(e: Entry<Z>, c: Content<Z>, p: Node<Z>)
    requires EntryRep(e, c)
    ensures var e' := e.(slm := Append(e.slm, p)); var c' := c.(slm := c.slm + {(e.node, p)});
            EntryRep(e', c') && AgreeElsewhere(c, c', e.node)
  {
    AppendKeyed(e.slm, p);
    forall q: Node<Z>
      ensures Lists(Append(e.slm, p), q) <==> (e.node, q) in c.slm + {(e.node, p)}
    {
      AppendLists(e.slm, p, q);
    }
  }

  lemma RecordAt<Z>(m: map<string, Nodes<Z>>, a: string, p: Node<Z>, b: string)
    ensures At(m[a := Append(At(m, a), p)], b) == if b == a then Append(At(m, a), p) else At(m, b)
  {}

  lemma PushEntry<Z(!new)>(e: Entry<Z>, c: Content<Z>, a: string, p: Node<Z>)
    requires EntryRep(e, c)
    ensures var e' := e.(pushes := e.pushes[a := Append(At(e.pushes, a), p)]);
            var c' := c.(pushes := c.pushes + {(e.node, a, p)});
            EntryRep(e', c') && AgreeElsewhere(c, c', e.node)
  {
    hide Lists, Keyed, Append, At;
    var e' := e.(pushes := e.pushes[a := Append(At(e.pushes, a), p)]);
    var c' := c.(pushes := c.pushes + {(e.node, a, p)});
    AppendKeyed(At(e.pushes, a), p);
    forall b: string ensures Keyed(At(e'.pushes, b)) {
      RecordAt(e.pushes, a, p, b);
    }
    forall b: string, q: Node<Z>
      ensures Lists(At(e'.pushes, b), q) <==> (e.node, b, q) in c'.pushes
    {
      RecordAt(e.pushes, a, p, b);
      AppendLists(At(e.pushes, a), p, q);
    }
  }

  lemma PopEntry<Z(!new)>(e: Entry<Z>, c: Content<Z>, a: string, p: Node<Z>)
    requires EntryRep(e, c)
    ensures var e' := e.(pops := e.pops[a := Append(At(e.pops, a), p)]);
            var c' := c.(pops := c.pops + {(e.node, a, p)});
            EntryRep(e', c') && AgreeElsewhere(c, c', e.node)
  {
    hide Lists, Keyed, Append, At;
    var e' := e.(pops := e.pops[a := Append(At(e.pops, a), p)]);
    var c' := c.(pops := c.pops + {(e.node, a, p)});
    AppendKeyed(At(e.pops, a), p);
    forall b: string ensures Keyed(At(e'.pops, b)) {
      RecordAt(e.pops, a, p, b);
    }
    forall b: string, q: Node<Z>
      ensures Lists(At(e'.pops, b), q) <==> (e.node, b, q) in c'.pops
    {
      RecordAt(e.pops, a, p, b);
      AppendLists(At(e.pops, a), p, q);
    }
  }

  /** Everything recorded is recorded for a root. */
  ghost predicate RecordsOfRoots<Z(!new)>(c: Content<Z>) {
    && (forall x :: x in c.slm ==> x.0 in c.roots)
    && (forall x :: x in c.pushes ==> x.0 in c.roots)
    && (forall x :: x in c.pops ==> x.0 in c.roots)
  }

  function WithPair<Z>(c: Content<Z>, r: Node<Z>, p: Node<Z>): Content<Z> {
    c.(roots := c.roots + {r}, slm := c.slm + {(r, p)})
  }

  lemma NewEntry<Z(!new)>(c: Content<Z>, r: Node<Z>, p: Node<Z>)
    requires RecordsOfRoots(c) && r !in c.roots
    ensures var e := Entry(Append(map[], p), map[], map[], r); var c' := WithPair(c, r, p);
            EntryRep(e, c') && AgreeElsewhere(c, c', r)
  {
    var e := Entry(Append(map[], p), map[], map[], r);
    var c' := WithPair(c, r, p);
    forall q: Node<Z> ensures Lists(e.slm, q) <==> (r, q) in c'.slm {
      assert (r, q) in c.slm ==> (r, q).0 in c.roots;
    }
    forall a: string, q: Node<Z>
      ensures (r, a, q) !in c.pushes && (r, a, q) !in c.pops
    {
      assert (r, a, q) in c.pushes ==> (r, a, q).0 in c.roots;
      assert (r, a, q) in c.pops ==> (r, a, q).0 in c.roots;
    }
  }

  lemma EntryOf<Z(!new)>(t: Table<Z>, c: Content<Z>, r: Node<Z>, i: nat)
    requires Rep(t, c) && EntryAt(t, r.loc, i) && t[r.loc][i].node.zone == r.zone
    ensures t[r.loc][i].node == r && RootAt(t, r, i) && EntryRep(t[r.loc][i], c)
  {}

  /** If no entry of the location has the zone of `r`, it is no root. */
  lemma NoEntry<Z(!new)>(t: Table<Z>, c: Content<Z>, r: Node<Z>)
    requires Rep(t, c)
    requires r.loc in t ==> forall i :: 0 <= i < |t[r.loc]| ==> t[r.loc][i].node.zone != r.zone
    ensures r !in c.roots
  {
    assert forall i :: !RootAt(t, r, i);
  }

  // ----- candidates -----

  ghost function NodesOf<Z>(m: Nodes<Z>): set<Node<Z>> {
    set q, i | q in m && 0 <= i < |m[q]| :: m[q][i]
  }

  lemma NodesOfLists<Z>(m: Nodes<Z>, p: Node<Z>)
    requires Keyed(m)
    ensures p in NodesOf(m) <==> Lists(m, p)
  {
    if p in NodesOf(m) {
      var q, i :| q in m && 0 <= i < |m[q]| && m[q][i] == p;
    }
  }

  ghost function PairsFrom<Z>(r: Node<Z>, s: set<Node<Z>>): set<(Node<Z>, Node<Z>)> {
    set p | p in s :: (r, p)
  }

  ghost function PairsTo<Z>(s: set<Node<Z>>, p: Node<Z>): set<(Node<Z>, Node<Z>)> {
    set r | r in s :: (r, p)
  }

  lemma PopCandidatesOf<Z(!new)>(e: Entry<Z>, c: Content<Z>, r1: Node<Z>, a: string)
    requires EntryRep(e, c)
    ensures Keyed(At(e.pops, a)) && PairsFrom(r1, NodesOf(At(e.pops, a))) == PopCandidates(c, r1, e.node, a)
  {
    forall p: Node<Z>
      ensures p in NodesOf(At(e.pops, a)) <==> (e.node, a, p) in c.pops
    {
      NodesOfLists(At(e.pops, a), p);
    }
    var s, t := PairsFrom(r1, NodesOf(At(e.pops, a))), PopCandidates(c, r1, e.node, a);
    forall x | x in s ensures x in t {
      assert (e.node, a, x.1) in c.pops;
    }
  }

  lemma PushCandidatesOf<Z(!new)>(e: Entry<Z>, c: Content<Z>, p: Node<Z>, a: string)
    requires EntryRep(e, c)
    ensures Keyed(At(e.pushes, a)) && PairsTo(NodesOf(At(e.pushes, a)), p) == PushCandidates(c, e.node, p, a)
    ensures forall r: Node<Z> :: r in NodesOf(At(e.pushes, a)) <==> (e.node, a, r) in c.pushes
  {
    forall r: Node<Z>
      ensures r in NodesOf(At(e.pushes, a)) <==> (e.node, a, r) in c.pushes
    {
      NodesOfLists(At(e.pushes, a), r);
    }
    var s, t := PairsTo(NodesOf(At(e.pushes, a)), p), PushCandidates(c, e.node, p, a);
    forall x | x in s ensures x in t {
      assert (e.node, a, x.0) in c.pushes;
    }
  }

  lemma OfferedRoots<Z(!new)>(ts: System<Z>, mode: bool, c: Content<Z>, w: Work<Z>, c': Content<Z>, w': Work<Z>,
                              cands: set<(Node<Z>, Node<Z>)>)
    requires Offered(ts, mode, c, w, c', w', cands)
    ensures c'.roots == c.roots
  {}

  /** An equivalent pop is already recorded. */
  ghost predicate PoppedAlready<Z(!new)>(ts: System<Z>, c: Content<Z>, r: Node<Z>, a: string, q: Node<Z>) {
    exists p: Node<Z> :: (r, a, p) in c.pops && Equivalent(ts, p, q)
  }

  // ----- no redundant nodes -----

  /** No listed node is made redundant by one that was listed before it. */
  ghost predicate Sparing<Z>(ts: System<Z>, mode: bool, m: Nodes<Z>) {
    forall q, j, k :: q in m && 0 <= j < k < |m[q]| ==> Distinct(ts, m[q][j], m[q][k], mode)
  }

  /** ... in any second-level map of the table. */
  ghost predicate AllSparing<Z>(ts: System<Z>, mode: bool, t: Table<Z>) {
    forall q, i :: EntryAt(t, q, i) ==> Sparing(ts, mode, t[q][i].slm)
  }

  lemma AppendSparing<Z(!new)>(ts: System<Z>, mode: bool, e: Entry<Z>, c: Content<Z>, p: Node<Z>)
    requires EntryRep(e, c) && Sparing(ts, mode, e.slm) && !Redundant(ts, mode, c, e.node, p)
    ensures Sparing(ts, mode, Append(e.slm, p))
  {
    var m, m' := e.slm, Append(e.slm, p);
    forall q, j, k | q in m' && 0 <= j < k < |m'[q]|
      ensures Distinct(ts, m'[q][j], m'[q][k], mode)
    {
      if q == p.loc && k == |m'[q]| - 1 {
        assert q in m && m'[q][j] == m[q][j] && m'[q][k] == p;
        assert Lists(m, m[q][j]);
      } else {
        assert q in m && m'[q][j] == m[q][j] && m'[q][k] == m[q][k];
      }
    }
  }

  lemma ReplaceSparing<Z>(ts: System<Z>, mode: bool, t: Table<Z>, q: string, i: nat, e: Entry<Z>)
    requires AllSparing(ts, mode, t) && EntryAt(t, q, i) && Sparing(ts, mode, e.slm)
    ensures AllSparing(ts, mode, Replace(t, q, i, e))
  {
    var t': Table<Z> := Replace(t, q, i, e);
    forall q', j | EntryAt(t', q', j)
      ensures Sparing(ts, mode, t'[q'][j].slm)
    {
      assert EntryAt(t, q', j);
    }
  }

  lemma ExtendedSparing<Z>(ts: System<Z>, mode: bool, t: Table<Z>, q: string, e: Entry<Z>)
    requires AllSparing(ts, mode, t) && Sparing(ts, mode, e.slm)
    ensures AllSparing(ts, mode, Extended(t, q, e))
  {
    var t': Table<Z> := Extended(t, q, e);
    forall q', j | EntryAt(t', q', j)
      ensures Sparing(ts, mode, t'[q'][j].slm)
    {
      if EntryAt(t, q', j) {
        assert t'[q'][j] == t[q'][j];
      }
    }
  }

  /** A node that is not redundant keeps the table sparing, in an old entry or a new one. */
  lemma AddedSparing<Z(!new)>(ts: System<Z>, t: Table<Z>, c: Content<Z>, r: Node<Z>, i: nat, p: Node<Z>)
    requires EntryAt(t, r.loc, i) && t[r.loc][i].node == r && EntryRep(t[r.loc][i], c)
    ensures forall mode: bool :: AllSparing(ts, mode, t) && !Redundant(ts, mode, c, r, p) ==>
              AllSparing(ts, mode, Replace(t, r.loc, i, t[r.loc][i].(slm := Append(t[r.loc][i].slm, p))))
  {
    forall mode: bool | AllSparing(ts, mode, t) && !Redundant(ts, mode, c, r, p)
      ensures AllSparing(ts, mode, Replace(t, r.loc, i, t[r.loc][i].(slm := Append(t[r.loc][i].slm, p))))
    {
      AppendSparing(ts, mode, t[r.loc][i], c, p);
      ReplaceSparing(ts, mode, t, r.loc, i, t[r.loc][i].(slm := Append(t[r.loc][i].slm, p)));
    }
  }

  lemma NewEntrySparing<Z(!new)>(ts: System<Z>, t: Table<Z>, q: string, e: Entry<Z>, p: Node<Z>)
    requires e.slm == Append(map[], p)
    ensures forall mode: bool :: AllSparing(ts, mode, t) ==> AllSparing(ts, mode, Extended(t, q, e))
  {
    forall mode: bool | AllSparing(ts, mode, t)
      ensures AllSparing(ts, mode, Extended(t, q, e))
    {
      ExtendedSparing(ts, mode, t, q, e);
    }
  }

  lemma SameSlmSparing<Z(!new)>(ts: System<Z>, t: Table<Z>, q: string, i: nat, e: Entry<Z>)
    requires EntryAt(t, q, i) && e.slm == t[q][i].slm
    ensures forall mode: bool :: AllSparing(ts, mode, t) ==> AllSparing(ts, mode, Replace(t, q, i, e))
  {
    forall mode: bool | AllSparing(ts, mode, t)
      ensures AllSparing(ts, mode, Replace(t, q, i, e))
    {
      ReplaceSparing(ts, mode, t, q, i, e);
    }
  }

  // ----- the table -----

  class TsFindBuilder<Z(==, !new)> {
    const ts: System<Z>
    var tlm: Table<Z>
    var toDo: Work<Z>
    ghost var content: Content<Z>

    ghost predicate Valid()
      reads this
    {
      Rep(tlm, content) && RecordsOfRoots(content)
    }

    constructor (ts: System<Z>)
      ensures Valid() && content == Content({}, {}, {}, {}) && toDo == [] && this.ts == ts && tlm == map[]
    {
      this.ts := ts;
      tlm := map[];
      toDo := [];
      content := Content({}, {}, {}, {});
    }

    /** Stores `n2` with root `n1`, which is created when missing, and queues the pair. */
    method JustAddNode(n1: Node<Z>, n2: Node<Z>)
      requires Valid()
      modifies this`tlm, this`toDo, this`content
      ensures Valid() && content == WithPair(old(content), n1, n2) && toDo == old(toDo) + [(n1, n2)]
      ensures forall mode: bool :: old(AllSparing(ts, mode, tlm)) && !Redundant(ts, mode, old(content), n1, n2) ==>
        AllSparing(ts, mode, tlm)
    {
      hide EntryRep, AgreeElsewhere, AllSparing, Redundant;
      var flm := if n1.loc in tlm then tlm[n1.loc] else [];
      ghost var c := content;
      content := WithPair(c, n1, n2);
      toDo := toDo + [(n1, n2)];
      for i := 0 to |flm|
        invariant forall j :: 0 <= j < i ==> flm[j].node.zone != n1.zone
      {
        if flm[i].node.zone == n1.zone {
          EntryOf(tlm, c, n1, i);
          NodeIsRoot(tlm, c, n1.loc, i);
          var e := flm[i].(slm := Append(flm[i].slm, n2));
          SlmEntry(flm[i], c, n2);
          assert content == c.(slm := c.slm + {(n1, n2)});
          RepReplace(tlm, c, n1.loc, i, e, content);
          AddedSparing(ts, tlm, c, n1, i, n2);
          tlm := Replace(tlm, n1.loc, i, e);
          return;
        }
      }
      NoEntry(tlm, c, n1);
      var e := Entry(Append(map[], n2), map[], map[], n1);
      NewEntry(c, n1, n2);
      RepExtended(tlm, c, e, content);
      NewEntrySparing(ts, tlm, n1.loc, e, n2);
      tlm := Extended(tlm, n1.loc, e);
    }

    /** Is nothing stored with root `n1` that makes `n2` redundant? */
    method IsNewNode(n1: Node<Z>, n2: Node<Z>, eqOrSim: bool) returns (isNew: bool)
      requires Valid()
      ensures isNew <==> !Redundant(ts, eqOrSim, content, n1, n2)
      ensures eqOrSim ==> (isNew <==> forall q: Node<Z> :: (n1, q) in content.slm && q.loc == n2.loc ==> !ts.simulates(q, n2))
      ensures !eqOrSim ==> (isNew <==> !HoldsEqual(ts, content, n1, n2))
    {
      hide AgreeElsewhere, Distinct;
      if n1.loc !in tlm {
        NoEntry(tlm, content, n1);
        return true;
      }
      var flm := tlm[n1.loc];
      for i := 0 to |flm|
        invariant forall j :: 0 <= j < i ==> flm[j].node.zone != n1.zone || !Redundant(ts, eqOrSim, content, n1, n2)
      {
        if flm[i].node.zone == n1.zone {
          EntryOf(tlm, content, n1, i);
          isNew := IsNewIn(flm[i], n2, eqOrSim, n1);
          if !isNew {
            return;
          }
        }
      }
      if forall j :: 0 <= j < |flm| ==> flm[j].node.zone != n1.zone {
        NoEntry(tlm, content, n1);
      }
      return true;
    }

    /** The scan of one entry. */
    method IsNewIn(e: Entry<Z>, n2: Node<Z>, eqOrSim: bool, ghost n1: Node<Z>) returns (isNew: bool)
      requires EntryRep(e, content) && e.node == n1
      ensures isNew <==> !Redundant(ts, eqOrSim, content, n1, n2)
    {
      if n2.loc !in e.slm {
        assert forall q: Node<Z> :: (n1, q) in content.slm ==> Lists(e.slm, q);
        return true;
      }
      var nodes := e.slm[n2.loc];
      for i := 0 to |nodes|
        invariant forall j :: 0 <= j < i ==> Distinct(ts, nodes[j], n2, eqOrSim)
      {
        if !Distinct(ts, nodes[i], n2, eqOrSim) {
          assert Lists(e.slm, nodes[i]);
          return false;
        }
      }
      forall q: Node<Z> | (n1, q) in content.slm && q.loc == n2.loc
        ensures Distinct(ts, q, n2, eqOrSim)
      {
        assert Lists(e.slm, q);
      }
      return true;
    }

    /** The root standing for `n`, if there is one: same location, zones simulating each other. */
    method IsNewRoot(n: Node<Z>) returns (isNew: bool, r: Node<Z>)
      requires Valid()
      ensures isNew ==> r == n && forall r' :: r' in content.roots ==> !Equivalent(ts, r', n)
      ensures !isNew ==> r in content.roots && Equivalent(ts, r, n)
    {
      hide EntryRep, AgreeElsewhere;
      var flm := if n.loc in tlm then tlm[n.loc] else [];
      for i := 0 to |flm|
        invariant forall j :: 0 <= j < i ==> Distinct(ts, flm[j].node, n, false)
      {
        NodeIsRoot(tlm, content, n.loc, i);
        if !Distinct(ts, flm[i].node, n, false) {
          return false, flm[i].node;
        }
      }
      forall r' | r' in content.roots
        ensures !Equivalent(ts, r', n)
      {
        var j :| RootAt(tlm, r', j);
      }
      return true, n;
    }

    /** Stores the pair unless it is redundant. */
    method Offer(n1: Node<Z>, n2: Node<Z>, eqOrSim: bool, ghost c: Content<Z>, ghost w: Work<Z>, ghost cands: set<(Node<Z>, Node<Z>)>)
      requires Valid() && Preorder(ts) && WellFormed(ts, c) && n1 in content.roots && Offered(ts, eqOrSim, c, w, content, toDo, cands)
      modifies this`tlm, this`toDo, this`content
      ensures Valid() && Offered(ts, eqOrSim, c, w, content, toDo, cands + {(n1, n2)})
      ensures old(AllSparing(ts, eqOrSim, tlm)) ==> AllSparing(ts, eqOrSim, tlm)
    {
      hide Rep, Redundant, Offered, Preorder, WellFormed, AllSparing;
      assert content.roots == c.roots by { OfferedRoots(ts, eqOrSim, c, w, content, toDo, cands); }
      ghost var c1, w1 := content, toDo;
      var isNew := IsNewNode(n1, n2, eqOrSim);
      if isNew {
        JustAddNode(n1, n2);
        assert content == c1.(slm := c1.slm + {(n1, n2)});
      }
      OfferedMore(ts, eqOrSim, c, w, c1, w1, cands, content, toDo, (n1, n2));
    }

    /** A new push by `n1`, matched with the recorded pops `m`. */
    method MatchPops(n1: Node<Z>, m: Nodes<Z>, eqOrSim: bool)
      requires Valid() && Preorder(ts) && WellFormed(ts, content) && n1 in content.roots && Keyed(m)
      modifies this`tlm, this`toDo, this`content
      ensures Valid() && Offered(ts, eqOrSim, old(content), old(toDo), content, toDo, PairsFrom(n1, NodesOf(m)))
      ensures old(AllSparing(ts, eqOrSim, tlm)) ==> AllSparing(ts, eqOrSim, tlm)
    {
      hide Rep, Offered, Preorder, WellFormed, RecordsOfRoots, AllSparing;
      ghost var c, w, cands := content, toDo, {};
      OfferedNone(ts, eqOrSim, c, w);
      var keys := m.Keys;
      while keys != {}
        invariant keys <= m.Keys && Valid() && content.roots == c.roots
        invariant Offered(ts, eqOrSim, c, w, content, toDo, cands)
        invariant old(AllSparing(ts, eqOrSim, tlm)) ==> AllSparing(ts, eqOrSim, tlm)
        invariant forall q, j :: q in m && q !in keys && 0 <= j < |m[q]| ==> (n1, m[q][j]) in cands
        invariant cands <= PairsFrom(n1, NodesOf(m))
        decreases keys
      {
        var q :| q in keys;
        keys := keys - {q};
        for i := 0 to |m[q]|
          invariant Valid() && content.roots == c.roots
          invariant Offered(ts, eqOrSim, c, w, content, toDo, cands)
          invariant old(AllSparing(ts, eqOrSim, tlm)) ==> AllSparing(ts, eqOrSim, tlm)
          invariant forall q', j :: q' in m && q' !in keys && q' != q && 0 <= j < |m[q']| ==> (n1, m[q'][j]) in cands
          invariant forall j :: 0 <= j < i ==> (n1, m[q][j]) in cands
          invariant cands <= PairsFrom(n1, NodesOf(m))
        {
          Offer(n1, m[q][i], eqOrSim, c, w, cands);
          assert m[q][i] in NodesOf(m);
          cands := cands + {(n1, m[q][i])};
          OfferedRoots(ts, eqOrSim, c, w, content, toDo, cands);
        }
      }
      assert cands == PairsFrom(n1, NodesOf(m));
    }

    /** A new pop to `n2`, matched with the recorded pushes `m`. */
    method MatchPushes(m: Nodes<Z>, n2: Node<Z>, eqOrSim: bool)
      requires Valid() && Preorder(ts) && WellFormed(ts, content) && Keyed(m) && NodesOf(m) <= content.roots
      modifies this`tlm, this`toDo, this`content
      ensures Valid() && Offered(ts, eqOrSim, old(content), old(toDo), content, toDo, PairsTo(NodesOf(m), n2))
      ensures old(AllSparing(ts, eqOrSim, tlm)) ==> AllSparing(ts, eqOrSim, tlm)
    {
      hide Rep, Offered, Preorder, WellFormed, RecordsOfRoots, AllSparing;
      ghost var c, w, cands := content, toDo, {};
      OfferedNone(ts, eqOrSim, c, w);
      var keys := m.Keys;
      while keys != {}
        invariant keys <= m.Keys && Valid() && content.roots == c.roots
        invariant Offered(ts, eqOrSim, c, w, content, toDo, cands)
        invariant old(AllSparing(ts, eqOrSim, tlm)) ==> AllSparing(ts, eqOrSim, tlm)
        invariant forall q, j :: q in m && q !in keys && 0 <= j < |m[q]| ==> (m[q][j], n2) in cands
        invariant cands <= PairsTo(NodesOf(m), n2)
        decreases keys
      {
        var q :| q in keys;
        keys := keys - {q};
        for i := 0 to |m[q]|
          invariant Valid() && content.roots == c.roots
          invariant Offered(ts, eqOrSim, c, w, content, toDo, cands)
          invariant old(AllSparing(ts, eqOrSim, tlm)) ==> AllSparing(ts, eqOrSim, tlm)
          invariant forall q', j :: q' in m && q' !in keys && q' != q && 0 <= j < |m[q']| ==> (m[q'][j], n2) in cands
          invariant forall j :: 0 <= j < i ==> (m[q][j], n2) in cands
          invariant cands <= PairsTo(NodesOf(m), n2)
        {
          assert m[q][i] in NodesOf(m);
          Offer(m[q][i], n2, eqOrSim, c, w, cands);
          cands := cands + {(m[q][i], n2)};
          OfferedRoots(ts, eqOrSim, c, w, content, toDo, cands);
        }
      }
      assert cands == PairsTo(NodesOf(m), n2);
    }

    /** Appends to the pushes of the entry at position `i`. */
    method RecordPush(n2: Node<Z>, i: nat, symbol: string, n1: Node<Z>)
      requires Valid() && n2.loc in tlm && i < |tlm[n2.loc]| && tlm[n2.loc][i].node == n2
      requires EntryRep(tlm[n2.loc][i], content) && n1 in content.roots && n2 in content.roots
      modifies this`tlm, this`content
      ensures Valid() && content == old(content).(pushes := old(content).pushes + {(n2, symbol, n1)})
      ensures forall mode: bool :: old(AllSparing(ts, mode, tlm)) ==> AllSparing(ts, mode, tlm)
    {
      hide AgreeElsewhere, AllSparing;
      ghost var c := content;
      var e := tlm[n2.loc][i];
      var e' := e.(pushes := e.pushes[symbol := Append(At(e.pushes, symbol), n1)]);
      PushEntry(e, c, symbol, n1);
      content := c.(pushes := c.pushes + {(n2, symbol, n1)});
      RepReplace(tlm, c, n2.loc, i, e', content);
      SameSlmSparing(ts, tlm, n2.loc, i, e');
      tlm := Replace(tlm, n2.loc, i, e');
    }

    /** Appends to the pops of the entry at position `i`. */
    method RecordPop(n1: Node<Z>, i: nat, symbol: string, n2: Node<Z>)
      requires Valid() && n1.loc in tlm && i < |tlm[n1.loc]| && tlm[n1.loc][i].node == n1
      requires EntryRep(tlm[n1.loc][i], content) && n1 in content.roots
      modifies this`tlm, this`content
      ensures Valid() && content == old(content).(pops := old(content).pops + {(n1, symbol, n2)})
      ensures forall mode: bool :: old(AllSparing(ts, mode, tlm)) ==> AllSparing(ts, mode, tlm)
    {
      hide AgreeElsewhere, AllSparing;
      ghost var c := content;
      var e := tlm[n1.loc][i];
      var e' := e.(pops := e.pops[symbol := Append(At(e.pops, symbol), n2)]);
      PopEntry(e, c, symbol, n2);
      content := c.(pops := c.pops + {(n1, symbol, n2)});
      RepReplace(tlm, c, n1.loc, i, e', content);
      SameSlmSparing(ts, tlm, n1.loc, i, e');
      tlm := Replace(tlm, n1.loc, i, e');
    }

    /** Records that `n1` enters root `n2` by pushing `symbol`, and matches the push with every recorded pop. */
    method AppendPushAndMatchPop(n1: Node<Z>, n2: Node<Z>, symbol: string, eqOrSim: bool)
      requires Valid() && Preorder(ts) && WellFormed(ts, content) && n1 in content.roots && n2 in content.roots
      modifies this`tlm, this`toDo, this`content
      ensures Valid()
      ensures (n2, symbol, n1) in old(content).pushes ==> content == old(content) && toDo == old(toDo)
      ensures (n2, symbol, n1) !in old(content).pushes ==>
        Offered(ts, eqOrSim, old(content).(pushes := old(content).pushes + {(n2, symbol, n1)}), old(toDo),
                content, toDo, PopCandidates(old(content), n1, n2, symbol))
      ensures old(AllSparing(ts, eqOrSim, tlm)) ==> AllSparing(ts, eqOrSim, tlm)
    {
      hide AllSparing, Offered, Preorder, WellFormed, AgreeElsewhere;
      ghost var c := content;
      var flm := tlm[n2.loc];
      for i := 0 to |flm|
        invariant forall j :: 0 <= j < i ==> flm[j].node.zone != n2.zone
      {
        if flm[i].node.zone == n2.zone && flm[i].node.loc == n2.loc {
          EntryOf(tlm, c, n2, i);
          var e := flm[i];
          var pushed := At(e.pushes, symbol);
          assert Lists(pushed, n1) <==> (n2, symbol, n1) in c.pushes;
          if n1.loc in pushed && n1 in pushed[n1.loc] {
            return;
          }
          RecordPush(n2, i, symbol, n1);
          RecordWellFormed(ts, c, n2, symbol, n1);
          PopCandidatesOf(e, c, n1, symbol);
          MatchPops(n1, At(e.pops, symbol), eqOrSim);
          return;
        }
      }
      NoEntry(tlm, c, n2);
    }

    /** Is a node equivalent to `n2` listed? */
    method HasEquivalent(m: Nodes<Z>, n2: Node<Z>) returns (found: bool)
      requires Keyed(m)
      ensures found <==> exists p: Node<Z> :: Lists(m, p) && Equivalent(ts, p, n2)
    {
      if n2.loc !in m {
        return false;
      }
      for i := 0 to |m[n2.loc]|
        invariant forall j :: 0 <= j < i ==> !Equivalent(ts, m[n2.loc][j], n2)
      {
        if !Distinct(ts, m[n2.loc][i], n2, false) {
          assert Lists(m, m[n2.loc][i]) && Equivalent(ts, m[n2.loc][i], n2);
          return true;
        }
      }
      return false;
    }

    /** Records that `n2` is reached from root `n1` by popping `symbol`, unless an equivalent node is recorded,
        and matches the pop with every recorded push. */
    method AppendPopAndMatchPush(n1: Node<Z>, n2: Node<Z>, symbol: string, eqOrSim: bool)
      requires Valid() && Preorder(ts) && WellFormed(ts, content) && n1 in content.roots
      modifies this`tlm, this`toDo, this`content
      ensures Valid()
      ensures PoppedAlready(ts, old(content), n1, symbol, n2) ==> content == old(content) && toDo == old(toDo)
      ensures !PoppedAlready(ts, old(content), n1, symbol, n2) ==>
        Offered(ts, eqOrSim, old(content).(pops := old(content).pops + {(n1, symbol, n2)}), old(toDo),
                content, toDo, PushCandidates(old(content), n1, n2, symbol))
      ensures old(AllSparing(ts, eqOrSim, tlm)) ==> AllSparing(ts, eqOrSim, tlm)
    {
      hide AllSparing, Offered, Preorder, WellFormed, AgreeElsewhere, Equivalent;
      ghost var c := content;
      var flm := tlm[n1.loc];
      for i := 0 to |flm|
        invariant forall j :: 0 <= j < i ==> flm[j].node.zone != n1.zone
      {
        if flm[i].node.zone == n1.zone && flm[i].node.loc == n1.loc {
          EntryOf(tlm, c, n1, i);
          var e := flm[i];
          var popped := At(e.pops, symbol);
          var found := HasEquivalent(popped, n2);
          if found {
            ghost var p :| Lists(popped, p) && Equivalent(ts, p, n2);
            assert (n1, symbol, p) in c.pops;
            return;
          }
          RecordPop(n1, i, symbol, n2);
          RecordWellFormed(ts, c, n1, symbol, n2);
          PushCandidatesOf(e, c, n2, symbol);
          PushersAreRoots(c, ts, n1, symbol, NodesOf(At(e.pushes, symbol)));
          assert forall p: Node<Z> :: Lists(popped, p) <==> (n1, symbol, p) in c.pops;
          MatchPushes(At(e.pushes, symbol), n2, eqOrSim);
          return;
        }
      }
      NoEntry(tlm, c, n1);
    }
  }

  lemma RecordWellFormed<Z(!new)>(ts: System<Z>, c: Content<Z>, r: Node<Z>, a: string, p: Node<Z>)
    requires WellFormed(ts, c) && r in c.roots
    ensures p in c.roots ==> WellFormed(ts, c.(pushes := c.pushes + {(r, a, p)}))
    ensures WellFormed(ts, c.(pops := c.pops + {(r, a, p)}))
  {}

  lemma PushersAreRoots<Z(!new)>(c: Content<Z>, ts: System<Z>, r: Node<Z>, a: string, s: set<Node<Z>>)
    requires WellFormed(ts, c) && forall p: Node<Z> :: p in s ==> (r, a, p) in c.pushes
    ensures s <= c.roots
  {
    forall p | p in s ensures p in c.roots {
      assert (r, a, p).2 in c.roots;
    }
  }
}
