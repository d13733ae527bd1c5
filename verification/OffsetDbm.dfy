/** The operations on zones with several reference clocks, in place on a matrix of encoded bounds. */
module OffsetDbm {
  import opened Wrappers
  import opened Bounds
  import opened Zones
  import opened Encoding
  import opened FloydWarshall
  import opened ZoneOps
  import opened Dbm
  import opened OffsetZones

  /** Decides whether in all valuations of the zone the reference clocks are equal. */
  method IsSynchronized(a: array2<Db>, refs: nat) returns (r: bool)
    requires Shape(a) && Tight(View(a)) && Consistent(View(a)) && 1 <= refs <= a.Length0
    ensures r <==> InSync(View(a), refs)
    ensures r <==> forall v: Valuation :: Sat(View(a), v) ==> Synchronous(v, refs)
  {
    hide Tight, Consistent, Synchronous;
    InSyncExact(View(a), refs);
    for i := 0 to refs - 1
      invariant forall k :: 0 <= k < i ==> Joined(View(a), k)
    {
      CellsJoined(a, i);
      if a[i, i + 1] != LE_ZERO || a[i + 1, i] != LE_ZERO {
        return false;
      }
    }
    return true;
  }

  lemma CellsJoined(a: array2<Db>, i: nat)
    requires Shape(a) && i < a.Length0 - 1
    ensures Joined(View(a), i) <==> a[i, i + 1] == LE_ZERO && a[i + 1, i] == LE_ZERO
  {
    OrderEmbedding(a[i, i + 1], LE_ZERO);
    OrderEmbedding(LE_ZERO, a[i, i + 1]);
    OrderEmbedding(a[i + 1, i], LE_ZERO);
    OrderEmbedding(LE_ZERO, a[i + 1, i]);
  }

  // ----- synchronization -----

  /** Makes all reference clocks at most, and at least, each other. */
  method LinkReferences(a: array2<Db>, refs: nat, ghost m: Matrix)
    requires Holds(a, m) && 1 <= refs <= a.Length0
    modifies a
    ensures Holds(a, Link(m, refs, refs - 1))
  {
    for x := 0 to refs - 1
      invariant Holds(a, Link(m, refs, x))
    {
      MinExact(a[x, x + 1], LE_ZERO);
      MinExact(a[x + 1, x], LE_ZERO);
      a[x, x + 1] := Encoding.Min(a[x, x + 1], LE_ZERO);
      a[x + 1, x] := Encoding.Min(a[x + 1, x], LE_ZERO);
    }
  }

  method SyncRow(a: array2<Db>, r: nat, x: nat, ghost m: Matrix) returns (ok: bool)
    requires Shape(a) && |m| == a.Length0 && r < a.Length0 && x < a.Length0 && x != r
    requires m[r][r] == ZERO && Mixed(a, m, Step(m, r), x, 0)
    modifies a
    ensures ok ==> Mixed(a, m, Step(m, r), x + 1, 0)
    ensures !ok ==> exists y :: 0 <= y < |m| && !Fits(Plus(m[x][r], m[r][y]))
  {
    var n := a.Length0;
    ghost var m' := Step(m, r);
    for y := 0 to n
      invariant Mixed(a, m, m', x, y)
    {
      StepPivot(m, r, x);
      if y == r {
        continue;
      }
      var s := Sum(a[x, r], a[r, y]);
      SumExact(a[x, r], a[r, y]);
      if s.None? {
        return false;
      }
      MinExact(s.value, a[x, y]);
      a[x, y] := Encoding.Min(s.value, a[x, y]);
    }
    return true;
  }

  method SyncPhase(a: array2<Db>, r: nat, ghost m: Matrix) returns (s: Status)
    requires Holds(a, m) && Consistent(m) && r < |m|
    modifies a
    ensures s == NON_EMPTY ==> Holds(a, Step(m, r)) && Consistent(Step(m, r))
    ensures s == EMPTY ==> a[0, 0] == LT_ZERO && exists i :: 0 <= i < |m| && Lt(Step(m, r)[i][i], ZERO)
    ensures s == OutOfRange ==> exists i, j :: 0 <= i < |m| && 0 <= j < |m| && !Fits(Plus(m[i][r], m[r][j]))
    ensures s != MAY_BE_EMPTY
  {
    var n := a.Length0;
    ghost var m' := Step(m, r);
    for x := 0 to n
      invariant Mixed(a, m, m', x, 0)
      invariant forall l :: 0 <= l < x ==> m'[l][l] == ZERO
    {
      StepPivot(m, r, x);
      if x == r || a[x, r] == LT_INFINITY {
        continue;
      }
      var ok := SyncRow(a, r, x, m);
      if !ok {
        return OutOfRange;
      }
      assert Decode(a[x, x]) == m'[x][x];
      OrderEmbedding(a[x, x], LE_ZERO);
      OrderEmbedding(LE_ZERO, a[x, x]);
      if a[x, x] < LE_ZERO {
        a[0, 0] := LT_ZERO;
        return EMPTY;
      }
    }
    return NON_EMPTY;
  }

  lemma LinkWithin(m: Matrix, refs: nat, upto: int, b: real)
    requires Within(m, b)
    ensures Within(Link(m, refs, upto), b)
  {
    var e := Link(m, refs, upto);
    forall i, j | Clock(m, i) && Clock(m, j)
      ensures SmallAt(e, i, j, b)
    {
      assert SmallAt(m, i, j, b);
    }
  }

  /** Keeps exactly the valuations whose reference clocks are equal. Running Floyd-Warshall over the reference clocks alone is
      enough for the outcome to be tight. */
  method Synchronize(a: array2<Db>, refs: nat) returns (s: Status)
    requires Shape(a) && Tight(View(a)) && Consistent(View(a)) && 1 <= refs <= a.Length0
    modifies a
    ensures s == NON_EMPTY ==> CanSynchronize(old(View(a)), refs) && View(a) == Synchronized(old(View(a)), refs)
    ensures s == NON_EMPTY ==> Tight(View(a)) && Consistent(View(a))
    ensures s == NON_EMPTY ==>
      forall v: Valuation :: Sat(View(a), v) <==> |v| == a.Length0 && Sat(old(View(a)), v) && Synchronous(v, refs)
    ensures s == EMPTY ==> a[0, 0] == LT_ZERO
    ensures s == EMPTY ==> forall v: Valuation :: |v| == a.Length0 && Sat(old(View(a)), v) ==> !Synchronous(v, refs)
    ensures s == OutOfRange ==>
      forall b: real :: Within(old(View(a)), b) ==> Times(2 * (a.Length0 - 1), b) > MAX_VALUE as real
    ensures s != MAY_BE_EMPTY
  {
    hide Phases, Times, Link, Synchronous, Tight, Sat, ConsistentThrough, Within, Fits;
    ghost var m := View(a);
    LinkReferences(a, refs, m);
    ghost var e := Link(m, refs, refs - 1);
    LinkConsistent(m, refs);
    s := SyncPhases(a, refs, e);
    if s == EMPTY {
      NotSynchronizable(m, refs);
    }
    if s == OutOfRange {
      SyncOverflow(m, refs);
    }
    if s == NON_EMPTY {
      HoldsIsView(a, Phases(e, refs));
      SynchronizedExact(m, refs);
    }
  }

  /** Some sum of some phase is not representable. */
  ghost predicate PhaseOverflows(e: Matrix, r: nat)
    requires r < |e|
  {
    exists i, j :: 0 <= i < |e| && 0 <= j < |e| && !Fits(Plus(Phases(e, r)[i][r], Phases(e, r)[r][j]))
  }

  ghost predicate SyncOverflows(e: Matrix, refs: nat)
    requires refs <= |e|
  {
    exists r: nat :: r < refs && ConsistentThrough(e, r) && PhaseOverflows(e, r)
  }

  lemma OverflowsAt(e: Matrix, refs: nat, r: nat)
    requires r < refs <= |e| && ConsistentThrough(e, r)
    requires exists i, j :: 0 <= i < |e| && 0 <= j < |e| && !Fits(Plus(Phases(e, r)[i][r], Phases(e, r)[r][j]))
    ensures SyncOverflows(e, refs)
  {
    hide ConsistentThrough, Phases;
    assert PhaseOverflows(e, r);
  }

  method SyncPhaseOf(a: array2<Db>, refs: nat, r: nat, ghost e: Matrix) returns (s: Status)
    requires r < refs <= |e| && ConsistentThrough(e, r) && Holds(a, Phases(e, r))
    modifies a
    ensures s == NON_EMPTY ==> ConsistentThrough(e, r + 1) && Holds(a, Phases(e, r + 1))
    ensures s == EMPTY ==> a[0, 0] == LT_ZERO && Unsatisfiable(e)
    ensures s == OutOfRange ==> SyncOverflows(e, refs)
    ensures s != MAY_BE_EMPTY
  {
    hide Step, SyncOverflows, Fits, Unsatisfiable;
    assert Consistent(Phases(e, r));
    s := SyncPhase(a, r, Phases(e, r));
    assert Phases(e, r + 1) == Step(Phases(e, r), r);
    if s == EMPTY {
      ghost var i :| 0 <= i < |e| && Lt(Step(Phases(e, r), r)[i][i], ZERO);
      NegativeDiagonal(e, r + 1, i);
    }
    if s == OutOfRange {
      OverflowsAt(e, refs, r);
    }
  }

  method SyncPhases(a: array2<Db>, refs: nat, ghost e: Matrix) returns (s: Status)
    requires Holds(a, e) && Consistent(e) && refs <= |e|
    modifies a
    ensures s == NON_EMPTY ==> Holds(a, Phases(e, refs)) && ConsistentThrough(e, refs)
    ensures s == EMPTY ==> a[0, 0] == LT_ZERO && Unsatisfiable(e)
    ensures s == OutOfRange ==> SyncOverflows(e, refs)
    ensures s != MAY_BE_EMPTY
  {
    hide Holds, SyncOverflows, Unsatisfiable;
    assert Phases(e, 0) == e;
    for r := 0 to refs
      invariant ConsistentThrough(e, r) && Holds(a, Phases(e, r))
    {
      s := SyncPhaseOf(a, refs, r, e);
      if s != NON_EMPTY {
        return;
      }
    }
    return NON_EMPTY;
  }

  lemma NotSynchronizable(m: Matrix, refs: nat)
    requires 1 <= refs <= |m| && Unsatisfiable(Link(m, refs, refs - 1))
    ensures forall v: Valuation :: |v| == |m| && Sat(m, v) ==> !Synchronous(v, refs)
  {
    hide Link, Synchronous, Sat;
    forall v: Valuation | |v| == |m| && Sat(m, v)
      ensures !Synchronous(v, refs)
    {
      LinkSat(m, refs, v);
    }
  }

  lemma SyncOverflow(m: Matrix, refs: nat)
    requires 1 <= refs <= |m|
    requires SyncOverflows(Link(m, refs, refs - 1), refs)
    ensures forall b: real :: Within(m, b) ==> Times(2 * (|m| - 1), b) > MAX_VALUE as real
  {
    hide Phases, Link, ConsistentThrough, Times, Within;
    var e := Link(m, refs, refs - 1);
    var r: nat :| r < refs && ConsistentThrough(e, r) && PhaseOverflows(e, r);
    var p := Phases(e, r);
    var i, j :| 0 <= i < |m| && 0 <= j < |m| && !Fits(Plus(p[i][r], p[r][j]));
    forall b: real | Within(m, b)
      ensures Times(2 * (|m| - 1), b) > MAX_VALUE as real
    {
      LinkWithin(m, refs, refs - 1, b);
      if Times(2 * (|m| - 1), b) <= MAX_VALUE as real {
        SumsFit(e, r, i, j, b);
      }
    }
  }

  // ----- reset -----

  /** The rows and columns of `x` below `z` have been identified with those of `r`. */
  ghost predicate Identified(a: array2<Db>, m: Matrix, x: int, r: int, z: int)
    requires Shape(a) && |m| == a.Length0 && Clock(m, x) && Clock(m, r)
    reads a
  {
    forall p, q {:trigger a[p, q]} :: 0 <= p < |m| && 0 <= q < |m| && !(p == x && q == x) ==>
      Decode(a[p, q]) == if p == x && q < z then m[r][q] else if q == x && p < z then m[p][r] else m[p][q]
  }

  method ResetToRefclock(a: array2<Db>, x: nat, refs: nat, refmap: seq<int>)
    requires Shape(a) && Tight(View(a)) && Consistent(View(a)) && RefMap(refmap, a.Length0, refs) && x < a.Length0
    modifies a
    ensures View(a) == Reset(old(View(a)), x, refmap[x], 0.0)
    ensures Tight(View(a)) && Consistent(View(a))
    ensures forall w: Valuation :: |w| == a.Length0 ==>
      (Sat(View(a), w) <==> exists v: Valuation :: |v| == a.Length0 && Sat(old(View(a)), v) && w == v[x := v[refmap[x]]])
  {
    hide Tight, Reset, Sat;
    ghost var m := View(a);
    forall w: Valuation | |w| == |m|
      ensures Sat(Reset(m, x, refmap[x], 0.0), w)
         <==> exists v: Valuation :: |v| == |m| && Sat(m, v) && w == v[x := v[refmap[x]]]
    {
      CopyExact(m, x, refmap[x], w);
    }
    ResetTight(m, x, refmap[x], 0.0);
    if refmap[x] == x {
      ResetItself(m, x);
      return;
    }
    Identify(a, x, refmap[x], m);
    IdentifiedIsReset(a, m, x, refmap[x]);
    HoldsIsView(a, Reset(m, x, refmap[x], 0.0));
  }

  method Identify(a: array2<Db>, x: nat, r: nat, ghost m: Matrix)
    requires Holds(a, m) && x < |m| && r < |m| && x != r
    modifies a
    ensures Shape(a) && Identified(a, m, x, r, |m|) && a[x, x] == LE_ZERO
  {
    for z := 0 to a.Length0
      invariant Identified(a, m, x, r, z)
    {
      a[x, z] := a[r, z];
      a[z, x] := a[z, r];
    }
    a[x, x] := LE_ZERO;
  }

  lemma ResetItself(m: Matrix, x: int)
    requires Clock(m, x)
    ensures Reset(m, x, x, 0.0) == m
  {
    forall i, j | Clock(m, i) && Clock(m, j)
      ensures SameAt(Reset(m, x, x, 0.0), m, i, j)
    {}
    SameEntries(Reset(m, x, x, 0.0), m);
  }

  lemma IdentifiedIsReset(a: array2<Db>, m: Matrix, x: int, r: int)
    requires Shape(a) && |m| == a.Length0 && Clock(m, x) && Clock(m, r) && x != r && Consistent(m)
    requires Identified(a, m, x, r, |m|) && a[x, x] == LE_ZERO
    ensures Holds(a, Reset(m, x, r, 0.0))
  {
    hide Reset;
    forall p, q {:trigger a[p, q]} | 0 <= p < |m| && 0 <= q < |m|
      ensures Decode(a[p, q]) == Reset(m, x, r, 0.0)[p][q]
    {
      ResetZeroAt(m, x, r, p, q);
    }
  }

  // ----- delay -----

  /** Column `r` is open in the rows before `i`. */
  method OpenColumn(a: array2<Db>, r: nat, ghost m: Matrix)
    requires Holds(a, m) && r < |m| && Consistent(m)
    modifies a
    ensures Holds(a, OpenReference(m, r))
  {
    for i := 0 to a.Length0
      invariant forall p, q {:trigger a[p, q]} :: 0 <= p < |m| && 0 <= q < |m| ==>
        Decode(a[p, q]) == if q == r && p < i then Inf else m[p][q]
    {
      a[i, r] := LT_INFINITY;
    }
    a[r, r] := LE_ZERO;
  }

  /** Time passes, for each of the reference clocks in `delays` on its own. */
  method AsynchronousOpenUp(a: array2<Db>, refs: nat, delays: seq<bool>)
    requires Shape(a) && Tight(View(a)) && Consistent(View(a)) && 1 <= refs <= a.Length0 && |delays| == refs
    modifies a
    ensures View(a) == AsyncOpenUp(old(View(a)), delays, refs)
    ensures Tight(View(a)) && Consistent(View(a))
    ensures forall w: Valuation :: |w| == a.Length0 ==>
      (Sat(View(a), w) <==> exists v: Valuation :: |v| == a.Length0 && Sat(old(View(a)), v) && Rewound(v, w, delays, refs))
  {
    hide Tight, Consistent, OpenReference, Rewound, Sat;
    ghost var m := View(a);
    for r := 0 to refs
      invariant Holds(a, AsyncOpenUp(m, delays, r))
    {
      AsyncTight(m, delays, r);
      if !delays[r] {
        continue;
      }
      OpenColumn(a, r, AsyncOpenUp(m, delays, r));
    }
    HoldsIsView(a, AsyncOpenUp(m, delays, refs));
    AsyncTight(m, delays, refs);
    forall w: Valuation | |w| == |m| {
      AsyncExact(m, delays, refs, w);
    }
  }

  /** Time passes for every reference clock. */
  method AsynchronousOpenUpAll(a: array2<Db>, refs: nat)
    requires Shape(a) && Tight(View(a)) && Consistent(View(a)) && 1 <= refs <= a.Length0
    modifies a
    ensures View(a) == AsyncOpenUp(old(View(a)), seq(refs, _ => true), refs)
    ensures Tight(View(a)) && Consistent(View(a))
  {
    hide Tight, Consistent, OpenReference;
    ghost var m, delays := View(a), seq(refs, _ => true);
    for r := 0 to refs
      invariant Holds(a, AsyncOpenUp(m, delays, r))
    {
      AsyncTight(m, delays, r);
      OpenColumn(a, r, AsyncOpenUp(m, delays, r));
    }
    HoldsIsView(a, AsyncOpenUp(m, delays, refs));
    AsyncTight(m, delays, refs);
  }

  // ----- projection -----

  /** The ordinary zone of a synchronized one. */
  method ToDbm(a: array2<Db>, refs: nat, refmap: seq<int>, b: array2<Db>)
    requires Shape(a) && Tight(View(a)) && Consistent(View(a)) && RefMap(refmap, a.Length0, refs) && InSync(View(a), refs)
    requires Shape(b) && b.Length0 == a.Length0 - refs + 1 && a != b
    modifies b
    ensures View(b) == Project(View(a), refs, refmap)
    ensures Tight(View(b)) && Consistent(View(b))
    ensures forall u: Valuation :: In(View(b), u) <==>
      exists v: Valuation :: |v| == a.Length0 && Sat(View(a), v) && u == Values(v, refs, refmap)
  {
    hide Tight, InSync, Values, Project, Consistent;
    ghost var m := View(a);
    ghost var e := Project(m, refs, refmap);
    DiagonalOf(m, refs, refmap);
    for i := 1 to b.Length0
      invariant Copied(b, e, i)
    {
      CopyClock(a, refs, refmap, b, i, m);
    }
    b[0, 0] := LE_ZERO;
    CopiedAll(b, e);
    HoldsIsView(b, e);
    ProjectTight(m, refs, refmap);
    forall u: Valuation {
      ProjectExact(m, refs, refmap, u);
    }
  }

  lemma ProjectEntries(m: Matrix, refs: nat, refmap: seq<int>, i: int, j: int)
    requires RefMap(refmap, |m|, refs) && 1 <= i < |m| - refs + 1 && 1 <= j < |m| - refs + 1
    ensures var e, x, y := Project(m, refs, refmap), refs + i - 1, refs + j - 1;
            && 0 <= refmap[x] < refs
            && e[0][i] == m[refmap[x]][x] && e[i][0] == m[x][refmap[x]]
            && e[i][j] == m[x][y] && e[j][i] == m[y][x]
  {}

  lemma CopiedAll(b: array2<Db>, e: Matrix)
    requires Shape(b) && |e| == b.Length0 && Copied(b, e, |e|) && b[0, 0] == LE_ZERO && e[0][0] == ZERO
    ensures Holds(b, e)
  {}

  /** The bounds of clock `i` against clock 0 and against the later clocks. */
  method CopyClock(a: array2<Db>, refs: nat, refmap: seq<int>, b: array2<Db>, i: nat, ghost m: Matrix)
    requires Holds(a, m) && RefMap(refmap, |m|, refs) && Shape(b) && b.Length0 == |m| - refs + 1 && a != b
    requires 1 <= i < b.Length0 && Copied(b, Project(m, refs, refmap), i)
    modifies b
    ensures Copied(b, Project(m, refs, refmap), i + 1)
  {
    hide Project;
    ghost var e := Project(m, refs, refmap);
    var y := refs + i - 1;
    ProjectEntries(m, refs, refmap, i, i);
    b[0, i] := a[refmap[y], y];
    b[i, 0] := a[y, refmap[y]];
    for j := i to b.Length0
      invariant Copied(b, e, i)
      invariant Decode(b[0, i]) == e[0][i] && Decode(b[i, 0]) == e[i][0]
      invariant forall k {:trigger b[i, k]} {:trigger b[k, i]} :: i <= k < j ==>
        Decode(b[i, k]) == e[i][k] && Decode(b[k, i]) == e[k][i]
    {
      var z := refs + j - 1;
      ProjectEntries(m, refs, refmap, i, j);
      b[i, j] := a[y, z];
      if i != j {
        b[j, i] := a[z, y];
      }
    }
  }

  /** Everything between clocks of which one is below `i`, except the diagonal entry of clock 0. */
  ghost predicate Copied(b: array2<Db>, e: Matrix, i: int)
    requires Shape(b) && |e| == b.Length0
    reads b
  {
    forall p, q {:trigger b[p, q]} :: 0 <= p < |e| && 0 <= q < |e| && (1 <= p < i || 1 <= q < i) ==> Decode(b[p, q]) == e[p][q]
  }

  lemma DiagonalOf(m: Matrix, refs: nat, refmap: seq<int>)
    requires RefMap(refmap, |m|, refs)
    ensures Project(m, refs, refmap)[0][0] == ZERO
  {}
}
