/** Zones with several reference clocks, and how they project to ordinary zones.

    The first `refs` variables are reference clocks; each of the others is an offset variable with a reference clock of
    its own, and the value of an ordinary clock is the difference of the two. */
module OffsetZones {
  import opened Bounds
  import opened Zones
  import opened FloydWarshall
  import opened ZoneOps

  /** Every reference clock refers to itself, every offset variable to a reference clock. */
  predicate RefMap(refmap: seq<int>, dim: nat, refs: nat) {
    && 1 <= refs <= dim && |refmap| == dim
    && (forall r :: 0 <= r < refs ==> refmap[r] == r)
    && (forall x :: refs <= x < dim ==> 0 <= refmap[x] < refs)
  }

  // ----- synchronized valuations -----

  predicate Synchronous(v: Valuation, refs: nat)
    requires refs <= |v|
  {
    forall r :: 0 <= r < refs ==> v[r] == v[0]
  }

  /** Consecutive reference clocks are at most, and at least, each other. */
  predicate Linked(i: int, j: int, refs: nat, upto: int) {
    0 <= i < refs && 0 <= j < refs && ((j == i + 1 && i < upto) || (i == j + 1 && j < upto))
  }

  ghost function Link(m: Matrix, refs: nat, upto: int): (e: Matrix)
    ensures |e| == |m|
  {
    seq(|m|, i requires 0 <= i < |m| => seq(|m|, j requires 0 <= j < |m| =>
      if Linked(i, j, refs, upto) then Min(m[i][j], ZERO) else m[i][j]))
  }

  lemma LinkSat(m: Matrix, refs: nat, v: Valuation)
    requires 1 <= refs <= |m| && |v| == |m|
    ensures Sat(Link(m, refs, refs - 1), v) <==> Sat(m, v) && Synchronous(v, refs)
  {
    var e := Link(m, refs, refs - 1);
    if Sat(e, v) {
      Consecutive(m, refs, v, refs);
      forall i, j | Clock(m, i) && Clock(m, j)
        ensures SatAt(m, v, i, j)
      {
        assert SatAt(e, v, i, j);
      }
    }
    if Sat(m, v) && Synchronous(v, refs) {
      forall i, j | Clock(m, i) && Clock(m, j)
        ensures SatAt(e, v, i, j)
      {
        assert SatAt(m, v, i, j);
      }
    }
  }

  lemma {:induction false} Consecutive(m: Matrix, refs: nat, v: Valuation, k: nat)
    requires 1 <= refs <= |m| && Sat(Link(m, refs, refs - 1), v) && 1 <= k <= refs
    ensures Synchronous(v, k)
    decreases k
  {
    if k > 1 {
      Consecutive(m, refs, v, k - 1);
      var e := Link(m, refs, refs - 1);
      assert SatAt(e, v, k - 2, k - 1) && SatAt(e, v, k - 1, k - 2);
    }
  }

  /** The links do not touch the offset variables: detours through these are still no gain. */
  lemma LinkTightVia(m: Matrix, refs: nat, l: int)
    requires Tight(m) && refs <= l < |m|
    ensures TightVia(Link(m, refs, refs - 1), l)
  {
    var e := Link(m, refs, refs - 1);
    forall i, j | Clock(e, i) && Clock(e, j)
      ensures TightAt(e, i, l, j)
    {
      assert TightAt(m, i, l, j);
    }
  }

  lemma {:induction false} PhasesKeepTightVia(m: Matrix, k: nat, l: int)
    requires k <= |m| && ConsistentThrough(m, k) && Clock(m, l) && TightVia(m, l)
    ensures TightVia(Phases(m, k), l)
  {
    hide Step, TightVia;
    if k > 0 {
      assert Consistent(Phases(m, k));
      PhasesKeepTightVia(m, k - 1, l);
      StepKeepsTightVia(Phases(m, k - 1), k - 1, l);
    }
  }

  ghost function Synchronized(m: Matrix, refs: nat): (e: Matrix)
    requires 1 <= refs <= |m|
    ensures |e| == |m|
  {
    Phases(Link(m, refs, refs - 1), refs)
  }

  ghost predicate CanSynchronize(m: Matrix, refs: nat)
    requires 1 <= refs <= |m|
  {
    ConsistentThrough(Link(m, refs, refs - 1), refs)
  }

  /** Floyd-Warshall over the reference clocks alone suffices: the outcome is fully tight, and holds exactly the valuations
      whose reference clocks are equal. */
  lemma SynchronizedExact(m: Matrix, refs: nat)
    requires Tight(m) && Consistent(m) && 1 <= refs <= |m| && CanSynchronize(m, refs)
    ensures Tight(Synchronized(m, refs)) && Consistent(Synchronized(m, refs))
    ensures forall v: Valuation :: Sat(Synchronized(m, refs), v) <==> |v| == |m| && Sat(m, v) && Synchronous(v, refs)
  {
    hide Phases, Link, TightVia;
    var e := Link(m, refs, refs - 1);
    var p := Synchronized(m, refs);
    forall i, k, j | Clock(p, i) && Clock(p, j) && Clock(p, k)
      ensures TightAt(p, i, k, j)
    {
      if k < refs {
        PhasesTightVia(e, refs, k);
      } else {
        LinkTightVia(m, refs, k);
        PhasesKeepTightVia(e, refs, k);
      }
      TightViaAt(p, i, k, j);
    }
    forall v: Valuation
      ensures Sat(p, v) <==> |v| == |m| && Sat(m, v) && Synchronous(v, refs)
    {
      PhasesSat(e, refs, v);
      if |v| == |m| {
        LinkSat(m, refs, v);
      }
    }
  }

  lemma TightViaAt(m: Matrix, i: int, l: int, j: int)
    requires Clock(m, l) && TightVia(m, l) && Clock(m, i) && Clock(m, j)
    ensures TightAt(m, i, l, j)
  {}

  /** Synchronization fails exactly when no valuation has equal reference clocks. */
  lemma SynchronizableExact(m: Matrix, refs: nat)
    requires Tight(m) && Consistent(m) && 1 <= refs <= |m|
    ensures CanSynchronize(m, refs) <==> exists v: Valuation :: |v| == |m| && Sat(m, v) && Synchronous(v, refs)
  {
    hide Phases, Link, Synchronous;
    var e := Link(m, refs, refs - 1);
    if CanSynchronize(m, refs) {
      SynchronizedExact(m, refs);
      var v := Inhabited(Synchronized(m, refs));
      assert Sat(Synchronized(m, refs), v);
    } else {
      LinkConsistent(m, refs);
      var l: nat :| l <= refs && !Consistent(Phases(e, l));
      var i :| 0 <= i < |m| && Phases(e, l)[i][i] != ZERO;
      PhasesShrink(e, l, i, i);
      NegativeDiagonal(e, l, i);
      forall v: Valuation | |v| == |m|
        ensures !(Sat(m, v) && Synchronous(v, refs))
      {
        LinkSat(m, refs, v);
      }
    }
  }

  lemma LinkConsistent(m: Matrix, refs: nat)
    requires Consistent(m)
    ensures Consistent(Link(m, refs, refs - 1))
  {}

  // ----- matrices whose reference clocks are equal -----

  predicate Joined(m: Matrix, r: int)
    requires 0 <= r < |m| - 1
  {
    m[r][r + 1] == ZERO && m[r + 1][r] == ZERO
  }

  ghost predicate InSync(m: Matrix, refs: nat)
    requires refs <= |m|
  {
    forall r :: 0 <= r < refs - 1 ==> Joined(m, r)
  }

  /** The test on the bounds between consecutive reference clocks says whether all valuations have them equal. */
  lemma InSyncExact(m: Matrix, refs: nat)
    requires Tight(m) && Consistent(m) && 1 <= refs <= |m|
    ensures InSync(m, refs) <==> forall v: Valuation :: Sat(m, v) ==> Synchronous(v, refs)
  {
    if InSync(m, refs) {
      forall v: Valuation | Sat(m, v)
        ensures Synchronous(v, refs)
      {
        InSyncEqual(m, refs, v, refs);
      }
    } else {
      var r :| 0 <= r < refs - 1 && !Joined(m, r);
      assert TightAt(m, r, r + 1, r);
      var d := NonZero(m[r][r + 1], m[r + 1][r]);
      var v := Attained(m, r, r + 1, d);
      assert Sat(m, v) && !Synchronous(v, refs);
    }
  }

  lemma {:induction false} InSyncEqual(m: Matrix, refs: nat, v: Valuation, k: nat)
    requires 1 <= k <= refs <= |m| && InSync(m, refs) && Sat(m, v)
    ensures Synchronous(v, k)
    decreases k
  {
    if k > 1 {
      InSyncEqual(m, refs, v, k - 1);
      assert Joined(m, k - 2);
      assert SatAt(m, v, k - 2, k - 1) && SatAt(m, v, k - 1, k - 2);
    }
  }

  /** Two opposite bounds that are compatible, and not both `<= 0`, allow a difference other than zero. */
  lemma NonZero(hi: Bound, lo: Bound) returns (d: real)
    requires Le(ZERO, Plus(hi, lo)) && !(hi == ZERO && lo == ZERO)
    ensures d != 0.0 && Meets(d, hi) && Meets(-d, lo)
  {
    d := Between(lo, hi);
    if d == 0.0 {
      if hi.Inf? || hi.value > 0.0 {
        d := if hi.Inf? then 1.0 else hi.value / 2.0;
      } else {
        d := if lo.Inf? then -1.0 else -(lo.value / 2.0);
      }
    }
  }

  /** Equal reference clocks have the same bounds to and from every variable. */
  lemma {:induction false} ReferencesAlike(m: Matrix, refs: nat, r: nat, z: int)
    requires Tight(m) && Consistent(m) && refs <= |m| && InSync(m, refs) && r < refs && Clock(m, z)
    ensures m[r][z] == m[0][z] && m[z][r] == m[z][0]
    decreases r
  {
    if r > 0 {
      ReferencesAlike(m, refs, r - 1, z);
      assert Joined(m, r - 1);
      assert TightAt(m, r, r - 1, z) && TightAt(m, r - 1, r, z) && TightAt(m, z, r - 1, r) && TightAt(m, z, r, r - 1);
    }
  }

  // ----- delay, one reference clock after the other -----

  /** Reference clock `r` may have any smaller value. */
  ghost function OpenReference(m: Matrix, r: int): (e: Matrix)
    requires Clock(m, r)
    ensures |e| == |m|
  {
    seq(|m|, i requires 0 <= i < |m| => seq(|m|, j requires 0 <= j < |m| => if j == r && i != r then Inf else m[i][j]))
  }

  lemma OpenReferenceTight(m: Matrix, r: int)
    requires Tight(m) && Consistent(m) && Clock(m, r)
    ensures Tight(OpenReference(m, r)) && Consistent(OpenReference(m, r))
  {
    var e := OpenReference(m, r);
    forall i, k, j | Clock(e, i) && Clock(e, j) && Clock(e, k)
      ensures TightAt(e, i, k, j)
    {
      assert TightAt(m, i, k, j);
    }
  }

  lemma OpenReferenceForward(m: Matrix, r: int, v: Valuation, a: real)
    requires Clock(m, r) && Consistent(m) && Sat(m, v) && a <= v[r]
    ensures Sat(OpenReference(m, r), v[r := a])
  {
    var e, w := OpenReference(m, r), v[r := a];
    forall i, j | Clock(m, i) && Clock(m, j)
      ensures SatAt(e, w, i, j)
    {
      assert SatAt(m, v, i, j);
    }
  }

  lemma OpenReferenceBackward(m: Matrix, r: int, w: Valuation) returns (a: real)
    requires Clock(m, r) && Tight(m) && Consistent(m) && Sat(OpenReference(m, r), w)
    ensures a >= w[r] && Sat(m, w[r := a])
  {
    var e := OpenReference(m, r);
    var s := set i | 0 <= i < |m| && Clock(m, i) && i != r;
    forall i, j | i in s && j in s
      ensures SatAt(m, w, i, j)
    {
      assert SatAt(e, w, i, j);
    }
    var u := ExtendOne(m, w, s, r);
    a := if u[r] < w[r] then w[r] else u[r];
    var v := w[r := a];
    forall i, j | Clock(m, i) && Clock(m, j)
      ensures SatAt(m, v, i, j)
    {
      assert SatAt(e, w, i, j);
      assert i in s + {r} && j in s + {r} && SatAt(m, u, i, j);
    }
  }

  /** The first `k` reference clocks that may delay have done so. */
  ghost function AsyncOpenUp(m: Matrix, delays: seq<bool>, k: nat): (e: Matrix)
    requires k <= |delays| <= |m|
    ensures |e| == |m|
  {
    if k == 0 then m
    else
      var p := AsyncOpenUp(m, delays, k - 1);
      if delays[k - 1] then OpenReference(p, k - 1) else p
  }

  /** `w` is `v` with some of the first `k` reference clocks moved backwards, each by an amount of its own. */
  predicate Rewound(v: Valuation, w: Valuation, delays: seq<bool>, k: nat)
    requires k <= |delays| <= |v|
  {
    |w| == |v| && forall i :: 0 <= i < |v| ==> if i < k && delays[i] then w[i] <= v[i] else w[i] == v[i]
  }

  lemma {:induction false} AsyncTight(m: Matrix, delays: seq<bool>, k: nat)
    requires Tight(m) && Consistent(m) && k <= |delays| <= |m|
    ensures Tight(AsyncOpenUp(m, delays, k)) && Consistent(AsyncOpenUp(m, delays, k))
  {
    hide OpenReference, Tight, Consistent;
    if k > 0 {
      AsyncTight(m, delays, k - 1);
      OpenReferenceTight(AsyncOpenUp(m, delays, k - 1), k - 1);
    }
  }

  /** Asynchronous delay is exact: reference clocks move back independently of each other. */
  lemma {:induction false} AsyncExact(m: Matrix, delays: seq<bool>, k: nat, w: Valuation)
    requires Tight(m) && Consistent(m) && k <= |delays| <= |m| && |w| == |m|
    ensures Sat(AsyncOpenUp(m, delays, k), w) <==> exists v: Valuation :: |v| == |m| && Sat(m, v) && Rewound(v, w, delays, k)
  {
    if Sat(AsyncOpenUp(m, delays, k), w) {
      var v := AsyncBackward(m, delays, k, w);
    }
    if v: Valuation :| |v| == |m| && Sat(m, v) && Rewound(v, w, delays, k) {
      AsyncForward(m, delays, k, v, w);
    }
  }

  lemma {:induction false} AsyncForward(m: Matrix, delays: seq<bool>, k: nat, v: Valuation, w: Valuation)
    requires Tight(m) && Consistent(m) && k <= |delays| <= |m| == |v| && Sat(m, v) && Rewound(v, w, delays, k)
    ensures Sat(AsyncOpenUp(m, delays, k), w)
    decreases k
  {
    hide OpenReference, Tight, Sat;
    if k == 0 {
      assert w == v;
    } else {
      var p := AsyncOpenUp(m, delays, k - 1);
      AsyncTight(m, delays, k - 1);
      var u := w[k - 1 := v[k - 1]];
      AsyncForward(m, delays, k - 1, v, u);
      if delays[k - 1] {
        OpenReferenceForward(p, k - 1, u, w[k - 1]);
        assert u[k - 1 := w[k - 1]] == w;
      } else {
        assert u == w;
      }
    }
  }

  lemma {:induction false} AsyncBackward(m: Matrix, delays: seq<bool>, k: nat, w: Valuation) returns (v: Valuation)
    requires Tight(m) && Consistent(m) && k <= |delays| <= |m| == |w| && Sat(AsyncOpenUp(m, delays, k), w)
    ensures |v| == |m| && Sat(m, v) && Rewound(v, w, delays, k)
    decreases k
  {
    hide OpenReference, Tight, Sat;
    if k == 0 {
      v := w;
    } else {
      var p := AsyncOpenUp(m, delays, k - 1);
      AsyncTight(m, delays, k - 1);
      if delays[k - 1] {
        var a := OpenReferenceBackward(p, k - 1, w);
        v := AsyncBackward(m, delays, k - 1, w[k - 1 := a]);
      } else {
        v := AsyncBackward(m, delays, k - 1, w);
      }
    }
  }

  // ----- projection to ordinary zones -----

  /** The variable that stands for an ordinary clock; clock 0 is any reference clock. */
  function Variable(i: int, refs: nat): int {
    if i == 0 then 0 else refs + i - 1
  }

  /** The ordinary zone: each clock against its own reference clock, offset variables against each other. */
  ghost function Project(m: Matrix, refs: nat, refmap: seq<int>): (e: Matrix)
    requires RefMap(refmap, |m|, refs)
    ensures |e| == |m| - refs + 1
  {
    var dim := |m| - refs + 1;
    seq(dim, i requires 0 <= i < dim => seq(dim, j requires 0 <= j < dim =>
      if i == 0 && j == 0 then ZERO
      else if i == 0 then m[refmap[Variable(j, refs)]][Variable(j, refs)]
      else if j == 0 then m[Variable(i, refs)][refmap[Variable(i, refs)]]
      else m[Variable(i, refs)][Variable(j, refs)]))
  }

  /** With equal reference clocks the projection is a part of the matrix. */
  lemma ProjectAt(m: Matrix, refs: nat, refmap: seq<int>, i: int, j: int)
    requires RefMap(refmap, |m|, refs) && Tight(m) && Consistent(m) && InSync(m, refs)
    requires 0 <= i < |m| - refs + 1 && 0 <= j < |m| - refs + 1
    ensures Project(m, refs, refmap)[i][j] == m[Variable(i, refs)][Variable(j, refs)]
  {
    var x, y := Variable(i, refs), Variable(j, refs);
    ReferencesAlike(m, refs, refmap[y], y);
    ReferencesAlike(m, refs, refmap[x], x);
  }

  lemma ProjectTight(m: Matrix, refs: nat, refmap: seq<int>)
    requires RefMap(refmap, |m|, refs) && Tight(m) && Consistent(m) && InSync(m, refs)
    ensures Tight(Project(m, refs, refmap)) && Consistent(Project(m, refs, refmap))
  {
    hide Tight, Project, InSync;
    var e := Project(m, refs, refmap);
    forall i, k, j | Clock(e, i) && Clock(e, j) && Clock(e, k)
      ensures TightAt(e, i, k, j)
    {
      ProjectAt(m, refs, refmap, i, j);
      ProjectAt(m, refs, refmap, i, k);
      ProjectAt(m, refs, refmap, k, j);
      TightThere(m, Variable(i, refs), Variable(k, refs), Variable(j, refs));
    }
    forall i | 0 <= i < |e|
      ensures e[i][i] == ZERO
    {
      ProjectAt(m, refs, refmap, i, i);
    }
    ConsistentFrom(e);
    assert Tight(e) by { TightFrom(e); }
  }

  lemma TightThere(m: Matrix, i: int, k: int, j: int)
    requires Tight(m) && Clock(m, i) && Clock(m, k) && Clock(m, j)
    ensures TightAt(m, i, k, j)
  {}

  lemma TightFrom(m: Matrix)
    requires forall i, k, j :: Clock(m, i) && Clock(m, j) && Clock(m, k) ==> TightAt(m, i, k, j)
    ensures Tight(m)
  {}

  lemma ConsistentFrom(m: Matrix)
    requires forall i :: 0 <= i < |m| ==> m[i][i] == ZERO
    ensures Consistent(m)
  {}

  /** The values of the ordinary clocks. */
  function Values(v: Valuation, refs: nat, refmap: seq<int>): (u: Valuation)
    requires RefMap(refmap, |v|, refs)
    ensures |u| == |v| - refs + 1
  {
    seq(|v| - refs + 1, i requires 0 <= i < |v| - refs + 1 =>
      if i == 0 then 0.0 else v[Variable(i, refs)] - v[refmap[Variable(i, refs)]])
  }

  /** The projection denotes exactly the values that the clocks can have. */
  lemma ProjectExact(m: Matrix, refs: nat, refmap: seq<int>, u: Valuation)
    requires RefMap(refmap, |m|, refs) && Tight(m) && Consistent(m) && InSync(m, refs)
    ensures In(Project(m, refs, refmap), u)
       <==> exists v: Valuation :: |v| == |m| && Sat(m, v) && u == Values(v, refs, refmap)
  {
    hide Tight, Project, Values;
    if In(Project(m, refs, refmap), u) {
      var v := ProjectBackward(m, refs, refmap, u);
    }
    if v: Valuation :| |v| == |m| && Sat(m, v) && u == Values(v, refs, refmap) {
      ProjectForward(m, refs, refmap, v);
    }
  }

  lemma ProjectForward(m: Matrix, refs: nat, refmap: seq<int>, v: Valuation)
    requires RefMap(refmap, |m|, refs) && Tight(m) && Consistent(m) && InSync(m, refs) && |v| == |m| && Sat(m, v)
    ensures In(Project(m, refs, refmap), Values(v, refs, refmap))
  {
    hide Tight, Project, InSync;
    var e, u := Project(m, refs, refmap), Values(v, refs, refmap);
    InSyncEqual(m, refs, v, refs);
    forall i, j | Clock(e, i) && Clock(e, j)
      ensures SatAt(e, u, i, j)
    {
      ProjectAt(m, refs, refmap, i, j);
      assert SatAt(m, v, Variable(i, refs), Variable(j, refs));
      assert u[i] - u[j] == v[Variable(i, refs)] - v[Variable(j, refs)];
    }
  }

  lemma ProjectBackward(m: Matrix, refs: nat, refmap: seq<int>, u: Valuation) returns (v: Valuation)
    requires RefMap(refmap, |m|, refs) && Tight(m) && Consistent(m) && InSync(m, refs) && In(Project(m, refs, refmap), u)
    ensures |v| == |m| && Sat(m, v) && u == Values(v, refs, refmap)
  {
    hide Tight, Project, InSync;
    var e := Project(m, refs, refmap);
    var v0 := seq(|m|, x requires 0 <= x < |m| => if x < refs then 0.0 else u[x - refs + 1]);
    var s := set x | 0 <= x < |m| && Clock(m, x);
    forall x, y | x in s && y in s
      ensures SatAt(m, v0, x, y)
    {
      var i, j := if x < refs then 0 else x - refs + 1, if y < refs then 0 else y - refs + 1;
      assert SatAt(e, u, i, j);
      ProjectAt(m, refs, refmap, i, j);
      if x < refs {
        ReferencesAlike(m, refs, x, y);
      }
      if y < refs {
        ReferencesAlike(m, refs, y, x);
        ReferencesAlike(m, refs, y, 0);
      }
    }
    v := v0;
    forall i, j | Clock(m, i) && Clock(m, j)
      ensures SatAt(m, v, i, j)
    {
      assert i in s && j in s;
    }
    assert Values(v, refs, refmap) == u;
  }

  // ----- offset zones refine ordinary zones -----

  /** Synchronizing is possible after an asynchronous delay of a synchronized zone, and its outcome is synchronized. */
  lemma ResynchronizedExact(m: Matrix, refs: nat, delays: seq<bool>)
    requires Tight(m) && Consistent(m) && 1 <= refs == |delays| <= |m| && InSync(m, refs)
    ensures var a := AsyncOpenUp(m, delays, refs);
            && Tight(a) && Consistent(a) && CanSynchronize(a, refs)
            && Tight(Synchronized(a, refs)) && Consistent(Synchronized(a, refs)) && InSync(Synchronized(a, refs), refs)
  {
    hide Tight, Consistent, InSync, AsyncOpenUp, Synchronized, CanSynchronize, Synchronous;
    var a := AsyncOpenUp(m, delays, refs);
    AsyncTight(m, delays, refs);
    var v := Inhabited(m);
    InSyncExact(m, refs);
    assert Synchronous(v, refs);
    AsyncForward(m, delays, refs, v, v);
    SynchronizableExact(a, refs);
    SynchronizedExact(a, refs);
    InSyncExact(Synchronized(a, refs), refs);
  }

  /** Letting time pass with every reference clock on its own, and synchronizing, is letting time pass on ordinary zones:
      entry for entry the same. */
  lemma DelaySquare(m: Matrix, refs: nat, refmap: seq<int>, delays: seq<bool>)
    requires Tight(m) && Consistent(m) && RefMap(refmap, |m|, refs) && InSync(m, refs)
    requires |delays| == refs && forall r :: 0 <= r < refs ==> delays[r]
    ensures CanSynchronize(AsyncOpenUp(m, delays, refs), refs)
    ensures Project(Synchronized(AsyncOpenUp(m, delays, refs), refs), refs, refmap) == OpenUp(Project(m, refs, refmap))
  {
    hide Tight, Consistent, InSync, AsyncOpenUp, Synchronized, CanSynchronize, Project, OpenUp, Synchronous;
    var a := AsyncOpenUp(m, delays, refs);
    ResynchronizedExact(m, refs, delays);
    var s := Synchronized(a, refs);
    var p, q := Project(s, refs, refmap), OpenUp(Project(m, refs, refmap));
    ProjectTight(s, refs, refmap);
    ProjectTight(m, refs, refmap);
    OpenUpTight(Project(m, refs, refmap));
    forall u: Valuation
      ensures In(p, u) <==> In(q, u)
    {
      DelaySquareAt(m, refs, refmap, delays, u);
    }
    CanonicalForm(p, q);
  }

  lemma DelaySquareAt(m: Matrix, refs: nat, refmap: seq<int>, delays: seq<bool>, u: Valuation)
    requires Tight(m) && Consistent(m) && RefMap(refmap, |m|, refs) && InSync(m, refs)
    requires |delays| == refs && forall r :: 0 <= r < refs ==> delays[r]
    ensures In(Project(Synchronized(AsyncOpenUp(m, delays, refs), refs), refs, refmap), u)
       <==> In(OpenUp(Project(m, refs, refmap)), u)
  {
    hide Tight, Consistent, InSync, AsyncOpenUp, Synchronized, CanSynchronize, Project, OpenUp, Sat;
    var a := AsyncOpenUp(m, delays, refs);
    ResynchronizedExact(m, refs, delays);
    var s := Synchronized(a, refs);
    SynchronizedExact(a, refs);
    ProjectExact(s, refs, refmap, u);
    ProjectTight(m, refs, refmap);
    OpenUpExact(Project(m, refs, refmap), u);
    if v: Valuation :| |v| == |m| && Sat(s, v) && u == Values(v, refs, refmap) {
      var z := AsyncBackward(m, delays, refs, v);
      InSyncEqual(m, refs, z, refs);
      ProjectForward(m, refs, refmap, z);
      RewoundIsDelayed(z, v, refs, refmap);
    }
    if t: Valuation, d: real :| In(Project(m, refs, refmap), t) && d >= 0.0 && u == Delay(t, d) {
      var z := ProjectBackward(m, refs, refmap, t);
      InSyncEqual(m, refs, z, refs);
      var v := seq(|z|, x requires 0 <= x < |z| => if x < refs then z[x] - d else z[x]);
      AsyncForward(m, delays, refs, z, v);
      RewoundIsDelayed(z, v, refs, refmap);
    }
  }

  /** When equal reference clocks all move back by the same amount, all ordinary clocks advance by it. */
  lemma RewoundIsDelayed(z: Valuation, v: Valuation, refs: nat, refmap: seq<int>)
    requires RefMap(refmap, |z|, refs) && |v| == |z| && Synchronous(z, refs) && Synchronous(v, refs)
    requires forall x :: refs <= x < |z| ==> v[x] == z[x]
    ensures Values(v, refs, refmap) == Delay(Values(z, refs, refmap), z[0] - v[0])
  {
    var d := z[0] - v[0];
    var u, t := Values(v, refs, refmap), Values(z, refs, refmap);
    forall i | 0 <= i < |u|
      ensures u[i] == Delay(t, d)[i]
    {
      if i > 0 {
        var x := Variable(i, refs);
        assert v[refmap[x]] == v[0] && z[refmap[x]] == z[0];
      }
    }
  }

  /** Resetting an offset variable to its reference clock is resetting the ordinary clock to zero. */
  lemma ResetSquare(m: Matrix, refs: nat, refmap: seq<int>, x: int)
    requires Tight(m) && Consistent(m) && RefMap(refmap, |m|, refs) && InSync(m, refs) && 1 <= x < |m| - refs + 1
    ensures var e := Reset(m, Variable(x, refs), refmap[Variable(x, refs)], 0.0);
            && Tight(e) && Consistent(e) && InSync(e, refs)
            && Project(e, refs, refmap) == Reset(Project(m, refs, refmap), x, 0, 0.0)
  {
    hide Tight, Project, Reset, InSync, Consistent;
    var y := Variable(x, refs);
    var e := Reset(m, y, refmap[y], 0.0);
    ResetTight(m, y, refmap[y], 0.0);
    ResetInSync(m, refs, y, refmap[y]);
    var p, q := Project(e, refs, refmap), Reset(Project(m, refs, refmap), x, 0, 0.0);
    forall i, j | Clock(p, i) && Clock(p, j)
      ensures SameAt(p, q, i, j)
    {
      ProjectAt(e, refs, refmap, i, j);
      ResetZeroAt(m, y, refmap[y], Variable(i, refs), Variable(j, refs));
      ResetZeroAt(Project(m, refs, refmap), x, 0, i, j);
      ProjectAt(m, refs, refmap, Source(i, x, 0), Source(j, x, 0));
      ReferencesAlike(m, refs, refmap[y], Variable(j, refs));
      ReferencesAlike(m, refs, refmap[y], Variable(i, refs));
      ReferencesAlike(m, refs, refmap[y], refmap[y]);
      ReferencesAlike(m, refs, refmap[y], 0);
    }
    SameEntries(p, q);
  }

  /** The matrix after a reset denotes exactly the valuations in which `x` has taken the value of `y`. */
  lemma CopyExact(m: Matrix, x: int, y: int, w: Valuation)
    requires Clock(m, x) && Clock(m, y) && Tight(m) && Consistent(m)
    ensures |w| == |m| && Sat(Reset(m, x, y, 0.0), w) <==> exists v: Valuation :: |v| == |m| && Sat(m, v) && w == v[x := v[y]]
  {
    hide Tight, Consistent, Reset, Sat;
    if |w| == |m| && Sat(Reset(m, x, y, 0.0), w) {
      var v := ResetBackward(m, x, y, 0.0, w);
      assert w == v[x := v[y]];
    }
    if v: Valuation :| |v| == |m| && Sat(m, v) && w == v[x := v[y]] {
      ResetForward(m, x, y, 0.0, v);
      assert w == Assign(v, x, y, 0.0);
    }
  }

  lemma ResetZeroAt(m: Matrix, x: int, y: int, i: int, j: int)
    requires Clock(m, x) && Clock(m, y) && Clock(m, i) && Clock(m, j)
    ensures Reset(m, x, y, 0.0)[i][j] == m[Source(i, x, y)][Source(j, x, y)]
  {}

  lemma ResetInSync(m: Matrix, refs: nat, x: int, y: int)
    requires Clock(m, x) && Clock(m, y) && refs <= x && InSync(m, refs)
    ensures InSync(Reset(m, x, y, 0.0), refs)
  {
    hide Reset;
    forall k | 0 <= k < refs - 1
      ensures Joined(Reset(m, x, y, 0.0), k)
    {
      assert Joined(m, k);
      ResetZeroAt(m, x, y, k, k + 1);
      ResetZeroAt(m, x, y, k + 1, k);
    }
  }
}
