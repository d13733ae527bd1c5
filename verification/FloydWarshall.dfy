/** The Floyd-Warshall recurrence on matrices of bounds: what one phase keeps, what all phases
    establish, and how large an entry can become on the way. */
module FloydWarshall {
  import opened Bounds
  import opened Zones

  /** Every bound improved by the detour through `k`. */
  function Step(m: Matrix, k: int): (m': Matrix)
    requires Clock(m, k)
    ensures |m'| == |m|
  {
    seq(|m|, i requires 0 <= i < |m| => seq(|m|, j requires 0 <= j < |m| => Min(Plus(m[i][k], m[k][j]), m[i][j])))
  }

  /** The matrix before phase `k`. */
  function Phases(m: Matrix, k: nat): (m': Matrix)
    requires k <= |m|
    ensures |m'| == |m|
  {
    if k == 0 then m else Step(Phases(m, k - 1), k - 1)
  }

  predicate ConsistentThrough(m: Matrix, k: nat)
    requires k <= |m|
  {
    forall l: nat :: l <= k ==> Consistent(Phases(m, l))
  }

  /** No bound is looser than the detour through `l`. */
  ghost predicate TightVia(m: Matrix, l: int)
    requires Clock(m, l)
  {
    forall i, j :: Clock(m, i) && Clock(m, j) ==> TightAt(m, i, l, j)
  }

  // ----- one phase -----

  lemma StepSat(m: Matrix, k: int, v: Valuation)
    requires Clock(m, k)
    ensures Sat(m, v) <==> Sat(Step(m, k), v)
  {
    var m' := Step(m, k);
    if Sat(m, v) {
      forall i, j | Clock(m, i) && Clock(m, j)
        ensures SatAt(m', v, i, j)
      {
        assert SatAt(m, v, i, j) && SatAt(m, v, i, k) && SatAt(m, v, k, j);
        MeetsPlus(v[i] - v[k], m[i][k], v[k] - v[j], m[k][j]);
      }
    }
    if Sat(m', v) {
      forall i, j | Clock(m, i) && Clock(m, j)
        ensures SatAt(m, v, i, j)
      {
        assert SatAt(m', v, i, j);
      }
    }
  }

  /** Bounds among clocks `i`, `j`, `k`, `l` that are tight via `l`, with no negative loop between `k` and `l`,
      stay tight via `l` when the detour through `k` is taken into account. */
  lemma Detour(ij: Bound, il: Bound, lj: Bound, ik: Bound, kj: Bound, kl: Bound, lk: Bound)
    requires Le(ij, Plus(il, lj)) && Le(ik, Plus(il, lk)) && Le(kj, Plus(kl, lj)) && Le(ZERO, Plus(lk, kl))
    ensures Le(Min(Plus(ik, kj), ij), Plus(Min(Plus(ik, kl), il), Min(Plus(lk, kj), lj)))
  {}

  lemma StepKeepsTightVia(m: Matrix, k: int, l: int)
    requires Clock(m, k) && Clock(m, l) && Consistent(Step(m, k)) && TightVia(m, l)
    ensures TightVia(Step(m, k), l)
  {
    var m' := Step(m, k);
    forall i, j | Clock(m, i) && Clock(m, j)
      ensures TightAt(m', i, l, j)
    {
      assert TightAt(m, i, l, j) && TightAt(m, k, l, j) && TightAt(m, i, l, k);
      assert m'[l][l] == ZERO;
      Detour(m[i][j], m[i][l], m[l][j], m[i][k], m[k][j], m[k][l], m[l][k]);
    }
  }

  lemma StepPivot(m: Matrix, k: int, i: int)
    requires Clock(m, k) && Clock(m, i) && m[k][k] == ZERO
    ensures Step(m, k)[k] == m[k] && Step(m, k)[i][k] == m[i][k]
  {}

  lemma StepMakesTightVia(m: Matrix, k: int)
    requires Clock(m, k) && Consistent(m)
    ensures TightVia(Step(m, k), k)
  {
    var m' := Step(m, k);
    forall i, j | Clock(m, i) && Clock(m, j)
      ensures TightAt(m', i, k, j)
    {
      StepPivot(m, k, i);
      StepPivot(m, k, j);
    }
  }

  // ----- all phases -----

  lemma {:induction false} PhasesSat(m: Matrix, k: nat, v: Valuation)
    requires k <= |m|
    ensures Sat(m, v) <==> Sat(Phases(m, k), v)
  {
    hide Sat;
    if k > 0 {
      PhasesSat(m, k - 1, v);
      StepSat(Phases(m, k - 1), k - 1, v);
    }
  }

  lemma {:induction false} PhasesTightVia(m: Matrix, k: nat, l: nat)
    requires l < k <= |m| && ConsistentThrough(m, k)
    ensures TightVia(Phases(m, k), l)
  {
    hide Step;
    var p := Phases(m, k - 1);
    assert Consistent(p) && Consistent(Phases(m, k));
    if l < k - 1 {
      PhasesTightVia(m, k - 1, l);
      StepKeepsTightVia(p, k - 1, l);
    } else {
      StepMakesTightVia(p, k - 1);
    }
  }

  /** Floyd-Warshall: if no phase makes a diagonal entry negative, the outcome is tight, consistent and denotes the same zone. */
  lemma PhasesClose(m: Matrix)
    requires ConsistentThrough(m, |m|)
    ensures Tight(Phases(m, |m|)) && Consistent(Phases(m, |m|)) && Equivalent(m, Phases(m, |m|))
  {
    var p := Phases(m, |m|);
    forall i, k, j | Clock(p, i) && Clock(p, j) && Clock(p, k)
      ensures TightAt(p, i, k, j)
    {
      PhasesTightVia(m, |m|, k);
    }
    forall v: Valuation
      ensures Sat(m, v) <==> Sat(p, v)
    {
      PhasesSat(m, |m|, v);
    }
  }

  /** A negative diagonal entry in any phase means that nothing satisfies the matrix. */
  lemma NegativeDiagonal(m: Matrix, k: nat, i: int)
    requires k <= |m| && Clock(m, i) && Lt(Phases(m, k)[i][i], ZERO)
    ensures Unsatisfiable(m)
  {
    forall v: Valuation
      ensures !Sat(m, v)
    {
      assert |v| == |m| ==> !SatAt(Phases(m, k), v, i, i);
      PhasesSat(m, k, v);
    }
  }

  /** The diagonal stays clean exactly when the matrix has a solution. */
  lemma PhasesDecide(m: Matrix)
    requires Consistent(m)
    ensures ConsistentThrough(m, |m|) <==> !Unsatisfiable(m)
  {
    if ConsistentThrough(m, |m|) {
      PhasesClose(m);
      var v := Inhabited(Phases(m, |m|));
      assert Sat(m, v);
    } else {
      var l: nat :| l <= |m| && !Consistent(Phases(m, l));
      var i :| 0 <= i < |m| && Phases(m, l)[i][i] != ZERO;
      PhasesShrink(m, l, i, i);
      NegativeDiagonal(m, l, i);
    }
  }

  // ----- magnitude of the entries -----

  ghost predicate AllBelow(mid: seq<int>, k: int) {
    forall x :: 0 <= x < |mid| ==> 0 <= mid[x] < k
  }

  /** The weight of the walk from `i` through the clocks of `mid` to `j`. */
  ghost function Weight(m: Matrix, i: int, mid: seq<int>, j: int): Bound
    requires Clock(m, i) && Clock(m, j) && AllBelow(mid, |m|)
    decreases |mid|
  {
    if mid == [] then m[i][j] else Plus(m[i][mid[0]], Weight(m, mid[0], mid[1..], j))
  }

  /** `mid` are distinct clocks below `k` other than the two end points. */
  ghost predicate Simple(m: Matrix, i: int, mid: seq<int>, j: int, k: nat) {
    && Clock(m, i) && Clock(m, j) && k <= |m|
    && AllBelow(mid, k)
    && i !in mid && j !in mid
    && forall p, q :: 0 <= p < q < |mid| ==> mid[p] != mid[q]
  }

  lemma {:induction false} WeightConcat(m: Matrix, i: int, p: seq<int>, k: int, q: seq<int>, j: int)
    requires Clock(m, i) && Clock(m, j) && Clock(m, k) && AllBelow(p, |m|) && AllBelow(q, |m|)
    ensures AllBelow(p + [k] + q, |m|)
    ensures Weight(m, i, p + [k] + q, j) == Plus(Weight(m, i, p, k), Weight(m, k, q, j))
    decreases |p|
  {
    if p == [] {
      assert p + [k] + q == [k] + q;
    } else {
      assert (p + [k] + q)[1..] == p[1..] + [k] + q;
      WeightConcat(m, p[0], p[1..], k, q, j);
      PlusAssoc(m[i][p[0]], Weight(m, p[0], p[1..], k), Weight(m, k, q, j));
    }
  }

  lemma {:induction false} PhasesShrink(m: Matrix, k: nat, i: int, j: int)
    requires k <= |m| && Clock(m, i) && Clock(m, j)
    ensures Le(Phases(m, k)[i][j], m[i][j])
  {
    if k > 0 {
      PhasesShrink(m, k - 1, i, j);
    }
  }

  /** Before phase `k` no walk through clocks below `k` is lighter than the direct bound. */
  lemma {:induction false} WalkNotLighter(m: Matrix, k: nat, i: int, mid: seq<int>, j: int)
    requires k <= |m| && ConsistentThrough(m, k) && Clock(m, i) && Clock(m, j)
    requires AllBelow(mid, k)
    ensures Le(Phases(m, k)[i][j], Weight(m, i, mid, j))
    decreases |mid|
  {
    hide Phases, ConsistentThrough;
    PhasesShrink(m, k, i, j);
    if mid != [] {
      var l := mid[0];
      PhasesShrink(m, k, i, l);
      WalkNotLighter(m, k, l, mid[1..], j);
      PhasesTightVia(m, k, l);
      assert TightAt(Phases(m, k), i, l, j);
      PlusMono(Phases(m, k)[i][l], m[i][l], Phases(m, k)[l][j], Weight(m, l, mid[1..], j));
    }
  }

  /** ... even when it is cut at one of its clocks. */
  lemma WalkNotLighterVia(m: Matrix, k: nat, i: int, mid: seq<int>, j: int, l: int)
    requires k <= |m| && ConsistentThrough(m, k) && Clock(m, i) && Clock(m, j)
    requires AllBelow(mid, k)
    requires l in mid
    ensures Le(Plus(Phases(m, k)[i][l], Phases(m, k)[l][j]), Weight(m, i, mid, j))
  {
    var x :| 0 <= x < |mid| && mid[x] == l;
    assert mid == mid[..x] + [l] + mid[x + 1..];
    WeightConcat(m, i, mid[..x], l, mid[x + 1..], j);
    WalkNotLighter(m, k, i, mid[..x], l);
    WalkNotLighter(m, k, l, mid[x + 1..], j);
  }

  /** Two consecutive simple walks that meet again are no improvement, since the loop between them is not negative. */
  lemma LoopIsNoGain(m: Matrix, k: nat, i: int, j: int, l: int)
    requires k < |m| && ConsistentThrough(m, k + 1) && Clock(m, i) && Clock(m, j) && 0 <= l < k
    ensures var p := Phases(m, k);
            Le(p[i][j], Plus(Plus(p[i][l], p[l][k]), Plus(p[k][l], p[l][j])))
  {
    var p := Phases(m, k);
    assert Consistent(Phases(m, k + 1));
    assert Phases(m, k + 1)[l][l] == ZERO;
    assert Le(ZERO, Plus(p[l][k], p[k][l]));
    assert ConsistentThrough(m, k);
    PhasesTightVia(m, k, l);
    assert TightAt(p, i, l, j);
  }

  lemma PhaseEntry(m: Matrix, k: nat, i: int, j: int)
    requires k < |m| && Clock(m, i) && Clock(m, j)
    ensures var p := Phases(m, k);
            Phases(m, k + 1)[i][j] == Min(Plus(p[i][k], p[k][j]), p[i][j])
  {}

  /** Every entry is the weight of a simple walk of the original matrix. */
  lemma {:induction false} EntryIsSimpleWalk(m: Matrix, k: nat, i: int, j: int) returns (mid: seq<int>)
    requires k <= |m| && ConsistentThrough(m, k) && Clock(m, i) && Clock(m, j) && i != j
    ensures Simple(m, i, mid, j, k) && Weight(m, i, mid, j) == Phases(m, k)[i][j]
  {
    if k == 0 {
      return [];
    }
    hide Phases;
    var h := k - 1;
    var p := Phases(m, h);
    assert Consistent(p);
    PhaseEntry(m, h, i, j);
    if Phases(m, k)[i][j] == p[i][j] {
      mid := EntryIsSimpleWalk(m, h, i, j);
    } else {
      assert i != h && j != h;
      var u := EntryIsSimpleWalk(m, h, i, h);
      var w := EntryIsSimpleWalk(m, h, h, j);
      mid := Join(m, h, i, j, u, w);
    }
  }

  /** A detour that pays off joins two simple walks into one. */
  lemma Join(m: Matrix, h: nat, i: int, j: int, u: seq<int>, w: seq<int>) returns (mid: seq<int>)
    requires h < |m| && ConsistentThrough(m, h + 1) && i != j && i != h && j != h
    requires Simple(m, i, u, h, h) && Weight(m, i, u, h) == Phases(m, h)[i][h]
    requires Simple(m, h, w, j, h) && Weight(m, h, w, j) == Phases(m, h)[h][j]
    requires Lt(Plus(Phases(m, h)[i][h], Phases(m, h)[h][j]), Phases(m, h)[i][j])
    ensures Simple(m, i, mid, j, h + 1)
    ensures Weight(m, i, mid, j) == Plus(Phases(m, h)[i][h], Phases(m, h)[h][j])
  {
    hide Phases, ConsistentThrough;
    NoRepetition(m, h, i, j, u, w);
    WeightConcat(m, i, u, h, w, j);
    mid := u + [h] + w;
    forall p, q | 0 <= p < q < |mid|
      ensures mid[p] != mid[q]
    {
      assert p < |u| ==> mid[p] in u;
      assert q > |u| ==> mid[q] in w;
    }
  }

  lemma NoRepetition(m: Matrix, h: nat, i: int, j: int, u: seq<int>, w: seq<int>)
    requires h < |m| && ConsistentThrough(m, h + 1) && Clock(m, i) && Clock(m, j) && i != j
    requires Simple(m, i, u, h, h) && Weight(m, i, u, h) == Phases(m, h)[i][h]
    requires Simple(m, h, w, j, h) && Weight(m, h, w, j) == Phases(m, h)[h][j]
    requires Lt(Plus(Phases(m, h)[i][h], Phases(m, h)[h][j]), Phases(m, h)[i][j])
    ensures j !in u && i !in w && forall l :: l in u ==> l !in w
  {
    var p := Phases(m, h);
    assert ConsistentThrough(m, h);
    assert Consistent(p);
    if j in u {
      WalkNotLighterVia(m, h, i, u, h, j);
      LoopIsNoGain(m, h, i, j, j);
    }
    if i in w {
      WalkNotLighterVia(m, h, h, w, j, i);
      LoopIsNoGain(m, h, i, j, i);
    }
    if l :| l in u && l in w {
      WalkNotLighterVia(m, h, i, u, h, l);
      WalkNotLighterVia(m, h, h, w, j, l);
      LoopIsNoGain(m, h, i, j, l);
    }
  }

  function Times(k: nat, b: real): real {
    k as real * b
  }

  /** Every finite entry has magnitude at most `b`. */
  ghost predicate Within(m: Matrix, b: real) {
    b >= 0.0 && forall i, j :: Clock(m, i) && Clock(m, j) ==> SmallAt(m, i, j, b)
  }

  ghost predicate SmallAt(m: Matrix, i: int, j: int, b: real)
    requires Clock(m, i) && Clock(m, j)
  {
    Small(m[i][j], b)
  }

  predicate Small(a: Bound, b: real) {
    a.Fin? ==> -b <= a.value <= b
  }

  lemma {:induction false} WeightSmall(m: Matrix, i: int, mid: seq<int>, j: int, b: real)
    requires Clock(m, i) && Clock(m, j) && AllBelow(mid, |m|) && Within(m, b)
    ensures Small(Weight(m, i, mid, j), Times(|mid| + 1, b))
    decreases |mid|
  {
    if mid == [] {
      assert SmallAt(m, i, j, b);
    } else {
      WeightSmall(m, mid[0], mid[1..], j, b);
      assert SmallAt(m, i, mid[0], b);
      assert Times(|mid| + 1, b) == Times(|mid|, b) + b;
    }
  }

  ghost function Upto(n: nat): (r: set<int>)
    ensures forall l :: l in r <==> 0 <= l < n
    ensures |r| == n
  {
    if n == 0 then {} else Upto(n - 1) + {n - 1}
  }

  /** Distinct clocks other than `i` and `j` number at most `n - 2`. */
  lemma {:induction false} DistinctBelow(s: seq<int>, n: nat, out: set<int>)
    requires AllBelow(s, n) && out <= Upto(n)
    requires forall p, q :: 0 <= p < q < |s| ==> s[p] != s[q]
    requires forall l :: l in s ==> l !in out
    ensures |s| + |out| <= n
    decreases |s|
  {
    if s == [] {
      assert out + (Upto(n) - out) == Upto(n);
    } else {
      assert s[0] !in s[1..] && s[0] in s;
      DistinctBelow(s[1..], n, out + {s[0]});
    }
  }

  /** As long as no negative diagonal has been seen, an entry is at most `dim - 1` times as large as the original ones. */
  lemma PhasesWithin(m: Matrix, k: nat, b: real)
    requires k <= |m| && ConsistentThrough(m, k) && Within(m, b)
    ensures Within(Phases(m, k), Times(|m| - 1, b))
  {
    hide Phases;
    var p := Phases(m, k);
    assert Consistent(p);
    assert Times(|m| - 1, b) >= 0.0;
    forall i, j | Clock(p, i) && Clock(p, j)
      ensures SmallAt(p, i, j, Times(|m| - 1, b))
    {
      if i != j {
        EntrySmall(m, k, i, j, b);
      }
    }
  }

  lemma EntrySmall(m: Matrix, k: nat, i: int, j: int, b: real)
    requires k <= |m| && ConsistentThrough(m, k) && Within(m, b) && Clock(m, i) && Clock(m, j) && i != j
    ensures Small(Phases(m, k)[i][j], Times(|m| - 1, b))
  {
    hide Phases, ConsistentThrough, Times;
    var mid := EntryIsSimpleWalk(m, k, i, j);
    WeightSmall(m, i, mid, j, b);
    DistinctBelow(mid, |m|, {i, j});
    assert |{i, j}| == 2;
    Scale(|mid| + 1, |m| - 1, b);
  }

  lemma Scale(a: nat, c: nat, b: real)
    requires a <= c && b >= 0.0
    ensures Times(a, b) <= Times(c, b)
  {}
}
