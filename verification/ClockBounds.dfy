/** Systems of inequalities between clock bounds, and their least solutions, read off a tight matrix.

    Variable 0 is the constant zero; the others are the bounds of the clocks in the locations. A variable without any
    lower limit has no bound at all, which counts as minus infinity. */
module ClockBounds {
  import opened Bounds
  import opened Zones
  import opened FloydWarshall
  import opened ZoneOps

  /** `i - j <= c` */
  datatype Inequality = Inequality(i: int, j: int, c: int)

  /** A bound is at least a constant, or at most another bound plus a constant that is not negative. */
  predicate Allowed(q: Inequality, n: int) {
    1 <= q.j < n && (q.i == 0 || (1 <= q.i < n && q.c >= 0))
  }

  predicate AllAllowed(sys: set<Inequality>, n: int) {
    forall q :: q in sys ==> Allowed(q, n)
  }

  predicate Respects(q: Inequality, v: Valuation)
    requires Allowed(q, |v|)
  {
    v[q.i] - v[q.j] <= q.c as real
  }

  predicate RespectsAll(sys: set<Inequality>, v: Valuation)
    requires AllAllowed(sys, |v|)
  {
    forall q :: q in sys ==> Respects(q, v)
  }

  // ----- matrices that describe such systems -----

  ghost predicate Describes(m: Matrix, sys: set<Inequality>) {
    AllAllowed(sys, |m|) && forall v: Valuation :: |v| == |m| ==> (Sat(m, v) <==> RespectsAll(sys, v))
  }

  /** Nothing limits a bound from above, differences of bounds are at least zero, and no entry is strict. */
  ghost predicate UpwardAt(m: Matrix, i: int, j: int)
    requires Clock(m, i) && Clock(m, j)
  {
    (m[i][j].Fin? ==> m[i][j].le) && (i >= 1 ==> if j == 0 then m[i][j].Inf? else Le(ZERO, m[i][j]))
  }

  ghost predicate Upward(m: Matrix) {
    forall i, j :: Clock(m, i) && Clock(m, j) ==> UpwardAt(m, i, j)
  }

  ghost predicate Solved(m: Matrix, sys: set<Inequality>) {
    Tight(m) && Consistent(m) && Upward(m) && Describes(m, sys)
  }

  function BoundOfInequality(q: Inequality): Bound {
    Fin(q.c as real, true)
  }

  lemma EmptySystem(m: Matrix)
    requires forall i, j :: Clock(m, i) && Clock(m, j) ==> m[i][j] == if i == j then ZERO else Inf
    ensures Solved(m, {})
  {
    forall i | 0 <= i < |m|
      ensures m[i][i] == ZERO
    {
      assert Clock(m, i);
    }
    forall v: Valuation | |v| == |m|
      ensures Sat(m, v)
    {
      forall i, j | Clock(m, i) && Clock(m, j)
        ensures SatAt(m, v, i, j)
      {
        assert m[i][j] == if i == j then ZERO else Inf;
      }
    }
  }

  /** An allowed inequality never empties the system. */
  lemma Feasible(m: Matrix, sys: set<Inequality>, q: Inequality)
    requires Solved(m, sys) && Allowed(q, |m|)
    ensures Le(ZERO, Plus(BoundOfInequality(q), m[q.j][q.i]))
  {
    assert UpwardAt(m, q.j, q.i);
  }

  lemma Imposed(m: Matrix, sys: set<Inequality>, q: Inequality)
    requires Solved(m, sys) && Allowed(q, |m|)
    ensures Solved(Squeeze(m, q.i, q.j, BoundOfInequality(q)), sys + {q})
  {
    hide Squeeze, Tight, Upward;
    var b := BoundOfInequality(q);
    var e := Squeeze(m, q.i, q.j, b);
    Feasible(m, sys, q);
    SqueezeTight(m, q.i, q.j, b);
    UpwardKept(m, q);
    forall v: Valuation | |v| == |e|
      ensures Sat(e, v) <==> RespectsAll(sys + {q}, v)
    {
      SqueezeSat(m, q.i, q.j, b, v);
      assert Sat(m, v) <==> RespectsAll(sys, v);
      assert Respects(q, v) <==> Meets(v[q.i] - v[q.j], b);
    }
  }

  lemma UpwardKept(m: Matrix, q: Inequality)
    requires Upward(m) && Consistent(m) && Allowed(q, |m|)
    ensures Upward(Squeeze(m, q.i, q.j, BoundOfInequality(q)))
  {
    var e := Squeeze(m, q.i, q.j, BoundOfInequality(q));
    forall i, j | Clock(e, i) && Clock(e, j)
      ensures UpwardAt(e, i, j)
    {
      assert UpwardAt(m, i, q.i) && UpwardAt(m, q.j, j) && UpwardAt(m, i, j);
    }
  }

  /** The matrix depends on the inequalities alone, not on the order in which they have been imposed. */
  lemma OrderIrrelevant(m: Matrix, m': Matrix, sys: set<Inequality>)
    requires Solved(m, sys) && Solved(m', sys) && |m| == |m'|
    ensures m == m'
  {
    hide Tight, Upward;
    forall v: Valuation
      ensures In(m, v) <==> In(m', v)
    {
      if |v| == |m| {
        assert Sat(m, v) <==> RespectsAll(sys, v);
        assert Sat(m', v) <==> RespectsAll(sys, v);
      }
    }
    CanonicalForm(m, m');
  }

  // ----- solutions -----

  datatype Level = NoBound | At(value: real)

  predicate AtMost(a: Level, b: Level) {
    a.NoBound? || (b.At? && a.value <= b.value)
  }

  function Raised(a: Level, c: int): Level {
    if a.NoBound? then NoBound else At(a.value + c as real)
  }

  /** An assignment of levels to the variables satisfies an inequality. */
  predicate Satisfies(s: seq<Level>, q: Inequality)
    requires Allowed(q, |s|)
  {
    if q.i == 0 then AtMost(At(-(q.c as real)), s[q.j]) else AtMost(s[q.i], Raised(s[q.j], q.c))
  }

  predicate SolvesAll(s: seq<Level>, sys: set<Inequality>)
    requires AllAllowed(sys, |s|)
  {
    forall q :: q in sys ==> Satisfies(s, q)
  }

  function LevelOf(b: Bound): Level {
    if b.Inf? then NoBound else At(-b.value)
  }

  /** The first row of the matrix, negated. */
  ghost function Levels(m: Matrix): (s: seq<Level>)
    ensures |s| == |m|
  {
    seq(|m|, k requires 0 <= k < |m| => LevelOf(m[0][k]))
  }

  lemma EntryImplied(m: Matrix, sys: set<Inequality>, q: Inequality)
    requires Solved(m, sys) && q in sys
    ensures Allowed(q, |m|)
    ensures q.i == q.j || Le(m[q.i][q.j], BoundOfInequality(q))
  {
    hide Upward;
    assert Allowed(q, |m|);
    if q.i != q.j {
      assert TightAt(m, q.i, q.j, q.i);
      var b := m[q.i][q.j];
      if !Le(b, BoundOfInequality(q)) {
        // a difference that the matrix allows and the inequality does not
        var d := Between(Fin(-(q.c as real), false), b);
        var d' := Between(m[q.j][q.i], b);
        var e := if d < d' then d' else d;
        assert TightAt(m, q.j, q.i, q.j);
        var v := Attained(m, q.i, q.j, e);
      }
    }
  }

  /** The levels satisfy every inequality. */
  lemma LevelsSolve(m: Matrix, sys: set<Inequality>)
    requires Solved(m, sys)
    ensures SolvesAll(Levels(m), sys)
  {
    hide Describes, Upward;
    assert AllAllowed(sys, |m|) by { AllowedAll(m, sys); }
    forall q | q in sys
      ensures Satisfies(Levels(m), q)
    {
      EntryImplied(m, sys, q);
      assert TightAt(m, 0, q.i, q.j);
      NotStrict(m, sys, q.j);
      NotStrict(m, sys, q.i);
    }
  }

  lemma AllowedAll(m: Matrix, sys: set<Inequality>)
    requires Solved(m, sys)
    ensures AllAllowed(sys, |m|)
  {}

  lemma NotStrict(m: Matrix, sys: set<Inequality>, k: int)
    requires Solved(m, sys) && Clock(m, k)
    ensures m[0][k].Fin? ==> m[0][k].le
  {
    assert UpwardAt(m, 0, k);
  }

  /** A number below every level and not above zero. */
  function Floor(s: seq<Level>): (f: real)
    ensures f <= 0.0 && forall k :: 0 <= k < |s| && s[k].At? ==> f <= s[k].value
    decreases |s|
  {
    if s == [] then 0.0
    else
      var f := Floor(s[..|s| - 1]);
      var l := s[|s| - 1];
      if l.At? && l.value < f then l.value else f
  }

  /** A solution as a valuation: variables without a bound lie far down. */
  function Sunk(s: seq<Level>, f: real): (v: Valuation)
    ensures |v| == |s|
  {
    seq(|s|, k requires 0 <= k < |s| => if k == 0 then 0.0 else if s[k].At? then s[k].value else f)
  }

  lemma SunkRespects(s: seq<Level>, sys: set<Inequality>, f: real)
    requires |s| >= 1 && AllAllowed(sys, |s|) && SolvesAll(s, sys) && f <= Floor(s)
    ensures RespectsAll(sys, Sunk(s, f))
  {
    forall q | q in sys
      ensures Respects(q, Sunk(s, f))
    {
      assert Allowed(q, |s|) && Satisfies(s, q);
    }
  }

  /** ... and no other solution is lower anywhere. */
  lemma LevelsLeast(m: Matrix, sys: set<Inequality>, s: seq<Level>, k: int)
    requires Solved(m, sys) && |s| == |m| && AllAllowed(sys, |m|) && SolvesAll(s, sys) && 1 <= k < |m|
    ensures AtMost(Levels(m)[k], s[k])
  {
    hide Tight, Consistent, Upward;
    if m[0][k].Fin? {
      var f := if -m[0][k].value <= Floor(s) then -m[0][k].value - 1.0 else Floor(s);
      var v := Sunk(s, f);
      SunkRespects(s, sys, f);
      assert Sat(m, v);
      assert SatAt(m, v, 0, k);
    }
  }

  // ----- how large the entries can get -----

  /** No constant of the system exceeds `c` in magnitude. */
  predicate Moderate(sys: set<Inequality>, c: nat) {
    forall q :: q in sys ==> 0 <= c + q.c && q.c <= c
  }

  function Clamp(b: Bound, c: real): Bound {
    if b.Inf? || b.value > c then Inf else if b.value < -c then Fin(-c, true) else b
  }

  /** The entries within `c`, the larger ones dropped and the smaller ones weakened to `-c`. */
  ghost function Clamped(m: Matrix, c: real): (e: Matrix)
    ensures |e| == |m|
  {
    seq(|m|, i requires 0 <= i < |m| => seq(|m|, j requires 0 <= j < |m| => if i == j then ZERO else Clamp(m[i][j], c)))
  }

  lemma ClampedEquivalent(m: Matrix, sys: set<Inequality>, c: nat)
    requires Solved(m, sys) && Moderate(sys, c)
    ensures Equivalent(Clamped(m, c as real), m) && Within(Clamped(m, c as real), c as real)
  {
    hide Upward, Tight;
    var r := c as real;
    var e := Clamped(m, r);
    forall i, j | Clock(m, i) && Clock(m, j)
      ensures LeAt(m, e, i, j) && SmallAt(e, i, j, r)
    {}
    EntrywiseIncludes(m, e);
    forall v: Valuation | Sat(e, v)
      ensures Sat(m, v)
    {
      forall q | q in sys
        ensures Respects(q, v)
      {
        assert Allowed(q, |m|);
        EntryImplied(m, sys, q);
        assert SatAt(e, v, q.i, q.j);
      }
      assert RespectsAll(sys, v);
    }
  }

  /** The entries of the matrix are at most `dim - 1` times the largest constant, however the system came about. */
  lemma SolvedWithin(m: Matrix, sys: set<Inequality>, c: nat)
    requires Solved(m, sys) && Moderate(sys, c)
    ensures Within(m, Times(|m| - 1, c as real))
  {
    hide Times, Phases, Describes, Upward, Clamped, ConsistentThrough;
    var r := c as real;
    var e := Clamped(m, r);
    ClampedEquivalent(m, sys, c);
    ClampedConsistent(m, r);
    var v := Inhabited(m);
    PhasesDecide(e);
    PhasesClose(e);
    PhasesWithin(e, |e|, r);
    var p := Phases(e, |e|);
    forall w: Valuation
      ensures Sat(p, w) <==> Sat(m, w)
    {
      PhasesSat(e, |e|, w);
    }
    CanonicalForm(m, p);
  }

  lemma ClampedConsistent(m: Matrix, c: real)
    ensures Consistent(Clamped(m, c))
  {}
}
