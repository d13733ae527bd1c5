/** The solver for clock bounds: inequalities are imposed one by one on two tight matrices. */
module Solver {
  import opened Bounds
  import opened Zones
  import opened Encoding
  import opened FloydWarshall
  import opened ZoneOps
  import opened Dbm
  import opened ClockBounds

  /** No bound at all, as the program stores it. */
  const NO_BOUND: int := -INF_VALUE

  /** The variable of clock `x` in location `l`; clock 0 has no variables of its own. */
  function Index(clocks: nat, l: nat, x: nat): nat
    requires clocks >= 1
  {
    Offset(clocks, l) + x
  }

  function Offset(clocks: nat, l: nat): nat
    requires clocks >= 1
  {
    l * (clocks - 1)
  }

  function Dimension(clocks: nat, locs: nat): nat
    requires clocks >= 1
  {
    1 + Offset(clocks, locs)
  }

  lemma {:induction false} OffsetMonotone(clocks: nat, l: nat, l': nat)
    requires clocks >= 1 && l < l'
    ensures Offset(clocks, l) + (clocks - 1) <= Offset(clocks, l')
    decreases l'
  {
    var k := clocks - 1;
    assert l' * k == (l' - 1) * k + k;
    if l < l' - 1 {
      OffsetMonotone(clocks, l, l' - 1);
    }
  }

  /** Different clocks in different locations have different variables, none of them the constant zero. */
  lemma IndexExact(clocks: nat, locs: nat, l: nat, x: nat, l': nat, x': nat)
    requires l < locs && l' < locs && 1 <= x < clocks && 1 <= x' < clocks
    ensures 1 <= Index(clocks, l, x) < Dimension(clocks, locs)
    ensures Index(clocks, l, x) == Index(clocks, l', x') <==> l == l' && x == x'
  {
    hide Offset;
    OffsetMonotone(clocks, l, locs);
    if l < l' {
      OffsetMonotone(clocks, l, l');
    } else if l' < l {
      OffsetMonotone(clocks, l', l);
    }
  }

  /** Not so for the clock zero: in every location but the first, it would share the variable of the last clock of the location
      before. */
  lemma ClockZeroCollides(clocks: nat, l: nat)
    requires clocks >= 2 && l >= 1
    ensures Index(clocks, l, 0) == Index(clocks, l - 1, clocks - 1)
  {}

  /** What the assertions of the solver admit stays inside the matrix, clock zero included. */
  lemma IndexInside(clocks: nat, locs: nat, l: nat, x: nat)
    requires l < locs && x < clocks
    ensures Index(clocks, l, x) < Dimension(clocks, locs)
  {
    OffsetMonotone(clocks, l, locs);
  }

  /** The place of clock `x` in location `l` is not that of the constant zero. */
  predicate HasVariable(clocks: nat, l: nat, x: nat) {
    x < clocks && Index(clocks, l, x) >= 1
  }

  /** Only for clock zero, in the first location, or when there is no other clock, it is. */
  lemma WithoutVariable(clocks: nat, l: nat, x: nat)
    requires x < clocks
    ensures !HasVariable(clocks, l, x) <==> x == 0 && (l == 0 || clocks == 1)
  {
    if l >= 1 && clocks >= 2 {
      OffsetMonotone(clocks, 0, l);
    }
  }

  /** How a level is reported. */
  predicate Reports(b: int, l: Level) {
    if l.NoBound? then b == NO_BOUND else b != NO_BOUND && b as real == l.value
  }

  /** With constants up to `c` there is room for all sums. */
  predicate Spacious(dim: nat, c: nat) {
    dim >= 1 && 5.0 * Times(dim - 1, c as real) <= MAX_VALUE as real
  }

  /** A sum was out of range, which does not happen when there is room. */
  ghost predicate Overflows(dim: nat, sys: set<Inequality>) {
    forall c: nat :: Moderate(sys, c) ==> !Spacious(dim, c)
  }

  lemma OverflowsMore(dim: nat, sys: set<Inequality>, sys': set<Inequality>)
    requires Overflows(dim, sys) && sys <= sys'
    ensures Overflows(dim, sys')
  {
    hide Spacious;
    forall c: nat | Moderate(sys', c)
      ensures !Spacious(dim, c)
    {
      assert Moderate(sys, c);
    }
  }

  lemma SpaciousIsRoomy(m: Matrix, sys: set<Inequality>, q: Inequality, c: nat)
    requires Solved(m, sys) && Allowed(q, |m|) && Moderate(sys + {q}, c) && Spacious(|m|, c)
    ensures Encoding.InRange(q.c) && Roomy(m, BoundOfInequality(q), Times(|m| - 1, c as real))
  {
    hide Within, Solved;
    assert Moderate(sys, c);
    SolvedWithin(m, sys, c);
    assert q in sys + {q};
    var k := |m| - 1;
    assert k >= 1;
    Scale(1, k, c as real);
    assert Times(1, c as real) == c as real;
  }

  // ----- what an inequality asks of levels -----

  ghost predicate SolvedBy(s: seq<Level>, sys: set<Inequality>) {
    AllAllowed(sys, |s|) && SolvesAll(s, sys)
  }

  lemma OneMore(s: seq<Level>, sys: set<Inequality>, q: Inequality)
    requires Allowed(q, |s|)
    ensures SolvedBy(s, sys + {q}) <==> SolvedBy(s, sys) && Satisfies(s, q)
  {
    hide Satisfies, Allowed;
    if SolvedBy(s, sys + {q}) {
      assert q in sys + {q};
      forall p | p in sys ensures Allowed(p, |s|) && Satisfies(s, p) {
        assert p in sys + {q};
      }
    }
  }

  lemma ManyMore(s: seq<Level>, sys: set<Inequality>, more: set<Inequality>)
    requires AllAllowed(more, |s|)
    ensures SolvedBy(s, sys + more) <==> SolvedBy(s, sys) && SolvesAll(s, more)
  {
    hide Satisfies, Allowed;
    if SolvedBy(s, sys + more) {
      forall p | p in sys ensures Allowed(p, |s|) && Satisfies(s, p) {
        assert p in sys + more;
      }
      forall p | p in more ensures Satisfies(s, p) {
        assert p in sys + more;
      }
    }
  }

  class ClockBoundSolver {
    const locs: nat
    const clocks: nat
    const pid: seq<int>
    const lower: array2<Db>
    const upper: array2<Db>
    var hasSolution: bool
    /** The inequalities imposed so far on the lower and on the upper bounds. */
    ghost var lowerSystem: set<Inequality>
    ghost var upperSystem: set<Inequality>

    ghost predicate Shaped() {
      && clocks >= 1 && |pid| == locs && lower != upper
      && Shape(lower) && Shape(upper) && lower.Length0 == upper.Length0 == Dimension(clocks, locs)
    }

    /** Both systems are solved, and they have solutions. */
    ghost predicate Valid()
      reads this, lower, upper
    {
      Shaped() && hasSolution && Solved(View(lower), lowerSystem) && Solved(View(upper), upperSystem)
    }

    constructor (locs: nat, clocks: nat, pid: seq<int>)
      requires clocks >= 1 && |pid| == locs
      ensures Valid() && fresh(lower) && fresh(upper)
      ensures this.locs == locs && this.clocks == clocks && this.pid == pid && lowerSystem == {} && upperSystem == {}
    {
      hide Solved, Index;
      this.locs, this.clocks, this.pid := locs, clocks, pid;
      var n := Dimension(clocks, locs);
      lower := new Db[n, n];
      upper := new Db[n, n];
      hasSolution := true;
      lowerSystem, upperSystem := {}, {};
      new;
      Clear();
    }

    /** Back to the systems without any inequality. */
    method Clear()
      requires Shaped()
      modifies this, lower, upper
      ensures Valid() && lowerSystem == {} && upperSystem == {}
    {
      hide Solved;
      Reset(lower);
      Reset(upper);
      hasSolution := true;
      lowerSystem, upperSystem := {}, {};
    }

    static method Reset(a: array2<Db>)
      requires Shape(a)
      modifies a
      ensures Solved(View(a), {})
    {
      hide Solved;
      var n := a.Length0;
      for x := 0 to n
        invariant forall p, q {:trigger a[p, q]} :: 0 <= p < x && 0 <= q < n ==> a[p, q] == if p == q then LE_ZERO else LT_INFINITY
      {
        for y := 0 to n
          invariant forall p, q {:trigger a[p, q]} :: 0 <= p < x && 0 <= q < n ==> a[p, q] == if p == q then LE_ZERO else LT_INFINITY
          invariant forall q {:trigger a[x, q]} :: 0 <= q < y ==> a[x, q] == LT_INFINITY
        {
          a[x, y] := LT_INFINITY;
        }
        a[x, x] := LE_ZERO;
      }
      EmptySystem(View(a));
    }

    /** Imposes one inequality on one system. It has solutions afterwards as well; only an unrepresentable sum can go wrong. */
    static method Impose(a: array2<Db>, i: nat, j: nat, c: int, ghost sys: set<Inequality>) returns (s: Status)
      requires Shape(a) && Solved(View(a), sys) && Allowed(Inequality(i, j, c), a.Length0)
      modifies a
      ensures s == NON_EMPTY || s == OutOfRange
      ensures s == NON_EMPTY ==> Solved(View(a), sys + {Inequality(i, j, c)})
      ensures s == OutOfRange ==> Overflows(a.Length0, sys + {Inequality(i, j, c)})
    {
      hide Solved, Squeeze, Roomy, Overflows, View;
      ghost var m, q := View(a), Inequality(i, j, c);
      SolvedParts(m, sys);
      ghost var v := Solution(m, sys, q);
      s := Constrain(a, i, j, LE, c);
      Imposed(m, sys, q);
      if s == OutOfRange {
        ConstraintOverflows(m, sys, q);
      }
    }

    // ----- solutions -----

    /** The bound of clock `x` in location `l`: the least that satisfies all inequalities, and a solution of them. */
    method Bound(a: array2<Db>, ghost sys: set<Inequality>, l: nat, x: nat) returns (b: int)
      requires Shaped() && (a == lower || a == upper) && Solved(View(a), sys) && l < locs && x < clocks
      ensures Index(clocks, l, x) < a.Length0 && Reports(b, Levels(View(a))[Index(clocks, l, x)])
    {
      hide Solved, Index;
      IndexInside(clocks, locs, l, x);
      ghost var k := Index(clocks, l, x);
      var db := a[0, Index(clocks, l, x)];
      b := if db == LT_INFINITY then NO_BOUND else -Value(db);
    }

    method L(l: nat, x: nat) returns (b: int)
      requires Valid() && l < locs && x < clocks
      ensures Index(clocks, l, x) < lower.Length0
      ensures Reports(b, Levels(View(lower))[Index(clocks, l, x)])
      ensures AllAllowed(lowerSystem, lower.Length0) && SolvesAll(Levels(View(lower)), lowerSystem)
      ensures forall s: seq<Level> :: |s| == lower.Length0 && SolvesAll(s, lowerSystem) && HasVariable(clocks, l, x) ==>
        AtMost(Levels(View(lower))[Index(clocks, l, x)], s[Index(clocks, l, x)])
    {
      hide Solved, Index, Levels, SolvesAll;
      b := Bound(lower, lowerSystem, l, x);
      LeastSolution(View(lower), lowerSystem, clocks, locs, l, x);
    }

    method U(l: nat, x: nat) returns (b: int)
      requires Valid() && l < locs && x < clocks
      ensures Index(clocks, l, x) < upper.Length0
      ensures Reports(b, Levels(View(upper))[Index(clocks, l, x)])
      ensures AllAllowed(upperSystem, upper.Length0) && SolvesAll(Levels(View(upper)), upperSystem)
      ensures forall s: seq<Level> :: |s| == upper.Length0 && SolvesAll(s, upperSystem) && HasVariable(clocks, l, x) ==>
        AtMost(Levels(View(upper))[Index(clocks, l, x)], s[Index(clocks, l, x)])
    {
      hide Solved, Index, Levels, SolvesAll;
      b := Bound(upper, upperSystem, l, x);
      LeastSolution(View(upper), upperSystem, clocks, locs, l, x);
    }

    // ----- inequalities from an automaton -----

    /** For a guard `x > c` or `x >= c` in location `l`. */
    method AddLowerBoundGuard(l: nat, x: nat, c: int) returns (ok: bool)
      requires Valid() && l < locs && HasVariable(clocks, l, x)
      modifies this`hasSolution, this`lowerSystem, lower
      ensures lowerSystem == old(lowerSystem) + {Inequality(0, Index(clocks, l, x), -c)}
      ensures ok ==> Valid()
      ensures forall s: seq<Level> :: |s| == lower.Length0 && Index(clocks, l, x) < |s| ==>
        (SolvedBy(s, lowerSystem) <==> SolvedBy(s, old(lowerSystem)) && AtMost(At(c as real), s[Index(clocks, l, x)]))
      ensures ok ==> Index(clocks, l, x) < lower.Length0 && AtMost(At(c as real), Levels(View(lower))[Index(clocks, l, x)])
      ensures !ok ==> Overflows(lower.Length0, lowerSystem)
    {
      hide Solved, Index, Overflows;
      IndexInside(clocks, locs, l, x);
      var s := Impose(lower, 0, Index(clocks, l, x), -c, lowerSystem);
      hasSolution := hasSolution && s != EMPTY;
      ghost var before, q := lowerSystem, Inequality(0, Index(clocks, l, x), -c);
      lowerSystem := lowerSystem + {q};
      forall t: seq<Level> | |t| == lower.Length0
        ensures SolvedBy(t, lowerSystem) <==> SolvedBy(t, before) && AtMost(At(c as real), t[q.j])
      {
        OneMore(t, before, q);
      }
      ok := s != OutOfRange;
      if ok {
        LevelsSolvedBy(View(lower), lowerSystem);
      }
    }

    /** For a guard `x < c` or `x <= c` in location `l`. */
    method AddUpperBoundGuard(l: nat, x: nat, c: int) returns (ok: bool)
      requires Valid() && l < locs && HasVariable(clocks, l, x)
      modifies this`hasSolution, this`upperSystem, upper
      ensures upperSystem == old(upperSystem) + {Inequality(0, Index(clocks, l, x), -c)}
      ensures ok ==> Valid()
      ensures forall s: seq<Level> :: |s| == upper.Length0 && Index(clocks, l, x) < |s| ==>
        (SolvedBy(s, upperSystem) <==> SolvedBy(s, old(upperSystem)) && AtMost(At(c as real), s[Index(clocks, l, x)]))
      ensures ok ==> Index(clocks, l, x) < upper.Length0 && AtMost(At(c as real), Levels(View(upper))[Index(clocks, l, x)])
      ensures !ok ==> Overflows(upper.Length0, upperSystem)
    {
      hide Solved, Index, Overflows;
      IndexInside(clocks, locs, l, x);
      var s := Impose(upper, 0, Index(clocks, l, x), -c, upperSystem);
      hasSolution := hasSolution && s != EMPTY;
      ghost var before, q := upperSystem, Inequality(0, Index(clocks, l, x), -c);
      upperSystem := upperSystem + {q};
      forall t: seq<Level> | |t| == upper.Length0
        ensures SolvedBy(t, upperSystem) <==> SolvedBy(t, before) && AtMost(At(c as real), t[q.j])
      {
        OneMore(t, before, q);
      }
      ok := s != OutOfRange;
      if ok {
        LevelsSolvedBy(View(upper), upperSystem);
      }
    }

    /** `i - j <= c` on both systems. */
    method ImposeBoth(i: nat, j: nat, c: int) returns (ok: bool)
      requires Valid() && Allowed(Inequality(i, j, c), lower.Length0)
      modifies this`hasSolution, this`lowerSystem, this`upperSystem, lower, upper
      ensures lowerSystem == old(lowerSystem) + {Inequality(i, j, c)}
      ensures upperSystem == old(upperSystem) + {Inequality(i, j, c)}
      ensures ok ==> Valid()
      ensures !ok ==> Overflows(lower.Length0, lowerSystem) || Overflows(lower.Length0, upperSystem)
    {
      hide Solved, Overflows, Allowed, Moderate;
      ghost var q := Inequality(i, j, c);
      ghost var oldUpper := upperSystem;
      upperSystem := upperSystem + {q};
      var s := Impose(lower, i, j, c, lowerSystem);
      lowerSystem := lowerSystem + {q};
      hasSolution := hasSolution && s != EMPTY;
      if s == OutOfRange {
        return false;
      }
      s := Impose(upper, i, j, c, oldUpper);
      hasSolution := hasSolution && s != EMPTY;
      ok := s != OutOfRange;
    }

    /** On an edge from `l1` to `l2` that assigns `y + c` to `x`, the level of `x` does not exceed that of `y` by more than `c`: at the
        target, and in all locations of other processes. */
    ghost predicate Flows(s: seq<Level>, l1: nat, l2: nat, x: nat, y: nat, c: int)
      requires clocks >= 1 && |pid| == locs && |s| == Dimension(clocks, locs) && l1 < locs && l2 < locs && x < clocks && y < clocks
    {
      IndexInside(clocks, locs, l1, y);
      IndexInside(clocks, locs, l2, x);
      && AtMost(s[Index(clocks, l2, x)], Raised(s[Index(clocks, l1, y)], c))
      && forall m: nat :: m < locs && pid[m] != pid[l1] ==>
           (IndexInside(clocks, locs, m, x); AtMost(s[Index(clocks, m, x)], Raised(s[Index(clocks, l1, y)], c)))
    }

    lemma PropagatedFlows(s: seq<Level>, l1: nat, l2: nat, x: nat, y: nat, c: int)
      requires clocks >= 1 && |pid| == locs && |s| == Dimension(clocks, locs) && l1 < locs && l2 < locs
      requires HasVariable(clocks, l2, x) && HasVariable(clocks, l1, y) && c >= 0
      requires forall m: nat :: m < locs && pid[m] != pid[l1] ==> HasVariable(clocks, m, x)
      ensures AllAllowed(Propagated(l1, l2, x, y, c, locs), |s|)
      ensures SolvesAll(s, Propagated(l1, l2, x, y, c, locs)) <==> Flows(s, l1, l2, x, y, c)
    {
      hide Index, Dimension;
      var all := Propagated(l1, l2, x, y, c, locs);
      IndexInside(clocks, locs, l1, y);
      IndexInside(clocks, locs, l2, x);
      forall m: nat | m < locs && pid[m] != pid[l1]
        ensures 1 <= Index(clocks, m, x) < |s| && Inequality(Index(clocks, m, x), Index(clocks, l1, y), c) in all
      {
        assert HasVariable(clocks, m, x);
        IndexInside(clocks, locs, m, x);
      }
      if SolvesAll(s, all) {
        assert Satisfies(s, Inequality(Index(clocks, l2, x), Index(clocks, l1, y), c));
        forall m: nat | m < locs && pid[m] != pid[l1]
          ensures AtMost(s[Index(clocks, m, x)], Raised(s[Index(clocks, l1, y)], c))
        {
          assert Satisfies(s, Inequality(Index(clocks, m, x), Index(clocks, l1, y), c));
        }
      }
    }

    /** What an assignment says about location `m`, for the target and for all locations of other processes. */
    ghost function Propagated(l1: nat, l2: nat, x: nat, y: nat, c: int, upto: nat): set<Inequality>
      requires clocks >= 1 && |pid| == locs && l1 < locs && upto <= locs
    {
      {Inequality(Index(clocks, l2, x), Index(clocks, l1, y), c)}
      + set m: nat | m < upto && pid[m] != pid[l1] :: Inequality(Index(clocks, m, x), Index(clocks, l1, y), c)
    }

    /** For an assignment of `y + c` to `x` on an edge from `l1` to `l2`, with `c` not negative. */
    method AddAssignment(l1: nat, l2: nat, x: nat, y: nat, c: int) returns (ok: bool)
      requires Valid() && l1 < locs && l2 < locs && HasVariable(clocks, l2, x) && HasVariable(clocks, l1, y) && c >= 0
      requires forall m: nat :: m < locs && pid[m] != pid[l1] ==> HasVariable(clocks, m, x)
      modifies this`hasSolution, this`lowerSystem, this`upperSystem, lower, upper
      ensures ok ==> Valid()
      ensures ok ==> lowerSystem == old(lowerSystem) + Propagated(l1, l2, x, y, c, locs)
      ensures ok ==> upperSystem == old(upperSystem) + Propagated(l1, l2, x, y, c, locs)
      ensures ok ==> forall s: seq<Level> :: |s| == lower.Length0 ==>
        && (SolvedBy(s, lowerSystem) <==> SolvedBy(s, old(lowerSystem)) && Flows(s, l1, l2, x, y, c))
        && (SolvedBy(s, upperSystem) <==> SolvedBy(s, old(upperSystem)) && Flows(s, l1, l2, x, y, c))
      ensures ok ==> Flows(Levels(View(lower)), l1, l2, x, y, c) && Flows(Levels(View(upper)), l1, l2, x, y, c)
      ensures !ok ==> Overflows(lower.Length0, old(lowerSystem) + Propagated(l1, l2, x, y, c, locs))
                      || Overflows(lower.Length0, old(upperSystem) + Propagated(l1, l2, x, y, c, locs))
    {
      hide Solved, Overflows, Index, SolvedBy, Levels, Flows, Moderate, View;
      ghost var all := Propagated(l1, l2, x, y, c, locs);
      ghost var before, before' := lowerSystem, upperSystem;
      IndexInside(clocks, locs, l2, x);
      IndexInside(clocks, locs, l1, y);
      ok := ImposeBoth(Index(clocks, l2, x), Index(clocks, l1, y), c);
      if !ok {
        OverflowsEither(lower.Length0, lowerSystem, before + all, upperSystem, before' + all);
        return;
      }
      for m := 0 to locs
        invariant Valid()
        invariant lowerSystem == before + Propagated(l1, l2, x, y, c, m)
        invariant upperSystem == before' + Propagated(l1, l2, x, y, c, m)
      {
        if pid[m] != pid[l1] {
          IndexInside(clocks, locs, m, x);
          assert HasVariable(clocks, m, x);
          ok := ImposeBoth(Index(clocks, m, x), Index(clocks, l1, y), c);
          if !ok {
            OverflowsEither(lower.Length0, lowerSystem, before + all, upperSystem, before' + all);
            return;
          }
        }
      }
      ok := true;
      forall s: seq<Level> | |s| == lower.Length0
        ensures SolvedBy(s, lowerSystem) <==> SolvedBy(s, before) && Flows(s, l1, l2, x, y, c)
        ensures SolvedBy(s, upperSystem) <==> SolvedBy(s, before') && Flows(s, l1, l2, x, y, c)
      {
        PropagatedFlows(s, l1, l2, x, y, c);
        ManyMore(s, before, all);
        ManyMore(s, before', all);
      }
      LevelsSolvedBy(View(lower), lowerSystem);
      LevelsSolvedBy(View(upper), upperSystem);
    }

    /** When `x` is not assigned on an edge from `l1` to `l2`. */
    method AddNoAssignment(l1: nat, l2: nat, x: nat) returns (ok: bool)
      requires Valid() && l1 < locs && l2 < locs && HasVariable(clocks, l1, x) && HasVariable(clocks, l2, x)
      modifies this`hasSolution, this`lowerSystem, this`upperSystem, lower, upper
      ensures lowerSystem == old(lowerSystem) + {Inequality(Index(clocks, l2, x), Index(clocks, l1, x), 0)}
      ensures upperSystem == old(upperSystem) + {Inequality(Index(clocks, l2, x), Index(clocks, l1, x), 0)}
      ensures ok ==> Valid()
      ensures Index(clocks, l2, x) < lower.Length0 && Index(clocks, l1, x) < lower.Length0
      ensures forall s: seq<Level> :: |s| == lower.Length0 ==>
        && (SolvedBy(s, lowerSystem) <==>
              SolvedBy(s, old(lowerSystem)) && AtMost(s[Index(clocks, l2, x)], s[Index(clocks, l1, x)]))
        && (SolvedBy(s, upperSystem) <==>
              SolvedBy(s, old(upperSystem)) && AtMost(s[Index(clocks, l2, x)], s[Index(clocks, l1, x)]))
      ensures ok ==> AtMost(Levels(View(lower))[Index(clocks, l2, x)], Levels(View(lower))[Index(clocks, l1, x)])
      ensures ok ==> AtMost(Levels(View(upper))[Index(clocks, l2, x)], Levels(View(upper))[Index(clocks, l1, x)])
      ensures !ok ==> Overflows(lower.Length0, lowerSystem) || Overflows(lower.Length0, upperSystem)
    {
      hide Solved, Overflows, Index;
      IndexInside(clocks, locs, l2, x);
      IndexInside(clocks, locs, l1, x);
      ghost var before, before', q := lowerSystem, upperSystem, Inequality(Index(clocks, l2, x), Index(clocks, l1, x), 0);
      ok := ImposeBoth(Index(clocks, l2, x), Index(clocks, l1, x), 0);
      forall s: seq<Level> | |s| == lower.Length0
        ensures SolvedBy(s, lowerSystem) <==> SolvedBy(s, before) && AtMost(s[q.i], s[q.j])
        ensures SolvedBy(s, upperSystem) <==> SolvedBy(s, before') && AtMost(s[q.i], s[q.j])
      {
        OneMore(s, before, q);
        OneMore(s, before', q);
      }
      if ok {
        LevelsSolvedBy(View(lower), lowerSystem);
        LevelsSolvedBy(View(upper), upperSystem);
      }
    }
  }

  lemma OverflowsEither(dim: nat, sys: set<Inequality>, sys': set<Inequality>, up: set<Inequality>, up': set<Inequality>)
    requires Overflows(dim, sys) || Overflows(dim, up)
    requires sys <= sys' && up <= up'
    ensures Overflows(dim, sys') || Overflows(dim, up')
  {
    hide Overflows;
    if Overflows(dim, sys) {
      OverflowsMore(dim, sys, sys');
    } else {
      OverflowsMore(dim, up, up');
    }
  }

  lemma LeastSolution(m: Matrix, sys: set<Inequality>, clocks: nat, locs: nat, l: nat, x: nat)
    requires clocks >= 1 && |m| == Dimension(clocks, locs) && l < locs && x < clocks && Solved(m, sys)
    ensures Index(clocks, l, x) < |m| && AllAllowed(sys, |m|) && SolvesAll(Levels(m), sys)
    ensures forall s: seq<Level> :: |s| == |m| && SolvesAll(s, sys) && HasVariable(clocks, l, x) ==>
              AtMost(Levels(m)[Index(clocks, l, x)], s[Index(clocks, l, x)])
  {
    hide Solved, Index, Levels, SolvesAll;
    IndexInside(clocks, locs, l, x);
    AllowedAll(m, sys);
    LevelsSolve(m, sys);
    forall s: seq<Level> | |s| == |m| && SolvesAll(s, sys) && HasVariable(clocks, l, x)
      ensures AtMost(Levels(m)[Index(clocks, l, x)], s[Index(clocks, l, x)])
    {
      LevelsLeast(m, sys, s, Index(clocks, l, x));
    }
  }

  /** A solution of an inequality together with the system. */
  lemma Solution(m: Matrix, sys: set<Inequality>, q: Inequality) returns (v: Valuation)
    requires Solved(m, sys) && Allowed(q, |m|)
    ensures Sat(m, v) && Meets(v[q.i] - v[q.j], BoundOfInequality(q))
  {
    hide Solved, Squeeze;
    Imposed(m, sys, q);
    var b := BoundOfInequality(q);
    var e := Squeeze(m, q.i, q.j, b);
    SolvedParts(m, sys);
    SolvedParts(e, sys + {q});
    v := Inhabited(e);
    SqueezeSat(m, q.i, q.j, b, v);
  }

  lemma ConstraintOverflows(m: Matrix, sys: set<Inequality>, q: Inequality)
    requires Solved(m, sys) && Allowed(q, |m|)
    requires !Encoding.InRange(q.c)
          || forall r: real :: Within(m, r) && Small(BoundOf(LE, q.c), r) ==> 5.0 * r > Encoding.MAX_VALUE as real
    ensures Overflows(|m|, sys + {q})
  {
    hide Solved, Moderate, Spacious, Within;
    assert BoundOf(LE, q.c) == BoundOfInequality(q);
    forall c: nat | Moderate(sys + {q}, c)
      ensures !Spacious(|m|, c)
    {
      if Spacious(|m|, c) {
        SpaciousIsRoomy(m, sys, q, c);
      }
    }
  }

  lemma LevelsSolvedBy(m: Matrix, sys: set<Inequality>)
    requires Solved(m, sys)
    ensures SolvedBy(Levels(m), sys)
  {
    hide Solved, Levels, SolvesAll;
    AllowedAll(m, sys);
    LevelsSolve(m, sys);
  }

  lemma SolvedParts(m: Matrix, sys: set<Inequality>)
    requires Solved(m, sys)
    ensures Tight(m) && Consistent(m)
  {}
}
