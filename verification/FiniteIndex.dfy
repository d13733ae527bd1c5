/** Finitely many zones up to the simulation preorder: every integral zone is equivalent to its extrapolation, and there are
    finitely many of these. The explored zones themselves are not extrapolated, and may be infinitely many. */
module FiniteIndex {
  import opened Wrappers
  import opened Bounds
  import opened Zones
  import opened FloydWarshall
  import opened Encoding
  import opened LuSimulation
  import opened ZoneOps
  import opened Extrapolation
  import opened ZoneGraph
  import opened Integrality

  // ----- finite sets of matrices -----

  ghost predicate Bounded(m: Matrix, b: real) {
    Integral(m) && Within(m, b)
  }

  ghost function Sequences<T>(n: nat, s: set<T>): set<seq<T>> {
    if n == 0 then {[]} else set x: T, t: seq<T> | x in s && t in Sequences(n - 1, s) :: [x] + t
  }

  lemma {:induction false} SequencesComplete<T>(n: nat, s: set<T>, t: seq<T>)
    requires |t| == n && forall i :: 0 <= i < n ==> t[i] in s
    ensures t in Sequences(n, s)
  {
    if n > 0 {
      SequencesComplete(n - 1, s, t[1..]);
      assert t == [t[0]] + t[1..];
    } else {
      assert t == [];
    }
  }

  lemma {:induction false} SequencesSound<T>(n: nat, s: set<T>, t: seq<T>)
    requires t in Sequences(n, s)
    ensures |t| == n && forall i :: 0 <= i < n ==> t[i] in s
  {
    if n > 0 {
      var x, r :| x in s && r in Sequences(n - 1, s) && t == [x] + r;
      SequencesSound(n - 1, s, r);
    }
  }

  ghost function Values(k: nat): set<Bound> {
    {Inf, Fin(k as real, true), Fin(k as real, false), Fin(-(k as real), true), Fin(-(k as real), false)}
    + if k == 0 then {} else Values(k - 1)
  }

  lemma {:induction false} ValuesExact(k: nat, b: Bound)
    ensures b in Values(k) <==> Whole(b) && (b.Fin? ==> -(k as real) <= b.value <= k as real)
  {
    var z: int := k;
    assert Equals(k as real, z) && Equals(-(k as real), -z);
    if k > 0 {
      ValuesExact(k - 1, b);
    }
    if b.Fin? && Whole(b) {
      z :| Equals(b.value, z);
      assert z == k || z + k == 0 || z + k < 0 || z > k || (k > 0 && 1 <= z + k && z <= k - 1);
    }
  }

  ghost function Matrices(n: nat, k: nat): set<seq<seq<Bound>>> {
    Sequences(n, Sequences(n, Values(k)))
  }

  lemma MatricesExact(m: Matrix, k: nat)
    ensures m in Matrices(|m|, k) <==> Bounded(m, k as real)
  {
    var n := |m|;
    if Bounded(m, k as real) {
      forall i | 0 <= i < n
        ensures m[i] in Sequences(n, Values(k))
      {
        forall j | 0 <= j < n
          ensures m[i][j] in Values(k)
        {
          assert WholeAt(m, i, j) && SmallAt(m, i, j, k as real);
          ValuesExact(k, m[i][j]);
        }
        SequencesComplete(n, Values(k), m[i]);
      }
      SequencesComplete(n, Sequences(n, Values(k)), m);
    }
    if m in Matrices(n, k) {
      SequencesSound(n, Sequences(n, Values(k)), m);
      forall i, j | Clock(m, i) && Clock(m, j)
        ensures WholeAt(m, i, j) && SmallAt(m, i, j, k as real)
      {
        SequencesSound(n, Values(k), m[i]);
        ValuesExact(k, m[i][j]);
      }
    }
  }

  // ----- one representative for every zone -----

  /** The extrapolation of an integral zone is one of finitely many matrices. */
  lemma Representative(m: Matrix, l: seq<int>, u: seq<int>)
    requires Proper(m, l, u) && Integral(m)
    ensures ExtraLuPlus(m, l, u) in Matrices(|m|, (|m| - 1) * MAX_VALUE)
  {
    hide Integral, Tight, Consistent, Positive, Within, RelaxLuPlus, Phases, Times, Matrices;
    assert Capped(l, MAX_VALUE) && Capped(u, MAX_VALUE);
    ExtrapolationsProper(m, l, u, MAX_VALUE);
    ApplyIntegral(m, Extrapolate, l, u);
    Scaled(|m| - 1, MAX_VALUE);
    MatricesExact(ExtraLuPlus(m, l, u), (|m| - 1) * MAX_VALUE);
  }

  lemma Scaled(n: nat, k: nat)
    ensures Times(n, k as real) == (n * k) as real
  {}

  /** Zones with the same extrapolation simulate each other. */
  lemma SameRepresentative(m: Matrix, m': Matrix, l: seq<int>, u: seq<int>)
    requires Proper(m, l, u) && Proper(m', l, u) && ExtraLuPlus(m, l, u) == ExtraLuPlus(m', l, u)
    ensures SimIncluded(m, m', l, u)
  {
    hide Tight, RelaxLuPlus, Phases, AluLe, SimIncluded;
    var e := ExtraLuPlus(m, l, u);
    ExtrapolationsProper(m, l, u, MAX_VALUE);
    ExtrapolationSimulated(m, l, u);
    ExtrapolationSimulated(m', l, u);
    AluExact(m, e, l, u);
    AluExact(e, m', l, u);
    SimIncludedTransitive(m, e, m', l, u);
  }
}
