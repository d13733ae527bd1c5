/** Whether finitely many bounds on differences can be met together, decided by Floyd-Warshall. */
module Limits {
  import opened Bounds
  import opened Zones
  import opened FloydWarshall
  import opened ZoneOps

  /** The difference of variables `i` and `j` is within `b`. */
  datatype Limit = Limit(i: int, j: int, b: Bound)

  predicate Inside(ls: seq<Limit>, n: nat) {
    forall k :: 0 <= k < |ls| ==> 0 <= ls[k].i < n && 0 <= ls[k].j < n
  }

  predicate Obeys(v: Valuation, l: Limit) {
    0 <= l.i < |v| && 0 <= l.j < |v| && Meets(v[l.i] - v[l.j], l.b)
  }

  ghost predicate ObeysAll(v: Valuation, ls: seq<Limit>) {
    forall k :: 0 <= k < |ls| ==> Obeys(v, ls[k])
  }

  lemma ObeysBoth(v: Valuation, x: seq<Limit>, y: seq<Limit>)
    ensures ObeysAll(v, x + y) <==> ObeysAll(v, x) && ObeysAll(v, y)
  {
    if ObeysAll(v, x + y) {
      forall k | 0 <= k < |x| ensures Obeys(v, x[k]) {
        assert (x + y)[k] == x[k];
      }
      forall k | 0 <= k < |y| ensures Obeys(v, y[k]) {
        assert (x + y)[|x| + k] == y[k];
      }
    }
  }

  /** Nothing is limited. */
  function Free(n: nat): (m: Matrix)
    requires n >= 1
    ensures |m| == n
  {
    seq(n, i requires 0 <= i < n => seq(n, j requires 0 <= j < n => if i == j then ZERO else Inf))
  }

  /** The limits between different variables, as a matrix. */
  function MatrixOf(ls: seq<Limit>, n: nat): (m: Matrix)
    requires n >= 1 && Inside(ls, n)
    ensures |m| == n
    decreases |ls|
  {
    if ls == [] then Free(n)
    else
      var l := ls[0];
      assert Inside(ls[1..], n);
      var m := MatrixOf(ls[1..], n);
      if l.i != l.j && Lt(l.b, m[l.i][l.j]) then WithEdge(m, l.i, l.j, l.b) else m
  }

  lemma {:induction false} MatrixOfExact(ls: seq<Limit>, n: nat, v: Valuation)
    requires n >= 1 && Inside(ls, n) && |v| == n
    ensures Consistent(MatrixOf(ls, n))
    ensures Sat(MatrixOf(ls, n), v) <==> forall k :: 0 <= k < |ls| && ls[k].i != ls[k].j ==> Obeys(v, ls[k])
    decreases |ls|
  {
    if ls == [] {
      forall i, j | Clock(Free(n), i) && Clock(Free(n), j) ensures SatAt(Free(n), v, i, j) {}
    } else {
      var l, rest := ls[0], ls[1..];
      assert Inside(rest, n);
      MatrixOfExact(rest, n, v);
      var m := MatrixOf(rest, n);
      FirstAndRest(ls, v);
      if l.i != l.j {
        if Lt(l.b, m[l.i][l.j]) {
          WithEdgeSat(m, l.i, l.j, l.b, v);
        } else if Sat(m, v) {
          assert SatAt(m, v, l.i, l.j);
        }
      }
    }
  }

  lemma FirstAndRest(ls: seq<Limit>, v: Valuation)
    requires ls != []
    ensures (forall k :: 0 <= k < |ls| && ls[k].i != ls[k].j ==> Obeys(v, ls[k]))
       <==> (ls[0].i != ls[0].j ==> Obeys(v, ls[0])) && forall k :: 0 <= k < |ls[1..]| && ls[1..][k].i != ls[1..][k].j ==> Obeys(v, ls[1..][k])
  {
    if forall k :: 0 <= k < |ls| && ls[k].i != ls[k].j ==> Obeys(v, ls[k]) {
      assert forall k :: 0 <= k < |ls[1..]| ==> ls[1..][k] == ls[k + 1];
    }
    if (ls[0].i != ls[0].j ==> Obeys(v, ls[0])) && forall k :: 0 <= k < |ls[1..]| && ls[1..][k].i != ls[1..][k].j ==> Obeys(v, ls[1..][k]) {
      forall k | 0 <= k < |ls| && ls[k].i != ls[k].j ensures Obeys(v, ls[k]) {
        assert k > 0 ==> ls[k] == ls[1..][k - 1];
      }
    }
  }

  predicate Solvable(ls: seq<Limit>, n: nat)
    requires n >= 1 && Inside(ls, n)
  {
    && (forall k :: 0 <= k < |ls| && ls[k].i == ls[k].j ==> Le(ZERO, ls[k].b))
    && ConsistentThrough(MatrixOf(ls, n), n)
  }

  /** Solvable systems are those with a solution whose variable 0 is zero. */
  lemma SolvableExact(ls: seq<Limit>, n: nat)
    requires n >= 1 && Inside(ls, n)
    ensures Solvable(ls, n) <==> exists v: Valuation :: |v| == n && v[0] == 0.0 && ObeysAll(v, ls)
  {
    hide MatrixOf, Phases, ConsistentThrough, Sat;
    var m := MatrixOf(ls, n);
    forall v: Valuation | |v| == n
      ensures Consistent(m)
      ensures Sat(m, v) <==> forall k :: 0 <= k < |ls| && ls[k].i != ls[k].j ==> Obeys(v, ls[k])
    {
      MatrixOfExact(ls, n, v);
    }
    MatrixOfExact(ls, n, Zeros(n));
    PhasesDecide(m);
    if Solvable(ls, n) {
      var v0 :| Sat(m, v0);
      var v := Normalise(m, v0);
      SatSize(m, v);
      forall k | 0 <= k < |ls| ensures Obeys(v, ls[k]) {
        if ls[k].i == ls[k].j {
          assert v[ls[k].i] - v[ls[k].j] == 0.0;
        }
      }
      assert ObeysAll(v, ls);
    }
    if v: Valuation :| |v| == n && v[0] == 0.0 && ObeysAll(v, ls) {
      assert Sat(m, v);
      forall k | 0 <= k < |ls| && ls[k].i == ls[k].j ensures Le(ZERO, ls[k].b) {
        assert Obeys(v, ls[k]);
      }
    }
  }

  lemma SatSize(m: Matrix, v: Valuation)
    requires In(m, v)
    ensures |v| == |m| && v[0] == 0.0 && Sat(m, v)
  {}
}
