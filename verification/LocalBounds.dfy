/** The comparison of nodes that the exploration makes: lower and upper clock bounds and diagonal constraints are collected from
    the invariant of a location and the guards that leave it, and nothing else; then two zones are compared by the simulation test
    for these bounds, and by what they entail of the diagonal constraints. */
module LocalBounds {
  import opened Wrappers
  import opened Bounds
  import opened Zones
  import opened ZoneOps
  import opened Encoding
  import opened LuSimulation
  import opened Extrapolation
  import opened Dbm
  import opened DbmAbstraction
  import opened Machine

  // ----- the summary of a list of constraints -----

  predicate Diagonal(c: ClockConstraint) {
    c.first != 0 && c.second != 0
  }

  /** The constraint is on clocks below `n`, and its constant can be stored. */
  predicate Fitting(c: ClockConstraint, n: nat) {
    && 0 <= c.first < n && 0 <= c.second < n && c.first != c.second
    && -MAX_VALUE <= c.bound <= MAX_VALUE
  }

  predicate AllFitting(cs: seq<ClockConstraint>, n: nat) {
    forall i :: 0 <= i < |cs| ==> Fitting(cs[i], n)
  }

  predicate Upper(c: ClockConstraint, x: int) {
    x != 0 && c.first == x && c.second == 0
  }

  predicate Lower(c: ClockConstraint, x: int) {
    x != 0 && c.first == 0 && c.second == x
  }

  function Max(a: int, b: int): int {
    if a < b then b else a
  }

  /** The largest constant that clock `x` is compared with from above. */
  function UpperBound(cs: seq<ClockConstraint>, x: int): int
    decreases |cs|
  {
    if x == 0 then 0
    else if cs == [] then -INF_VALUE
    else
      var r, c := UpperBound(cs[..|cs| - 1], x), cs[|cs| - 1];
      if Upper(c, x) then Max(r, c.bound) else r
  }

  function LowerBound(cs: seq<ClockConstraint>, x: int): int
    decreases |cs|
  {
    if x == 0 then 0
    else if cs == [] then -INF_VALUE
    else
      var r, c := LowerBound(cs[..|cs| - 1], x), cs[|cs| - 1];
      if Lower(c, x) then var b: int := c.bound; Max(r, -b) else r
  }

  function Diagonals(cs: seq<ClockConstraint>): seq<ClockConstraint>
    decreases |cs|
  {
    if cs == [] then []
    else
      var r, c := Diagonals(cs[..|cs| - 1]), cs[|cs| - 1];
      if Diagonal(c) then r + [c] else r
  }

  function Uppers(cs: seq<ClockConstraint>, n: nat): (r: seq<int>)
    ensures |r| == n
  {
    seq(n, x requires 0 <= x < n => UpperBound(cs, x))
  }

  function Lowers(cs: seq<ClockConstraint>, n: nat): (r: seq<int>)
    ensures |r| == n
  {
    seq(n, x requires 0 <= x < n => LowerBound(cs, x))
  }

  /** The bounds of a clock are the largest constants that it is compared with, and absent when there are none. */
  lemma {:induction false} BoundsExact(cs: seq<ClockConstraint>, x: int)
    requires x != 0
    ensures forall c :: c in cs && Upper(c, x) ==> c.bound <= UpperBound(cs, x)
    ensures UpperBound(cs, x) == -INF_VALUE || exists c :: c in cs && Upper(c, x) && c.bound == UpperBound(cs, x)
    ensures forall c :: c in cs && Lower(c, x) ==> -(c.bound as int) <= LowerBound(cs, x)
    ensures LowerBound(cs, x) == -INF_VALUE || exists c :: c in cs && Lower(c, x) && -(c.bound as int) == LowerBound(cs, x)
    decreases |cs|
  {
    if cs != [] {
      var k := |cs| - 1;
      BoundsExact(cs[..k], x);
      assert cs == cs[..k] + [cs[k]];
      assert cs[k] in cs;
      forall c | c in cs[..k] ensures c in cs {}
    }
  }

  lemma {:induction false} DiagonalsExact(cs: seq<ClockConstraint>)
    ensures forall c :: c in Diagonals(cs) <==> c in cs && Diagonal(c)
    decreases |cs|
  {
    if cs != [] {
      var k := |cs| - 1;
      DiagonalsExact(cs[..k]);
      assert cs == cs[..k] + [cs[k]];
    }
  }

  lemma LooselyBounded(cs: seq<ClockConstraint>, n: nat)
    requires n >= 1 && AllFitting(cs, n)
    ensures LooseBounds(Lowers(cs, n), n) && LooseBounds(Uppers(cs, n), n)
  {
    forall x | 0 <= x < n
      ensures LooseBound(Lowers(cs, n)[x]) && LooseBound(Uppers(cs, n)[x])
    {
      if x != 0 {
        BoundsExact(cs, x);
        assert forall c :: c in cs ==> Fitting(c, n);
      }
    }
  }

  // ----- building the summary -----

  lemma NextSummary(cs: seq<ClockConstraint>, c: ClockConstraint, n: nat)
    requires Fitting(c, n)
    ensures var b: int := c.bound;
            && Diagonals(cs + [c]) == (if Diagonal(c) then Diagonals(cs) + [c] else Diagonals(cs))
            && Uppers(cs + [c], n) == (if c.first != 0 && c.second == 0
                                       then Uppers(cs, n)[c.first := Max(Uppers(cs, n)[c.first], b)] else Uppers(cs, n))
            && Lowers(cs + [c], n) == (if c.first == 0 && c.second != 0
                                       then Lowers(cs, n)[c.second := Max(Lowers(cs, n)[c.second], -b)] else Lowers(cs, n))
  {
    var all := cs + [c];
    assert all[..|all| - 1] == cs;
  }

  function Flat(css: seq<seq<ClockConstraint>>): seq<ClockConstraint>
    decreases |css|
  {
    if css == [] then [] else Flat(css[..|css| - 1]) + css[|css| - 1]
  }

  /** No clock is compared with anything. */
  function NoBounds(n: nat): (r: seq<int>)
    ensures |r| == n
  {
    seq(n, x => if x == 0 then 0 else -INF_VALUE)
  }

  lemma NoBoundsOfNothing(n: nat)
    ensures NoBounds(n) == Lowers([], n) == Uppers([], n) && Diagonals([]) == []
  {}

  class Summary {
    var diagonals: seq<ClockConstraint>
    var l: seq<int>
    var u: seq<int>

    /** The summary is that of the constraints `cs` on `n` clocks. */
    ghost predicate Of(cs: seq<ClockConstraint>, n: nat)
      reads this
    {
      l == Lowers(cs, n) && u == Uppers(cs, n) && diagonals == Diagonals(cs)
    }

    constructor (n: nat)
      requires n >= 1
      ensures Of([], n)
    {
      diagonals, l, u := [], NoBounds(n), NoBounds(n);
      new;
      NoBoundsOfNothing(n);
    }

    /** A diagonal constraint is kept, a simple one raises a bound. */
    method Update(c: ClockConstraint, ghost cs: seq<ClockConstraint>, ghost n: nat)
      requires n >= 1 && Of(cs, n) && Fitting(c, n)
      modifies this
      ensures Of(cs + [c], n)
    {
      hide Uppers, Lowers, Diagonals;
      NextSummary(cs, c, n);
      if Diagonal(c) {
        diagonals := diagonals + [c];
      } else if c.first != 0 && c.second == 0 {
        u := u[c.first := Max(u[c.first], c.bound)];
      } else if c.first == 0 && c.second != 0 {
        var b: int := c.bound;
        l := l[c.second := Max(l[c.second], -b)];
      }
    }

    method UpdateAll(more: seq<ClockConstraint>, ghost cs: seq<ClockConstraint>, ghost n: nat)
      requires n >= 1 && Of(cs, n) && AllFitting(more, n)
      modifies this
      ensures Of(cs + more, n)
    {
      hide Uppers, Lowers, Diagonals;
      assert cs + more[..0] == cs;
      for i := 0 to |more|
        invariant Of(cs + more[..i], n)
      {
        Update(more[i], cs + more[..i], n);
        assert cs + more[..i] + [more[i]] == cs + more[..i + 1];
      }
      assert more[..|more|] == more;
    }

    /** First the invariant, then the guard of every outgoing edge. */
    method Build(inv: seq<ClockConstraint>, guards: seq<seq<ClockConstraint>>, n: nat)
      requires n >= 1 && AllFitting(inv, n) && forall i :: 0 <= i < |guards| ==> AllFitting(guards[i], n)
      modifies this
      ensures Of(inv + Flat(guards), n)
    {
      hide Uppers, Lowers, Diagonals;
      diagonals, l, u := [], NoBounds(n), NoBounds(n);
      NoBoundsOfNothing(n);
      UpdateAll(inv, [], n);
      assert [] + inv == inv + Flat(guards[..0]);
      for i := 0 to |guards|
        invariant Of(inv + Flat(guards[..i]), n)
      {
        UpdateAll(guards[i], inv + Flat(guards[..i]), n);
        assert guards[..i + 1][..i] == guards[..i];
        assert inv + Flat(guards[..i]) + guards[i] == inv + Flat(guards[..i + 1]);
      }
      assert guards[..|guards|] == guards;
    }
  }

  // ----- what a zone entails -----

  function BoundOfConstraint(c: ClockConstraint): Bound {
    Fin(c.bound as real, !c.strict)
  }

  ghost predicate Holds(c: ClockConstraint, v: Valuation) {
    0 <= c.first < |v| && 0 <= c.second < |v| && Meets(v[c.first] - v[c.second], BoundOfConstraint(c))
  }

  /** Every valuation of the zone satisfies the constraint. */
  ghost predicate Entails(m: Matrix, c: ClockConstraint) {
    forall v: Valuation :: In(m, v) ==> Holds(c, v)
  }

  /** A tight matrix shows it in one entry. */
  lemma EntailsExact(m: Matrix, c: ClockConstraint)
    requires Tight(m) && Consistent(m) && Fitting(c, |m|)
    ensures Le(m[c.first][c.second], BoundOfConstraint(c)) <==> Entails(m, c)
  {
    hide Tight;
    var x, y, b := c.first, c.second, BoundOfConstraint(c);
    if Le(m[x][y], b) {
      forall v: Valuation | In(m, v) ensures Holds(c, v) {
        assert SatAt(m, v, x, y);
      }
    } else {
      var far := Fin(-b.value, !b.le);
      SqueezeTight(m, y, x, far);
      var v := Inhabited(Squeeze(m, y, x, far));
      SqueezeSat(m, y, x, far, v);
      assert In(m, v) && !Holds(c, v);
    }
  }

  ghost predicate Implies(m1: Matrix, m2: Matrix, cs: seq<ClockConstraint>) {
    forall c :: c in cs && Entails(m1, c) ==> Entails(m2, c)
  }

  method ZoneEntails(a: array2<Db>, c: ClockConstraint) returns (r: bool)
    requires Shape(a) && Normal(View(a)) && Fitting(c, a.Length0) && Diagonal(c)
    ensures r == Entails(View(a), c)
  {
    hide Tight, Positive, Entails;
    var cmp := if c.strict then LT else LE;
    MakeExact(cmp, c.bound);
    var bound := Make(cmp, c.bound).value;
    OrderEmbedding(a[c.first, c.second], bound);
    EntailsExact(View(a), c);
    r := a[c.first, c.second] <= bound;
  }

  method DiagonalImplication(a1: array2<Db>, a2: array2<Db>, cs: seq<ClockConstraint>) returns (r: bool)
    requires Shape(a1) && Shape(a2) && a1.Length0 == a2.Length0 && Normal(View(a1)) && Normal(View(a2))
    requires forall i :: 0 <= i < |cs| ==> Fitting(cs[i], a1.Length0) && Diagonal(cs[i])
    ensures r == Implies(View(a1), View(a2), cs)
  {
    hide Entails, View, Normal;
    for i := 0 to |cs|
      invariant forall j :: 0 <= j < i && Entails(View(a1), cs[j]) ==> Entails(View(a2), cs[j])
    {
      var p := ZoneEntails(a1, cs[i]);
      if p {
        var q := ZoneEntails(a2, cs[i]);
        if !q {
          return false;
        }
      }
    }
    return true;
  }

  // ----- the comparison -----

  /** The zone of `m1` stands for that of `m2`. */
  ghost predicate StandsFor(l: seq<int>, u: seq<int>, diagonals: seq<ClockConstraint>, m1: Matrix, m2: Matrix) {
    SimIncluded(m2, m1, l, u) && Implies(m2, m1, diagonals)
  }

  lemma DiagonalsFitting(cs1: seq<ClockConstraint>, cs2: seq<ClockConstraint>, n: nat)
    requires AllFitting(cs1, n) && AllFitting(cs2, n)
    ensures var g := Diagonals(cs1) + Diagonals(cs2); forall i :: 0 <= i < |g| ==> Fitting(g[i], n) && Diagonal(g[i])
  {
    DiagonalsExact(cs1);
    DiagonalsExact(cs2);
    var g := Diagonals(cs1) + Diagonals(cs2);
    forall i | 0 <= i < |g|
      ensures Fitting(g[i], n) && Diagonal(g[i])
    {
      assert g[i] in Diagonals(cs1) || g[i] in Diagonals(cs2);
      assert g[i] in cs1 || g[i] in cs2;
    }
  }

  /** False when the first node stands for the second, and for equivalence also the other way round. The clock bounds are those
      of the first location, the diagonal constraints those of both. */
  method Equal(a1: array2<Db>, a2: array2<Db>, s1: Summary, s2: Summary, subsumption: bool,
               ghost cs1: seq<ClockConstraint>, ghost cs2: seq<ClockConstraint>)
    returns (r: Option<bool>)
    requires Shape(a1) && Shape(a2) && a1.Length0 == a2.Length0 && Normal(View(a1)) && Normal(View(a2))
    requires s1.Of(cs1, a1.Length0) && s2.Of(cs2, a1.Length0) && AllFitting(cs1, a1.Length0) && AllFitting(cs2, a1.Length0)
    ensures r.Some? && subsumption ==>
      (!r.value <==> StandsFor(s1.l, s1.u, s1.diagonals + s2.diagonals, View(a1), View(a2)))
    ensures r.Some? && !subsumption ==>
      (!r.value <==> StandsFor(s1.l, s1.u, s1.diagonals + s2.diagonals, View(a1), View(a2))
                     && StandsFor(s1.l, s1.u, s1.diagonals + s2.diagonals, View(a2), View(a1)))
    ensures r.None? ==> forall b: real :: !(RoomForTest(View(a1), s1.l, b) && RoomForTest(View(a2), s1.l, b))
  {
    hide RoomForTest, SimIncluded, View, Normal, Entails;
    LooselyBounded(cs1, a1.Length0);
    var g := s1.diagonals + s2.diagonals;
    assert g == Diagonals(cs1) + Diagonals(cs2);
    DiagonalsFitting(cs1, cs2, a1.Length0);
    var different := MyLuPlus(a1, a2, s1.l, s1.u, subsumption);
    if different.None? || different.value {
      return different;
    }
    if g == [] {
      return Some(false);
    }
    if subsumption {
      var p := DiagonalImplication(a2, a1, g);
      return Some(!p);
    }
    var p := DiagonalImplication(a1, a2, g);
    if !p {
      return Some(true);
    }
    var q := DiagonalImplication(a2, a1, g);
    return Some(!q);
  }
}
