/** What a statement does to clocks. It only puts out resets; applied one after the other, as the successor computation does, they leave
    the clocks with the values that its assignments say. */
module ClockValues {
  import opened Wrappers
  import opened EdgeRuns
  import opened Machine
  import opened Language
  import opened Compiler
  import opened CompilerCorrect
  import opened StatementCorrect
  import opened Scopes

  /** The clock that an expression denotes, if it is one of those. */
  function ClockOf(x: Expr, m: Memory, clocks: nat): (r: Option<int>)
    ensures r.Some? ==> 0 <= r.value < clocks
  {
    var a := Address(x, m.env, clocks);
    if a.Ok? && a.value.value < clocks then Some(a.value.value) else None
  }

  function ValueOf(e: Expr, m: Memory, clocks: nat): real {
    var r := Eval(e, m.env, clocks);
    if r.Ok? then r.value.value as real else 0.0
  }

  /** The clock values `v` after a statement that runs through: an assignment gives one clock a new value. */
  function After(fuel: nat, s: Stmt, m: Memory, clocks: nat, v: seq<real>): (w: seq<real>)
    requires |v| == clocks
    ensures |w| == clocks
    decreases fuel, s, 0
  {
    match s
    case ResetInt(x, e) =>
      var a := ClockOf(x, m, clocks);
      if a.Some? then v[a.value := ValueOf(e, m, clocks)] else v
    case ResetClock(x, y) =>
      var a, b := ClockOf(x, m, clocks), ClockOf(y, m, clocks);
      if a.Some? && b.Some? then v[a.value := v[b.value]] else v
    case ResetSum(x, e, y) =>
      var a, b := ClockOf(x, m, clocks), ClockOf(y, m, clocks);
      if a.Some? && b.Some? then v[a.value := v[b.value] + ValueOf(e, m, clocks)] else v
    case Seq(s1, s2) =>
      var r, w := Exec(fuel, s1, m, clocks), After(fuel, s1, m, clocks, v);
      if r.Some? && r.value.Ok? then After(fuel, s2, r.value.value, clocks, w) else w
    case If(c, s1, s2) =>
      var r := Eval(c, m.env, clocks);
      if r.Ok? then AfterBlock(fuel, if r.value.value != 0 then s1 else s2, Emit(m, r.value.constrs), clocks, v) else v
    case While(c, b) =>
      var r := Eval(c, m.env, clocks);
      if !r.Ok? || r.value.value == 0 || fuel == 0 then v
      else
        var m' := Emit(m, r.value.constrs);
        var k, w := ExecBlock(fuel - 1, b, m', clocks), AfterBlock(fuel - 1, b, m', clocks, v);
        if k.Some? && k.value.Ok? then After(fuel - 1, s, k.value.value, clocks, w) else w
    case _ => v
  }

  function AfterBlock(fuel: nat, s: Stmt, m: Memory, clocks: nat, v: seq<real>): (w: seq<real>)
    requires |v| == clocks
    ensures |w| == clocks
    decreases fuel, s, 1
  {
    After(fuel, s, if HasLocals(s) then Enter(m) else m, clocks, v)
  }

  /** Identifier 0 stands for the constant zero, which no statement assigns to. */
  predicate KeepsZero(s: Stmt) {
    match s
    case ResetInt(x, _) => IsLvalue(x) ==> x.v.id >= 1
    case ResetClock(x, _) => IsLvalue(x) ==> x.v.id >= 1
    case ResetSum(x, _, _) => IsLvalue(x) ==> x.v.id >= 1
    case Seq(s1, s2) => KeepsZero(s1) && KeepsZero(s2)
    case If(_, s1, s2) => KeepsZero(s1) && KeepsZero(s2)
    case While(_, b) => KeepsZero(b)
    case _ => true
  }

  /** The resets of `m`, put to the clock values `v`, lead to `w`. */
  ghost predicate Leads(m: Memory, v: seq<real>, w: seq<real>) {
    AllClocks(m.resets, |v|) && w == AfterResets(m.resets, v) && |w| >= 1 && w[0] == 0.0
  }

  lemma {:induction false} OneMoreReset(rs: seq<ClockReset>, r: ClockReset, v: seq<real>)
    requires AllClocks(rs + [r], |v|)
    ensures AllClocks(rs, |v|) && 0 <= r.left < |v| && 0 <= r.right < |v|
    ensures var w := AfterResets(rs, v); AfterResets(rs + [r], v) == w[r.left := w[r.right] + r.value as real]
    decreases |rs|
  {
    var all := rs + [r];
    assert all[|rs|] == r;
    assert forall i :: 0 <= i < |rs| ==> rs[i] == all[i];
    if rs == [] {
      assert all[1..] == [];
    } else {
      assert all[1..] == rs[1..] + [r];
      OneMoreReset(rs[1..], r, v[rs[0].left := v[rs[0].right] + rs[0].value as real]);
    }
  }

  lemma AddressFrom(x: Expr, m: Memory, clocks: nat)
    requires IsLvalue(x) && x.v.id >= 1
    ensures Address(x, m.env, clocks).Ok? ==> Address(x, m.env, clocks).value.value >= 1
  {
    hide Eval;
  }

  lemma ResetLeads(x: Result<Val>, y: Result<Val>, e: Result<Val>, m: Memory, clocks: nat, v: seq<real>, w: seq<real>)
    requires Language.Proper(e) && |v| == clocks && Leads(m, v, w) && (x.Ok? ==> x.value.value >= 1)
    ensures var r := ExecReset(x, y, e, m, clocks);
            r.Ok? ==> x.Ok? && y.Ok? && e.Ok? && 1 <= x.value.value < clocks && 0 <= y.value.value < clocks
                      && Leads(r.value, v, w[x.value.value := w[y.value.value] + e.value.value as real])
  {
    hide AfterResets;
    var r := ExecReset(x, y, e, m, clocks);
    if r.Ok? {
      var last := ClockReset(x.value.value, y.value.value, e.value.value);
      assert r.value.resets == m.resets + [last];
      OneMoreReset(m.resets, last, v);
    }
  }

  lemma Unreset(m: Memory, m': Memory, v: seq<real>, w: seq<real>)
    requires m'.resets == m.resets && Leads(m, v, w)
    ensures Leads(m', v, w)
  {}

  lemma {:induction false} DeclareAllResets(id: int, n: nat, m: Memory)
    ensures var r := DeclareAll(id, n, m); r.Ok? ==> r.value.resets == m.resets
    decreases n
  {
    if n > 0 {
      var d := Declare(id, 0, m.env);
      if d.Ok? {
        DeclareAllResets(id + 1, n - 1, m.(env := d.value));
      }
    }
  }

  /** The resets of a statement, one after the other, are its assignments to clocks. */
  lemma {:induction false} StatementClocks(fuel: nat, s: Stmt, m: Memory, clocks: nat, v: seq<real>, w: seq<real>)
    requires |v| == clocks && Leads(m, v, w) && WellTyped(s) && KeepsZero(s)
    ensures var r := Exec(fuel, s, m, clocks);
            r.Some? && r.value.Ok? ==> Leads(r.value.value, v, After(fuel, s, m, clocks, w))
    decreases fuel, s, 0
  {
    hide Eval, Address, ExecBlock, ExecReset, DeclareAll, Declare, Leads, Term, Formula, AfterBlock;
    assert |w| == clocks by { SameLength(m, v, w); }
    match s
    case ResetInt(x, e) => IntClocks(x, e, m, clocks, v, w);
    case ResetClock(x, y) => CopyClocks(x, y, m, clocks, v, w);
    case ResetSum(x, e, y) => SumClocks(x, e, y, m, clocks, v, w);
    case Seq(s1, s2) =>
      StatementClocks(fuel, s1, m, clocks, v, w);
      var r := Exec(fuel, s1, m, clocks);
      if r.Some? && r.value.Ok? {
        StatementClocks(fuel, s2, r.value.value, clocks, v, After(fuel, s1, m, clocks, w));
      }
    case If(c, s1, s2) =>
      var r := Eval(c, m.env, clocks);
      if r.Ok? {
        Unreset(m, Emit(m, r.value.constrs), v, w);
        BlockClocks(fuel, if r.value.value != 0 then s1 else s2, Emit(m, r.value.constrs), clocks, v, w);
      }
    case While(c, b) =>
      var r := Eval(c, m.env, clocks);
      if r.Ok? {
        Unreset(m, Emit(m, r.value.constrs), v, w);
        if r.value.value != 0 && fuel > 0 {
          var m' := Emit(m, r.value.constrs);
          BlockClocks(fuel - 1, b, m', clocks, v, w);
          var k := ExecBlock(fuel - 1, b, m', clocks);
          if k.Some? && k.value.Ok? {
            StatementClocks(fuel - 1, s, k.value.value, clocks, v, AfterBlock(fuel - 1, b, m', clocks, w));
          }
        }
      }
    case LocalArray(x) =>
      DeclareAllResets(x.id, x.size, m);
      var r := DeclareAll(x.id, x.size, m);
      if r.Ok? {
        Unreset(m, r.value, v, w);
      }
    case _ =>
      var r := Exec(fuel, s, m, clocks);
      if r.Some? && r.value.Ok? {
        Unreset(m, r.value.value, v, w);
      }
  }

  lemma SameLength(m: Memory, v: seq<real>, w: seq<real>)
    requires Leads(m, v, w)
    ensures |w| == |v| && w[0] == 0.0
  {}

  lemma IntClocks(x: Expr, e: Expr, m: Memory, clocks: nat, v: seq<real>, w: seq<real>)
    requires |v| == clocks == |w| && Leads(m, v, w) && WellTyped(ResetInt(x, e)) && KeepsZero(ResetInt(x, e))
    ensures var r := Exec(0, ResetInt(x, e), m, clocks).value; r.Ok? ==> Leads(r.value, v, After(0, ResetInt(x, e), m, clocks, w))
  {
    hide Eval, Address, ExecReset, AfterResets;
    AddressFrom(x, m, clocks);
    ResetLeads(Address(x, m.env, clocks), ZERO_CLOCK, Eval(e, m.env, clocks), m, clocks, v, w);
  }

  lemma SumClocks(x: Expr, e: Expr, y: Expr, m: Memory, clocks: nat, v: seq<real>, w: seq<real>)
    requires |v| == clocks == |w| && Leads(m, v, w) && WellTyped(ResetSum(x, e, y)) && KeepsZero(ResetSum(x, e, y))
    ensures var r := Exec(0, ResetSum(x, e, y), m, clocks).value;
            r.Ok? ==> Leads(r.value, v, After(0, ResetSum(x, e, y), m, clocks, w))
  {
    hide Eval, Address, ExecReset, AfterResets;
    AddressFrom(x, m, clocks);
    ResetLeads(Address(x, m.env, clocks), Address(y, m.env, clocks), Eval(e, m.env, clocks), m, clocks, v, w);
  }

  lemma CopyClocks(x: Expr, y: Expr, m: Memory, clocks: nat, v: seq<real>, w: seq<real>)
    requires |v| == clocks == |w| && Leads(m, v, w) && WellTyped(ResetClock(x, y)) && KeepsZero(ResetClock(x, y))
    ensures var r := Exec(0, ResetClock(x, y), m, clocks).value;
            r.Ok? ==> Leads(r.value, v, After(0, ResetClock(x, y), m, clocks, w))
  {
    hide Eval, Address, ExecReset, AfterResets;
    AddressFrom(x, m, clocks);
    ResetLeads(Address(x, m.env, clocks), Address(y, m.env, clocks), Ok(Val(0, [])), m, clocks, v, w);
  }

  lemma {:induction false} BlockClocks(fuel: nat, s: Stmt, m: Memory, clocks: nat, v: seq<real>, w: seq<real>)
    requires |v| == clocks && Leads(m, v, w) && WellTyped(s) && KeepsZero(s)
    ensures |w| == clocks
    ensures var r := ExecBlock(fuel, s, m, clocks);
            r.Some? && r.value.Ok? ==> Leads(r.value.value, v, AfterBlock(fuel, s, m, clocks, w))
    decreases fuel, s, 1
  {
    hide Exec, After, AfterResets;
    var m' := if HasLocals(s) then Enter(m) else m;
    Unreset(m, m', v, w);
    StatementClocks(fuel, s, m', clocks, v, w);
    var r := Exec(fuel, s, m', clocks);
    if HasLocals(s) && r.Some? && r.value.Ok? && Leave(r.value.value).Ok? {
      Unreset(r.value.value, Leave(r.value.value).value, v, After(fuel, s, m', clocks, w));
    }
  }

  /** So when the machine returns from a compiled statement, the resets that it has put out lead to the clock values that the
      assignments of the statement say. */
  lemma ClocksCompiled(stmt: Stmt, m: Memory, clocks: nat, n: nat, v: seq<real>) returns (fuel: nat)
    requires WellTyped(stmt) && KeepsZero(stmt) && |v| == clocks >= 1 && v[0] == 0.0 && m.resets == []
    requires Steps(Program(StmtProgram(stmt), clocks), Start(m), n).Returned?
    ensures var rs := Steps(Program(StmtProgram(stmt), clocks), Start(m), n).mem.resets;
            AllClocks(rs, clocks) && AfterResets(rs, v) == AfterBlock(fuel, stmt, m, clocks, v)
  {
    hide Steps, ExecBlock, StmtProgram, AfterBlock;
    fuel := EndOfStatement(stmt, m, clocks, n);
    BlockClocks(fuel, stmt, m, clocks, v, v);
  }
}
