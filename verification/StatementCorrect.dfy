/** Running the code of a statement executes the statement; it ends exactly when the statement does. */
module StatementCorrect {
  import opened Wrappers
  import opened Machine
  import opened Language
  import opened Compiler
  import opened CompilerCorrect

  // ----- what code does to the memory -----

  /** After `n` steps the machine has passed the fragment with its stack as before, or it has ended the way `r` does. */
  ghost predicate Does(p: Program, s: State, len: nat, r: Result<Memory>, n: nat) {
    match r
    case Ok(m) => Steps(p, s, n) == Running(State(s.ip + len, s.stack, m))
    case Throws => Steps(p, s, n) == Failed
    case Undefined => Steps(p, s, n) == Broken
  }

  // ----- assignments, resets and declarations -----

  lemma AssignStep(p: Program, s: State, kind: Kind, below: Stack, id: Integer, v: Integer)
    requires CodeAt(p, s.ip, [if kind.LocalKind? then ASSIGN_FRAME else ASSIGN]) && s.stack == Pushed(v, Pushed(id, below))
    ensures var r := Store(kind, id, v, s.mem.env);
            Steps(p, s, 1) == if r.Ok? then GotoEnv(s, s.ip + 1, below, r.value) else Failed
  {
    hide Update;
    assert IsInteger(id);
    CodeWords(p, s.ip, [if kind.LocalKind? then ASSIGN_FRAME else ASSIGN]);
    OneStep(p, s);
  }

  lemma AssignRuns(p: Program, s: State, x: seq<int>, e: seq<int>, v: Var, rx: Result<Val>, re: Result<Val>) returns (n: nat)
    requires CodeAt(p, s.ip, AssignCode(x, e, v)) && Proper(rx) && Proper(re)
    requires Everywhere(p, x, s.mem.env, true, rx) && Everywhere(p, e, s.mem.env, true, re)
    ensures Does(p, s, |AssignCode(x, e, v)|, ExecAssign(v.kind, v.min, v.max, rx, re, s.mem), n)
  {
    hide Means, Steps, CodeAt, Step, Store;
    var chk, i := [FAILNOTIN, v.min, v.max], [if v.kind.LocalKind? then ASSIGN_FRAME else ASSIGN];
    CodeSplit(p, s.ip, x + e + chk, i);
    assert x + e + chk == x + (e + chk);
    CodeSplit(p, s.ip, x, e + chk);
    EverywhereCheck(p, e, v.min, v.max, s.mem.env, re);
    var rc := if re.Ok? && !(v.min <= re.value.value <= v.max) then Throws else re;
    var w: int;
    n, w := RunFrom(p, s, |x|, s.mem.env, true, rx);
    if rx.Ok? {
      var t := After(s, |x|, rx.value, w);
      var k, z := RunFrom(p, t, |e + chk|, s.mem.env, true, rc);
      Onward(p, s, n, t, k);
      n := n + k;
      if rc.Ok? {
        var u := After(t, |e + chk|, rc.value, z);
        AssignStep(p, u, v.kind, s.stack, w, z);
        Onward(p, s, n, u, 1);
        n := n + 1;
        assert s.mem.constrs + rx.value.constrs + re.value.constrs == s.mem.constrs + (rx.value.constrs + re.value.constrs);
        StoreDefined(v.kind, w, z, s.mem.env);
      }
    }
  }

  lemma StoreDefined(kind: Kind, id: Integer, v: Integer, env: Env)
    ensures !Store(kind, id, v, env).Undefined?
  {}

  lemma ResetStep(p: Program, s: State, below: Stack, x: int, y: int, v: Integer)
    requires CodeAt(p, s.ip, [CLKRESET]) && s.stack == Pushed(v, Pushed(y, Pushed(x, below)))
    ensures Steps(p, s, 1)
         == if ClockId(p.clocks, x) && ClockId(p.clocks, y)
            then Running(State(s.ip + 1, below, s.mem.(resets := s.mem.resets + [ClockReset(x, y, v)])))
            else Failed
  {
    CodeWords(p, s.ip, [CLKRESET]);
    OneStep(p, s);
  }

  lemma ResetRuns(p: Program, s: State, x: seq<int>, y: seq<int>, e: seq<int>, rx: Result<Val>, ry: Result<Val>, re: Result<Val>)
    returns (n: nat)
    requires CodeAt(p, s.ip, ResetCode(x, y, e)) && Proper(re)
    requires Everywhere(p, x, s.mem.env, true, rx) && Everywhere(p, y, s.mem.env, true, ry) && Everywhere(p, e, s.mem.env, true, re)
    ensures Does(p, s, |ResetCode(x, y, e)|, ExecReset(rx, ry, re, s.mem, p.clocks), n)
  {
    hide Means, Steps, CodeAt, Step;
    CodeSplit(p, s.ip, x + y + e, [CLKRESET]);
    CodeSplit(p, s.ip, x + y, e);
    CodeSplit(p, s.ip, x, y);
    var w: int;
    n, w := RunFrom(p, s, |x|, s.mem.env, true, rx);
    if rx.Ok? {
      var t := After(s, |x|, rx.value, w);
      var k, z := RunFrom(p, t, |y|, s.mem.env, true, ry);
      Onward(p, s, n, t, k);
      n := n + k;
      if ry.Ok? {
        var u := After(t, |y|, ry.value, z);
        var j, q := RunFrom(p, u, |e|, s.mem.env, true, re);
        Onward(p, s, n, u, j);
        n := n + j;
        if re.Ok? {
          var f := After(u, |e|, re.value, q);
          ResetStep(p, f, s.stack, w, z, q);
          Onward(p, s, n, f, 1);
          n := n + 1;
          Regroup(s.mem.constrs, rx.value.constrs, ry.value.constrs, re.value.constrs, []);
          assert f.mem == Emit(s.mem, rx.value.constrs + ry.value.constrs + re.value.constrs);
        }
      }
    }
  }

  lemma DeclareStep(p: Program, s: State, below: Stack, id: Integer, v: Integer)
    requires CodeAt(p, s.ip, [INIT_FRAME]) && s.stack == Pushed(v, Pushed(id, below))
    ensures var r := Declare(id, v, s.mem.env);
            Steps(p, s, 1) == if r.Ok? then GotoEnv(s, s.ip + 1, below, r.value) else if r.Throws? then Failed else Broken
  {
    assert IsInteger(id) && IsInteger(v);
    CodeWords(p, s.ip, [INIT_FRAME]);
    OneStep(p, s);
  }

  lemma DeclareRuns(p: Program, s: State, id: Id, e: seq<int>, re: Result<Val>) returns (n: nat)
    requires CodeAt(p, s.ip, DeclareCode(id, e)) && Proper(re) && Everywhere(p, e, s.mem.env, true, re)
    ensures Does(p, s, |DeclareCode(id, e)|, ExecDeclare(id, re, s.mem), n)
  {
    hide Means, Steps, CodeAt, Step, Declare;
    CodeSplit(p, s.ip, [PUSH, id] + e, [INIT_FRAME]);
    CodeSplit(p, s.ip, [PUSH, id], e);
    EverywherePush(p, id, s.mem.env);
    var rx: Result<Val> := if IsInteger(id) then Ok(Val(id, [])) else Throws;
    var w: int;
    n, w := RunFrom(p, s, 2, s.mem.env, true, rx);
    if rx.Ok? {
      var t := After(s, 2, rx.value, w);
      var k, z := RunFrom(p, t, |e|, s.mem.env, true, re);
      Onward(p, s, n, t, k);
      n := n + k;
      if re.Ok? {
        var u := After(t, |e|, re.value, z);
        DeclareStep(p, u, s.stack, w, z);
        Onward(p, s, n, u, 1);
        n := n + 1;
        assert s.mem.constrs + [] + re.value.constrs == s.mem.constrs + re.value.constrs;
      }
    }
  }

  lemma {:induction false} ArrayRuns(p: Program, s: State, id: Id, size: nat) returns (n: nat)
    requires CodeAt(p, s.ip, ArrayCode(id, size))
    ensures Does(p, s, |ArrayCode(id, size)|, DeclareAll(id, size, s.mem), n)
    decreases size
  {
    hide Steps, CodeAt, Step, Declare, Everywhere;
    if size == 0 {
      n := NoStep(p, s);
    } else {
      var x := DeclareCode(id, [PUSH, 0]);
      CodeSplit(p, s.ip, x, ArrayCode(id + 1, size - 1));
      EverywherePush(p, 0, s.mem.env);
      n := DeclareRuns(p, s, id, [PUSH, 0], Ok(Val(0, [])));
      var r := ExecDeclare(id, Ok(Val(0, [])), s.mem);
      DeclareZero(id, s.mem);
      if r.Ok? {
        var t := State(s.ip + |x|, s.stack, r.value);
        var k := ArrayRuns(p, t, id + 1, size - 1);
        Onward(p, s, n, t, k);
        n := n + k;
      }
    }
  }

  lemma DeclareZero(id: Id, m: Memory)
    ensures var r, d := ExecDeclare(id, Ok(Val(0, [])), m), Declare(id, 0, m.env);
            && (r.Ok? ==> d.Ok? && r.value == m.(env := d.value) && IsId(id + 1))
            && (r.Throws? ==> d.Throws?) && (r.Undefined? ==> d.Undefined?)
  {
    assert m.constrs + [] == m.constrs;
    assert IsId(id);
  }

  lemma NoStep(p: Program, s: State) returns (n: nat)
    ensures n == 0 && Steps(p, s, n) == Running(s)
  {
    n := 0;
  }

  // ----- branches and loops -----

  /** A condition in place decides between two continuations. */
  lemma GuardRuns(p: Program, s: State, c: seq<int>, d: int, exact: bool, r: Result<Val>) returns (n: nat)
    requires CodeAt(p, s.ip, c + [JMPZ, d]) && Everywhere(p, c, s.mem.env, exact, r)
    ensures match r
            case Ok(v) => Steps(p, s, n) == Goto(s.(mem := Emit(s.mem, v.constrs)),
                                                 s.ip + |c| + 2 + if v.value == 0 then d else 0, s.stack)
            case Throws => Steps(p, s, n) == Failed
            case Undefined => Steps(p, s, n) == Broken
  {
    hide Means, Steps, Step, CodeAt;
    CodeSplit(p, s.ip, c, [JMPZ, d]);
    var w: int;
    n, w := RunFrom(p, s, |c|, s.mem.env, exact, r);
    if r.Ok? {
      var t := After(s, |c|, r.value, w);
      BranchStep(p, t, d, w, s.stack);
      Onward(p, s, n, t, 1);
      n := n + 1;
    }
  }

  lemma PopFrameStep(p: Program, s: State)
    requires CodeAt(p, s.ip, [POP_FRAME])
    ensures var r := Leave(s.mem);
            Steps(p, s, 1) == if r.Ok? then Running(State(s.ip + 1, s.stack, r.value)) else Broken
  {
    CodeWords(p, s.ip, [POP_FRAME]);
    OneStep(p, s);
  }

  lemma PushFrameStep(p: Program, s: State)
    requires CodeAt(p, s.ip, [PUSH_FRAME])
    ensures Steps(p, s, 1) == Running(State(s.ip + 1, s.stack, Enter(s.mem)))
  {
    CodeWords(p, s.ip, [PUSH_FRAME]);
    OneStep(p, s);
  }

  lemma BlockSplit(p: Program, at: int, s: Stmt)
    requires CodeAt(p, at, BlockCode(s)) && HasLocals(s)
    ensures CodeAt(p, at, [PUSH_FRAME]) && CodeAt(p, at + 1, StmtCode(s)) && CodeAt(p, at + 1 + |StmtCode(s)|, [POP_FRAME])
    ensures |BlockCode(s)| == |StmtCode(s)| + 2
  {
    hide StmtCode, CodeAt;
    CodeSplit(p, at, [PUSH_FRAME] + StmtCode(s), [POP_FRAME]);
    CodeSplit(p, at, [PUSH_FRAME], StmtCode(s));
  }

  lemma WhileSplit(p: Program, at: int, c: seq<int>, b: seq<int>)
    requires CodeAt(p, at, WhileCode(c, b))
    ensures CodeAt(p, at, c + [JMPZ, |b| + 2]) && CodeAt(p, at + |c| + 2, b)
    ensures CodeAt(p, at + |c| + 2 + |b|, [JMP, -(|c| + 2 + |b| + 2)])
    ensures |WhileCode(c, b)| == |c| + 2 + |b| + 2
  {
    hide CodeAt;
    var i, j := [JMPZ, |b| + 2], [JMP, -(|c| + 2 + |b| + 2)];
    CodeSplit(p, at, c + i + b, j);
    CodeSplit(p, at, c + i, b);
  }

  // ----- statements -----

  lemma {:induction false} SimpleRuns(p: Program, s: State, stmt: Stmt) returns (n: nat)
    requires CodeAt(p, s.ip, StmtCode(stmt)) && WellTyped(stmt)
    requires !stmt.Seq? && !stmt.If? && !stmt.While?
    ensures Does(p, s, |StmtCode(stmt)|, Exec(0, stmt, s.mem, p.clocks).value, n)
  {
    hide Means, Everywhere, Eval, Address, LvalueCode, RvalueCode, AssignCode, ResetCode, DeclareCode, ArrayCode, ExecAssign,
      ExecReset, ExecDeclare, DeclareAll, CodeAt, Steps;
    var env := s.mem.env;
    match stmt
    case Nop => n := NopRuns(p, s);
    case Assign(x, e) =>
      LvalueCorrect(p, x, env);
      RvalueCorrect(p, e, env);
      n := AssignRuns(p, s, LvalueCode(x), RvalueCode(e), x.v, Address(x, env, p.clocks), Eval(e, env, p.clocks));
    case ResetInt(x, e) =>
      LvalueCorrect(p, x, env);
      RvalueCorrect(p, e, env);
      EverywherePush(p, 0, env);
      n := ResetRuns(p, s, LvalueCode(x), [PUSH, 0], RvalueCode(e), Address(x, env, p.clocks), ZERO_CLOCK, Eval(e, env, p.clocks));
    case ResetClock(x, y) =>
      LvalueCorrect(p, x, env);
      LvalueCorrect(p, y, env);
      EverywherePush(p, 0, env);
      n := ResetRuns(p, s, LvalueCode(x), LvalueCode(y), [PUSH, 0],
                     Address(x, env, p.clocks), Address(y, env, p.clocks), Ok(Val(0, [])));
    case ResetSum(x, e, y) =>
      LvalueCorrect(p, x, env);
      LvalueCorrect(p, y, env);
      RvalueCorrect(p, e, env);
      n := ResetRuns(p, s, LvalueCode(x), LvalueCode(y), RvalueCode(e),
                     Address(x, env, p.clocks), Address(y, env, p.clocks), Eval(e, env, p.clocks));
    case LocalVar(v, e) =>
      RvalueCorrect(p, e, env);
      n := DeclareRuns(p, s, v.id, RvalueCode(e), Eval(e, env, p.clocks));
    case LocalArray(v) =>
      n := ArrayRuns(p, s, v.id, v.size);
  }

  lemma NopRuns(p: Program, s: State) returns (n: nat)
    requires CodeAt(p, s.ip, [NOP])
    ensures Steps(p, s, n) == Running(State(s.ip + 1, s.stack, s.mem))
  {
    CodeWords(p, s.ip, [NOP]);
    OneStep(p, s);
    n := 1;
  }

  /** A statement that ends, by running through, by an exception or without meaning, makes its code do the same. */
  lemma {:induction false} StmtRuns(p: Program, s: State, fuel: nat, stmt: Stmt) returns (n: nat)
    requires CodeAt(p, s.ip, StmtCode(stmt)) && WellTyped(stmt) && Exec(fuel, stmt, s.mem, p.clocks).Some?
    ensures Does(p, s, |StmtCode(stmt)|, Exec(fuel, stmt, s.mem, p.clocks).value, n)
    decreases fuel, stmt, 1
  {
    hide Means, Everywhere, Eval, Address, LvalueCode, RvalueCode, AssignCode, ResetCode, DeclareCode, ArrayCode, ExecAssign,
      ExecReset, ExecDeclare, DeclareAll, CodeAt, Steps, ExecBlock, BlockCode, Choice, WhileCode;
    match stmt
    case Seq(s1, s2) =>
      CodeSplit(p, s.ip, StmtCode(s1), StmtCode(s2));
      n := StmtRuns(p, s, fuel, s1);
      var r := Exec(fuel, s1, s.mem, p.clocks).value;
      if r.Ok? {
        var t := State(s.ip + |StmtCode(s1)|, s.stack, r.value);
        var k := StmtRuns(p, t, fuel, s2);
        Onward(p, s, n, t, k);
        n := n + k;
      }
    case If(c, s1, s2) =>
      n := IfRuns(p, s, fuel, stmt);
    case While(c, b) =>
      n := WhileRuns(p, s, fuel, stmt);
    case _ =>
      n := SimpleRuns(p, s, stmt);
  }

  lemma {:induction false} BlockRuns(p: Program, s: State, fuel: nat, stmt: Stmt) returns (n: nat)
    requires CodeAt(p, s.ip, BlockCode(stmt)) && WellTyped(stmt) && ExecBlock(fuel, stmt, s.mem, p.clocks).Some?
    ensures Does(p, s, |BlockCode(stmt)|, ExecBlock(fuel, stmt, s.mem, p.clocks).value, n)
    decreases fuel, stmt, 2
  {
    hide CodeAt, Steps, Exec, StmtCode, Enter;
    if HasLocals(stmt) {
      BlockSplit(p, s.ip, stmt);
      PushFrameStep(p, s);
      var t := State(s.ip + 1, s.stack, Enter(s.mem));
      var k := StmtRuns(p, t, fuel, stmt);
      Onward(p, s, 1, t, k);
      n := 1 + k;
      var r := Exec(fuel, stmt, t.mem, p.clocks).value;
      if r.Ok? {
        var u := State(t.ip + |StmtCode(stmt)|, s.stack, r.value);
        PopFrameStep(p, u);
        Onward(p, s, n, u, 1);
        n := n + 1;
      }
    } else {
      n := StmtRuns(p, s, fuel, stmt);
    }
  }

  lemma {:induction false} IfRuns(p: Program, s: State, fuel: nat, stmt: Stmt) returns (n: nat)
    requires stmt.If?
    requires CodeAt(p, s.ip, StmtCode(stmt)) && WellTyped(stmt) && Exec(fuel, stmt, s.mem, p.clocks).Some?
    ensures Does(p, s, |StmtCode(stmt)|, Exec(fuel, stmt, s.mem, p.clocks).value, n)
    decreases fuel, stmt, 0
  {
    hide Means, Everywhere, Eval, RvalueCode, CodeAt, Steps, ExecBlock, BlockCode;
    var c, y, z := RvalueCode(stmt.guard), BlockCode(stmt.thenStmt), BlockCode(stmt.elseStmt);
    ChoiceSplit(p, s.ip, c, y, z);
    CodeJoin(p, s.ip, c, [JMPZ, |y| + 2]);
    RvalueCorrect(p, stmt.guard, s.mem.env);
    var r := Eval(stmt.guard, s.mem.env, p.clocks);
    n := GuardRuns(p, s, c, |y| + 2, Exact(stmt.guard), r);
    assert |Choice(c, y, z)| == |c| + 2 + |y| + 2 + |z|;
    if r.Ok? {
      var m := Emit(s.mem, r.value.constrs);
      if r.value.value != 0 {
        var t := State(s.ip + |c| + 2, s.stack, m);
        var k := BlockRuns(p, t, fuel, stmt.thenStmt);
        Onward(p, s, n, t, k);
        n := n + k;
        var b := ExecBlock(fuel, stmt.thenStmt, m, p.clocks).value;
        if b.Ok? {
          var e := State(t.ip + |y|, s.stack, b.value);
          JumpStep(p, e, |z|);
          Onward(p, s, n, e, 1);
          n := n + 1;
        }
      } else {
        var t := State(s.ip + |c| + 2 + |y| + 2, s.stack, m);
        var k := BlockRuns(p, t, fuel, stmt.elseStmt);
        Onward(p, s, n, t, k);
        n := n + k;
      }
    }
  }

  lemma CodeJoin(p: Program, at: int, x: seq<int>, y: seq<int>)
    requires CodeAt(p, at, x) && CodeAt(p, at + |x|, y)
    ensures CodeAt(p, at, x + y)
  {
    assert p.code[at..at + |x + y|] == p.code[at..at + |x|] + p.code[at + |x|..at + |x| + |y|];
  }

  lemma {:induction false} WhileRuns(p: Program, s: State, fuel: nat, stmt: Stmt) returns (n: nat)
    requires stmt.While?
    requires CodeAt(p, s.ip, StmtCode(stmt)) && WellTyped(stmt) && Exec(fuel, stmt, s.mem, p.clocks).Some?
    ensures Does(p, s, |StmtCode(stmt)|, Exec(fuel, stmt, s.mem, p.clocks).value, n)
    decreases fuel, stmt, 0
  {
    hide Means, Everywhere, Eval, RvalueCode, CodeAt, Steps, ExecBlock, BlockCode;
    var c, b := RvalueCode(stmt.guard), BlockCode(stmt.body);
    WhileSplit(p, s.ip, c, b);
    RvalueCorrect(p, stmt.guard, s.mem.env);
    var r := Eval(stmt.guard, s.mem.env, p.clocks);
    n := GuardRuns(p, s, c, |b| + 2, Exact(stmt.guard), r);
    if r.Ok? && r.value.value != 0 {
      var m := Emit(s.mem, r.value.constrs);
      var t := State(s.ip + |c| + 2, s.stack, m);
      var k := BlockRuns(p, t, fuel - 1, stmt.body);
      Onward(p, s, n, t, k);
      n := n + k;
      var d := ExecBlock(fuel - 1, stmt.body, m, p.clocks).value;
      if d.Ok? {
        var e := State(t.ip + |b|, s.stack, d.value);
        JumpStep(p, e, -(|c| + 2 + |b| + 2));
        Onward(p, s, n, e, 1);
        var u := State(s.ip, s.stack, d.value);
        var j := StmtRuns(p, u, fuel - 1, stmt);
        Onward(p, s, n + 1, u, j);
        n := n + 1 + j;
      }
    }
  }

  // ----- the machine ends only when the statement does -----

  /** What is left to run once a part of the code has been passed. */
  lemma Remaining(p: Program, s: State, k: nat, t: State, n: nat)
    requires Steps(p, s, k) == Running(t) && !Steps(p, s, n).Running?
    ensures k < n && !Steps(p, t, n - k).Running?
  {
    if k < n {
      Onward(p, s, k, t, n - k);
    } else {
      StepsChain(p, s, n, k - n);
    }
  }

  function Max(a: nat, b: nat): nat {
    if a < b then b else a
  }

  /** If the machine comes to an end at all, then so does the statement: its code cannot escape, nor end a loop early. */
  lemma {:induction false} StmtEnds(p: Program, s: State, stmt: Stmt, n: nat) returns (fuel: nat)
    requires CodeAt(p, s.ip, StmtCode(stmt)) && WellTyped(stmt) && !Steps(p, s, n).Running?
    ensures Exec(fuel, stmt, s.mem, p.clocks).Some?
    decreases n, stmt, 1
  {
    hide Means, Everywhere, Eval, Address, LvalueCode, RvalueCode, AssignCode, ResetCode, DeclareCode, ArrayCode, ExecAssign,
      ExecReset, ExecDeclare, DeclareAll, CodeAt, Steps, ExecBlock, BlockCode, Choice, WhileCode;
    match stmt
    case Seq(s1, s2) =>
      CodeSplit(p, s.ip, StmtCode(s1), StmtCode(s2));
      var f := StmtEnds(p, s, s1, n);
      var r := Exec(f, s1, s.mem, p.clocks).value;
      fuel := f;
      if r.Ok? {
        var k := StmtRuns(p, s, f, s1);
        var t := State(s.ip + |StmtCode(s1)|, s.stack, r.value);
        Remaining(p, s, k, t, n);
        var g := StmtEnds(p, t, s2, n - k);
        fuel := Max(f, g);
        FuelMonotone(f, fuel, s1, s.mem, p.clocks);
        FuelMonotone(g, fuel, s2, r.value, p.clocks);
      }
    case If(c, s1, s2) =>
      fuel := IfEnds(p, s, stmt, n);
    case While(c, b) =>
      fuel := WhileEnds(p, s, stmt, n);
    case _ =>
      fuel := 0;
  }

  lemma {:induction false} BlockEnds(p: Program, s: State, stmt: Stmt, n: nat) returns (fuel: nat)
    requires CodeAt(p, s.ip, BlockCode(stmt)) && WellTyped(stmt) && !Steps(p, s, n).Running?
    ensures ExecBlock(fuel, stmt, s.mem, p.clocks).Some?
    decreases n, stmt, 2
  {
    hide CodeAt, Steps, Exec, StmtCode, Enter;
    if HasLocals(stmt) {
      BlockSplit(p, s.ip, stmt);
      PushFrameStep(p, s);
      var t := State(s.ip + 1, s.stack, Enter(s.mem));
      Remaining(p, s, 1, t, n);
      fuel := StmtEnds(p, t, stmt, n - 1);
    } else {
      fuel := StmtEnds(p, s, stmt, n);
    }
  }

  lemma {:induction false} IfEnds(p: Program, s: State, stmt: Stmt, n: nat) returns (fuel: nat)
    requires stmt.If? && CodeAt(p, s.ip, StmtCode(stmt)) && WellTyped(stmt) && !Steps(p, s, n).Running?
    ensures Exec(fuel, stmt, s.mem, p.clocks).Some?
    decreases n, stmt, 0
  {
    hide Means, Everywhere, Eval, RvalueCode, CodeAt, Steps, ExecBlock, BlockCode;
    fuel := 0;
    var c, y, z := RvalueCode(stmt.guard), BlockCode(stmt.thenStmt), BlockCode(stmt.elseStmt);
    ChoiceSplit(p, s.ip, c, y, z);
    CodeJoin(p, s.ip, c, [JMPZ, |y| + 2]);
    RvalueCorrect(p, stmt.guard, s.mem.env);
    var r := Eval(stmt.guard, s.mem.env, p.clocks);
    var k := GuardRuns(p, s, c, |y| + 2, Exact(stmt.guard), r);
    if r.Ok? {
      var m := Emit(s.mem, r.value.constrs);
      if r.value.value != 0 {
        var t := State(s.ip + |c| + 2, s.stack, m);
        Remaining(p, s, k, t, n);
        fuel := BlockEnds(p, t, stmt.thenStmt, n - k);
      } else {
        var t := State(s.ip + |c| + 2 + |y| + 2, s.stack, m);
        Remaining(p, s, k, t, n);
        fuel := BlockEnds(p, t, stmt.elseStmt, n - k);
      }
    }
  }

  lemma {:induction false} WhileEnds(p: Program, s: State, stmt: Stmt, n: nat) returns (fuel: nat)
    requires stmt.While? && CodeAt(p, s.ip, StmtCode(stmt)) && WellTyped(stmt) && !Steps(p, s, n).Running?
    ensures Exec(fuel, stmt, s.mem, p.clocks).Some?
    decreases n, stmt, 0
  {
    hide Means, Everywhere, Eval, RvalueCode, CodeAt, Steps, BlockCode, ExecBlock;
    fuel := 0;
    var c, b := RvalueCode(stmt.guard), BlockCode(stmt.body);
    WhileSplit(p, s.ip, c, b);
    RvalueCorrect(p, stmt.guard, s.mem.env);
    var r := Eval(stmt.guard, s.mem.env, p.clocks);
    var k := GuardRuns(p, s, c, |b| + 2, Exact(stmt.guard), r);
    if r.Ok? && r.value.value != 0 {
      var m := Emit(s.mem, r.value.constrs);
      var t := State(s.ip + |c| + 2, s.stack, m);
      Remaining(p, s, k, t, n);
      var f := BlockEnds(p, t, stmt.body, n - k);
      var d := ExecBlock(f, stmt.body, m, p.clocks).value;
      fuel := f + 1;
      if d.Ok? {
        var j := BlockRuns(p, t, f, stmt.body);
        var e := State(t.ip + |b|, s.stack, d.value);
        Remaining(p, t, j, e, n - k);
        JumpStep(p, e, -(|c| + 2 + |b| + 2));
        var u := State(s.ip, s.stack, d.value);
        Remaining(p, e, 1, u, n - k - j);
        var g := StmtEnds(p, u, stmt, n - k - j - 1);
        fuel := Max(f, g) + 1;
        BlockMonotone(f, fuel - 1, stmt.body, m, p.clocks);
        FuelMonotone(g, fuel - 1, stmt, d.value, p.clocks);
      }
    }
  }

  // ----- whole programs -----

  /** The code of an expression on its own: its value is returned. */
  function ExprProgram(e: Expr): seq<int> {
    RvalueCode(e) + [RET]
  }

  /** The code of a statement on its own: 1 is returned. */
  function StmtProgram(s: Stmt): seq<int> {
    BlockCode(s) + [PUSH, 1] + [RET]
  }

  function Start(m: Memory): State {
    State(0, Empty, m)
  }

  /** How the machine must end when a program ends with `r`: it returns `w`, or it fails as `r` says. */
  predicate EndsWith(o: Outcome, r: Result<Memory>, w: int) {
    match r
    case Ok(m) => IsInteger(w) && o == Returned(w, m)
    case Throws => o == Failed
    case Undefined => o == Broken
  }

  function Imposed(m: Memory, r: Result<Val>): Result<Memory> {
    match r
    case Ok(v) => Ok(Emit(m, v.constrs))
    case Throws => Throws
    case Undefined => Undefined
  }

  lemma ReturnStep(p: Program, s: State, v: Integer)
    requires CodeAt(p, s.ip, [RET]) && s.stack == Pushed(v, Empty)
    ensures Steps(p, s, 1) == Returned(v, s.mem)
  {
    CodeWords(p, s.ip, [RET]);
    OneStep(p, s);
  }

  /** A compiled formula returns its value, or for a conjunction its truth, imposes its clock constraints, leaves the variables
      alone, and fails exactly as the formula does. */
  lemma ExpressionCompiled(e: Expr, m: Memory, clocks: nat) returns (n: nat, w: int)
    requires Formula(e)
    ensures var r := Eval(e, m.env, clocks);
            && EndsWith(Steps(Program(ExprProgram(e), clocks), Start(m), n), Imposed(m, r), w)
            && (r.Ok? ==> Stands(Exact(e), w, r.value.value))
  {
    hide Means, Steps, CodeAt, Step;
    var p, s := Program(ExprProgram(e), clocks), Start(m);
    WholeProgram(p);
    CodeSplit(p, 0, RvalueCode(e), [RET]);
    RvalueCorrect(p, e, m.env);
    var r := Eval(e, m.env, clocks);
    n, w := RunFrom(p, s, |RvalueCode(e)|, m.env, Exact(e), r);
    if r.Ok? {
      var t := After(s, |RvalueCode(e)|, r.value, w);
      ReturnStep(p, t, w);
      Onward(p, s, n, t, 1);
      n := n + 1;
    }
  }

  lemma WholeProgram(p: Program)
    ensures CodeAt(p, 0, p.code)
  {}

  /** A compiled statement that ends makes the machine end in the same memory, with 1 returned, or fail the same way. */
  lemma StatementCompiled(stmt: Stmt, m: Memory, clocks: nat, fuel: nat) returns (n: nat)
    requires WellTyped(stmt) && ExecBlock(fuel, stmt, m, clocks).Some?
    ensures EndsWith(Steps(Program(StmtProgram(stmt), clocks), Start(m), n), ExecBlock(fuel, stmt, m, clocks).value, 1)
  {
    hide Steps, CodeAt, Step, ExecBlock, BlockCode;
    var p, s := Program(StmtProgram(stmt), clocks), Start(m);
    WholeProgram(p);
    CodeSplit(p, 0, BlockCode(stmt) + [PUSH, 1], [RET]);
    CodeSplit(p, 0, BlockCode(stmt), [PUSH, 1]);
    n := BlockRuns(p, s, fuel, stmt);
    var r := ExecBlock(fuel, stmt, m, clocks).value;
    if r.Ok? {
      var t := State(|BlockCode(stmt)|, Empty, r.value);
      PushStep(p, t, 1);
      Onward(p, s, n, t, 1);
      var u := State(t.ip + 2, Pushed(1, Empty), r.value);
      ReturnStep(p, u, 1);
      Onward(p, s, n + 1, u, 1);
      n := n + 2;
    }
  }

  lemma PushStep(p: Program, s: State, v: Integer)
    requires CodeAt(p, s.ip, [PUSH, v])
    ensures Steps(p, s, 1) == Goto(s, s.ip + 2, Pushed(v, s.stack))
  {
    CodeWords(p, s.ip, [PUSH, v]);
    OneStep(p, s);
  }

  /** The machine ends on a compiled statement if and only if the statement ends. */
  lemma StatementEnds(stmt: Stmt, m: Memory, clocks: nat)
    requires WellTyped(stmt)
    ensures (exists n: nat :: !Steps(Program(StmtProgram(stmt), clocks), Start(m), n).Running?)
       <==> (exists fuel: nat :: ExecBlock(fuel, stmt, m, clocks).Some?)
  {
    hide Steps, CodeAt, Step, ExecBlock, BlockCode;
    var p, s := Program(StmtProgram(stmt), clocks), Start(m);
    if n: nat :| !Steps(p, s, n).Running? {
      WholeProgram(p);
      CodeSplit(p, 0, BlockCode(stmt) + [PUSH, 1], [RET]);
      CodeSplit(p, 0, BlockCode(stmt), [PUSH, 1]);
      var fuel := BlockEnds(p, s, stmt, n);
    }
    if fuel: nat :| ExecBlock(fuel, stmt, m, clocks).Some? {
      var n := StatementCompiled(stmt, m, clocks, fuel);
      assert !Steps(p, s, n).Running?;
    }
  }

  /** The initial value of a local variable passes through an unsigned word: the machine, running a block that only declares it,
      returns if and only if that value is not negative and the identifier fits, and leaves the variables as they were. */
  lemma InitialiserCompiled(v: Var, e: Expr, m: Memory, clocks: nat) returns (n: nat)
    requires WellTyped(LocalVar(v, e)) && Eval(e, Enter(m).env, clocks).Ok?
    ensures var x := Eval(e, Enter(m).env, clocks).value;
            Steps(Program(StmtProgram(LocalVar(v, e)), clocks), Start(m), n)
              == if x.value >= 0 && IsInteger(v.id) then Returned(1, Emit(m, x.constrs)) else Failed
  {
    hide Steps, Eval;
    var stmt := LocalVar(v, e);
    n := StatementCompiled(stmt, m, clocks, 0);
    InitialiserMeaning(v, e, m, clocks);
  }

  lemma InitialiserMeaning(v: Var, e: Expr, m: Memory, clocks: nat)
    requires Eval(e, Enter(m).env, clocks).Ok?
    ensures var x := Eval(e, Enter(m).env, clocks).value;
            ExecBlock(0, LocalVar(v, e), m, clocks)
              == Some(if x.value >= 0 && IsInteger(v.id) then Ok(Emit(m, x.constrs)) else Throws)
  {
    hide Eval;
    assert v.id >= 0;
  }

  /** For instance, the code of a declaration with the initial value -1 fails. */
  lemma NegativeInitialiser(m: Memory, clocks: nat) returns (n: nat)
    ensures var s := LocalVar(Var(LocalKind, 0, 1, MIN_INTEGER, MAX_INTEGER), Const(-1));
            WellTyped(s) && Steps(Program(StmtProgram(s), clocks), Start(m), n) == Failed
  {
    hide Steps;
    n := InitialiserCompiled(Var(LocalKind, 0, 1, MIN_INTEGER, MAX_INTEGER), Const(-1), m, clocks);
  }
}
