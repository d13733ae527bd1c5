/** What a frame is for: no declaration outlives the block that it stands in, and none needs a frame from outside. */
module Scopes {
  import opened Wrappers
  import opened Machine
  import opened Language
  import opened Compiler
  import opened CompilerCorrect
  import opened StatementCorrect

  // ----- declarations do not outlive their block -----

  /** The frame binds the same identifiers. */
  predicate SameNames(f: Frame, f': Frame) {
    f.Keys == f'.Keys
  }

  predicate SameScopes(fs: seq<Frame>, fs': seq<Frame>) {
    |fs| == |fs'| && forall k :: 0 <= k < |fs| ==> SameNames(fs[k], fs'[k])
  }

  /** All but the innermost frame bind the same identifiers, which may have gained some. */
  predicate Extends(fs: seq<Frame>, fs': seq<Frame>) {
    && |fs| == |fs'|
    && (forall k :: 0 <= k < |fs| - 1 ==> SameNames(fs[k], fs'[k]))
    && (fs != [] ==> fs[|fs| - 1].Keys <= fs'[|fs| - 1].Keys)
  }

  lemma {:induction false} UpdateScopes(fs: seq<Frame>, id: int, v: Integer)
    ensures Update(fs, id, v).Ok? ==> SameScopes(fs, Update(fs, id, v).value)
    decreases |fs|
  {
    if fs != [] {
      UpdateScopes(fs[..|fs| - 1], id, v);
    }
  }

  lemma DeclareExtends(id: int, v: Integer, env: Env)
    ensures var r := Declare(id, v, env); r.Ok? ==> Extends(env.frames, r.value.frames)
  {}

  lemma {:induction false} DeclareAllExtends(id: int, n: nat, m: Memory)
    ensures var r := DeclareAll(id, n, m); r.Ok? ==> Extends(m.env.frames, r.value.env.frames)
    decreases n
  {
    if n > 0 {
      var d := Declare(id, 0, m.env);
      DeclareExtends(id, 0, m.env);
      if d.Ok? {
        DeclareAllExtends(id + 1, n - 1, m.(env := d.value));
      }
    }
  }

  /** A statement may add names to the innermost frame, and only by declarations of its own. */
  lemma {:induction false} StatementScopes(fuel: nat, s: Stmt, m: Memory, clocks: nat)
    ensures var r := Exec(fuel, s, m, clocks);
            r.Some? && r.value.Ok? ==>
              && Extends(m.env.frames, r.value.value.env.frames)
              && (!HasLocals(s) ==> SameScopes(m.env.frames, r.value.value.env.frames))
    decreases fuel, s, 0
  {
    hide Eval, Address, ExecBlock, Declare;
    match s
    case Assign(x, e) =>
      if IsLvalue(x) {
        AssignScopes(x, Eval(e, m.env, clocks), m, clocks);
      }
    case Seq(s1, s2) =>
      StatementScopes(fuel, s1, m, clocks);
      var r := Exec(fuel, s1, m, clocks);
      if r.Some? && r.value.Ok? {
        StatementScopes(fuel, s2, r.value.value, clocks);
      }
    case If(c, s1, s2) =>
      var v := Eval(c, m.env, clocks);
      if v.Ok? {
        BlockScopes(fuel, if v.value.value != 0 then s1 else s2, Emit(m, v.value.constrs), clocks);
      }
    case While(c, b) =>
      var v := Eval(c, m.env, clocks);
      if v.Ok? && v.value.value != 0 && fuel > 0 {
        var m' := Emit(m, v.value.constrs);
        BlockScopes(fuel - 1, b, m', clocks);
        var r := ExecBlock(fuel - 1, b, m', clocks);
        if r.Some? && r.value.Ok? {
          StatementScopes(fuel - 1, s, r.value.value, clocks);
        }
      }
    case LocalVar(v, e) =>
      var r := Eval(e, m.env, clocks);
      if r.Ok? {
        DeclareExtends(v.id, r.value.value, m.env);
      }
    case LocalArray(v) => DeclareAllExtends(v.id, v.size, m);
    case _ =>
  }

  lemma AssignScopes(x: Expr, e: Result<Val>, m: Memory, clocks: nat)
    requires IsLvalue(x) && Language.Proper(e)
    ensures var r := ExecAssign(x.v.kind, x.v.min, x.v.max, Address(x, m.env, clocks), e, m);
            r.Ok? ==> SameScopes(m.env.frames, r.value.env.frames)
  {
    hide Eval, Address;
    var a := Address(x, m.env, clocks);
    if a.Ok? && e.Ok? {
      UpdateScopes(m.env.frames, a.value.value, e.value.value);
    }
  }

  /** A block that runs through leaves every frame with the identifiers that it had before. */
  lemma {:induction false} BlockScopes(fuel: nat, s: Stmt, m: Memory, clocks: nat)
    ensures var r := ExecBlock(fuel, s, m, clocks);
            r.Some? && r.value.Ok? ==> SameScopes(m.env.frames, r.value.value.env.frames)
    decreases fuel, s, 1
  {
    hide Exec;
    StatementScopes(fuel, s, if HasLocals(s) then Enter(m) else m, clocks);
  }

  /** The statements that a sequence consists of; branches and loops are single statements. */
  function Parts(s: Stmt): seq<Stmt> {
    match s
    case Seq(s1, s2) => Parts(s1) + Parts(s2)
    case _ => [s]
  }

  /** A block has a frame of its own exactly when a declaration stands in it. */
  lemma {:induction false} FramesExact(s: Stmt)
    ensures (BlockCode(s) == [PUSH_FRAME] + StmtCode(s) + [POP_FRAME]) <==> exists d :: d in Parts(s) && (d.LocalVar? || d.LocalArray?)
    ensures BlockCode(s) == StmtCode(s) <==> forall d :: d in Parts(s) ==> !d.LocalVar? && !d.LocalArray?
  {
    PartsExact(s);
    assert |[PUSH_FRAME] + StmtCode(s) + [POP_FRAME]| != |StmtCode(s)|;
  }

  lemma {:induction false} PartsExact(s: Stmt)
    ensures HasLocals(s) <==> exists d :: d in Parts(s) && (d.LocalVar? || d.LocalArray?)
  {
    match s
    case Seq(s1, s2) =>
      PartsExact(s1);
      PartsExact(s2);
    case _ =>
      assert s in Parts(s);
  }

  // ----- blocks bring the frames that they need -----

  /** One more frame at the bottom of the stack, with nothing in it. */
  function Deepened(fs: seq<Frame>): seq<Frame> {
    [map[]] + fs
  }

  function DeepEnv(env: Env): Env {
    env.(frames := Deepened(env.frames))
  }

  function Deep(m: Memory): Memory {
    m.(env := DeepEnv(m.env))
  }

  function Map<T, U>(r: Result<T>, f: T -> U): Result<U> {
    match r
    case Ok(x) => Ok(f(x))
    case Throws => Throws
    case Undefined => Undefined
  }

  function MapSome<T, U>(r: Option<Result<T>>, f: T -> U): Option<Result<U>> {
    match r
    case Some(x) => Some(Map(x, f))
    case None => None
  }

  lemma {:induction false} LookupDeep(fs: seq<Frame>, id: int)
    ensures Lookup(Deepened(fs), id) == Lookup(fs, id)
    decreases |fs|
  {
    var d := Deepened(fs);
    if fs == [] {
      assert d[..|d| - 1] == [];
    } else {
      assert d[..|d| - 1] == Deepened(fs[..|fs| - 1]);
      LookupDeep(fs[..|fs| - 1], id);
    }
  }

  lemma {:induction false} UpdateDeep(fs: seq<Frame>, id: int, v: Integer)
    ensures Update(Deepened(fs), id, v) == Map(Update(fs, id, v), Deepened)
    decreases |fs|
  {
    var d := Deepened(fs);
    if fs == [] {
      assert d[..|d| - 1] == [];
    } else {
      var top, rest := fs[|fs| - 1], fs[..|fs| - 1];
      assert d[..|d| - 1] == Deepened(rest) && d[|d| - 1] == top;
      UpdateDeep(rest, id, v);
      assert Deepened(rest) + [top[id := v]] == Deepened(rest + [top[id := v]]);
      var r := Update(rest, id, v);
      if r.Ok? {
        assert Deepened(r.value) + [top] == Deepened(r.value + [top]);
      }
    }
  }

  lemma {:induction false} EvalDeep(e: Expr, env: Env, clocks: nat)
    ensures Eval(e, DeepEnv(env), clocks) == Eval(e, env, clocks)
    ensures Address(e, DeepEnv(env), clocks) == Address(e, env, clocks)
    decreases e
  {
    hide EvalUnary, EvalBinary, EvalChoice, EvalPredicate, AsTruth, Mapped, TypeOf, Lookup;
    match e
    case Const(_) =>
    case Ref(v) => LoadDeep(v.kind, v.id, env);
    case Elem(v, off) =>
      EvalDeep(off, env, clocks);
      var a := Address(e, env, clocks);
      if a.Ok? {
        LoadDeep(v.kind, a.value.value, env);
      }
    case Par(x) => EvalDeep(x, env, clocks);
    case Unary(_, x) => EvalDeep(x, env, clocks);
    case Binary(_, l, r) =>
      EvalDeep(l, env, clocks);
      EvalDeep(r, env, clocks);
      if l.Binary? {
        EvalDeep(l.left, env, clocks);
        EvalDeep(l.right, env, clocks);
      }
    case Ite(c, t, f) =>
      EvalDeep(c, env, clocks);
      EvalDeep(t, env, clocks);
      EvalDeep(f, env, clocks);
  }

  lemma LoadDeep(kind: Kind, id: int, env: Env)
    ensures Load(kind, id, DeepEnv(env)) == Load(kind, id, env)
  {
    LookupDeep(env.frames, id);
  }

  lemma DeclareDeep(id: int, v: Integer, env: Env)
    requires env.frames != []
    ensures Declare(id, v, DeepEnv(env)) == Map(Declare(id, v, env), DeepEnv)
    ensures !Declare(id, v, env).Undefined?
  {
    var fs := env.frames;
    var d := Deepened(fs);
    var f := fs[|fs| - 1][id := v];
    assert d[|d| - 1] == fs[|fs| - 1];
    assert d[..|d| - 1] + [f] == Deepened(fs[..|fs| - 1] + [f]);
  }

  lemma {:induction false} DeclareAllDeep(id: int, n: nat, m: Memory)
    requires m.env.frames != []
    ensures DeclareAll(id, n, Deep(m)) == Map(DeclareAll(id, n, m), Deep)
    ensures !DeclareAll(id, n, m).Undefined?
    decreases n
  {
    hide Declare, Deepened, SameNames;
    if n > 0 {
      DeclareDeep(id, 0, m.env);
      DeclareExtends(id, 0, m.env);
      var d := Declare(id, 0, m.env);
      if d.Ok? {
        DeclareAllDeep(id + 1, n - 1, m.(env := d.value));
      }
    }
  }

  lemma AssignDeep(kind: Kind, min: Integer, max: Integer, x: Result<Val>, e: Result<Val>, m: Memory)
    requires Language.Proper(x) && Language.Proper(e)
    ensures ExecAssign(kind, min, max, x, e, Deep(m)) == Map(ExecAssign(kind, min, max, x, e, m), Deep)
  {
    hide Update;
    if x.Ok? && e.Ok? {
      UpdateDeep(m.env.frames, x.value.value, e.value.value);
    }
  }

  lemma ResetDeep(x: Result<Val>, y: Result<Val>, e: Result<Val>, m: Memory, clocks: nat)
    requires Language.Proper(e)
    ensures ExecReset(x, y, e, Deep(m), clocks) == Map(ExecReset(x, y, e, m, clocks), Deep)
  {}

  lemma ExecDeclareDeep(id: Id, e: Result<Val>, m: Memory)
    requires Language.Proper(e) && m.env.frames != []
    ensures ExecDeclare(id, e, Deep(m)) == Map(ExecDeclare(id, e, m), Deep)
  {
    hide Declare;
    if e.Ok? {
      DeclareDeep(id, e.value.value, m.env);
    }
  }

  /** With a frame for its declarations, a statement does not see how many frames there are. */
  lemma {:induction false} StatementDeep(fuel: nat, s: Stmt, m: Memory, clocks: nat)
    requires m.env.frames != [] || !HasLocals(s)
    ensures Exec(fuel, s, Deep(m), clocks) == MapSome(Exec(fuel, s, m, clocks), Deep)
    decreases fuel, s, 1
  {
    hide Eval, Address, ExecBlock, ExecAssign, ExecReset, ExecDeclare, DeclareAll;
    match s
    case Nop =>
    case Assign(x, e) =>
      EvalDeep(x, m.env, clocks);
      EvalDeep(e, m.env, clocks);
      if IsLvalue(x) {
        AssignDeep(x.v.kind, x.v.min, x.v.max, Address(x, m.env, clocks), Eval(e, m.env, clocks), m);
      }
    case ResetInt(x, e) =>
      EvalDeep(x, m.env, clocks);
      EvalDeep(e, m.env, clocks);
      ResetDeep(Address(x, m.env, clocks), ZERO_CLOCK, Eval(e, m.env, clocks), m, clocks);
    case ResetClock(x, y) =>
      EvalDeep(x, m.env, clocks);
      EvalDeep(y, m.env, clocks);
      ResetDeep(Address(x, m.env, clocks), Address(y, m.env, clocks), Ok(Val(0, [])), m, clocks);
    case ResetSum(x, e, y) =>
      EvalDeep(x, m.env, clocks);
      EvalDeep(e, m.env, clocks);
      EvalDeep(y, m.env, clocks);
      ResetDeep(Address(x, m.env, clocks), Address(y, m.env, clocks), Eval(e, m.env, clocks), m, clocks);
    case Seq(s1, s2) => SeqDeep(fuel, s, m, clocks);
    case If(c, s1, s2) =>
      EvalDeep(c, m.env, clocks);
      var v := Eval(c, m.env, clocks);
      if v.Ok? {
        BlockDeep(fuel, if v.value.value != 0 then s1 else s2, Emit(m, v.value.constrs), clocks);
      }
    case While(c, b) => WhileDeep(fuel, s, m, clocks);
    case LocalVar(v, e) =>
      EvalDeep(e, m.env, clocks);
      ExecDeclareDeep(v.id, Eval(e, m.env, clocks), m);
    case LocalArray(v) => DeclareAllDeep(v.id, v.size, m);
  }

  lemma {:induction false} SeqDeep(fuel: nat, s: Stmt, m: Memory, clocks: nat)
    requires s.Seq? && (m.env.frames != [] || !HasLocals(s))
    ensures Exec(fuel, s, Deep(m), clocks) == MapSome(Exec(fuel, s, m, clocks), Deep)
    decreases fuel, s, 0
  {
    StatementDeep(fuel, s.first, m, clocks);
    var r := Exec(fuel, s.first, m, clocks);
    if r.Some? && r.value.Ok? {
      StatementScopes(fuel, s.first, m, clocks);
      StatementDeep(fuel, s.second, r.value.value, clocks);
    }
  }

  lemma {:induction false} WhileDeep(fuel: nat, s: Stmt, m: Memory, clocks: nat)
    requires s.While?
    ensures Exec(fuel, s, Deep(m), clocks) == MapSome(Exec(fuel, s, m, clocks), Deep)
    decreases fuel, s, 0
  {
    hide Eval, ExecBlock;
    EvalDeep(s.guard, m.env, clocks);
    var v := Eval(s.guard, m.env, clocks);
    if v.Ok? && v.value.value != 0 && fuel > 0 {
      var m' := Emit(m, v.value.constrs);
      BlockDeep(fuel - 1, s.body, m', clocks);
      var r := ExecBlock(fuel - 1, s.body, m', clocks);
      if r.Some? && r.value.Ok? {
        StatementDeep(fuel - 1, s, r.value.value, clocks);
      }
    }
  }

  /** A block does not see it at all: where it runs without any frame, it runs the same below one, so that no declaration in it ever
      fails for want of a frame. */
  lemma {:induction false} BlockDeep(fuel: nat, s: Stmt, m: Memory, clocks: nat)
    ensures ExecBlock(fuel, s, Deep(m), clocks) == MapSome(ExecBlock(fuel, s, m, clocks), Deep)
    decreases fuel, s, 2
  {
    hide Exec;
    if HasLocals(s) {
      assert Enter(Deep(m)) == Deep(Enter(m)) by {
        assert Deepened(m.env.frames) + [map[]] == Deepened(m.env.frames + [map[]]);
      }
      StatementDeep(fuel, s, Enter(m), clocks);
      var r := Exec(fuel, s, Enter(m), clocks);
      if r.Some? && r.value.Ok? {
        StatementScopes(fuel, s, Enter(m), clocks);
        LeaveDeep(r.value.value);
      }
    } else {
      StatementDeep(fuel, s, m, clocks);
    }
  }

  lemma LeaveDeep(m: Memory)
    requires m.env.frames != []
    ensures Leave(Deep(m)) == Map(Leave(m), Deep)
  {
    var fs := m.env.frames;
    assert Deepened(fs)[..|fs|] == Deepened(fs[..|fs| - 1]);
  }

  // ----- so does the machine on compiled blocks -----

  lemma SameEnd(p: Program, s: State, n: nat, k: nat)
    requires !Steps(p, s, n).Running? && !Steps(p, s, k).Running?
    ensures Steps(p, s, n) == Steps(p, s, k)
  {
    hide Steps;
    if n <= k {
      StepsChain(p, s, n, k - n);
    } else {
      StepsChain(p, s, k, n - k);
    }
  }

  /** Where the machine ends on a compiled statement, the statement ends accordingly. */
  lemma EndOfStatement(stmt: Stmt, m: Memory, clocks: nat, n: nat) returns (fuel: nat)
    requires WellTyped(stmt) && !Steps(Program(StmtProgram(stmt), clocks), Start(m), n).Running?
    ensures ExecBlock(fuel, stmt, m, clocks).Some?
    ensures EndsWith(Steps(Program(StmtProgram(stmt), clocks), Start(m), n), ExecBlock(fuel, stmt, m, clocks).value, 1)
  {
    hide Steps, ExecBlock, StmtProgram;
    StatementEnds(stmt, m, clocks);
    fuel :| ExecBlock(fuel, stmt, m, clocks).Some?;
    var k := StatementCompiled(stmt, m, clocks, fuel);
    SameEnd(Program(StmtProgram(stmt), clocks), Start(m), n, k);
  }

  /** When the machine returns, every frame binds the identifiers that it did at the start. */
  lemma CompiledScopes(stmt: Stmt, m: Memory, clocks: nat, n: nat)
    requires WellTyped(stmt) && Steps(Program(StmtProgram(stmt), clocks), Start(m), n).Returned?
    ensures SameScopes(m.env.frames, Steps(Program(StmtProgram(stmt), clocks), Start(m), n).mem.env.frames)
  {
    hide Steps, ExecBlock, StmtProgram, SameScopes;
    var fuel := EndOfStatement(stmt, m, clocks, n);
    BlockScopes(fuel, stmt, m, clocks);
  }

  function DeepOutcome(o: Outcome): Outcome
    requires !o.Running?
  {
    match o
    case Returned(v, m) => Returned(v, Deep(m))
    case _ => o
  }

  /** The code never lacks a frame: with one more below, the machine ends just as it does without. */
  lemma CompiledDeep(stmt: Stmt, m: Memory, clocks: nat, n: nat) returns (k: nat)
    requires WellTyped(stmt) && !Steps(Program(StmtProgram(stmt), clocks), Start(m), n).Running?
    ensures Steps(Program(StmtProgram(stmt), clocks), Start(Deep(m)), k)
         == DeepOutcome(Steps(Program(StmtProgram(stmt), clocks), Start(m), n))
  {
    hide Steps, ExecBlock, StmtProgram;
    var fuel := EndOfStatement(stmt, m, clocks, n);
    BlockDeep(fuel, stmt, m, clocks);
    k := StatementCompiled(stmt, Deep(m), clocks, fuel);
  }
}
