/** Typed expressions and statements: their types, and what they mean without any machine. */
module Language {
  import opened Wrappers
  import opened Machine

  datatype Kind = IntKind | LocalKind | ClockKind

  /** Sizes of arrays of variables. */
  type Size = n: int | 1 <= n <= 0xffff_ffff witness 1

  type Id = n: int | 0 <= n <= 0xffff_ffff witness 0

  datatype Var = Var(kind: Kind, id: Id, size: Size, min: Integer, max: Integer)

  datatype UnaryOp = Neg | LNot

  datatype BinaryOp = LAnd | Lt | Le | Eq | Neq | Ge | Gt | Minus | Plus | Times | Div | Mod

  datatype Expr =
    | Const(value: Integer)
    | Ref(v: Var)
    | Elem(v: Var, offset: Expr)
    | Par(expr: Expr)
    | Unary(uop: UnaryOp, operand: Expr)
    | Binary(op: BinaryOp, left: Expr, right: Expr)
    | Ite(cond: Expr, thenValue: Expr, elseValue: Expr)

  datatype Stmt =
    | Nop
    | Assign(lvalue: Expr, rvalue: Expr)
    | ResetInt(clock: Expr, value: Expr)
    | ResetClock(clock: Expr, source: Expr)
    | ResetSum(clock: Expr, value: Expr, source: Expr)
    | Seq(first: Stmt, second: Stmt)
    | If(guard: Expr, thenStmt: Stmt, elseStmt: Stmt)
    | While(guard: Expr, body: Stmt)
    | LocalVar(v: Var, init: Expr)
    | LocalArray(v: Var)

  // ----- types -----

  datatype Type =
    | BadType | IntTerm | IntVar | IntArray | LocalIntVar | LocalIntArray | IntLvalue | LocalIntLvalue
    | ClkVar | ClkArray | ClkLvalue | ClkDiff | IntClkSum | AtomicPredicate | ClkConstrSimple | ClkConstrDiagonal
    | ConjunctiveFormula

  predicate IntegerDereference(t: Type) {
    t.IntVar? || t.IntArray? || t.LocalIntVar? || t.LocalIntArray?
  }

  predicate IntegerValued(t: Type) {
    t.IntTerm? || t.IntVar? || t.IntLvalue? || t.LocalIntVar? || t.LocalIntLvalue?
  }

  predicate IntegerAssignable(t: Type) {
    t.IntVar? || t.IntLvalue? || t.LocalIntVar? || t.LocalIntLvalue?
  }

  predicate ClockDereference(t: Type) {
    t.ClkVar? || t.ClkArray?
  }

  predicate ClockValued(t: Type) {
    t.ClkVar? || t.ClkLvalue?
  }

  predicate BoolValued(t: Type) {
    IntegerValued(t) || t.ClkConstrSimple? || t.ClkConstrDiagonal? || t.AtomicPredicate? || t.ConjunctiveFormula?
  }

  predicate Comparison(op: BinaryOp) {
    op.Lt? || op.Le? || op.Eq? || op.Neq? || op.Ge? || op.Gt?
  }

  function TypeOfVar(v: Var): Type {
    match v.kind
    case IntKind => if v.size > 1 then IntArray else IntVar
    case LocalKind => if v.size > 1 then LocalIntArray else LocalIntVar
    case ClockKind => if v.size > 1 then ClkArray else ClkVar
  }

  function TypeOfElem(v: Type, offset: Type): Type {
    if IntegerDereference(v) && IntegerValued(offset) then
      if v.LocalIntVar? || v.LocalIntArray? then LocalIntLvalue else IntLvalue
    else if ClockDereference(v) && IntegerValued(offset) then ClkLvalue
    else BadType
  }

  function TypeOfUnary(op: UnaryOp, t: Type): Type {
    match op
    case Neg => if IntegerValued(t) then IntTerm else BadType
    case LNot => if IntegerValued(t) || t.AtomicPredicate? then AtomicPredicate else BadType
  }

  function TypeOfBinary(op: BinaryOp, l: Type, r: Type): Type {
    match op
    case LAnd => if BoolValued(l) && BoolValued(r) then ConjunctiveFormula else BadType
    case Neq => if IntegerValued(l) && IntegerValued(r) then AtomicPredicate else BadType
    case Plus =>
      if IntegerValued(l) && IntegerValued(r) then IntTerm
      else if IntegerValued(l) && ClockValued(r) then IntClkSum
      else BadType
    case Minus =>
      if IntegerValued(l) && IntegerValued(r) then IntTerm
      else if ClockValued(l) && ClockValued(r) then ClkDiff
      else BadType
    case Times => if IntegerValued(l) && IntegerValued(r) then IntTerm else BadType
    case Div => if IntegerValued(l) && IntegerValued(r) then IntTerm else BadType
    case Mod => if IntegerValued(l) && IntegerValued(r) then IntTerm else BadType
    case _ =>
      if IntegerValued(l) && IntegerValued(r) then AtomicPredicate
      else if ClockValued(l) && IntegerValued(r) then ClkConstrSimple
      else if l.ClkDiff? && IntegerValued(r) then ClkConstrDiagonal
      else BadType
  }

  function TypeOf(e: Expr): Type {
    match e
    case Const(_) => IntTerm
    case Ref(v) => TypeOfVar(v)
    case Elem(v, off) => TypeOfElem(TypeOfVar(v), TypeOf(off))
    case Par(x) => TypeOf(x)
    case Unary(op, x) => TypeOfUnary(op, TypeOf(x))
    case Binary(op, l, r) => TypeOfBinary(op, TypeOf(l), TypeOf(r))
    case Ite(c, t, f) =>
      if BoolValued(TypeOf(c)) && IntegerValued(TypeOf(t)) && IntegerValued(TypeOf(f)) then IntTerm else BadType
  }

  predicate IsLvalue(e: Expr) {
    e.Ref? || e.Elem?
  }

  /** The clocks that a clock constraint compares are plain clocks or elements of clock arrays, not parenthesised ones. */
  predicate PlainClocks(e: Expr) {
    match e
    case Const(_) => true
    case Ref(_) => true
    case Elem(_, off) => PlainClocks(off)
    case Par(x) => PlainClocks(x)
    case Unary(_, x) => PlainClocks(x)
    case Binary(_, l, r) =>
      && PlainClocks(l) && PlainClocks(r)
      && (TypeOf(e).ClkConstrSimple? ==> IsLvalue(l))
      && (TypeOf(e).ClkConstrDiagonal? ==> l.Binary? && l.op.Minus? && IsLvalue(l.left) && IsLvalue(l.right))
    case Ite(c, t, f) => PlainClocks(c) && PlainClocks(t) && PlainClocks(f)
  }

  /** An expression with a truth value. */
  predicate Formula(e: Expr) {
    BoolValued(TypeOf(e)) && PlainClocks(e)
  }

  predicate Term(e: Expr) {
    IntegerValued(TypeOf(e)) && PlainClocks(e)
  }

  predicate ClockRef(e: Expr) {
    IsLvalue(e) && ClockValued(TypeOf(e)) && PlainClocks(e)
  }

  predicate WellTyped(s: Stmt) {
    match s
    case Nop => true
    case Assign(x, e) => IsLvalue(x) && IntegerAssignable(TypeOf(x)) && PlainClocks(x) && Term(e)
    case ResetInt(x, e) => ClockRef(x) && Term(e)
    case ResetClock(x, y) => ClockRef(x) && ClockRef(y)
    case ResetSum(x, e, y) => ClockRef(x) && Term(e) && ClockRef(y)
    case Seq(s1, s2) => WellTyped(s1) && WellTyped(s2)
    case If(c, s1, s2) => Formula(c) && WellTyped(s1) && WellTyped(s2)
    case While(c, b) => Formula(c) && WellTyped(b)
    case LocalVar(v, e) => v.kind.LocalKind? && v.size == 1 && Term(e)
    case LocalArray(v) => v.kind.LocalKind?
  }

  /** A statement declares local variables by itself, not only in a nested branch or loop. */
  predicate HasLocals(s: Stmt) {
    match s
    case Seq(s1, s2) => HasLocals(s1) || HasLocals(s2)
    case LocalVar(_, _) => true
    case LocalArray(_) => true
    case _ => false
  }

  // ----- meaning of expressions -----

  /** The value of an expression, and the clock constraints that its evaluation imposes. */
  datatype Val = Val(value: int, constrs: seq<ClockConstraint>)

  function Arith(op: BinaryOp, l: Integer, r: Integer): Result<Integer> {
    match op
    case LAnd => Ok(Truth(l != 0 && r != 0))
    case Lt => Ok(Truth(l < r))
    case Le => Ok(Truth(l <= r))
    case Eq => Ok(Truth(l == r))
    case Neq => Ok(Truth(l != r))
    case Ge => Ok(Truth(l >= r))
    case Gt => Ok(Truth(l > r))
    case Minus => Checked(l - r)
    case Plus => Checked(l + r)
    case Times => Checked(l * r)
    case Div => if r == 0 then Undefined else Checked(TruncDiv(l, r))
    case Mod => if r == 0 || (r == -1 && l == MIN_INTEGER) then Undefined else Checked(TruncMod(l, r))
  }

  predicate Proper(r: Result<Val>) {
    r.Ok? ==> IsInteger(r.value.value)
  }

  function Mapped(r: Result<Val>, v: Result<Integer>): (x: Result<Val>)
    requires r.Ok?
    ensures Proper(x)
  {
    match v
    case Ok(i) => Ok(Val(i, r.value.constrs))
    case Throws => Throws
    case Undefined => Undefined
  }

  function EvalUnary(op: UnaryOp, x: Result<Val>): (r: Result<Val>)
    requires Proper(x)
    ensures Proper(r)
  {
    if !x.Ok? then x
    else Mapped(x, if op.Neg? then Checked(-x.value.value) else Ok(Truth(x.value.value == 0)))
  }

  function EvalBinary(op: BinaryOp, x: Result<Val>, y: Result<Val>): (r: Result<Val>)
    requires Proper(x) && Proper(y)
    ensures Proper(r)
  {
    if !x.Ok? then x
    else if !y.Ok? then y
    else Mapped(Ok(Val(0, x.value.constrs + y.value.constrs)), Arith(op, x.value.value, y.value.value))
  }

  /** `x`, then `y` or `z` depending on the truth of `x`. */
  function EvalChoice(x: Result<Val>, y: Result<Val>, z: Result<Val>): (r: Result<Val>)
    requires Proper(y) && Proper(z)
    ensures Proper(r)
  {
    if !x.Ok? then x
    else
      var b := if x.value.value != 0 then y else z;
      if !b.Ok? then b else Ok(Val(b.value.value, x.value.constrs + b.value.constrs))
  }

  function AsTruth(x: Result<Val>): (r: Result<Val>)
    ensures Proper(r)
  {
    if x.Ok? then Ok(Val(Truth(x.value.value != 0), x.value.constrs)) else x
  }

  /** The constraint `x - y < b` or `x - y <= b`; a clock constraint counts as true. */
  function EvalConstraint(x: Result<Val>, y: Result<Val>, b: Result<Val>, strict: bool, clocks: nat): (r: Result<Val>)
    requires Proper(b)
    ensures Proper(r)
  {
    if !x.Ok? then x
    else if !y.Ok? then y
    else if !b.Ok? then b
    else if !ClockId(clocks, x.value.value) || !ClockId(clocks, y.value.value) then Throws
    else Ok(Val(1, x.value.constrs + y.value.constrs + b.value.constrs
                   + [ClockConstraint(x.value.value, y.value.value, strict, b.value.value)]))
  }

  /** `x - y op b` as one or two constraints with upper bounds. */
  function EvalPredicate(op: BinaryOp, x: Result<Val>, y: Result<Val>, b: Result<Val>, clocks: nat): (r: Result<Val>)
    requires Proper(b)
    ensures Proper(r)
  {
    match op
    case Lt => EvalConstraint(x, y, b, true, clocks)
    case Le => EvalConstraint(x, y, b, false, clocks)
    case Gt => EvalConstraint(y, x, EvalUnary(Neg, b), true, clocks)
    case Ge => EvalConstraint(y, x, EvalUnary(Neg, b), false, clocks)
    case _ => EvalBinary(LAnd, EvalConstraint(x, y, b, false, clocks), EvalConstraint(y, x, EvalUnary(Neg, b), false, clocks))
  }

  function Load(kind: Kind, id: int, env: Env): Result<Integer> {
    if kind.LocalKind? then Lookup(env.frames, id)
    else if 0 <= id < |env.vars| then Ok(env.vars[id])
    else Throws
  }

  const ZERO_CLOCK: Result<Val> := Ok(Val(0, []))

  /** The identifier of the variable, or of the array element, that an expression denotes. */
  function Address(e: Expr, env: Env, clocks: nat): (r: Result<Val>)
    ensures Proper(r) && (r.Ok? ==> r.value.value >= 0)
    decreases e, 0
  {
    match e
    case Ref(v) => if IsInteger(v.id) then Ok(Val(v.id, [])) else Throws
    case Elem(v, off) =>
      if !IsInteger(v.id) then Throws
      else
        var o := Eval(off, env, clocks);
        if !o.Ok? then o
        else if !(0 <= o.value.value <= v.size - 1) then Throws
        else Mapped(o, Checked(v.id + o.value.value))
    case _ => Throws
  }

  function Eval(e: Expr, env: Env, clocks: nat): (r: Result<Val>)
    ensures Proper(r)
    decreases e, 1
  {
    match e
    case Const(v) => Ok(Val(v, []))
    case Ref(v) => var a := Address(e, env, clocks); if a.Ok? then Mapped(a, Load(v.kind, a.value.value, env)) else a
    case Elem(v, _) => var a := Address(e, env, clocks); if a.Ok? then Mapped(a, Load(v.kind, a.value.value, env)) else a
    case Par(x) => Eval(x, env, clocks)
    case Unary(op, x) => EvalUnary(op, Eval(x, env, clocks))
    case Binary(op, l, r) =>
      if op.LAnd? then EvalChoice(Eval(l, env, clocks), AsTruth(Eval(r, env, clocks)), Ok(Val(0, [])))
      else if TypeOf(e).ClkConstrSimple? then
        EvalPredicate(op, Address(l, env, clocks), ZERO_CLOCK, Eval(r, env, clocks), clocks)
      else if TypeOf(e).ClkConstrDiagonal? && l.Binary? then
        EvalPredicate(op, Address(l.left, env, clocks), Address(l.right, env, clocks), Eval(r, env, clocks), clocks)
      else EvalBinary(op, Eval(l, env, clocks), Eval(r, env, clocks))
    case Ite(c, t, f) => EvalChoice(Eval(c, env, clocks), Eval(t, env, clocks), Eval(f, env, clocks))
  }

  // ----- meaning of statements -----

  function Emit(m: Memory, constrs: seq<ClockConstraint>): Memory {
    m.(constrs := m.constrs + constrs)
  }

  function Store(kind: Kind, id: Integer, v: Integer, env: Env): Result<Env> {
    if kind.LocalKind? then
      var r := Update(env.frames, id, v);
      if !IsId(id) || !r.Ok? then Throws else Ok(env.(frames := r.value))
    else if 0 <= id < |env.vars| then Ok(env.(vars := env.vars[id := v]))
    else Throws
  }

  function ExecAssign(kind: Kind, min: Integer, max: Integer, x: Result<Val>, e: Result<Val>, m: Memory): Result<Memory>
    requires Proper(x) && Proper(e)
  {
    if x.Throws? || (x.Ok? && e.Throws?) then Throws
    else if x.Undefined? || e.Undefined? then Undefined
    else if !(min <= e.value.value <= max) then Throws
    else
      match Store(kind, x.value.value, e.value.value, m.env)
      case Ok(env) => Ok(Emit(m, x.value.constrs + e.value.constrs).(env := env))
      case Throws => Throws
      case Undefined => Undefined
  }

  function ExecReset(x: Result<Val>, y: Result<Val>, e: Result<Val>, m: Memory, clocks: nat): Result<Memory>
    requires Proper(e)
  {
    if x.Throws? || (x.Ok? && y.Throws?) || (x.Ok? && y.Ok? && e.Throws?) then Throws
    else if x.Undefined? || y.Undefined? || e.Undefined? then Undefined
    else if !ClockId(clocks, x.value.value) || !ClockId(clocks, y.value.value) then Throws
    else
      var m' := Emit(m, x.value.constrs + y.value.constrs + e.value.constrs);
      Ok(m'.(resets := m'.resets + [ClockReset(x.value.value, y.value.value, e.value.value)]))
  }

  /** A local variable takes its initial value in the innermost frame. */
  function Declare(id: int, v: Integer, env: Env): Result<Env> {
    if !IsInteger(id) || id < 0 || v < 0 then Throws
    else if env.frames == [] then Undefined
    else
      var k := |env.frames| - 1;
      Ok(env.(frames := env.frames[..k] + [env.frames[k][id := v]]))
  }

  function ExecDeclare(id: Id, e: Result<Val>, m: Memory): Result<Memory>
    requires Proper(e)
  {
    if !IsInteger(id) || e.Throws? then Throws
    else if e.Undefined? then Undefined
    else
      match Declare(id, e.value.value, m.env)
      case Ok(env) => Ok(Emit(m, e.value.constrs).(env := env))
      case Throws => Throws
      case Undefined => Undefined
  }

  function DeclareAll(id: int, n: nat, m: Memory): Result<Memory>
    decreases n
  {
    if n == 0 then Ok(m)
    else
      match Declare(id, 0, m.env)
      case Ok(env) => DeclareAll(id + 1, n - 1, m.(env := env))
      case Throws => Throws
      case Undefined => Undefined
  }

  function Enter(m: Memory): Memory {
    m.(env := m.env.(frames := m.env.frames + [map[]]))
  }

  function Leave(m: Memory): Result<Memory> {
    var k := |m.env.frames|;
    if k == 0 then Undefined else Ok(m.(env := m.env.(frames := m.env.frames[..k - 1])))
  }

  /** Executes a statement with at most `fuel` nested rounds of loops; `None` when that is not enough. */
  function Exec(fuel: nat, s: Stmt, m: Memory, clocks: nat): Option<Result<Memory>>
    decreases fuel, s, 0
  {
    match s
    case Nop => Some(Ok(m))
    case Assign(x, e) =>
      if !IsLvalue(x) then Some(Throws)
      else Some(ExecAssign(x.v.kind, x.v.min, x.v.max, Address(x, m.env, clocks), Eval(e, m.env, clocks), m))
    case ResetInt(x, e) => Some(ExecReset(Address(x, m.env, clocks), ZERO_CLOCK, Eval(e, m.env, clocks), m, clocks))
    case ResetClock(x, y) =>
      Some(ExecReset(Address(x, m.env, clocks), Address(y, m.env, clocks), Ok(Val(0, [])), m, clocks))
    case ResetSum(x, e, y) =>
      Some(ExecReset(Address(x, m.env, clocks), Address(y, m.env, clocks), Eval(e, m.env, clocks), m, clocks))
    case Seq(s1, s2) =>
      var r := Exec(fuel, s1, m, clocks);
      if r.Some? && r.value.Ok? then Exec(fuel, s2, r.value.value, clocks) else r
    case If(c, s1, s2) =>
      (match Eval(c, m.env, clocks)
       case Ok(v) => ExecBlock(fuel, if v.value != 0 then s1 else s2, Emit(m, v.constrs), clocks)
       case Throws => Some(Throws)
       case Undefined => Some(Undefined))
    case While(c, b) =>
      (match Eval(c, m.env, clocks)
       case Ok(v) =>
         var m' := Emit(m, v.constrs);
         if v.value == 0 then Some(Ok(m'))
         else if fuel == 0 then None
         else
           var r := ExecBlock(fuel - 1, b, m', clocks);
           if r.Some? && r.value.Ok? then Exec(fuel - 1, s, r.value.value, clocks) else r
       case Throws => Some(Throws)
       case Undefined => Some(Undefined))
    case LocalVar(v, e) => Some(ExecDeclare(v.id, Eval(e, m.env, clocks), m))
    case LocalArray(v) => Some(DeclareAll(v.id, v.size, m))
  }

  /** A branch, a loop body or a whole program gets a frame of its own when it declares local variables. */
  function ExecBlock(fuel: nat, s: Stmt, m: Memory, clocks: nat): Option<Result<Memory>>
    decreases fuel, s, 1
  {
    if !HasLocals(s) then Exec(fuel, s, m, clocks)
    else
      var r := Exec(fuel, s, Enter(m), clocks);
      if r.Some? && r.value.Ok? then Some(Leave(r.value.value)) else r
  }

  /** More fuel never changes a result. */
  lemma {:induction false} FuelMonotone(f: nat, g: nat, s: Stmt, m: Memory, clocks: nat)
    requires f <= g && Exec(f, s, m, clocks).Some?
    ensures Exec(g, s, m, clocks) == Exec(f, s, m, clocks)
    decreases f, s, 0
  {
    hide Eval, Address, ExecAssign, ExecReset, ExecDeclare, DeclareAll, ExecBlock;
    match s
    case Seq(s1, s2) =>
      FuelMonotone(f, g, s1, m, clocks);
      var r := Exec(f, s1, m, clocks).value;
      if r.Ok? {
        FuelMonotone(f, g, s2, r.value, clocks);
      }
    case If(c, s1, s2) =>
      var v := Eval(c, m.env, clocks);
      if v.Ok? {
        BlockMonotone(f, g, if v.value.value != 0 then s1 else s2, Emit(m, v.value.constrs), clocks);
      }
    case While(c, b) =>
      var v := Eval(c, m.env, clocks);
      if v.Ok? && v.value.value != 0 {
        BlockMonotone(f - 1, g - 1, b, Emit(m, v.value.constrs), clocks);
        var r := ExecBlock(f - 1, b, Emit(m, v.value.constrs), clocks).value;
        if r.Ok? {
          FuelMonotone(f - 1, g - 1, s, r.value, clocks);
        }
      }
    case _ =>
  }

  lemma {:induction false} BlockMonotone(f: nat, g: nat, s: Stmt, m: Memory, clocks: nat)
    requires f <= g && ExecBlock(f, s, m, clocks).Some?
    ensures ExecBlock(g, s, m, clocks) == ExecBlock(f, s, m, clocks)
    decreases f, s, 1
  {
    hide Exec;
    FuelMonotone(f, g, s, if HasLocals(s) then Enter(m) else m, clocks);
  }
}
