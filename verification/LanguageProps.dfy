/** What the meaning of programs guarantees, independently of any code. */
module LanguageProps {
  import opened Wrappers
  import opened Machine
  import opened Language

  // ----- constant expressions -----

  /** The evaluator of constant expressions: both operands of a conjunction are evaluated. */
  function ConstEval(e: Expr): Result<Integer> {
    match e
    case Const(v) => Ok(v)
    case Ref(_) => Throws
    case Elem(_, _) => Throws
    case Par(x) => ConstEval(x)
    case Unary(op, x) =>
      var r := ConstEval(x);
      if !r.Ok? then r
      else
        var v: int := r.value;
        if op.Neg? then Checked(-v) else Ok(Truth(v == 0))
    case Binary(op, l, r) =>
      var x, y := ConstEval(l), ConstEval(r);
      if !x.Ok? then x else if !y.Ok? then y else Arith(op, x.value, y.value)
    case Ite(c, t, f) =>
      var x := ConstEval(c);
      if !x.Ok? then x else if x.value != 0 then ConstEval(t) else ConstEval(f)
  }

  predicate Constant(e: Expr) {
    match e
    case Const(_) => true
    case Ref(_) => false
    case Elem(_, _) => false
    case Par(x) => Constant(x)
    case Unary(_, x) => Constant(x)
    case Binary(_, l, r) => Constant(l) && Constant(r)
    case Ite(c, t, f) => Constant(c) && Constant(t) && Constant(f)
  }

  lemma {:induction false} ConstantTypes(e: Expr)
    requires Constant(e)
    ensures !ClockValued(TypeOf(e)) && !TypeOf(e).ClkDiff? && !TypeOf(e).IntClkSum?
    ensures !TypeOf(e).ClkConstrSimple? && !TypeOf(e).ClkConstrDiagonal?
  {
    match e
    case Const(_) =>
    case Par(x) => ConstantTypes(x);
    case Unary(_, x) =>
    case Binary(_, l, r) => ConstantTypes(l); ConstantTypes(r);
    case Ite(_, _, _) =>
  }

  function Plain(v: Integer): Result<Val> {
    Ok(Val(v, []))
  }

  lemma PlainOperators(x: Integer, y: Integer)
    ensures forall op: BinaryOp :: EvalBinary(op, Plain(x), Plain(y)) == Mapped(Plain(0), Arith(op, x, y))
    ensures forall z: Integer :: EvalChoice(Plain(x), Plain(y), Plain(z)) == if x != 0 then Plain(y) else Plain(z)
    ensures AsTruth(Plain(x)) == Plain(Truth(x != 0))
  {
    var none: seq<ClockConstraint> := [];
    assert none + none == none;
  }

  /** Where the evaluator of constants finds a value, so does every run, imposing no clock constraint. */
  lemma {:induction false} ConstantsAgree(e: Expr, env: Env, clocks: nat)
    requires Constant(e) && ConstEval(e).Ok?
    ensures Eval(e, env, clocks) == Plain(ConstEval(e).value)
    decreases e, 1
  {
    hide EvalBinary, EvalChoice, AsTruth, Arith, TypeOfBinary;
    match e
    case Const(_) =>
    case Par(x) => ConstantsAgree(x, env, clocks);
    case Unary(_, x) => ConstantsAgree(x, env, clocks);
    case Binary(op, l, r) => ConstantsAgreeBinary(e, env, clocks);
    case Ite(c, t, f) => ConstantsAgreeIte(e, env, clocks);
  }

  lemma {:induction false} ConstantsAgreeBinary(e: Expr, env: Env, clocks: nat)
    requires e.Binary? && Constant(e) && ConstEval(e).Ok?
    ensures Eval(e, env, clocks) == Plain(ConstEval(e).value)
    decreases e, 0
  {
    hide EvalBinary, EvalChoice, AsTruth, TypeOf, Address, EvalPredicate;
    ConstantsAgree(e.left, env, clocks);
    ConstantsAgree(e.right, env, clocks);
    var x, y := ConstEval(e.left).value, ConstEval(e.right).value;
    ConstantTypes(e);
    PlainOperators(x, y);
    PlainOperators(y, y);
    PlainOperators(x, Truth(y != 0));
    assert EvalChoice(Plain(x), Plain(Truth(y != 0)), Plain(0)) == Plain(Truth(x != 0 && y != 0));
  }

  lemma {:induction false} ConstantsAgreeIte(e: Expr, env: Env, clocks: nat)
    requires e.Ite? && Constant(e) && ConstEval(e).Ok?
    ensures Eval(e, env, clocks) == Plain(ConstEval(e).value)
    decreases e, 0
  {
    ConstantsAgree(e.cond, env, clocks);
    var b := if ConstEval(e.cond).value != 0 then e.thenValue else e.elseValue;
    ConstantsAgree(b, env, clocks);
    var none: seq<ClockConstraint> := [];
    assert none + none == none;
  }

  /** Every operand that a run skips, because a conjunction in an evaluated position has a false left operand, has a value. */
  predicate SkippedDefined(e: Expr, env: Env, clocks: nat) {
    match e
    case Par(x) => SkippedDefined(x, env, clocks)
    case Unary(_, x) => SkippedDefined(x, env, clocks)
    case Binary(op, l, r) =>
      && SkippedDefined(l, env, clocks)
      && if op.LAnd? && Eval(l, env, clocks).Ok? && Eval(l, env, clocks).value.value == 0 then ConstEval(r).Ok?
         else SkippedDefined(r, env, clocks)
    case Ite(c, t, f) =>
      && SkippedDefined(c, env, clocks)
      && (Eval(c, env, clocks).Ok? ==>
            if Eval(c, env, clocks).value.value != 0 then SkippedDefined(t, env, clocks) else SkippedDefined(f, env, clocks))
    case _ => true
  }

  /** The evaluator finds a value exactly when a run does and everything the run skips has a value as well. */
  lemma {:induction false} ConstantsExact(e: Expr, env: Env, clocks: nat)
    requires Constant(e)
    ensures ConstEval(e).Ok? <==> Eval(e, env, clocks).Ok? && SkippedDefined(e, env, clocks)
    decreases e, 1
  {
    hide EvalBinary, EvalChoice, AsTruth, Arith, TypeOfBinary;
    match e
    case Const(_) =>
    case Par(x) => ConstantsExact(x, env, clocks);
    case Unary(_, x) =>
      ConstantsExact(x, env, clocks);
      if ConstEval(x).Ok? {
        ConstantsAgree(x, env, clocks);
      }
    case Binary(_, _, _) => ConstantsExactBinary(e, env, clocks);
    case Ite(c, t, f) =>
      ConstantsExact(c, env, clocks);
      ConstantsExact(t, env, clocks);
      ConstantsExact(f, env, clocks);
      ChoiceOk(Eval(c, env, clocks), Eval(t, env, clocks), Eval(f, env, clocks));
      if ConstEval(c).Ok? {
        ConstantsAgree(c, env, clocks);
      }
  }

  lemma ChoiceOk(x: Result<Val>, y: Result<Val>, z: Result<Val>)
    requires Language.Proper(y) && Language.Proper(z)
    ensures EvalChoice(x, y, z).Ok? <==> x.Ok? && if x.value.value != 0 then y.Ok? else z.Ok?
  {}

  /** What a constant binary expression means. */
  lemma ConstantBinary(e: Expr, env: Env, clocks: nat)
    requires e.Binary? && Constant(e)
    ensures var x, y := Eval(e.left, env, clocks), Eval(e.right, env, clocks);
            Eval(e, env, clocks) == if e.op.LAnd? then EvalChoice(x, AsTruth(y), Ok(Val(0, []))) else EvalBinary(e.op, x, y)
  {
    ConstantTypes(e);
  }

  lemma {:induction false} ConstantsExactBinary(e: Expr, env: Env, clocks: nat)
    requires e.Binary? && Constant(e)
    ensures ConstEval(e).Ok? <==> Eval(e, env, clocks).Ok? && SkippedDefined(e, env, clocks)
    decreases e, 0
  {
    hide EvalBinary, EvalChoice, AsTruth, Eval;
    var x, y := Eval(e.left, env, clocks), Eval(e.right, env, clocks);
    ConstantsExact(e.left, env, clocks);
    ConstantsExact(e.right, env, clocks);
    ConstantBinary(e, env, clocks);
    ChoiceOk(x, AsTruth(y), Ok(Val(0, [])));
    BinaryOk(e.op, x, y);
    if ConstEval(e.left).Ok? {
      ConstantsAgree(e.left, env, clocks);
    }
    if ConstEval(e.right).Ok? {
      ConstantsAgree(e.right, env, clocks);
    }
  }

  lemma BinaryOk(op: BinaryOp, x: Result<Val>, y: Result<Val>)
    requires Language.Proper(x) && Language.Proper(y)
    ensures EvalBinary(op, x, y).Ok? <==> x.Ok? && y.Ok? && Arith(op, x.value.value, y.value.value).Ok?
    ensures AsTruth(y).Ok? <==> y.Ok?
    ensures op.LAnd? && x.Ok? && y.Ok? ==> Arith(op, x.value.value, y.value.value).Ok?
  {}

  predicate WithoutConjunctions(e: Expr) {
    match e
    case Par(x) => WithoutConjunctions(x)
    case Unary(_, x) => WithoutConjunctions(x)
    case Binary(op, l, r) => !op.LAnd? && WithoutConjunctions(l) && WithoutConjunctions(r)
    case Ite(c, t, f) => WithoutConjunctions(c) && WithoutConjunctions(t) && WithoutConjunctions(f)
    case _ => true
  }

  /** Without conjunctions the evaluator and a run agree completely, on failures too. */
  lemma {:induction false} AgreeWithoutConjunctions(e: Expr, env: Env, clocks: nat)
    requires Constant(e) && WithoutConjunctions(e)
    ensures Eval(e, env, clocks) == Mapped(Plain(0), ConstEval(e))
    decreases e
  {
    var none: seq<ClockConstraint> := [];
    assert none + none == none;
    match e
    case Const(_) =>
    case Par(x) => AgreeWithoutConjunctions(x, env, clocks);
    case Unary(_, x) => AgreeWithoutConjunctions(x, env, clocks);
    case Binary(_, l, r) =>
      hide Eval;
      AgreeWithoutConjunctions(l, env, clocks);
      AgreeWithoutConjunctions(r, env, clocks);
      ConstantBinary(e, env, clocks);
    case Ite(c, t, f) =>
      AgreeWithoutConjunctions(c, env, clocks);
      AgreeWithoutConjunctions(t, env, clocks);
      AgreeWithoutConjunctions(f, env, clocks);
  }

  /** An input on which they differ: what the run skips divides by zero. */
  lemma ShortCircuit(env: Env, clocks: nat)
    ensures var e := Binary(LAnd, Const(0), Binary(Div, Const(1), Const(0)));
            Formula(e) && Constant(e) && ConstEval(e).Undefined? && Eval(e, env, clocks) == Plain(0)
  {
    var none: seq<ClockConstraint> := [];
    assert none + none == none;
  }

  // ----- clock constraints -----

  predicate Holds(c: ClockConstraint, v: seq<real>)
    requires 0 <= c.first < |v| && 0 <= c.second < |v|
  {
    var d, b := v[c.first] - v[c.second], c.bound as real;
    if c.strict then d < b else d <= b
  }

  predicate AllHold(cs: seq<ClockConstraint>, v: seq<real>) {
    forall i :: 0 <= i < |cs| ==> 0 <= cs[i].first < |v| && 0 <= cs[i].second < |v| && Holds(cs[i], v)
  }

  predicate Compares(op: BinaryOp, d: real, b: real) {
    match op
    case Lt => d < b
    case Le => d <= b
    case Gt => d > b
    case Ge => d >= b
    case _ => d == b
  }

  lemma ConstraintExact(x: Id, y: Id, b: Integer, strict: bool, v: seq<real>)
    requires x < |v| && y < |v|
    ensures var r := EvalConstraint(Ok(Val(x, [])), Ok(Val(y, [])), Plain(b), strict, |v|);
            && r == Ok(Val(1, [ClockConstraint(x, y, strict, b)]))
            && (AllHold(r.value.constrs, v) <==> if strict then v[x] - v[y] < b as real else v[x] - v[y] <= b as real)
  {
    var c := ClockConstraint(x, y, strict, b);
    assert [] + [] + [] + [c] == [c];
    assert AllHold([c], v) <==> Holds([c][0], v);
  }

  lemma AllHoldConcat(cs: seq<ClockConstraint>, ds: seq<ClockConstraint>, v: seq<real>)
    ensures AllHold(cs + ds, v) <==> AllHold(cs, v) && AllHold(ds, v)
  {
    if AllHold(cs + ds, v) {
      assert forall i :: 0 <= i < |cs| ==> cs[i] == (cs + ds)[i];
      assert forall i :: 0 <= i < |ds| ==> ds[i] == (cs + ds)[|cs| + i];
    }
  }

  /** The constraints imposed for a comparison of two clocks allow exactly the valuations that satisfy the comparison; the
      comparison is defined unless its bound must be negated and is the smallest integer. */
  lemma PredicateExact(op: BinaryOp, x: Id, y: Id, b: Integer, v: seq<real>)
    requires x < |v| && y < |v|
    ensures var r := EvalPredicate(op, Ok(Val(x, [])), Ok(Val(y, [])), Plain(b), |v|);
            && (r.Ok? <==> op.Lt? || op.Le? || b != MIN_INTEGER)
            && (r.Ok? ==> r.value.value == 1 && (AllHold(r.value.constrs, v) <==> Compares(op, v[x] - v[y], b as real)))
  {
    hide EvalConstraint, AllHold;
    var z: int := b;
    ConstraintExact(x, y, b, true, v);
    ConstraintExact(x, y, b, false, v);
    if b != MIN_INTEGER {
      assert IsInteger(-z) && EvalUnary(Neg, Plain(b)) == Plain(-z);
      ConstraintExact(y, x, -z, true, v);
      ConstraintExact(y, x, -z, false, v);
      AllHoldConcat([ClockConstraint(x, y, false, b)], [ClockConstraint(y, x, false, -z)], v);
    } else {
      assert EvalUnary(Neg, Plain(b)).Undefined?;
      UndefinedBound(y, x, true, |v|);
      UndefinedBound(y, x, false, |v|);
    }
  }

  lemma UndefinedBound(x: Id, y: Id, strict: bool, clocks: nat)
    ensures EvalConstraint(Ok(Val(x, [])), Ok(Val(y, [])), Undefined, strict, clocks).Undefined?
  {}

  // ----- frames -----

  /** Blocks are balanced: a statement that runs through leaves as many frames as it has found. */
  lemma {:induction false} FramesBalanced(fuel: nat, s: Stmt, m: Memory, clocks: nat)
    ensures var r := Exec(fuel, s, m, clocks);
            r.Some? && r.value.Ok? ==> |r.value.value.env.frames| == |m.env.frames|
    decreases fuel, s, 0
  {
    hide Eval, Address, ExecBlock;
    match s
    case Seq(s1, s2) =>
      FramesBalanced(fuel, s1, m, clocks);
      var r := Exec(fuel, s1, m, clocks);
      if r.Some? && r.value.Ok? {
        FramesBalanced(fuel, s2, r.value.value, clocks);
      }
    case If(c, s1, s2) =>
      var v := Eval(c, m.env, clocks);
      if v.Ok? {
        BlockBalanced(fuel, if v.value.value != 0 then s1 else s2, Emit(m, v.value.constrs), clocks);
      }
    case While(c, b) =>
      var v := Eval(c, m.env, clocks);
      if v.Ok? && v.value.value != 0 && fuel > 0 {
        var m' := Emit(m, v.value.constrs);
        BlockBalanced(fuel - 1, b, m', clocks);
        var r := ExecBlock(fuel - 1, b, m', clocks);
        if r.Some? && r.value.Ok? {
          FramesBalanced(fuel - 1, s, r.value.value, clocks);
        }
      }
    case LocalArray(v) => DeclaredBalanced(v.id, v.size, m);
    case _ =>
  }

  lemma {:induction false} BlockBalanced(fuel: nat, s: Stmt, m: Memory, clocks: nat)
    ensures var r := ExecBlock(fuel, s, m, clocks);
            r.Some? && r.value.Ok? ==> |r.value.value.env.frames| == |m.env.frames|
    decreases fuel, s, 1
  {
    hide Exec;
    FramesBalanced(fuel, s, if HasLocals(s) then Enter(m) else m, clocks);
  }

  lemma {:induction false} DeclaredBalanced(id: int, n: nat, m: Memory)
    ensures var r := DeclareAll(id, n, m); r.Ok? ==> |r.value.env.frames| == |m.env.frames|
    ensures var r := DeclareAll(id, n, m); r.Ok? ==> r.value.env.vars == m.env.vars
    decreases n
  {
    if n > 0 {
      var d := Declare(id, 0, m.env);
      if d.Ok? {
        DeclaredBalanced(id + 1, n - 1, m.(env := d.value));
      }
    }
  }

  // ----- bounded variables -----

  /** The declared range of every flat integer variable. */
  datatype Ranges = Ranges(lo: seq<Integer>, hi: seq<Integer>)

  predicate InRange(rs: Ranges, vars: seq<Integer>) {
    |rs.lo| == |rs.hi| == |vars| && forall i :: 0 <= i < |vars| ==> rs.lo[i] <= vars[i] <= rs.hi[i]
  }

  /** The variable carries the range that its cells are declared with. */
  predicate Declared(rs: Ranges, v: Var) {
    && |rs.lo| == |rs.hi|
    && (v.kind.LocalKind?
        || (v.id + v.size <= |rs.lo| && forall i :: v.id <= i < v.id + v.size ==> rs.lo[i] == v.min && rs.hi[i] == v.max))
  }

  predicate AllDeclared(rs: Ranges, s: Stmt) {
    match s
    case Assign(x, _) => IsLvalue(x) ==> Declared(rs, x.v)
    case Seq(s1, s2) => AllDeclared(rs, s1) && AllDeclared(rs, s2)
    case If(_, s1, s2) => AllDeclared(rs, s1) && AllDeclared(rs, s2)
    case While(_, b) => AllDeclared(rs, b)
    case _ => true
  }

  /** No run takes an integer variable out of its declared range. */
  lemma {:induction false} RangesKept(rs: Ranges, fuel: nat, s: Stmt, m: Memory, clocks: nat)
    requires AllDeclared(rs, s) && InRange(rs, m.env.vars)
    ensures var r := Exec(fuel, s, m, clocks);
            r.Some? && r.value.Ok? ==> InRange(rs, r.value.value.env.vars)
    decreases fuel, s, 0
  {
    hide Eval, ExecBlock, Address;
    match s
    case Assign(x, e) =>
      if IsLvalue(x) {
        AssignKeeps(rs, x, Eval(e, m.env, clocks), m, clocks);
      }
    case Seq(s1, s2) =>
      RangesKept(rs, fuel, s1, m, clocks);
      var r := Exec(fuel, s1, m, clocks);
      if r.Some? && r.value.Ok? {
        RangesKept(rs, fuel, s2, r.value.value, clocks);
      }
    case If(c, s1, s2) =>
      var v := Eval(c, m.env, clocks);
      if v.Ok? {
        BlockKeeps(rs, fuel, if v.value.value != 0 then s1 else s2, Emit(m, v.value.constrs), clocks);
      }
    case While(c, b) =>
      var v := Eval(c, m.env, clocks);
      if v.Ok? && v.value.value != 0 && fuel > 0 {
        var m' := Emit(m, v.value.constrs);
        BlockKeeps(rs, fuel - 1, b, m', clocks);
        var r := ExecBlock(fuel - 1, b, m', clocks);
        if r.Some? && r.value.Ok? {
          RangesKept(rs, fuel - 1, s, r.value.value, clocks);
        }
      }
    case LocalArray(v) => DeclaredBalanced(v.id, v.size, m);
    case _ =>
  }

  lemma {:induction false} BlockKeeps(rs: Ranges, fuel: nat, s: Stmt, m: Memory, clocks: nat)
    requires AllDeclared(rs, s) && InRange(rs, m.env.vars)
    ensures var r := ExecBlock(fuel, s, m, clocks);
            r.Some? && r.value.Ok? ==> InRange(rs, r.value.value.env.vars)
    decreases fuel, s, 1
  {
    hide Exec;
    RangesKept(rs, fuel, s, if HasLocals(s) then Enter(m) else m, clocks);
  }

  lemma AssignKeeps(rs: Ranges, x: Expr, e: Result<Val>, m: Memory, clocks: nat)
    requires IsLvalue(x) && Declared(rs, x.v) && InRange(rs, m.env.vars) && Language.Proper(e)
    ensures var r := ExecAssign(x.v.kind, x.v.min, x.v.max, Address(x, m.env, clocks), e, m);
            r.Ok? ==> InRange(rs, r.value.env.vars)
  {
    hide Eval;
    var a := Address(x, m.env, clocks);
    if a.Ok? {
      assert x.v.id <= a.value.value < x.v.id + x.v.size;
    }
  }
}
