/** The compiler at work: visitors append instructions to a growing sequence, and refuse what is not well typed. */
module CodeWriter {
  import opened Machine
  import opened Language
  import opened Compiler
  import opened StatementCorrect

  // ----- what the visitors accept -----

  predicate LvalueAccepted(e: Expr)
    decreases e, 0
  {
    match e
    case Ref(_) => true
    case Elem(_, off) => TypeOf(e) != BadType && RvalueAccepted(off)
    case _ => false
  }

  predicate RvalueAccepted(e: Expr)
    decreases e, 1
  {
    match e
    case Const(_) => true
    case Ref(_) => true
    case Elem(_, _) => LvalueAccepted(e)
    case Par(x) => TypeOf(e) != BadType && RvalueAccepted(x)
    case Unary(op, x) => TypeOf(e) == (if op.Neg? then IntTerm else AtomicPredicate) && RvalueAccepted(x)
    case Binary(op, l, r) =>
      if TypeOf(e).ClkConstrSimple? then IsLvalue(l) && LvalueAccepted(l) && RvalueAccepted(r)
      else if TypeOf(e).ClkConstrDiagonal? then
        l.Binary? && IsLvalue(l.left) && IsLvalue(l.right) && LvalueAccepted(l.left) && LvalueAccepted(l.right) && RvalueAccepted(r)
      else
        && TypeOf(e) == (if op.LAnd? then ConjunctiveFormula else if Comparison(op) then AtomicPredicate else IntTerm)
        && RvalueAccepted(l) && RvalueAccepted(r)
    case Ite(c, t, f) => TypeOf(e) == IntTerm && RvalueAccepted(c) && RvalueAccepted(t) && RvalueAccepted(f)
  }

  /** Among the expressions with a truth value, exactly the formulas are accepted: no later error can occur in the compiler. */
  lemma {:induction false} AcceptedExact(e: Expr)
    requires BoolValued(TypeOf(e))
    ensures RvalueAccepted(e) <==> PlainClocks(e)
    decreases e, 1
  {
    match e
    case Const(_) =>
    case Ref(_) =>
    case Elem(_, off) => AcceptedExact(off);
    case Par(x) => AcceptedExact(x);
    case Unary(_, x) => AcceptedExact(x);
    case Binary(op, l, r) => AcceptedBinary(e);
    case Ite(c, t, f) =>
      AcceptedExact(c);
      AcceptedExact(t);
      AcceptedExact(f);
  }

  lemma {:induction false} AcceptedLvalue(e: Expr)
    requires IsLvalue(e) && TypeOf(e) != BadType
    ensures LvalueAccepted(e) <==> PlainClocks(e)
    decreases e, 0
  {
    match e
    case Ref(_) =>
    case Elem(_, off) => AcceptedExact(off);
  }

  lemma {:induction false} AcceptedBinary(e: Expr)
    requires BoolValued(TypeOf(e)) && e.Binary?
    ensures RvalueAccepted(e) <==> PlainClocks(e)
    decreases e, 0
  {
    var op, l, r := e.op, e.left, e.right;
    AcceptedExact(r);
    if TypeOf(e).ClkConstrSimple? {
      if IsLvalue(l) {
        AcceptedLvalue(l);
      }
    } else if TypeOf(e).ClkConstrDiagonal? {
      if l.Binary? {
        assert TypeOf(l) == TypeOfBinary(l.op, TypeOf(l.left), TypeOf(l.right));
        assert l.op.Minus? && ClockValued(TypeOf(l.left)) && ClockValued(TypeOf(l.right));
        if IsLvalue(l.left) && IsLvalue(l.right) {
          AcceptedLvalue(l.left);
          AcceptedLvalue(l.right);
          assert PlainClocks(l) <==> PlainClocks(l.left) && PlainClocks(l.right);
        }
      }
    } else {
      AcceptedExact(l);
    }
  }

  /** The statements that compile are those that are typed and compare plain clocks. */
  predicate TypedStmt(s: Stmt) {
    match s
    case Nop => true
    case Assign(x, e) => IsLvalue(x) && IntegerAssignable(TypeOf(x)) && IntegerValued(TypeOf(e))
    case ResetInt(x, e) => IsLvalue(x) && ClockValued(TypeOf(x)) && IntegerValued(TypeOf(e))
    case ResetClock(x, y) => IsLvalue(x) && ClockValued(TypeOf(x)) && IsLvalue(y) && ClockValued(TypeOf(y))
    case ResetSum(x, e, y) =>
      IsLvalue(x) && ClockValued(TypeOf(x)) && IntegerValued(TypeOf(e)) && IsLvalue(y) && ClockValued(TypeOf(y))
    case Seq(s1, s2) => TypedStmt(s1) && TypedStmt(s2)
    case If(c, s1, s2) => BoolValued(TypeOf(c)) && TypedStmt(s1) && TypedStmt(s2)
    case While(c, b) => BoolValued(TypeOf(c)) && TypedStmt(b)
    case LocalVar(v, e) => v.kind.LocalKind? && v.size == 1 && IntegerValued(TypeOf(e))
    case LocalArray(v) => v.kind.LocalKind?
  }

  lemma {:induction false} WellTypedIsTyped(s: Stmt)
    requires WellTyped(s)
    ensures TypedStmt(s)
  {
    match s
    case Seq(s1, s2) => WellTypedIsTyped(s1); WellTypedIsTyped(s2);
    case If(_, s1, s2) => WellTypedIsTyped(s1); WellTypedIsTyped(s2);
    case While(_, b) => WellTypedIsTyped(b);
    case _ =>
  }

  // ----- the visitors -----

  function ExprSize(e: Expr): (n: nat)
    ensures n >= 1
  {
    match e
    case Const(_) => 1
    case Ref(_) => 1
    case Elem(_, off) => 1 + ExprSize(off)
    case Par(x) => 1 + ExprSize(x)
    case Unary(_, x) => 1 + ExprSize(x)
    case Binary(_, l, r) => 1 + ExprSize(l) + ExprSize(r)
    case Ite(c, t, f) => 1 + ExprSize(c) + ExprSize(t) + ExprSize(f)
  }

  function Largest(x: Expr, y: Expr, z: Expr): nat {
    Max(ExprSize(x), Max(ExprSize(y), ExprSize(z)))
  }

  const ZERO_CLOCK_REF: Expr := Ref(Var(ClockKind, 0, 1, 0, 0))

  lemma Appended<T>(o: seq<T>, a: seq<T>, b: seq<T>, c: seq<T>)
    ensures o + a + b + c == o + (a + b + c)
  {}

  lemma AppendedMore<T>(o: seq<T>, a: seq<T>, b: seq<T>, c: seq<T>, d: seq<T>, e: seq<T>)
    ensures o + a + b + c + d + e == o + (a + b + c + d + e)
  {}

  class Writer {
    var bytecode: seq<int>

    constructor ()
      ensures bytecode == []
    {
      bytecode := [];
    }

    method Append(words: seq<int>)
      modifies this
      ensures bytecode == old(bytecode) + words
    {
      bytecode := bytecode + words;
    }

    method Lvalue(e: Expr) returns (ok: bool)
      modifies this
      ensures ok == LvalueAccepted(e)
      ensures ok ==> bytecode == old(bytecode) + LvalueCode(e)
      decreases ExprSize(e), 0
    {
      match e
      case Ref(v) =>
        Append([PUSH, v.id]);
        ok := true;
      case Elem(v, off) =>
        if TypeOf(e) == BadType {
          return false;
        }
        Append([PUSH, v.id]);
        ok := Rvalue(off);
        Append([FAILNOTIN, 0, v.size - 1]);
        Append([SUM]);
        Appended(old(bytecode), [PUSH, v.id], RvalueCode(off), [FAILNOTIN, 0, v.size - 1]);
      case _ =>
        ok := false;
    }

    method Rvalue(e: Expr) returns (ok: bool)
      modifies this
      ensures ok == RvalueAccepted(e)
      ensures ok ==> bytecode == old(bytecode) + RvalueCode(e)
      decreases ExprSize(e), 2
    {
      match e
      case Const(v) =>
        Append([PUSH, v]);
        ok := true;
      case Ref(v) =>
        ok := Lvalue(e);
        Append(LoadCode(v.kind));
      case Elem(v, _) =>
        ok := Lvalue(e);
        Append(LoadCode(v.kind));
      case Par(x) =>
        if TypeOf(e) == BadType {
          return false;
        }
        ok := Rvalue(x);
      case Unary(op, x) =>
        if TypeOf(e) != if op.Neg? then IntTerm else AtomicPredicate {
          return false;
        }
        ok := Rvalue(x);
        Append([UnaryInstruction(op)]);
      case Binary(op, l, r) =>
        ok := BinaryVisit(e);
      case Ite(c, t, f) =>
        if TypeOf(e) != IntTerm {
          return false;
        }
        ok := Branches(c, t, f);
    }

    method BinaryVisit(e: Expr) returns (ok: bool)
      requires e.Binary?
      modifies this
      ensures ok == RvalueAccepted(e)
      ensures ok ==> bytecode == old(bytecode) + RvalueCode(e)
      decreases ExprSize(e), 1
    {
      hide Choice, PredicateCode, TypeOfBinary;
      var op, l, r := e.op, e.left, e.right;
      if TypeOf(e).ClkConstrSimple? {
        NotConjunction(e);
        if !IsLvalue(l) {
          return false;
        }
        ok := ClockPredicate(op, l, ZERO_CLOCK_REF, r);
      } else if TypeOf(e).ClkConstrDiagonal? {
        NotConjunction(e);
        if !l.Binary? || !IsLvalue(l.left) || !IsLvalue(l.right) {
          return false;
        }
        ok := ClockPredicate(op, l.left, l.right, r);
      } else if TypeOf(e) != if op.LAnd? then ConjunctiveFormula else if Comparison(op) then AtomicPredicate else IntTerm {
        return false;
      } else if op.LAnd? {
        ok := Branches(l, r, Const(0));
      } else {
        ok := Rvalue(l);
        if ok {
          ok := Rvalue(r);
          Append([BinaryInstruction(op)]);
        }
      }
    }

    /** The alternatives are compiled first, into code of their own, for the jumps to know their lengths. */
    method Branches(c: Expr, t: Expr, f: Expr) returns (ok: bool)
      modifies this
      ensures ok == (RvalueAccepted(c) && RvalueAccepted(t) && RvalueAccepted(f))
      ensures ok ==> bytecode == old(bytecode) + Choice(RvalueCode(c), RvalueCode(t), RvalueCode(f))
      decreases Largest(c, t, f), 4
    {
      hide RvalueCode, RvalueAccepted, ExprSize;
      var okThen, thenCode := SeparateRvalue(t);
      var okElse, elseCode := SeparateRvalue(f);
      ok := Rvalue(c);
      Jumps(thenCode, elseCode);
      ok := ok && okThen && okElse;
      AppendedMore(old(bytecode), RvalueCode(c), [JMPZ, |thenCode| + 2], thenCode, [JMP, |elseCode|], elseCode);
    }

    /** Appends two alternatives with the jumps around them. */
    method Jumps(t: seq<int>, f: seq<int>)
      modifies this
      ensures bytecode == old(bytecode) + [JMPZ, |t| + 2] + t + [JMP, |f|] + f
    {
      Append([JMPZ, |t| + 2]);
      Append(t);
      Append([JMP, |f|]);
      Append(f);
    }

    method Constraint(x: Expr, y: Expr, cmp: int, b: Expr, negated: bool) returns (ok: bool)
      modifies this
      ensures ok == (LvalueAccepted(x) && LvalueAccepted(y) && RvalueAccepted(b))
      ensures ok ==> bytecode == old(bytecode) + ConstraintCode(LvalueCode(x), LvalueCode(y),
                                                                if negated then RvalueCode(b) + [NEG] else RvalueCode(b), cmp)
      decreases Largest(x, y, b), 3
    {
      hide LvalueCode, RvalueCode, LvalueAccepted, RvalueAccepted, ExprSize;
      ok := Lvalue(x);
      if !ok {
        return;
      }
      ok := Lvalue(y);
      if !ok {
        return;
      }
      ghost var o := bytecode;
      ok := Rvalue(b);
      if negated {
        Append([NEG]);
      }
      ghost var code := if negated then RvalueCode(b) + [NEG] else RvalueCode(b);
      assert ok ==> bytecode == o + code;
      Append([CLKCONSTR, cmp]);
      Append([PUSH, 1]);
      AppendedMore(old(bytecode), LvalueCode(x), LvalueCode(y), code, [CLKCONSTR, cmp], [PUSH, 1]);
    }

    method ClockPredicate(op: BinaryOp, x: Expr, y: Expr, b: Expr) returns (ok: bool)
      modifies this
      ensures ok == (LvalueAccepted(x) && LvalueAccepted(y) && RvalueAccepted(b))
      ensures ok ==> bytecode == old(bytecode) + PredicateCode(op, LvalueCode(x), LvalueCode(y), RvalueCode(b))
      decreases Largest(x, y, b), 4
    {
      hide LvalueCode, RvalueCode, LvalueAccepted, RvalueAccepted, ExprSize, ConstraintCode;
      match op
      case Lt => ok := Constraint(x, y, 0, b, false);
      case Le => ok := Constraint(x, y, 1, b, false);
      case Gt => ok := Constraint(y, x, 0, b, true);
      case Ge => ok := Constraint(y, x, 1, b, true);
      case _ =>
        ok := Constraint(x, y, 1, b, false);
        if ok {
          ok := Constraint(y, x, 1, b, true);
          Append([LAND]);
          Appended(old(bytecode), ConstraintCode(LvalueCode(x), LvalueCode(y), RvalueCode(b), 1),
                   ConstraintCode(LvalueCode(y), LvalueCode(x), RvalueCode(b) + [NEG], 1), [LAND]);
        }
    }

    /** Code compiled into a sequence of its own, for its length to be known. */
    static method SeparateRvalue(e: Expr) returns (ok: bool, code: seq<int>)
      ensures ok == RvalueAccepted(e)
      ensures ok ==> code == RvalueCode(e)
      decreases ExprSize(e), 3
    {
      var w := new Writer();
      ok := w.Rvalue(e);
      code := w.bytecode;
    }

    // ----- statements -----

    static method SeparateBlock(s: Stmt) returns (ok: bool, code: seq<int>)
      requires TypedStmt(s)
      ensures ok == WellTyped(s)
      ensures ok ==> code == BlockCode(s)
      decreases s, 2
    {
      var w := new Writer();
      ok := w.Block(s);
      code := w.bytecode;
    }

    method Statement(s: Stmt) returns (ok: bool)
      requires TypedStmt(s)
      modifies this
      ensures ok == WellTyped(s)
      ensures ok ==> bytecode == old(bytecode) + StmtCode(s)
      decreases s, 0
    {
      hide LvalueCode, RvalueCode, LvalueAccepted, RvalueAccepted, ExprSize, PlainClocks, ArrayCode, BlockCode;
      match s
      case Nop =>
        Append([NOP]);
        ok := true;
      case Assign(x, e) =>
        ok := IntAssign(x, e);
      case ResetInt(x, e) =>
        AcceptedLvalue(x);
        AcceptedExact(e);
        ok := ClockReset(x, ZERO_CLOCK_REF, e);
        ZeroClock();
      case ResetClock(x, y) =>
        AcceptedLvalue(x);
        AcceptedLvalue(y);
        ok := ClockReset(x, y, Const(0));
        ZeroClock();
      case ResetSum(x, e, y) =>
        AcceptedLvalue(x);
        AcceptedLvalue(y);
        AcceptedExact(e);
        ok := ClockReset(x, y, e);
      case Seq(s1, s2) =>
        ok := Statement(s1);
        if ok {
          ok := Statement(s2);
        }
      case If(c, s1, s2) =>
        AcceptedExact(c);
        var okThen, thenCode := SeparateBlock(s1);
        var okElse, elseCode := SeparateBlock(s2);
        ok := Rvalue(c);
        Jumps(thenCode, elseCode);
        ok := ok && okThen && okElse;
        AppendedMore(old(bytecode), RvalueCode(c), [JMPZ, |thenCode| + 2], thenCode, [JMP, |elseCode|], elseCode);
      case While(c, b) =>
        AcceptedExact(c);
        var okCond, condCode := SeparateRvalue(c);
        var okBody, bodyCode := SeparateBlock(b);
        Loop(condCode, bodyCode);
        ok := okCond && okBody;
      case LocalVar(v, e) =>
        AcceptedExact(e);
        Append([PUSH, v.id]);
        ok := Rvalue(e);
        Append([INIT_FRAME]);
      case LocalArray(v) =>
        Array(v.id, v.size);
        ok := true;
    }

    method IntAssign(x: Expr, e: Expr) returns (ok: bool)
      requires TypedStmt(Assign(x, e))
      modifies this
      ensures ok == WellTyped(Assign(x, e))
      ensures ok ==> bytecode == old(bytecode) + StmtCode(Assign(x, e))
    {
      hide LvalueCode, RvalueCode, LvalueAccepted, RvalueAccepted, PlainClocks;
      AcceptedLvalue(x);
      AcceptedExact(e);
      ok := Lvalue(x);
      if ok {
        ok := Rvalue(e);
        Append([FAILNOTIN, x.v.min, x.v.max]);
        Append([if x.v.kind.LocalKind? then ASSIGN_FRAME else ASSIGN]);
        Appended(old(bytecode), LvalueCode(x), RvalueCode(e), [FAILNOTIN, x.v.min, x.v.max]);
        KindsOfTypes(x);
      }
    }

    method ClockReset(x: Expr, y: Expr, e: Expr) returns (ok: bool)
      modifies this
      ensures ok == (LvalueAccepted(x) && LvalueAccepted(y) && RvalueAccepted(e))
      ensures ok ==> bytecode == old(bytecode) + ResetCode(LvalueCode(x), LvalueCode(y), RvalueCode(e))
    {
      hide LvalueCode, RvalueCode, LvalueAccepted, RvalueAccepted;
      ok := Lvalue(x);
      if !ok {
        return;
      }
      ok := Lvalue(y);
      if !ok {
        return;
      }
      ok := Rvalue(e);
      Append([CLKRESET]);
      Appended(old(bytecode), LvalueCode(x), LvalueCode(y), RvalueCode(e));
    }

    method Loop(c: seq<int>, b: seq<int>)
      modifies this
      ensures bytecode == old(bytecode) + WhileCode(c, b)
    {
      Append(c);
      Append([JMPZ, |b| + 2]);
      Append(b);
      Append([JMP, -(|c| + 2 + |b| + 2)]);
    }

    /** All elements of a local array start at zero. */
    method Array(id: int, size: nat)
      modifies this
      ensures bytecode == old(bytecode) + ArrayCode(id, size)
    {
      ghost var before := bytecode;
      for i := 0 to size
        invariant bytecode + ArrayCode(id + i, size - i) == before + ArrayCode(id, size)
      {
        Append([PUSH, id + i]);
        Append([PUSH, 0]);
        Append([INIT_FRAME]);
      }
    }

    method Block(s: Stmt) returns (ok: bool)
      requires TypedStmt(s)
      modifies this
      ensures ok == WellTyped(s)
      ensures ok ==> bytecode == old(bytecode) + BlockCode(s)
      decreases s, 1
    {
      hide StmtCode, WellTyped, HasLocals;
      if HasLocals(s) {
        Append([PUSH_FRAME]);
      }
      ok := Statement(s);
      if HasLocals(s) {
        Append([POP_FRAME]);
        Appended(old(bytecode), [PUSH_FRAME], StmtCode(s), [POP_FRAME]);
      }
    }
  }

  lemma NotConjunction(e: Expr)
    requires e.Binary? && (TypeOf(e).ClkConstrSimple? || TypeOf(e).ClkConstrDiagonal?)
    ensures !e.op.LAnd?
  {}

  lemma ZeroClock()
    ensures LvalueAccepted(ZERO_CLOCK_REF) && LvalueCode(ZERO_CLOCK_REF) == [PUSH, 0]
    ensures RvalueAccepted(Const(0)) && RvalueCode(Const(0)) == [PUSH, 0]
  {}

  /** The visitor of assignments looks at the type of the assigned expression, which tells local variables from others. */
  lemma KindsOfTypes(x: Expr)
    requires IsLvalue(x) && IntegerAssignable(TypeOf(x))
    ensures x.v.kind.LocalKind? <==> TypeOf(x).LocalIntVar? || TypeOf(x).LocalIntLvalue?
  {}

  // ----- entry points -----

  /** Compiles an expression. Among those with a truth value, there is code exactly for the formulas. */
  method CompileExpression(e: Expr) returns (ok: bool, code: seq<int>)
    ensures ok == (TypeOf(e) != BadType && RvalueAccepted(e))
    ensures BoolValued(TypeOf(e)) ==> ok == Formula(e)
    ensures ok ==> code == ExprProgram(e)
  {
    code := [];
    if TypeOf(e) == BadType {
      return false, code;
    }
    if BoolValued(TypeOf(e)) {
      AcceptedExact(e);
    }
    var w := new Writer();
    ok := w.Rvalue(e);
    w.Append([RET]);
    code := w.bytecode;
  }

  /** Compiles a statement; there is code exactly for the well-typed ones. */
  method CompileStatement(s: Stmt) returns (ok: bool, code: seq<int>)
    ensures ok == WellTyped(s)
    ensures ok ==> code == StmtProgram(s)
  {
    if WellTyped(s) {
      WellTypedIsTyped(s);
    }
    code := [];
    if !TypedStmt(s) {
      return false, code;
    }
    var w := new Writer();
    ok := w.Block(s);
    w.Append([PUSH, 1]);
    w.Append([RET]);
    code := w.bytecode;
  }
}
