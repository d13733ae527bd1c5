/** What formulas are, by a grammar, and what they mean for clocks with real values; and how the clock constraints that the evaluation of
    a formula imposes stand for that meaning. */
module Formulas {
  import opened Wrappers
  import opened Machine
  import opened Language
  import opened LanguageProps
  import opened CompilerCorrect
  import opened StatementCorrect

  // ----- the grammar behind the types -----

  predicate IntegerName(v: Var) {
    !v.kind.ClockKind? && v.size == 1
  }

  /** A plain clock, or an element of a clock array. */
  predicate ClockTerm(e: Expr)
    decreases e, 0
  {
    match e
    case Ref(v) => v.kind.ClockKind? && v.size == 1
    case Elem(v, off) => v.kind.ClockKind? && IntegerTerm(off)
    case _ => false
  }

  predicate Arithmetic(op: BinaryOp) {
    op.Plus? || op.Minus? || op.Times? || op.Div? || op.Mod?
  }

  /** Integers: constants, variables, elements of arrays, and what arithmetic and choices make of them. */
  predicate IntegerTerm(e: Expr)
    decreases e, 0
  {
    match e
    case Const(_) => true
    case Ref(v) => IntegerName(v)
    case Elem(v, off) => !v.kind.ClockKind? && IntegerTerm(off)
    case Par(x) => IntegerTerm(x)
    case Unary(op, x) => op.Neg? && IntegerTerm(x)
    case Binary(op, l, r) => Arithmetic(op) && IntegerTerm(l) && IntegerTerm(r)
    case Ite(c, t, f) => Condition(c) && IntegerTerm(t) && IntegerTerm(f)
  }

  /** Comparisons of integers, and negations. */
  predicate Test(e: Expr)
    decreases e, 0
  {
    match e
    case Par(x) => Test(x)
    case Unary(op, x) => op.LNot? && (IntegerTerm(x) || Test(x))
    case Binary(op, l, r) => Comparison(op) && IntegerTerm(l) && IntegerTerm(r)
    case _ => false
  }

  predicate Difference(e: Expr) {
    e.Binary? && e.op.Minus? && ClockTerm(e.left) && ClockTerm(e.right)
  }

  /** Comparisons of a clock, or of the difference of two clocks, with an integer; there is no inequality. */
  predicate ClockTest(e: Expr)
    decreases e, 0
  {
    match e
    case Par(x) => ClockTest(x)
    case Binary(op, l, r) => Comparison(op) && !op.Neq? && (ClockTerm(l) || Difference(l)) && IntegerTerm(r)
    case _ => false
  }

  /** Everything with a truth value; only conjunctions join clock tests. */
  predicate Condition(e: Expr)
    decreases e, 1
  {
    match e
    case Par(x) => Condition(x)
    case Binary(op, l, r) => if op.LAnd? then Condition(l) && Condition(r) else IntegerTerm(e) || Test(e) || ClockTest(e)
    case _ => IntegerTerm(e) || Test(e)
  }

  /** The type of an expression, and that no clock is parenthesised, say how the grammar derives it. */
  predicate Agrees(e: Expr) {
    && (IntegerValued(TypeOf(e)) && PlainClocks(e) <==> IntegerTerm(e))
    && (IsLvalue(e) && ClockValued(TypeOf(e)) && PlainClocks(e) <==> ClockTerm(e))
    && (TypeOf(e).AtomicPredicate? && PlainClocks(e) <==> Test(e))
    && ((TypeOf(e).ClkConstrSimple? || TypeOf(e).ClkConstrDiagonal?) && PlainClocks(e) <==> ClockTest(e))
    && (Formula(e) <==> Condition(e))
  }

  /** There are exactly the formulas, terms and clocks of the grammar. */
  lemma {:induction false} TypesExact(e: Expr)
    ensures Term(e) <==> IntegerTerm(e)
    ensures Formula(e) <==> Condition(e)
    ensures ClockRef(e) <==> ClockTerm(e)
    ensures Agrees(e)
    decreases e
  {
    match e
    case Const(_) =>
    case Ref(_) =>
    case Elem(_, off) => TypesExact(off);
    case Par(x) => TypesExact(x);
    case Unary(_, x) => TypesExact(x);
    case Binary(_, l, r) =>
      TypesExact(l);
      TypesExact(r);
      if l.Binary? {
        TypesExact(l.left);
        TypesExact(l.right);
      }
      BinaryInteger(e);
      BinaryTest(e);
      BinaryClocks(e);
      BinaryFormula(e);
    case Ite(c, t, f) =>
      TypesExact(c);
      TypesExact(t);
      TypesExact(f);
  }

  lemma BinaryInteger(e: Expr)
    requires e.Binary? && Agrees(e.left) && Agrees(e.right)
    ensures IntegerValued(TypeOf(e)) && PlainClocks(e) <==> IntegerTerm(e)
  {}

  lemma BinaryTest(e: Expr)
    requires e.Binary? && Agrees(e.left) && Agrees(e.right)
    ensures TypeOf(e).AtomicPredicate? && PlainClocks(e) <==> Test(e)
  {}

  lemma BinaryClocks(e: Expr)
    requires e.Binary? && Agrees(e.left) && Agrees(e.right) && (e.left.Binary? ==> Agrees(e.left.left) && Agrees(e.left.right))
    ensures (TypeOf(e).ClkConstrSimple? || TypeOf(e).ClkConstrDiagonal?) && PlainClocks(e) <==> ClockTest(e)
  {}

  lemma BinaryFormula(e: Expr)
    requires e.Binary? && Agrees(e.left) && Agrees(e.right)
    requires IntegerValued(TypeOf(e)) && PlainClocks(e) <==> IntegerTerm(e)
    requires TypeOf(e).AtomicPredicate? && PlainClocks(e) <==> Test(e)
    requires (TypeOf(e).ClkConstrSimple? || TypeOf(e).ClkConstrDiagonal?) && PlainClocks(e) <==> ClockTest(e)
    ensures Formula(e) <==> Condition(e)
  {}

  /** What an integer can be assigned to. */
  predicate IntegerPlace(e: Expr) {
    match e
    case Ref(v) => IntegerName(v)
    case Elem(v, off) => !v.kind.ClockKind? && IntegerTerm(off)
    case _ => false
  }

  /** Statements: integers go to integer variables; clocks take integers, other clocks, or sums of both; only local variables are
      declared. */
  predicate Command(s: Stmt) {
    match s
    case Nop => true
    case Assign(x, e) => IntegerPlace(x) && IntegerTerm(e)
    case ResetInt(x, e) => ClockTerm(x) && IntegerTerm(e)
    case ResetClock(x, y) => ClockTerm(x) && ClockTerm(y)
    case ResetSum(x, e, y) => ClockTerm(x) && IntegerTerm(e) && ClockTerm(y)
    case Seq(s1, s2) => Command(s1) && Command(s2)
    case If(c, s1, s2) => Condition(c) && Command(s1) && Command(s2)
    case While(c, b) => Condition(c) && Command(b)
    case LocalVar(v, e) => v.kind.LocalKind? && v.size == 1 && IntegerTerm(e)
    case LocalArray(v) => v.kind.LocalKind?
  }

  lemma PlaceExact(x: Expr)
    ensures IsLvalue(x) && IntegerAssignable(TypeOf(x)) && PlainClocks(x) <==> IntegerPlace(x)
  {
    TypesExact(x);
    if x.Elem? {
      TypesExact(x.offset);
    }
  }

  /** There are exactly the statements of the grammar. */
  lemma {:induction false} StatementsExact(s: Stmt)
    ensures WellTyped(s) <==> Command(s)
  {
    hide Term, Formula, ClockRef, IntegerTerm, Condition, ClockTerm, IntegerPlace, TypeOf, PlainClocks;
    match s
    case Assign(x, e) => PlaceExact(x); TypesExact(e);
    case ResetInt(x, e) => TypesExact(x); TypesExact(e);
    case ResetClock(x, y) => TypesExact(x); TypesExact(y);
    case ResetSum(x, e, y) => TypesExact(x); TypesExact(e); TypesExact(y);
    case Seq(s1, s2) => StatementsExact(s1); StatementsExact(s2);
    case If(c, s1, s2) => TypesExact(c); StatementsExact(s1); StatementsExact(s2);
    case While(c, b) => TypesExact(c); StatementsExact(b);
    case LocalVar(_, e) => TypesExact(e);
    case _ =>
  }

  // ----- the meaning -----

  /** The identifier that a variable or an element denotes, with clocks at `v`. */
  function AddressAt(e: Expr, env: Env, v: seq<real>): Result<Integer>
    decreases e, 0
  {
    match e
    case Ref(x) => if IsInteger(x.id) then Ok(x.id) else Throws
    case Elem(x, off) =>
      var o := ValueAt(off, env, v);
      if !IsInteger(x.id) then Throws
      else if !o.Ok? then o
      else if !(0 <= o.value <= x.size - 1) then Throws
      else Checked(x.id + o.value)
    case _ => Throws
  }

  function ClockAt(e: Expr, env: Env, v: seq<real>): Result<real>
    decreases e, 1
  {
    match AddressAt(e, env, v)
    case Ok(x) => if 0 <= x < |v| then Ok(v[x]) else Throws
    case Throws => Throws
    case Undefined => Undefined
  }

  function CompareAt(op: BinaryOp, x: Result<real>, y: Result<real>, b: Result<Integer>): Result<Integer> {
    if x.Ok? && y.Ok? && b.Ok? then Ok(Truth(Compares(op, x.value - y.value, b.value as real)))
    else if x.Undefined? || y.Undefined? || b.Undefined? then Undefined
    else Throws
  }

  /** The value of an expression with clocks at `v`: comparisons of clocks are comparisons of reals, and are true or false. */
  function ValueAt(e: Expr, env: Env, v: seq<real>): Result<Integer>
    decreases e, 2
  {
    match e
    case Const(k) => Ok(k)
    case Ref(x) => var a := AddressAt(e, env, v); if a.Ok? then Load(x.kind, a.value, env) else a
    case Elem(x, _) => var a := AddressAt(e, env, v); if a.Ok? then Load(x.kind, a.value, env) else a
    case Par(x) => ValueAt(x, env, v)
    case Unary(op, x) =>
      var r := ValueAt(x, env, v);
      if !r.Ok? then r
      else if op.LNot? then Ok(Truth(r.value == 0))
      else var k: int := r.value; Checked(-k)
    case Binary(op, l, r) =>
      if op.LAnd? then
        var p, q := ValueAt(l, env, v), ValueAt(r, env, v);
        if !p.Ok? then p else if p.value == 0 then Ok(0) else if !q.Ok? then q else Ok(Truth(q.value != 0))
      else if ClockTerm(l) then CompareAt(op, ClockAt(l, env, v), Ok(0.0), ValueAt(r, env, v))
      else if Difference(l) then CompareAt(op, ClockAt(l.left, env, v), ClockAt(l.right, env, v), ValueAt(r, env, v))
      else
        var p, q := ValueAt(l, env, v), ValueAt(r, env, v);
        if !p.Ok? then p else if !q.Ok? then q else Arith(op, p.value, q.value)
    case Ite(c, t, f) =>
      var p := ValueAt(c, env, v);
      if !p.Ok? then p else if p.value != 0 then ValueAt(t, env, v) else ValueAt(f, env, v)
  }

  /** The clock values satisfy the formula. */
  predicate Satisfies(e: Expr, env: Env, v: seq<real>) {
    ValueAt(e, env, v).Ok? && ValueAt(e, env, v).value != 0
  }

  /** What a run does with a formula: it needs a value other than zero, and the constraints imposed. */
  predicate Passes(r: Result<Val>, v: seq<real>) {
    r.Ok? && r.value.value != 0 && AllHold(r.value.constrs, v)
  }

  function Imposes(r: Result<Val>): seq<ClockConstraint> {
    if r.Ok? then r.value.constrs else []
  }

  /** Those of the imposed constraints that are no conjuncts of the formula, but come from the conditions of choices within. */
  function FromChoices(e: Expr, env: Env, clocks: nat): seq<ClockConstraint> {
    match e
    case Par(x) => FromChoices(x, env, clocks)
    case Binary(op, l, r) =>
      if op.LAnd? then
        var x := Eval(l, env, clocks);
        FromChoices(l, env, clocks) + if x.Ok? && x.value.value != 0 then FromChoices(r, env, clocks) else []
      else if ClockTerm(l) then Imposes(Address(l, env, clocks)) + Imposes(Eval(r, env, clocks))
      else if Difference(l) then
        Imposes(Address(l.left, env, clocks)) + Imposes(Address(l.right, env, clocks)) + Imposes(Eval(r, env, clocks))
      else Imposes(Eval(e, env, clocks))
    case _ => Imposes(Eval(e, env, clocks))
  }

  // ----- comparisons -----

  lemma Dispatch(e: Expr)
    requires e.Binary? && Condition(e) && !e.op.LAnd?
    ensures TypeOf(e).ClkConstrSimple? <==> ClockTerm(e.left)
    ensures TypeOf(e).ClkConstrDiagonal? <==> Difference(e.left)
    ensures ClockTerm(e.left) || Difference(e.left) ==> Comparison(e.op) && !e.op.Neq? && IntegerTerm(e.right)
    ensures !ClockTerm(e.left) && !Difference(e.left) ==>
              IntegerTerm(e.left) && IntegerTerm(e.right) && (Arithmetic(e.op) || Comparison(e.op))
  {
    TypesExact(e);
    TypesExact(e.left);
    TypesExact(e.right);
    if e.left.Binary? {
      TypesExact(e.left.left);
      TypesExact(e.left.right);
    }
  }

  predicate Timed(clocks: nat, v: seq<real>) {
    |v| == clocks >= 1 && v[0] == 0.0
  }

  lemma OneConstraint(x: Result<Val>, y: Result<Val>, b: Result<Val>, strict: bool, clocks: nat, v: seq<real>)
    requires Language.Proper(b) && Timed(clocks, v)
    ensures var r := EvalConstraint(x, y, b, strict, clocks);
            r.Ok? ==>
              && x.Ok? && y.Ok? && b.Ok? && 0 <= x.value.value < |v| && 0 <= y.value.value < |v| && r.value.value == 1
              && (AllHold(r.value.constrs, v) <==>
                    AllHold(x.value.constrs, v) && AllHold(y.value.constrs, v) && AllHold(b.value.constrs, v)
                    && var d, k := v[x.value.value] - v[y.value.value], b.value.value as real; if strict then d < k else d <= k)
  {
    hide AllHold;
    var r := EvalConstraint(x, y, b, strict, clocks);
    if r.Ok? {
      var c := ClockConstraint(x.value.value, y.value.value, strict, b.value.value);
      AllHoldConcat(x.value.constrs + y.value.constrs + b.value.constrs, [c], v);
      AllHoldConcat(x.value.constrs + y.value.constrs, b.value.constrs, v);
      AllHoldConcat(x.value.constrs, y.value.constrs, v);
      OneHolds(c, v);
    }
  }

  lemma OneHolds(c: ClockConstraint, v: seq<real>)
    requires 0 <= c.first < |v| && 0 <= c.second < |v|
    ensures AllHold([c], v) <==> Holds(c, v)
  {
    assert AllHold([c], v) ==> Holds([c][0], v);
  }

  /** A comparison that has a value counts as true, and imposes itself, besides what its operands impose. */
  lemma ComparisonExact(op: BinaryOp, x: Result<Val>, y: Result<Val>, b: Result<Val>, clocks: nat, v: seq<real>)
    requires Language.Proper(b) && Timed(clocks, v)
    ensures var r := EvalPredicate(op, x, y, b, clocks);
            r.Ok? ==>
              && x.Ok? && y.Ok? && b.Ok? && 0 <= x.value.value < |v| && 0 <= y.value.value < |v| && r.value.value == 1
              && (AllHold(r.value.constrs, v) <==>
                    AllHold(x.value.constrs, v) && AllHold(y.value.constrs, v) && AllHold(b.value.constrs, v)
                    && Compares(op, v[x.value.value] - v[y.value.value], b.value.value as real))
  {
    hide AllHold, EvalConstraint;
    var n := EvalUnary(Neg, b);
    OneConstraint(x, y, b, true, clocks, v);
    OneConstraint(x, y, b, false, clocks, v);
    OneConstraint(y, x, n, true, clocks, v);
    OneConstraint(y, x, n, false, clocks, v);
    var p, q := EvalConstraint(x, y, b, false, clocks), EvalConstraint(y, x, n, false, clocks);
    if p.Ok? && q.Ok? {
      AllHoldConcat(p.value.constrs, q.value.constrs, v);
    }
  }

  // ----- evaluation against meaning -----

  lemma ChoiceParts(x: Result<Val>, y: Result<Val>, z: Result<Val>, v: seq<real>)
    requires Language.Proper(y) && Language.Proper(z)
    ensures var r := EvalChoice(x, y, z);
            r.Ok? ==> x.Ok? && var b := if x.value.value != 0 then y else z;
              b.Ok? && r.value.value == b.value.value
              && (AllHold(r.value.constrs, v) <==> AllHold(x.value.constrs, v) && AllHold(b.value.constrs, v))
  {
    hide AllHold;
    var r := EvalChoice(x, y, z);
    if r.Ok? {
      AllHoldConcat(x.value.constrs, if x.value.value != 0 then y.value.constrs else z.value.constrs, v);
    }
  }

  lemma NothingHolds(v: seq<real>)
    ensures AllHold([], v)
  {}

  lemma ImposedThree(x: Result<Val>, y: Result<Val>, b: Result<Val>, v: seq<real>)
    ensures AllHold(Imposes(x) + Imposes(y) + Imposes(b), v) <==> AllHold(Imposes(x), v) && AllHold(Imposes(y), v) && AllHold(Imposes(b), v)
    ensures AllHold(Imposes(x) + Imposes(b), v) <==> AllHold(Imposes(x), v) && AllHold(Imposes(b), v)
  {
    hide AllHold, Imposes;
    AllHoldConcat(Imposes(x) + Imposes(y), Imposes(b), v);
    AllHoldConcat(Imposes(x), Imposes(y), v);
    AllHoldConcat(Imposes(x), Imposes(b), v);
  }

  /** What choices impose is part of what is imposed. */
  lemma {:induction false} ChoicesWithin(e: Expr, env: Env, clocks: nat, v: seq<real>)
    requires Condition(e) && Timed(clocks, v) && Eval(e, env, clocks).Ok? && AllHold(Eval(e, env, clocks).value.constrs, v)
    ensures AllHold(FromChoices(e, env, clocks), v)
    decreases e
  {
    hide AllHold, EvalChoice, EvalBinary, EvalPredicate, EvalUnary, Address, IntegerTerm, Test, ClockTest;
    match e
    case Par(x) =>
      ParCondition(e);
      ChoicesWithin(x, env, clocks, v);
    case Binary(op, l, r) =>
      if op.LAnd? {
        AndCondition(e);
        var x, y := Eval(l, env, clocks), Eval(r, env, clocks);
        ChoiceParts(x, AsTruth(y), Ok(Val(0, [])), v);
        NothingHolds(v);
        ChoicesWithin(l, env, clocks, v);
        if x.value.value != 0 {
          ChoicesWithin(r, env, clocks, v);
        }
        AllHoldConcat(FromChoices(l, env, clocks), if x.value.value != 0 then FromChoices(r, env, clocks) else [], v);
      } else {
        Dispatch(e);
        if ClockTerm(l) || Difference(l) {
          ComparisonParts(e, env, clocks, v);
        }
      }
    case _ =>
  }

  lemma ParCondition(e: Expr)
    requires e.Par? && Condition(e)
    ensures Condition(e.expr)
  {}

  lemma AndCondition(e: Expr)
    requires e.Binary? && e.op.LAnd? && Condition(e)
    ensures Condition(e.left) && Condition(e.right)
  {}

  /** A comparison of clocks, taken apart. */
  lemma ComparisonParts(e: Expr, env: Env, clocks: nat, v: seq<real>)
    requires e.Binary? && !e.op.LAnd? && Condition(e) && Timed(clocks, v) && Eval(e, env, clocks).Ok?
    requires ClockTerm(e.left) || Difference(e.left)
    ensures var x := Address(if ClockTerm(e.left) then e.left else e.left.left, env, clocks);
            var y := if ClockTerm(e.left) then ZERO_CLOCK else Address(e.left.right, env, clocks);
            var b, r := Eval(e.right, env, clocks), Eval(e, env, clocks);
            && x.Ok? && y.Ok? && b.Ok? && 0 <= x.value.value < |v| && 0 <= y.value.value < |v| && r.value.value == 1
            && (AllHold(FromChoices(e, env, clocks), v) <==>
                  AllHold(x.value.constrs, v) && AllHold(y.value.constrs, v) && AllHold(b.value.constrs, v))
            && (AllHold(r.value.constrs, v) <==>
                  AllHold(FromChoices(e, env, clocks), v) && Compares(e.op, v[x.value.value] - v[y.value.value], b.value.value as real))
  {
    hide AllHold, EvalPredicate, Address, IntegerTerm;
    Dispatch(e);
    NothingHolds(v);
    var x := Address(if ClockTerm(e.left) then e.left else e.left.left, env, clocks);
    var y := if ClockTerm(e.left) then ZERO_CLOCK else Address(e.left.right, env, clocks);
    var b := Eval(e.right, env, clocks);
    ComparisonExact(e.op, x, y, b, clocks, v);
    ImposedThree(x, y, b, v);
  }

  /** An integer has, under clocks that satisfy what its choices impose, the value that its evaluation finds. */
  lemma {:induction false} IntegerAt(e: Expr, env: Env, clocks: nat, v: seq<real>)
    requires (IntegerTerm(e) || Test(e)) && Timed(clocks, v)
    requires Eval(e, env, clocks).Ok? && AllHold(Eval(e, env, clocks).value.constrs, v)
    ensures ValueAt(e, env, v).Ok? && ValueAt(e, env, v).value == Eval(e, env, clocks).value.value
    decreases e, 1
  {
    hide AllHold, EvalChoice, EvalBinary, EvalPredicate, Arith, Load, Condition, TypeOf;
    match e
    case Const(_) =>
    case Ref(_) => PlaceAt(e, env, clocks, v);
    case Elem(_, _) => PlaceAt(e, env, clocks, v);
    case Par(x) => IntegerAt(x, env, clocks, v);
    case Unary(_, x) => IntegerAt(x, env, clocks, v);
    case Binary(op, l, r) => OperationAt(e, env, clocks, v);
    case Ite(c, t, f) => ChoiceAt(e, env, clocks, v);
  }

  /** So has the identifier of a variable or an element. */
  lemma {:induction false} PlaceAt(e: Expr, env: Env, clocks: nat, v: seq<real>)
    requires e.Ref? || (e.Elem? && IntegerTerm(e.offset))
    requires Timed(clocks, v) && Address(e, env, clocks).Ok? && AllHold(Address(e, env, clocks).value.constrs, v)
    ensures AddressAt(e, env, v).Ok? && AddressAt(e, env, v).value == Address(e, env, clocks).value.value
    decreases e, 0
  {
    hide AllHold;
    if e.Elem? {
      IntegerAt(e.offset, env, clocks, v);
    }
  }

  lemma {:induction false} OperationAt(e: Expr, env: Env, clocks: nat, v: seq<real>)
    requires e.Binary? && (IntegerTerm(e) || Test(e)) && Timed(clocks, v)
    requires Eval(e, env, clocks).Ok? && AllHold(Eval(e, env, clocks).value.constrs, v)
    ensures ValueAt(e, env, v).Ok? && ValueAt(e, env, v).value == Eval(e, env, clocks).value.value
    decreases e, 0
  {
    hide AllHold, EvalPredicate, Arith, TypeOf;
    Dispatch(e);
    NoClockOperand(e);
    var x, y := Eval(e.left, env, clocks), Eval(e.right, env, clocks);
    assert Eval(e, env, clocks) == EvalBinary(e.op, x, y);
    AllHoldConcat(x.value.constrs, y.value.constrs, v);
    IntegerAt(e.left, env, clocks, v);
    IntegerAt(e.right, env, clocks, v);
  }

  lemma NoClockOperand(e: Expr)
    requires e.Binary? && (IntegerTerm(e) || Test(e))
    ensures !e.op.LAnd? && Condition(e) && IntegerTerm(e.left) && IntegerTerm(e.right) && !ClockTerm(e.left) && !Difference(e.left)
  {}

  lemma {:induction false} ChoiceAt(e: Expr, env: Env, clocks: nat, v: seq<real>)
    requires e.Ite? && IntegerTerm(e) && Timed(clocks, v)
    requires Eval(e, env, clocks).Ok? && AllHold(Eval(e, env, clocks).value.constrs, v)
    ensures ValueAt(e, env, v).Ok? && ValueAt(e, env, v).value == Eval(e, env, clocks).value.value
    decreases e, 0
  {
    hide AllHold, EvalChoice;
    ChoiceParts(Eval(e.cond, env, clocks), Eval(e.thenValue, env, clocks), Eval(e.elseValue, env, clocks), v);
    ChoicesWithin(e.cond, env, clocks, v);
    ConditionAt(e.cond, env, clocks, v);
    IntegerAt(if Eval(e.cond, env, clocks).value.value != 0 then e.thenValue else e.elseValue, env, clocks, v);
  }

  /** Under clocks that satisfy what its choices impose, a formula has a meaning, and is satisfied exactly when its run passes. */
  lemma {:induction false} ConditionAt(e: Expr, env: Env, clocks: nat, v: seq<real>)
    requires Condition(e) && Timed(clocks, v) && Eval(e, env, clocks).Ok? && AllHold(FromChoices(e, env, clocks), v)
    ensures ValueAt(e, env, v).Ok?
    ensures Satisfies(e, env, v) <==> Passes(Eval(e, env, clocks), v)
    decreases e, 2
  {
    hide AllHold, EvalChoice, EvalBinary, EvalPredicate, Arith, Load, Address, TypeOf;
    if e.Par? {
      ParCondition(e);
      ConditionAt(e.expr, env, clocks, v);
    } else if e.Binary? && e.op.LAnd? {
      AndAt(e, env, clocks, v);
    } else if e.Binary? && (ClockTerm(e.left) || Difference(e.left)) {
      ClocksAt(e, env, clocks, v);
    } else {
      assert IntegerTerm(e) || Test(e) by { NoClockTest(e); }
      IntegerAt(e, env, clocks, v);
    }
  }

  lemma NoClockTest(e: Expr)
    requires Condition(e) && !e.Par? && !(e.Binary? && (e.op.LAnd? || ClockTerm(e.left) || Difference(e.left)))
    ensures IntegerTerm(e) || Test(e)
  {}

  lemma {:induction false} AndAt(e: Expr, env: Env, clocks: nat, v: seq<real>)
    requires e.Binary? && e.op.LAnd? && Condition(e) && Timed(clocks, v)
    requires Eval(e, env, clocks).Ok? && AllHold(FromChoices(e, env, clocks), v)
    ensures ValueAt(e, env, v).Ok?
    ensures Satisfies(e, env, v) <==> Passes(Eval(e, env, clocks), v)
    decreases e, 1
  {
    hide AllHold, EvalChoice, Condition;
    var x, y := Eval(e.left, env, clocks), Eval(e.right, env, clocks);
    AndCondition(e);
    ChoiceParts(x, AsTruth(y), Ok(Val(0, [])), v);
    NothingHolds(v);
    AllHoldConcat(FromChoices(e.left, env, clocks), if x.value.value != 0 then FromChoices(e.right, env, clocks) else [], v);
    ConditionAt(e.left, env, clocks, v);
    if x.value.value != 0 {
      ConditionAt(e.right, env, clocks, v);
    }
  }

  lemma {:induction false} ClocksAt(e: Expr, env: Env, clocks: nat, v: seq<real>)
    requires e.Binary? && !e.op.LAnd? && (ClockTerm(e.left) || Difference(e.left)) && Condition(e) && Timed(clocks, v)
    requires Eval(e, env, clocks).Ok? && AllHold(FromChoices(e, env, clocks), v)
    ensures ValueAt(e, env, v).Ok?
    ensures Satisfies(e, env, v) <==> Passes(Eval(e, env, clocks), v)
    decreases e, 1
  {
    hide AllHold, Eval, Address;
    Dispatch(e);
    ComparisonParts(e, env, clocks, v);
    IntegerAt(e.right, env, clocks, v);
    if ClockTerm(e.left) {
      ClockPlace(e.left);
      PlaceAt(e.left, env, clocks, v);
    } else {
      ClockPlace(e.left.left);
      ClockPlace(e.left.right);
      PlaceAt(e.left.left, env, clocks, v);
      PlaceAt(e.left.right, env, clocks, v);
    }
  }

  lemma ClockPlace(e: Expr)
    requires ClockTerm(e)
    ensures e.Ref? || (e.Elem? && IntegerTerm(e.offset))
  {}

  /** A run of a formula passes clock values exactly when they satisfy the formula and the clock constraints that it meets in the
      conditions of choices, which it takes to be true. */
  lemma FormulaExact(e: Expr, env: Env, clocks: nat, v: seq<real>)
    requires Formula(e) && Timed(clocks, v) && Eval(e, env, clocks).Ok?
    ensures Passes(Eval(e, env, clocks), v) <==> Satisfies(e, env, v) && AllHold(FromChoices(e, env, clocks), v)
    ensures (Passes(Eval(e, env, clocks), v) <==> Satisfies(e, env, v)) <==>
              (Satisfies(e, env, v) ==> AllHold(FromChoices(e, env, clocks), v))
  {
    hide AllHold, Eval, Condition;
    TypesExact(e);
    if AllHold(FromChoices(e, env, clocks), v) {
      ConditionAt(e, env, clocks, v);
    } else if Passes(Eval(e, env, clocks), v) {
      ChoicesWithin(e, env, clocks, v);
    }
  }

  // ----- without clocks in the conditions of choices -----

  predicate NoClocks(e: Expr) {
    match e
    case Const(_) => true
    case Ref(v) => !v.kind.ClockKind?
    case Elem(v, off) => !v.kind.ClockKind? && NoClocks(off)
    case Par(x) => NoClocks(x)
    case Unary(_, x) => NoClocks(x)
    case Binary(_, l, r) => NoClocks(l) && NoClocks(r)
    case Ite(c, t, f) => NoClocks(c) && NoClocks(t) && NoClocks(f)
  }

  /** No condition of a choice looks at a clock. */
  predicate PlainChoices(e: Expr) {
    match e
    case Elem(_, off) => PlainChoices(off)
    case Par(x) => PlainChoices(x)
    case Unary(_, x) => PlainChoices(x)
    case Binary(_, l, r) => PlainChoices(l) && PlainChoices(r)
    case Ite(c, t, f) => NoClocks(c) && PlainChoices(t) && PlainChoices(f)
    case _ => true
  }

  lemma {:induction false} NoClocksPlain(e: Expr)
    requires NoClocks(e)
    ensures PlainChoices(e) && !ClockTest(e) && !ClockTerm(e) && !Difference(e)
    decreases e
  {
    match e
    case Elem(_, off) => NoClocksPlain(off);
    case Par(x) => NoClocksPlain(x);
    case Unary(_, x) => NoClocksPlain(x);
    case Binary(_, l, r) => NoClocksPlain(l); NoClocksPlain(r);
    case Ite(c, t, f) => NoClocksPlain(t); NoClocksPlain(f);
    case _ =>
  }

  lemma {:induction false} NothingImposed(e: Expr, env: Env, clocks: nat)
    requires (IntegerTerm(e) || Test(e)) && PlainChoices(e)
    ensures Eval(e, env, clocks).Ok? ==> Eval(e, env, clocks).value.constrs == []
    decreases e, 0
  {
    hide EvalPredicate, Arith, Load, TypeOf, Condition;
    match e
    case Const(_) =>
    case Ref(_) =>
    case Elem(_, off) => NothingImposed(off, env, clocks);
    case Par(x) => NothingImposed(x, env, clocks);
    case Unary(_, x) => NothingImposed(x, env, clocks);
    case Binary(op, l, r) =>
      NoClockOperand(e);
      Dispatch(e);
      NothingImposed(l, env, clocks);
      NothingImposed(r, env, clocks);
    case Ite(c, t, f) =>
      NothingImposedThere(c, env, clocks);
      NothingImposed(t, env, clocks);
      NothingImposed(f, env, clocks);
  }

  lemma {:induction false} NothingImposedThere(e: Expr, env: Env, clocks: nat)
    requires Condition(e) && NoClocks(e)
    ensures Eval(e, env, clocks).Ok? ==> Eval(e, env, clocks).value.constrs == []
    decreases e, 1
  {
    hide EvalPredicate, Arith, TypeOf, IntegerTerm, Test, ClockTest;
    NoClocksPlain(e);
    if e.Par? {
      ParCondition(e);
      NothingImposedThere(e.expr, env, clocks);
    } else if e.Binary? && e.op.LAnd? {
      AndCondition(e);
      NothingImposedThere(e.left, env, clocks);
      NothingImposedThere(e.right, env, clocks);
    } else {
      NothingImposed(e, env, clocks);
    }
  }

  lemma PlaceImposesNothing(e: Expr, env: Env, clocks: nat)
    requires ClockTerm(e) && PlainChoices(e)
    ensures Imposes(Address(e, env, clocks)) == []
  {
    if e.Elem? {
      NothingImposed(e.offset, env, clocks);
    }
  }

  lemma {:induction false} NoneFromChoices(e: Expr, env: Env, clocks: nat)
    requires Condition(e) && PlainChoices(e)
    ensures FromChoices(e, env, clocks) == []
    decreases e
  {
    hide Eval, Address;
    match e
    case Par(x) =>
      ParCondition(e);
      NoneFromChoices(x, env, clocks);
    case Binary(op, l, r) =>
      if op.LAnd? {
        AndCondition(e);
        NoneFromChoices(l, env, clocks);
        NoneFromChoices(r, env, clocks);
      } else {
        Dispatch(e);
        if ClockTerm(l) {
          PlaceImposesNothing(l, env, clocks);
          NothingImposed(r, env, clocks);
        } else if Difference(l) {
          PlaceImposesNothing(l.left, env, clocks);
          PlaceImposesNothing(l.right, env, clocks);
          NothingImposed(r, env, clocks);
        } else {
          NoClockTest(e);
          NothingImposed(e, env, clocks);
        }
      }
    case _ =>
      NoClockTest(e);
      NothingImposed(e, env, clocks);
  }

  /** Then a run that ends passes exactly the clock values that satisfy the formula. */
  lemma FormulaMeans(e: Expr, env: Env, clocks: nat, v: seq<real>)
    requires Formula(e) && PlainChoices(e) && Timed(clocks, v) && Eval(e, env, clocks).Ok?
    ensures Eval(e, env, clocks).value.value != 0 && AllHold(Eval(e, env, clocks).value.constrs, v) <==> Satisfies(e, env, v)
  {
    hide AllHold, Eval, Condition, Satisfies;
    TypesExact(e);
    FormulaExact(e, env, clocks, v);
    NoneFromChoices(e, env, clocks);
    NothingHolds(v);
  }

  /** So does the compiled formula on the machine: it returns something other than zero, and puts out constraints that hold, for exactly
      the clock values that satisfy the formula. */
  lemma FormulaCompiled(e: Expr, m: Memory, clocks: nat, v: seq<real>) returns (n: nat, w: int, cs: seq<ClockConstraint>)
    requires Formula(e) && PlainChoices(e) && Timed(clocks, v) && Eval(e, m.env, clocks).Ok?
    ensures IsInteger(w) && Steps(Program(ExprProgram(e), clocks), Start(m), n) == Returned(w, Emit(m, cs))
    ensures w != 0 && AllHold(cs, v) <==> Satisfies(e, m.env, v)
  {
    hide AllHold, Eval, Formula, Satisfies, Steps, ExprProgram;
    n, w := ExpressionCompiled(e, m, clocks);
    cs := Eval(e, m.env, clocks).value.constrs;
    FormulaMeans(e, m.env, clocks, v);
  }

  const X: Var := Var(ClockKind, 1, 1, 0, 0)

  const BELOW_THREE: Expr := Binary(Lt, Ref(X), Const(3))

  lemma BelowThree(env: Env)
    ensures Eval(BELOW_THREE, env, 2) == Ok(Val(1, [ClockConstraint(1, 0, true, 3)]))
    ensures ValueAt(BELOW_THREE, env, [0.0, 5.0]) == Ok(0)
  {
    var none: seq<ClockConstraint> := [];
    assert none + none + none + [ClockConstraint(1, 0, true, 3)] == [ClockConstraint(1, 0, true, 3)];
  }

  /** Otherwise it may not: `x < 3 ? 0 : 1` is satisfied where `x` is five, and no run passes. */
  lemma ChoiceMisses(env: Env)
    ensures var e, v := Ite(BELOW_THREE, Const(0), Const(1)), [0.0, 5.0];
            Formula(e) && Eval(e, env, 2) == Ok(Val(0, [ClockConstraint(1, 0, true, 3)])) && Satisfies(e, env, v)
  {
    BelowThree(env);
    var none: seq<ClockConstraint> := [];
    assert [ClockConstraint(1, 0, true, 3)] + none == [ClockConstraint(1, 0, true, 3)];
  }
}
