/** The compiler: expressions and statements become instructions with relative jumps. */
module Compiler {
  import opened Machine
  import opened Language

  // ----- the code of expressions -----

  function UnaryInstruction(op: UnaryOp): int {
    match op
    case Neg => NEG
    case LNot => LNOT
  }

  function BinaryInstruction(op: BinaryOp): int {
    match op
    case LAnd => LAND
    case Lt => LT
    case Le => LE
    case Eq => EQ
    case Neq => NE
    case Ge => GE
    case Gt => GT
    case Minus => MINUS
    case Plus => SUM
    case Times => MUL
    case Div => DIV
    case Mod => MOD
  }

  /** `x`, a jump over `y` when `x` is zero, `y`, a jump over `z`, and `z`. */
  function Choice(x: seq<int>, y: seq<int>, z: seq<int>): seq<int> {
    x + [JMPZ, |y| + 2] + y + [JMP, |z|] + z
  }

  function ConstraintCode(x: seq<int>, y: seq<int>, b: seq<int>, cmp: int): seq<int> {
    x + y + b + [CLKCONSTR, cmp] + [PUSH, 1]
  }

  function PredicateCode(op: BinaryOp, x: seq<int>, y: seq<int>, b: seq<int>): seq<int> {
    match op
    case Lt => ConstraintCode(x, y, b, 0)
    case Le => ConstraintCode(x, y, b, 1)
    case Gt => ConstraintCode(y, x, b + [NEG], 0)
    case Ge => ConstraintCode(y, x, b + [NEG], 1)
    case _ => ConstraintCode(x, y, b, 1) + ConstraintCode(y, x, b + [NEG], 1) + [LAND]
  }

  function LvalueCode(e: Expr): seq<int>
    decreases e, 0
  {
    match e
    case Ref(v) => [PUSH, v.id]
    case Elem(v, off) => [PUSH, v.id] + RvalueCode(off) + [FAILNOTIN, 0, v.size - 1] + [SUM]
    case _ => []
  }

  function LoadCode(kind: Kind): seq<int> {
    if kind.LocalKind? then [VALUEAT_FRAME] else [VALUEAT]
  }

  function RvalueCode(e: Expr): seq<int>
    decreases e, 1
  {
    match e
    case Const(v) => [PUSH, v]
    case Ref(v) => LvalueCode(e) + LoadCode(v.kind)
    case Elem(v, _) => LvalueCode(e) + LoadCode(v.kind)
    case Par(x) => RvalueCode(x)
    case Unary(op, x) => RvalueCode(x) + [UnaryInstruction(op)]
    case Binary(op, l, r) =>
      if op.LAnd? then Choice(RvalueCode(l), RvalueCode(r), [PUSH, 0])
      else if TypeOf(e).ClkConstrSimple? then PredicateCode(op, LvalueCode(l), [PUSH, 0], RvalueCode(r))
      else if TypeOf(e).ClkConstrDiagonal? && l.Binary? then
        PredicateCode(op, LvalueCode(l.left), LvalueCode(l.right), RvalueCode(r))
      else RvalueCode(l) + RvalueCode(r) + [BinaryInstruction(op)]
    case Ite(c, t, f) => Choice(RvalueCode(c), RvalueCode(t), RvalueCode(f))
  }

  // ----- the code of statements -----

  function AssignCode(x: seq<int>, e: seq<int>, v: Var): seq<int> {
    x + e + [FAILNOTIN, v.min, v.max] + [if v.kind.LocalKind? then ASSIGN_FRAME else ASSIGN]
  }

  function ResetCode(x: seq<int>, y: seq<int>, e: seq<int>): seq<int> {
    x + y + e + [CLKRESET]
  }

  function DeclareCode(id: int, e: seq<int>): seq<int> {
    [PUSH, id] + e + [INIT_FRAME]
  }

  function ArrayCode(id: int, n: nat): seq<int>
    decreases n
  {
    if n == 0 then [] else DeclareCode(id, [PUSH, 0]) + ArrayCode(id + 1, n - 1)
  }

  function WhileCode(c: seq<int>, b: seq<int>): seq<int> {
    c + [JMPZ, |b| + 2] + b + [JMP, -(|c| + 2 + |b| + 2)]
  }

  function StmtCode(s: Stmt): seq<int>
    decreases s, 0
  {
    match s
    case Nop => [NOP]
    case Assign(x, e) => if IsLvalue(x) then AssignCode(LvalueCode(x), RvalueCode(e), x.v) else []
    case ResetInt(x, e) => ResetCode(LvalueCode(x), [PUSH, 0], RvalueCode(e))
    case ResetClock(x, y) => ResetCode(LvalueCode(x), LvalueCode(y), [PUSH, 0])
    case ResetSum(x, e, y) => ResetCode(LvalueCode(x), LvalueCode(y), RvalueCode(e))
    case Seq(s1, s2) => StmtCode(s1) + StmtCode(s2)
    case If(c, s1, s2) => Choice(RvalueCode(c), BlockCode(s1), BlockCode(s2))
    case While(c, b) => WhileCode(RvalueCode(c), BlockCode(b))
    case LocalVar(v, e) => DeclareCode(v.id, RvalueCode(e))
    case LocalArray(v) => ArrayCode(v.id, v.size)
  }

  function BlockCode(s: Stmt): seq<int>
    decreases s, 1
  {
    if HasLocals(s) then [PUSH_FRAME] + StmtCode(s) + [POP_FRAME] else StmtCode(s)
  }
}
