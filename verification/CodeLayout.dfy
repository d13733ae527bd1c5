/** Compiled code is a sequence of whole instructions: jumps land on instructions, and walking by widths ends at the last one. */
module CodeLayout {
  import opened Machine
  import opened Language
  import opened Compiler
  import opened StatementCorrect

  /** `code` consists of whole instructions. */
  predicate Whole(code: seq<int>)
    decreases |code|
  {
    code == [] || (Width(code[0]) <= |code| && Whole(code[Width(code[0])..]))
  }

  /** An instruction begins, or the code ends, at address `i`. */
  predicate Boundary(code: seq<int>, i: int)
    decreases |code|
  {
    i == 0 || (code != [] && Width(code[0]) <= |code| && Boundary(code[Width(code[0])..], i - Width(code[0])))
  }

  lemma {:induction false} BoundaryInside(code: seq<int>, i: int)
    requires Boundary(code, i)
    ensures 0 <= i <= |code|
    decreases |code|
  {
    if i != 0 {
      BoundaryInside(code[Width(code[0])..], i - Width(code[0]));
    }
  }

  lemma {:induction false} WholeConcat(x: seq<int>, y: seq<int>)
    requires Whole(x) && Whole(y)
    ensures Whole(x + y)
    decreases |x|
  {
    if x == [] {
      assert x + y == y;
    } else {
      var w := Width(x[0]);
      assert (x + y)[w..] == x[w..] + y;
      WholeConcat(x[w..], y);
    }
  }

  /** The instructions of two pieces of code put together are those of the one and those of the other. */
  lemma {:induction false} BoundaryConcat(x: seq<int>, y: seq<int>, i: int)
    requires Whole(x)
    ensures Boundary(x + y, i) <==> (i <= |x| && Boundary(x, i)) || (i >= |x| && Boundary(y, i - |x|))
    decreases |x|
  {
    if x == [] {
      assert x + y == y;
      if Boundary(y, i) {
        BoundaryInside(y, i);
      }
    } else {
      var w := Width(x[0]);
      assert (x + y)[w..] == x[w..] + y;
      BoundaryConcat(x[w..], y, i - w);
    }
  }

  lemma {:induction false} EndIsBoundary(x: seq<int>)
    requires Whole(x)
    ensures Boundary(x, |x|)
    decreases |x|
  {
    if x != [] {
      EndIsBoundary(x[Width(x[0])..]);
    }
  }

  predicate IsJump(op: int) {
    op == JMP || op == JMPZ
  }

  /** The instruction at `i` does not return, and if it is a jump it lands on a boundary. */
  predicate FineAt(code: seq<int>, i: int)
    requires i < |code|
  {
    && 0 <= i && code[i] != RET && code[i] != RETZ
    && (IsJump(code[i]) ==> i + 1 < |code| && Boundary(code, i + 2 + code[i + 1]))
  }

  /** What the code of a part of a program is like. */
  ghost predicate Fragment(code: seq<int>) {
    Whole(code) && forall i :: Boundary(code, i) && i < |code| ==> FineAt(code, i)
  }

  /** A fragment stays fine between other code. */
  lemma PlacedFine(pre: seq<int>, mid: seq<int>, post: seq<int>, i: int)
    requires Whole(pre) && Fragment(mid) && |pre| <= i < |pre| + |mid| && Boundary(pre + mid + post, i)
    ensures FineAt(pre + mid + post, i)
  {
    hide Boundary, Whole;
    var total, k := pre + mid + post, i - |pre|;
    assert total == pre + (mid + post);
    BoundaryConcat(pre, mid + post, i);
    StartIsBoundary(mid + post);
    StartIsBoundary(mid);
    BoundaryConcat(mid, post, k);
    assert total[i] == mid[k] && FineAt(mid, k);
    if IsJump(mid[k]) {
      var t := k + 2 + mid[k + 1];
      assert total[i + 1] == mid[k + 1];
      BoundaryInside(mid, t);
      BoundaryConcat(mid, post, t);
      BoundaryConcat(pre, mid + post, |pre| + t);
    }
  }

  lemma FragmentConcat(x: seq<int>, y: seq<int>)
    requires Fragment(x) && Fragment(y)
    ensures Fragment(x + y)
  {
    hide Boundary, Whole, FineAt;
    WholeConcat(x, y);
    forall i | Boundary(x + y, i) && i < |x + y|
      ensures FineAt(x + y, i)
    {
      BoundaryInside(x + y, i);
      WholeEmpty();
      if i < |x| {
        assert [] + x + y == x + y;
        PlacedFine([], x, y, i);
      } else {
        assert x + y + [] == x + y;
        PlacedFine(x, y, [], i);
      }
    }
  }

  lemma WholeEmpty()
    ensures Whole([])
  {}

  /** A single instruction. */
  lemma OneBoundary(i: seq<int>, k: int)
    requires i != [] && |i| == Width(i[0]) && Boundary(i, k) && k < |i|
    ensures k == 0
  {
    if k != 0 {
      BoundaryInside(i[Width(i[0])..], k - Width(i[0]));
    }
  }

  lemma FragmentOne(i: seq<int>)
    requires i != [] && |i| == Width(i[0]) && !IsJump(i[0]) && i[0] != RET && i[0] != RETZ
    ensures Fragment(i)
  {
    forall k | Boundary(i, k) && k < |i|
      ensures FineAt(i, k)
    {
      OneBoundary(i, k);
    }
  }

  /** A jump between other code, to one of its boundaries. */
  lemma JumpFine(pre: seq<int>, op: int, d: int, post: seq<int>, i: int)
    requires Whole(pre) && IsJump(op) && Boundary(pre + [op, d] + post, |pre| + 2 + d)
    requires |pre| <= i < |pre| + 2 && Boundary(pre + [op, d] + post, i)
    ensures FineAt(pre + [op, d] + post, i)
  {
    var total := pre + [op, d] + post;
    assert total == pre + ([op, d] + post);
    BoundaryConcat(pre, [op, d] + post, i);
    BoundaryConcat([op, d], post, i - |pre|);
    OneBoundary([op, d], i - |pre|);
  }

  /** A boundary of the last part of some code is one of the whole code. */
  lemma BoundaryBehind(pre: seq<int>, post: seq<int>, k: int)
    requires Whole(pre) && Boundary(post, k)
    ensures Boundary(pre + post, |pre| + k)
  {
    BoundaryInside(post, k);
    BoundaryConcat(pre, post, |pre| + k);
  }

  // ----- choices and loops -----

  lemma FragmentChoice(x: seq<int>, y: seq<int>, z: seq<int>)
    requires Fragment(x) && Fragment(y) && Fragment(z)
    ensures Fragment(Choice(x, y, z))
  {
    hide Boundary, Whole, FineAt;
    var i, j := [JMPZ, |y| + 2], [JMP, |z|];
    var c := Choice(x, y, z);
    JumpWhole(JMPZ, |y| + 2);
    JumpWhole(JMP, |z|);
    WholeConcat(x, i);
    WholeConcat(x + i, y);
    WholeConcat(x + i + y, j);
    WholeConcat(x + i + y + j, z);
    EndIsBoundary(c);
    StartIsBoundary(z);
    BoundaryBehind(x + i + y + j, z, 0);
    forall k | Boundary(c, k) && k < |c|
      ensures FineAt(c, k)
    {
      BoundaryInside(c, k);
      WholeEmpty();
      if k < |x| {
        assert c == [] + x + (i + y + j + z);
        PlacedFine([], x, i + y + j + z, k);
      } else if k < |x| + 2 {
        assert c == x + i + (y + j + z);
        JumpFine(x, JMPZ, |y| + 2, y + j + z, k);
      } else if k < |x| + 2 + |y| {
        assert c == (x + i) + y + (j + z);
        PlacedFine(x + i, y, j + z, k);
      } else if k < |x| + 2 + |y| + 2 {
        assert c == (x + i + y) + j + z;
        JumpFine(x + i + y, JMP, |z|, z, k);
      } else {
        assert c == (x + i + y + j) + z + [];
        PlacedFine(x + i + y + j, z, [], k);
      }
    }
  }

  lemma FragmentWhile(x: seq<int>, y: seq<int>)
    requires Fragment(x) && Fragment(y)
    ensures Fragment(WhileCode(x, y))
  {
    hide Boundary, Whole, FineAt;
    var d := -(|x| + 2 + |y| + 2);
    var i, j := [JMPZ, |y| + 2], [JMP, d];
    var c := WhileCode(x, y);
    JumpWhole(JMPZ, |y| + 2);
    JumpWhole(JMP, d);
    WholeConcat(x, i);
    WholeConcat(x + i, y);
    WholeConcat(x + i + y, j);
    EndIsBoundary(c);
    StartIsBoundary(c);
    forall k | Boundary(c, k) && k < |c|
      ensures FineAt(c, k)
    {
      BoundaryInside(c, k);
      WholeEmpty();
      if k < |x| {
        assert c == [] + x + (i + y + j);
        PlacedFine([], x, i + y + j, k);
      } else if k < |x| + 2 {
        assert c == x + i + (y + j);
        JumpFine(x, JMPZ, |y| + 2, y + j, k);
      } else if k < |x| + 2 + |y| {
        assert c == (x + i) + y + j;
        PlacedFine(x + i, y, j, k);
      } else {
        assert c == (x + i + y) + j + [];
        JumpFine(x + i + y, JMP, d, [], k);
      }
    }
  }

  lemma JumpWhole(op: int, d: int)
    requires IsJump(op)
    ensures Whole([op, d])
  {
    assert [op, d][2..] == [];
  }

  lemma StartIsBoundary(x: seq<int>)
    ensures Boundary(x, 0)
  {}

  // ----- expressions and statements -----

  /** The code of any expression, assignable or not. */
  lemma {:induction false} RvalueFragment(e: Expr)
    ensures Fragment(RvalueCode(e))
    decreases e, 1
  {
    hide Fragment, Choice, PredicateCode, LvalueCode, TypeOf;
    match e
    case Const(v) => FragmentOne([PUSH, v]);
    case Ref(v) =>
      LvalueFragment(e);
      FragmentOne(LoadCode(v.kind));
      FragmentConcat(LvalueCode(e), LoadCode(v.kind));
    case Elem(v, _) =>
      LvalueFragment(e);
      FragmentOne(LoadCode(v.kind));
      FragmentConcat(LvalueCode(e), LoadCode(v.kind));
    case Par(x) => RvalueFragment(x);
    case Unary(op, x) =>
      RvalueFragment(x);
      FragmentOne([UnaryInstruction(op)]);
      FragmentConcat(RvalueCode(x), [UnaryInstruction(op)]);
    case Binary(op, l, r) => BinaryFragment(e);
    case Ite(c, t, f) =>
      RvalueFragment(c);
      RvalueFragment(t);
      RvalueFragment(f);
      FragmentChoice(RvalueCode(c), RvalueCode(t), RvalueCode(f));
  }

  lemma {:induction false} LvalueFragment(e: Expr)
    ensures Fragment(LvalueCode(e))
    decreases e, 0
  {
    hide Fragment;
    match e
    case Ref(v) => FragmentOne([PUSH, v.id]);
    case Elem(v, off) =>
      RvalueFragment(off);
      FragmentOne([PUSH, v.id]);
      FragmentOne([FAILNOTIN, 0, v.size - 1]);
      FragmentOne([SUM]);
      FragmentConcat([PUSH, v.id], RvalueCode(off));
      FragmentConcat([PUSH, v.id] + RvalueCode(off), [FAILNOTIN, 0, v.size - 1]);
      FragmentConcat([PUSH, v.id] + RvalueCode(off) + [FAILNOTIN, 0, v.size - 1], [SUM]);
    case _ => FragmentEmpty();
  }

  lemma FragmentEmpty()
    ensures Fragment([])
  {
    forall i | Boundary([], i)
      ensures i >= 0
    {
      BoundaryInside([], i);
    }
  }

  lemma {:induction false} BinaryFragment(e: Expr)
    requires e.Binary?
    ensures Fragment(RvalueCode(e))
    decreases e, 0
  {
    hide Fragment, Choice, PredicateCode, TypeOf, LvalueCode;
    var op, l, r := e.op, e.left, e.right;
    RvalueFragment(r);
    if op.LAnd? {
      RvalueFragment(l);
      FragmentOne([PUSH, 0]);
      FragmentChoice(RvalueCode(l), RvalueCode(r), [PUSH, 0]);
    } else if TypeOf(e).ClkConstrSimple? {
      LvalueFragment(l);
      FragmentOne([PUSH, 0]);
      PredicateFragment(op, LvalueCode(l), [PUSH, 0], RvalueCode(r));
    } else if TypeOf(e).ClkConstrDiagonal? && l.Binary? {
      LvalueFragment(l.left);
      LvalueFragment(l.right);
      PredicateFragment(op, LvalueCode(l.left), LvalueCode(l.right), RvalueCode(r));
    } else {
      RvalueFragment(l);
      FragmentConcat(RvalueCode(l), RvalueCode(r));
      FragmentOne([BinaryInstruction(op)]);
      FragmentConcat(RvalueCode(l) + RvalueCode(r), [BinaryInstruction(op)]);
    }
  }

  lemma ConstraintFragment(x: seq<int>, y: seq<int>, b: seq<int>, cmp: int)
    requires Fragment(x) && Fragment(y) && Fragment(b)
    ensures Fragment(ConstraintCode(x, y, b, cmp))
  {
    hide Fragment;
    FragmentOne([CLKCONSTR, cmp]);
    FragmentOne([PUSH, 1]);
    FragmentConcat(x, y);
    FragmentConcat(x + y, b);
    FragmentConcat(x + y + b, [CLKCONSTR, cmp]);
    FragmentConcat(x + y + b + [CLKCONSTR, cmp], [PUSH, 1]);
  }

  lemma PredicateFragment(op: BinaryOp, x: seq<int>, y: seq<int>, b: seq<int>)
    requires Fragment(x) && Fragment(y) && Fragment(b)
    ensures Fragment(PredicateCode(op, x, y, b))
  {
    hide Fragment, ConstraintCode;
    FragmentOne([NEG]);
    FragmentOne([LAND]);
    FragmentConcat(b, [NEG]);
    ConstraintFragment(x, y, b, 0);
    ConstraintFragment(x, y, b, 1);
    ConstraintFragment(y, x, b + [NEG], 0);
    ConstraintFragment(y, x, b + [NEG], 1);
    FragmentConcat(ConstraintCode(x, y, b, 1), ConstraintCode(y, x, b + [NEG], 1));
    FragmentConcat(ConstraintCode(x, y, b, 1) + ConstraintCode(y, x, b + [NEG], 1), [LAND]);
  }

  lemma {:induction false} StmtFragment(s: Stmt)
    ensures Fragment(StmtCode(s))
    decreases s, 0
  {
    hide Fragment, Choice, WhileCode, LvalueCode, RvalueCode, ArrayCode;
    match s
    case Nop => FragmentOne([NOP]);
    case Assign(x, e) =>
      if IsLvalue(x) {
        AssignFragment(x, e);
      } else {
        FragmentEmpty();
      }
    case ResetInt(x, e) =>
      LvalueFragment(x);
      RvalueFragment(e);
      FragmentOne([PUSH, 0]);
      ResetFragment(LvalueCode(x), [PUSH, 0], RvalueCode(e));
    case ResetClock(x, y) =>
      LvalueFragment(x);
      LvalueFragment(y);
      FragmentOne([PUSH, 0]);
      ResetFragment(LvalueCode(x), LvalueCode(y), [PUSH, 0]);
    case ResetSum(x, e, y) =>
      LvalueFragment(x);
      LvalueFragment(y);
      RvalueFragment(e);
      ResetFragment(LvalueCode(x), LvalueCode(y), RvalueCode(e));
    case Seq(s1, s2) =>
      StmtFragment(s1);
      StmtFragment(s2);
      FragmentConcat(StmtCode(s1), StmtCode(s2));
    case If(c, s1, s2) =>
      RvalueFragment(c);
      BlockFragment(s1);
      BlockFragment(s2);
      FragmentChoice(RvalueCode(c), BlockCode(s1), BlockCode(s2));
    case While(c, b) =>
      RvalueFragment(c);
      BlockFragment(b);
      FragmentWhile(RvalueCode(c), BlockCode(b));
    case LocalVar(v, e) =>
      RvalueFragment(e);
      DeclareFragment(v.id, RvalueCode(e));
    case LocalArray(v) => ArrayFragment(v.id, v.size);
  }

  lemma AssignFragment(x: Expr, e: Expr)
    requires IsLvalue(x)
    ensures Fragment(AssignCode(LvalueCode(x), RvalueCode(e), x.v))
  {
    hide Fragment, LvalueCode, RvalueCode;
    var lv, rv, chk := LvalueCode(x), RvalueCode(e), [FAILNOTIN, x.v.min, x.v.max];
    var i := [if x.v.kind.LocalKind? then ASSIGN_FRAME else ASSIGN];
    LvalueFragment(x);
    RvalueFragment(e);
    FragmentOne(chk);
    FragmentOne(i);
    FragmentConcat(lv, rv);
    FragmentConcat(lv + rv, chk);
    FragmentConcat(lv + rv + chk, i);
  }

  lemma ResetFragment(x: seq<int>, y: seq<int>, e: seq<int>)
    requires Fragment(x) && Fragment(y) && Fragment(e)
    ensures Fragment(ResetCode(x, y, e))
  {
    hide Fragment;
    FragmentOne([CLKRESET]);
    FragmentConcat(x, y);
    FragmentConcat(x + y, e);
    FragmentConcat(x + y + e, [CLKRESET]);
  }

  lemma DeclareFragment(id: int, e: seq<int>)
    requires Fragment(e)
    ensures Fragment(DeclareCode(id, e))
  {
    hide Fragment;
    FragmentOne([PUSH, id]);
    FragmentOne([INIT_FRAME]);
    FragmentConcat([PUSH, id], e);
    FragmentConcat([PUSH, id] + e, [INIT_FRAME]);
  }

  lemma {:induction false} ArrayFragment(id: int, n: nat)
    ensures Fragment(ArrayCode(id, n))
    decreases n
  {
    hide Fragment;
    if n == 0 {
      FragmentEmpty();
    } else {
      FragmentOne([PUSH, 0]);
      DeclareFragment(id, [PUSH, 0]);
      ArrayFragment(id + 1, n - 1);
      FragmentConcat(DeclareCode(id, [PUSH, 0]), ArrayCode(id + 1, n - 1));
    }
  }

  lemma {:induction false} BlockFragment(s: Stmt)
    ensures Fragment(BlockCode(s))
    decreases s, 1
  {
    hide Fragment, StmtCode;
    StmtFragment(s);
    if HasLocals(s) {
      FragmentOne([PUSH_FRAME]);
      FragmentOne([POP_FRAME]);
      FragmentConcat([PUSH_FRAME], StmtCode(s));
      FragmentConcat([PUSH_FRAME] + StmtCode(s), [POP_FRAME]);
    }
  }

  // ----- whole programs -----

  /** A complete program: a fragment and a final return. */
  ghost predicate Complete(code: seq<int>) {
    code != [] && code[|code| - 1] == RET && Fragment(code[..|code| - 1])
  }

  lemma ProgramsComplete(e: Expr, s: Stmt)
    ensures Complete(ExprProgram(e)) && Complete(StmtProgram(s))
  {
    hide Fragment;
    RvalueFragment(e);
    BlockFragment(s);
    FragmentOne([PUSH, 1]);
    FragmentConcat(BlockCode(s), [PUSH, 1]);
    var x, y := ExprProgram(e), StmtProgram(s);
    assert x[..|x| - 1] == RvalueCode(e);
    assert y[..|y| - 1] == BlockCode(s) + [PUSH, 1];
  }

  /** Where the machine may stand in a complete program: on an instruction. */
  predicate OnInstruction(code: seq<int>, ip: int) {
    Boundary(code, ip) && ip < |code|
  }

  /** The instructions of a complete program are those of its fragment and the final return. */
  lemma CompleteBoundary(code: seq<int>, i: int)
    requires Complete(code)
    ensures OnInstruction(code, i) <==> Boundary(code[..|code| - 1], i)
  {
    hide Fragment;
    var x := code[..|code| - 1];
    assert code == x + [RET];
    ProgramWhole(code);
    BoundaryConcat(x, [RET], i);
    if Boundary(x, i) {
      BoundaryInside(x, i);
    }
    if i == |x| {
      EndIsBoundary(x);
    }
  }

  lemma ProgramWhole(code: seq<int>)
    requires Complete(code)
    ensures Whole(code[..|code| - 1]) && Whole(code)
  {
    var x := code[..|code| - 1];
    assert code == x + [RET];
    assert [RET][1..] == [];
    WholeConcat(x, [RET]);
  }

  /** Whatever a complete program does, the machine always stands on an instruction: it never takes a parameter for an
      instruction, and never runs past the end. */
  lemma StepStaysOnInstructions(p: Program, s: State)
    requires Complete(p.code) && OnInstruction(p.code, s.ip) && Step(p, s).Running?
    ensures OnInstruction(p.code, Step(p, s).state.ip)
  {
    hide Fragment;
    CompleteBoundary(p.code, s.ip);
    BoundaryInside(p.code[..|p.code| - 1], s.ip);
    NextBoundary(p.code, s.ip);
    StepLandsOn(p, s);
  }

  /** The instruction after the one at `i`, and the target of a jump. */
  lemma NextBoundary(code: seq<int>, i: int)
    requires Complete(code) && OnInstruction(code, i) && 0 <= i < |code| - 1
    ensures OnInstruction(code, i + Width(code[i]))
    ensures code[i] != RET && code[i] != RETZ
    ensures IsJump(code[i]) ==> OnInstruction(code, i + 2 + code[i + 1])
  {
    hide Boundary, Whole, Complete, Fragment;
    var x := code[..|code| - 1];
    CompleteBoundary(code, i);
    CompleteFine(code, i);
    ProgramWhole(code);
    FollowingBoundary(x, i);
    CompleteBoundary(code, i + Width(code[i]));
    if IsJump(code[i]) {
      assert x[i + 1] == code[i + 1];
      CompleteBoundary(code, i + 2 + code[i + 1]);
    }
  }

  lemma CompleteFine(code: seq<int>, i: int)
    requires Complete(code) && 0 <= i < |code| - 1 && Boundary(code[..|code| - 1], i)
    ensures FineAt(code[..|code| - 1], i)
  {}

  lemma {:induction false} FollowingBoundary(x: seq<int>, i: int)
    requires Whole(x) && Boundary(x, i) && 0 <= i < |x|
    ensures Boundary(x, i + Width(x[i]))
    decreases |x|
  {
    var w := Width(x[0]);
    if i != 0 {
      BoundaryInside(x[w..], i - w);
      FollowingBoundary(x[w..], i - w);
    }
  }

  lemma StepLandsOn(p: Program, s: State)
    requires Complete(p.code) && 0 <= s.ip < |p.code| && Step(p, s).Running?
    ensures s.ip < |p.code| - 1
    ensures var t, op := Step(p, s).state.ip, p.code[s.ip];
            t == s.ip + Width(op) || (IsJump(op) && t == s.ip + 2 + p.code[s.ip + 1])
  {
    hide Fragment, Update, Lookup, Compute;
  }

  lemma {:induction false} StepsStayOnInstructions(p: Program, s: State, n: nat)
    requires Complete(p.code) && OnInstruction(p.code, s.ip) && Steps(p, s, n).Running?
    ensures OnInstruction(p.code, Steps(p, s, n).state.ip)
    decreases n
  {
    hide Step, Complete, OnInstruction;
    if n > 0 {
      StepStaysOnInstructions(p, s);
      StepsStayOnInstructions(p, Step(p, s).state, n - 1);
    }
  }

  /** Every run of a compiled program, from its first instruction on, stands on instructions only. */
  lemma CompiledStaysOnInstructions(stmt: Stmt, m: Memory, clocks: nat, n: nat)
    ensures var p := Program(StmtProgram(stmt), clocks);
            var o := Steps(p, Start(m), n);
            o.Running? ==> OnInstruction(p.code, o.state.ip)
  {
    hide Step, Steps, Complete;
    var p := Program(StmtProgram(stmt), clocks);
    ProgramsComplete(Const(0), stmt);
    assert StmtProgram(stmt) != [];
    if Steps(p, Start(m), n).Running? {
      StepsStayOnInstructions(p, Start(m), n);
    }
  }

  // ----- walking over the instructions -----

  /** Goes over the instructions of a program, by their widths, up to the first return. The walk over compiled code visits every
      instruction, nothing else, and ends at the final return. */
  method Walk(code: seq<int>) returns (addresses: seq<int>)
    requires Complete(code)
    ensures forall i :: i in addresses <==> OnInstruction(code, i)
    ensures addresses != [] && addresses[|addresses| - 1] == |code| - 1
    ensures forall i, j :: 0 <= i < j < |addresses| ==> addresses[i] < addresses[j]
  {
    hide Fragment;
    addresses := [];
    var stop, ip := false, 0;
    WalkStart(code);
    while !stop
      invariant stop ==> ip == |code| && addresses != [] && addresses[|addresses| - 1] == |code| - 1
      invariant !stop ==> 0 <= ip < |code| && OnInstruction(code, ip)
      invariant forall i :: i in addresses <==> OnInstruction(code, i) && i < ip
      invariant forall i :: 0 <= i < |addresses| ==> addresses[i] < ip
      invariant forall i, j :: 0 <= i < j < |addresses| ==> addresses[i] < addresses[j]
      decreases |code| - ip, !stop
    {
      stop := code[ip] == RET;
      addresses := addresses + [ip];
      WalkNext(code, ip);
      ip := ip + Width(code[ip]);
    }
  }

  lemma WalkStart(code: seq<int>)
    requires Complete(code)
    ensures OnInstruction(code, 0) && forall i :: OnInstruction(code, i) ==> 0 <= i < |code|
  {
    forall i | OnInstruction(code, i)
      ensures 0 <= i
    {
      BoundaryInside(code, i);
    }
  }

  /** No instruction begins inside another one, and only the last one returns. */
  lemma WalkNext(code: seq<int>, ip: int)
    requires Complete(code) && 0 <= ip && OnInstruction(code, ip)
    ensures code[ip] == RET <==> ip == |code| - 1
    ensures ip < |code| - 1 ==> OnInstruction(code, ip + Width(code[ip])) && ip + Width(code[ip]) <= |code| - 1
    ensures forall i :: ip < i < ip + Width(code[ip]) ==> !OnInstruction(code, i)
  {
    hide Fragment, Width;
    if ip < |code| - 1 {
      NextBoundary(code, ip);
    }
    forall i | ip < i < ip + Width(code[ip])
      ensures !OnInstruction(code, i)
    {
      if OnInstruction(code, i) {
        NothingBetween(code, ip, i);
      }
    }
  }

  lemma {:induction false} NothingBetween(x: seq<int>, i: int, k: int)
    requires Boundary(x, i) && Boundary(x, k) && 0 <= i < k && i < |x|
    ensures k >= i + Width(x[i])
    decreases |x|
  {
    var w := Width(x[0]);
    BoundaryInside(x[w..], k - w);
    if i != 0 {
      BoundaryInside(x[w..], i - w);
      NothingBetween(x[w..], i - w, k - w);
    }
  }
}
