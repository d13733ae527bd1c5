/** Running the code of an expression computes what the expression means. */
module CompilerCorrect {
  import opened Machine
  import opened Language
  import opened Compiler

  // ----- code in place -----

  /** `frag` is the part of the program that begins at address `at`. */
  predicate CodeAt(p: Program, at: int, frag: seq<int>) {
    0 <= at && at + |frag| <= |p.code| && p.code[at..at + |frag|] == frag
  }

  lemma CodeSplit(p: Program, at: int, x: seq<int>, y: seq<int>)
    requires CodeAt(p, at, x + y)
    ensures CodeAt(p, at, x) && CodeAt(p, at + |x|, y)
  {
    assert (x + y)[..|x|] == x && (x + y)[|x|..] == y;
  }

  /** The words of an instruction. */
  lemma CodeWords(p: Program, at: int, frag: seq<int>)
    requires CodeAt(p, at, frag)
    ensures |frag| > 0 ==> at < |p.code| && p.code[at] == frag[0]
    ensures |frag| > 1 ==> at + 1 < |p.code| && p.code[at + 1] == frag[1]
    ensures |frag| > 2 ==> at + 2 < |p.code| && p.code[at + 2] == frag[2]
  {
    var c := p.code[at..at + |frag|];
    assert |frag| > 0 ==> c[0] == p.code[at];
    assert |frag| > 1 ==> c[1] == p.code[at + 1];
    assert |frag| > 2 ==> c[2] == p.code[at + 2];
  }

  /** The instruction chosen for an operator computes that operator. */
  lemma ArithComputes(op: BinaryOp, l: Integer, r: Integer)
    ensures Compute(BinaryInstruction(op), l, r) == Arith(op, l, r)
  {}

  // ----- what code does to the machine -----

  /** The word that stands for a value: the value itself, or, for a conjunction, any word of the same truth value. */
  predicate Stands(exact: bool, w: int, v: int) {
    IsInteger(w) && (w != 0 <==> v != 0) && (exact ==> w == v)
  }

  /** The state after a fragment of length `len` that has left `w` for the value of `v`. */
  function After(s: State, len: nat, v: Val, w: int): State {
    State(s.ip + len, Pushed(w, s.stack), Emit(s.mem, v.constrs))
  }

  /** After `n` steps the machine has passed the fragment, or it has ended the way `r` does. */
  ghost predicate Yields(p: Program, s: State, len: nat, exact: bool, r: Result<Val>, n: nat, w: int) {
    match r
    case Ok(v) => Stands(exact, w, v.value) && Steps(p, s, n) == Running(After(s, len, v, w))
    case Throws => Steps(p, s, n) == Failed
    case Undefined => Steps(p, s, n) == Broken
  }

  ghost predicate Runs(p: Program, s: State, len: nat, exact: bool, r: Result<Val>) {
    exists n: nat, w: int :: Yields(p, s, len, exact, r, n, w)
  }

  /** The `len` words at address `at` compute `r`, whatever the stack and the constraints so far. */
  ghost predicate Means(p: Program, at: int, len: nat, env: Env, exact: bool, r: Result<Val>) {
    forall s: State :: s.ip == at && s.mem.env == env ==> Runs(p, s, len, exact, r)
  }

  lemma OneStep(p: Program, s: State)
    ensures Steps(p, s, 1) == Step(p, s)
  {
    hide Step;
    if Step(p, s).Running? {
      assert Steps(p, Step(p, s).state, 0) == Step(p, s);
    }
  }

  lemma RunFrom(p: Program, s: State, len: nat, env: Env, exact: bool, r: Result<Val>) returns (n: nat, w: int)
    requires Means(p, s.ip, len, env, exact, r) && s.mem.env == env
    ensures Yields(p, s, len, exact, r, n, w)
  {
    assert Runs(p, s, len, exact, r);
    n, w :| Yields(p, s, len, exact, r, n, w);
  }

  /** Runs `k` more instructions after a computation that has not ended. */
  lemma Onward(p: Program, s: State, n: nat, t: State, k: nat)
    requires Steps(p, s, n) == Running(t)
    ensures Steps(p, s, n + k) == Steps(p, t, k)
  {
    StepsChain(p, s, n, k);
  }

  // ----- composing code -----

  lemma MeansPush(p: Program, at: int, v: int, env: Env)
    requires CodeAt(p, at, [PUSH, v])
    ensures Means(p, at, 2, env, true, if IsInteger(v) then Ok(Val(v, [])) else Throws)
  {
    var r: Result<Val> := if IsInteger(v) then Ok(Val(v, [])) else Throws;
    forall s: State | s.ip == at && s.mem.env == env
      ensures Runs(p, s, 2, true, r)
    {
      CodeWords(p, at, [PUSH, v]);
      OneStep(p, s);
      assert s.mem.constrs + [] == s.mem.constrs;
      assert Yields(p, s, 2, true, r, 1, v);
    }
  }

  /** A fragment and one more instruction, which makes `v` of the value that the fragment computes. */
  lemma MeansThen(p: Program, at: int, x: seq<int>, i: seq<int>, env: Env, r: Result<Val>, v: Result<Integer>)
    requires Means(p, at, |x|, env, true, r)
    requires r.Ok? ==> forall s: State :: s.ip == at + |x| && s.mem.env == env && s.stack.Pushed? && s.stack.top == r.value.value
                                          ==> Steps(p, s, 1) == Replaced(s, |i|, v)
    ensures Means(p, at, |x| + |i|, env, true, if r.Ok? then Mapped(r, v) else r)
  {
    var r' := if r.Ok? then Mapped(r, v) else r;
    forall s: State | s.ip == at && s.mem.env == env
      ensures Runs(p, s, |x| + |i|, true, r')
    {
      hide Means, Steps;
      var n, w := RunFrom(p, s, |x|, env, true, r);
      if r.Ok? {
        Onward(p, s, n, After(s, |x|, r.value, w), 1);
        n := n + 1;
      }
      assert Yields(p, s, |x| + |i|, true, r', n, if r'.Ok? then r'.value.value else 0);
    }
  }

  /** An instruction of `width` words that replaces the top of the stack. */
  function Replaced(s: State, width: nat, v: Result<Integer>): Outcome
    requires s.stack.Pushed?
  {
    match v
    case Ok(i) => Goto(s, s.ip + width, Pushed(i, s.stack.below))
    case Throws => Failed
    case Undefined => Broken
  }

  lemma MeansUnary(p: Program, at: int, x: seq<int>, op: UnaryOp, env: Env, r: Result<Val>)
    requires CodeAt(p, at, x + [UnaryInstruction(op)]) && Means(p, at, |x|, env, true, r) && Proper(r)
    ensures Means(p, at, |x| + 1, env, true, EvalUnary(op, r))
  {
    hide Means;
    var i := [UnaryInstruction(op)];
    CodeSplit(p, at, x, i);
    if r.Ok? {
      var v := if op.Neg? then Checked(-r.value.value) else Ok(Truth(r.value.value == 0));
      forall s: State | s.ip == at + |x| && s.mem.env == env && s.stack.Pushed? && s.stack.top == r.value.value
        ensures Steps(p, s, 1) == Replaced(s, 1, v)
      {
        CodeWords(p, s.ip, i);
        OneStep(p, s);
      }
      MeansThen(p, at, x, i, env, r, v);
    } else {
      MeansThen(p, at, x, i, env, r, Throws);
    }
  }

  lemma MeansLoad(p: Program, at: int, x: seq<int>, kind: Kind, env: Env, r: Result<Val>)
    requires CodeAt(p, at, x + LoadCode(kind)) && Means(p, at, |x|, env, true, r) && Proper(r) && (r.Ok? ==> r.value.value >= 0)
    ensures Means(p, at, |x| + 1, env, true, if r.Ok? then Mapped(r, Load(kind, r.value.value, env)) else r)
  {
    hide Means;
    var i := LoadCode(kind);
    CodeSplit(p, at, x, i);
    if r.Ok? {
      var v := Load(kind, r.value.value, env);
      forall s: State | s.ip == at + |x| && s.mem.env == env && s.stack.Pushed? && s.stack.top == r.value.value
        ensures Steps(p, s, 1) == Replaced(s, 1, v)
      {
        CodeWords(p, s.ip, i);
        OneStep(p, s);
      }
      MeansThen(p, at, x, i, env, r, v);
    } else {
      MeansThen(p, at, x, i, env, r, Throws);
    }
  }

  /** The check that a value lies between two limits leaves it on the stack. */
  lemma MeansCheck(p: Program, at: int, x: seq<int>, lo: int, hi: int, env: Env, r: Result<Val>)
    requires CodeAt(p, at, x + [FAILNOTIN, lo, hi]) && Means(p, at, |x|, env, true, r) && Proper(r)
    ensures Means(p, at, |x| + 3, env, true, if r.Ok? && !(lo <= r.value.value <= hi) then Throws else r)
  {
    hide Means;
    var i := [FAILNOTIN, lo, hi];
    CodeSplit(p, at, x, i);
    if r.Ok? {
      var v: Result<Integer> := if lo <= r.value.value <= hi then Ok(r.value.value) else Throws;
      forall s: State | s.ip == at + |x| && s.mem.env == env && s.stack.Pushed? && s.stack.top == r.value.value
        ensures Steps(p, s, 1) == Replaced(s, 3, v)
      {
        CodeWords(p, s.ip, i);
        OneStep(p, s);
      }
      MeansThen(p, at, x, i, env, r, v);
    } else {
      MeansThen(p, at, x, i, env, r, Throws);
    }
  }

  lemma MeansBinary(p: Program, at: int, x: seq<int>, y: seq<int>, op: BinaryOp, env: Env, rx: Result<Val>, ry: Result<Val>)
    requires CodeAt(p, at, x + y + [BinaryInstruction(op)]) && Proper(rx) && Proper(ry)
    requires Means(p, at, |x|, env, true, rx) && Means(p, at + |x|, |y|, env, true, ry)
    ensures Means(p, at, |x| + |y| + 1, env, true, EvalBinary(op, rx, ry))
  {
    hide Runs, EvalBinary;
    CodeSplit(p, at, x + y, [BinaryInstruction(op)]);
    CodeWords(p, at + |x| + |y|, [BinaryInstruction(op)]);
    forall s: State | s.ip == at && s.mem.env == env
      ensures Runs(p, s, |x| + |y| + 1, true, EvalBinary(op, rx, ry))
    {
      BinaryRuns(p, s, x, y, op, env, rx, ry);
    }
  }

  lemma BinaryRuns(p: Program, s: State, x: seq<int>, y: seq<int>, op: BinaryOp, env: Env, rx: Result<Val>, ry: Result<Val>)
    requires CodeAt(p, s.ip + |x| + |y|, [BinaryInstruction(op)]) && Proper(rx) && Proper(ry) && s.mem.env == env
    requires Means(p, s.ip, |x|, env, true, rx) && Means(p, s.ip + |x|, |y|, env, true, ry)
    ensures Runs(p, s, |x| + |y| + 1, true, EvalBinary(op, rx, ry))
  {
    hide Means, Steps, Compute, Arith, CodeAt, Step;
    var r := EvalBinary(op, rx, ry);
    var n, w := RunFrom(p, s, |x|, env, true, rx);
    if rx.Ok? {
      var t := After(s, |x|, rx.value, w);
      var k, z := RunFrom(p, t, |y|, env, true, ry);
      Onward(p, s, n, t, k);
      n := n + k;
      if ry.Ok? {
        var u := After(t, |y|, ry.value, z);
        BinaryStep(p, u, op, s.stack, w, z);
        Onward(p, s, n, u, 1);
        n := n + 1;
        assert s.mem.constrs + rx.value.constrs + ry.value.constrs == s.mem.constrs + (rx.value.constrs + ry.value.constrs);
      }
    }
    assert Yields(p, s, |x| + |y| + 1, true, r, n, if r.Ok? then r.value.value else 0);
  }

  lemma BinaryStep(p: Program, s: State, op: BinaryOp, below: Stack, l: Integer, r: Integer)
    requires CodeAt(p, s.ip, [BinaryInstruction(op)]) && s.stack == Pushed(r, Pushed(l, below))
    ensures Steps(p, s, 1) == PushResult(s, below, Arith(op, l, r))
  {
    hide Compute, Arith;
    CodeWords(p, s.ip, [BinaryInstruction(op)]);
    OneStep(p, s);
    ArithComputes(op, l, r);
  }

  // ----- clock constraints -----

  lemma ConstraintStep(p: Program, s: State, cmp: int, below: Stack, x: int, y: int, b: Integer)
    requires CodeAt(p, s.ip, [CLKCONSTR, cmp] + [PUSH, 1]) && s.stack == Pushed(b, Pushed(y, Pushed(x, below)))
    ensures Steps(p, s, 2)
         == if ClockId(p.clocks, x) && ClockId(p.clocks, y)
            then Running(State(s.ip + 4, Pushed(1, below), Emit(s.mem, [ClockConstraint(x, y, cmp == 0, b)])))
            else Failed
  {
    CodeSplit(p, s.ip, [CLKCONSTR, cmp], [PUSH, 1]);
    CodeWords(p, s.ip, [CLKCONSTR, cmp]);
    CodeWords(p, s.ip + 2, [PUSH, 1]);
    OneStep(p, s);
    if Step(p, s).Running? {
      OneStep(p, Step(p, s).state);
      Onward(p, s, 1, Step(p, s).state, 1);
    } else {
      StepsChain(p, s, 1, 1);
    }
  }

  lemma ConstraintRuns(p: Program, s: State, lx: nat, ly: nat, lb: nat, cmp: int, env: Env,
                       rx: Result<Val>, ry: Result<Val>, rb: Result<Val>)
    requires CodeAt(p, s.ip + lx + ly + lb, [CLKCONSTR, cmp] + [PUSH, 1]) && Proper(rb) && s.mem.env == env
    requires Means(p, s.ip, lx, env, true, rx) && Means(p, s.ip + lx, ly, env, true, ry)
    requires Means(p, s.ip + lx + ly, lb, env, true, rb)
    ensures Runs(p, s, lx + ly + lb + 4, true, EvalConstraint(rx, ry, rb, cmp == 0, p.clocks))
  {
    hide Means, Steps, CodeAt, Step;
    var r := EvalConstraint(rx, ry, rb, cmp == 0, p.clocks);
    var n, w := RunFrom(p, s, lx, env, true, rx);
    if rx.Ok? {
      var t := After(s, lx, rx.value, w);
      var k, z := RunFrom(p, t, ly, env, true, ry);
      Onward(p, s, n, t, k);
      n := n + k;
      if ry.Ok? {
        var u := After(t, ly, ry.value, z);
        var j, q := RunFrom(p, u, lb, env, true, rb);
        Onward(p, s, n, u, j);
        n := n + j;
        if rb.Ok? {
          var e := After(u, lb, rb.value, q);
          ConstraintStep(p, e, cmp, s.stack, w, z, q);
          Onward(p, s, n, e, 2);
          n := n + 2;
          var c := [ClockConstraint(w, z, cmp == 0, q)];
          Regroup(s.mem.constrs, rx.value.constrs, ry.value.constrs, rb.value.constrs, c);
        }
      }
    }
    assert Yields(p, s, lx + ly + lb + 4, true, r, n, 1);
  }

  lemma Regroup<T>(a: seq<T>, b: seq<T>, c: seq<T>, d: seq<T>, e: seq<T>)
    ensures (((a + b) + c) + d) + e == a + (b + c + d + e)
  {}

  lemma MeansConstraint(p: Program, at: int, x: seq<int>, y: seq<int>, b: seq<int>, cmp: int, env: Env,
                        rx: Result<Val>, ry: Result<Val>, rb: Result<Val>)
    requires CodeAt(p, at, ConstraintCode(x, y, b, cmp)) && Proper(rb)
    requires Means(p, at, |x|, env, true, rx) && Means(p, at + |x|, |y|, env, true, ry)
    requires Means(p, at + |x| + |y|, |b|, env, true, rb)
    ensures Means(p, at, |ConstraintCode(x, y, b, cmp)|, env, true, EvalConstraint(rx, ry, rb, cmp == 0, p.clocks))
  {
    hide Runs, EvalConstraint;
    var i := [CLKCONSTR, cmp] + [PUSH, 1];
    assert ConstraintCode(x, y, b, cmp) == x + y + b + i;
    CodeSplit(p, at, x + y + b, i);
    forall s: State | s.ip == at && s.mem.env == env
      ensures Runs(p, s, |ConstraintCode(x, y, b, cmp)|, true, EvalConstraint(rx, ry, rb, cmp == 0, p.clocks))
    {
      ConstraintRuns(p, s, |x|, |y|, |b|, cmp, env, rx, ry, rb);
    }
  }

  // ----- choices -----

  lemma BranchStep(p: Program, s: State, d: int, w: Integer, below: Stack)
    requires CodeAt(p, s.ip, [JMPZ, d]) && s.stack == Pushed(w, below)
    ensures Steps(p, s, 1) == Goto(s, if w == 0 then s.ip + 2 + d else s.ip + 2, below)
  {
    CodeWords(p, s.ip, [JMPZ, d]);
    OneStep(p, s);
  }

  lemma JumpStep(p: Program, s: State, d: int)
    requires CodeAt(p, s.ip, [JMP, d])
    ensures Steps(p, s, 1) == Goto(s, s.ip + 2 + d, s.stack)
  {
    CodeWords(p, s.ip, [JMP, d]);
    OneStep(p, s);
  }

  lemma ChoiceSplit(p: Program, at: int, x: seq<int>, y: seq<int>, z: seq<int>)
    requires CodeAt(p, at, Choice(x, y, z))
    ensures CodeAt(p, at, x) && CodeAt(p, at + |x|, [JMPZ, |y| + 2]) && CodeAt(p, at + |x| + 2, y)
    ensures CodeAt(p, at + |x| + 2 + |y|, [JMP, |z|]) && CodeAt(p, at + |x| + 2 + |y| + 2, z)
  {
    var i, j := [JMPZ, |y| + 2], [JMP, |z|];
    CodeSplit(p, at, x + i + y + j, z);
    CodeSplit(p, at, x + i + y, j);
    CodeSplit(p, at, x + i, y);
    CodeSplit(p, at, x, i);
  }

  lemma ChoiceRuns(p: Program, s: State, x: seq<int>, y: seq<int>, z: seq<int>, env: Env, exact: bool, exact': bool,
                   rx: Result<Val>, ry: Result<Val>, rz: Result<Val>)
    requires CodeAt(p, s.ip, Choice(x, y, z)) && Proper(ry) && Proper(rz) && s.mem.env == env
    requires Means(p, s.ip, |x|, env, exact, rx)
    requires Means(p, s.ip + |x| + 2, |y|, env, exact', ry)
    requires Means(p, s.ip + |x| + 2 + |y| + 2, |z|, env, exact', rz)
    ensures Runs(p, s, |Choice(x, y, z)|, exact', EvalChoice(rx, ry, rz))
  {
    hide Means, Steps, CodeAt, Step;
    ChoiceSplit(p, s.ip, x, y, z);
    var r := EvalChoice(rx, ry, rz);
    var len := |Choice(x, y, z)|;
    assert len == |x| + 2 + |y| + 2 + |z|;
    var n, w := RunFrom(p, s, |x|, env, exact, rx);
    var w' := 0;
    if rx.Ok? {
      var t := After(s, |x|, rx.value, w);
      BranchStep(p, t, |y| + 2, w, s.stack);
      Onward(p, s, n, t, 1);
      n := n + 1;
      var u := State(if w == 0 then t.ip + 2 + (|y| + 2) else t.ip + 2, s.stack, t.mem);
      var b, rb := if w == 0 then z else y, if w == 0 then rz else ry;
      var k: nat;
      k, w' := RunFrom(p, u, |b|, env, exact', rb);
      Onward(p, s, n, u, k);
      n := n + k;
      if rb.Ok? {
        assert (s.mem.constrs + rx.value.constrs) + rb.value.constrs == s.mem.constrs + (rx.value.constrs + rb.value.constrs);
        if w != 0 {
          var e := After(u, |b|, rb.value, w');
          JumpStep(p, e, |z|);
          Onward(p, s, n, e, 1);
          n := n + 1;
        }
      }
    }
    assert Yields(p, s, len, exact', r, n, w');
  }

  lemma MeansChoice(p: Program, at: int, x: seq<int>, y: seq<int>, z: seq<int>, env: Env, exact: bool, exact': bool,
                    rx: Result<Val>, ry: Result<Val>, rz: Result<Val>)
    requires CodeAt(p, at, Choice(x, y, z)) && Proper(ry) && Proper(rz)
    requires Means(p, at, |x|, env, exact, rx)
    requires Means(p, at + |x| + 2, |y|, env, exact', ry)
    requires Means(p, at + |x| + 2 + |y| + 2, |z|, env, exact', rz)
    ensures Means(p, at, |Choice(x, y, z)|, env, exact', EvalChoice(rx, ry, rz))
  {
    hide Runs, EvalChoice;
    forall s: State | s.ip == at && s.mem.env == env
      ensures Runs(p, s, |Choice(x, y, z)|, exact', EvalChoice(rx, ry, rz))
    {
      ChoiceRuns(p, s, x, y, z, env, exact, exact', rx, ry, rz);
    }
  }

  // ----- code that computes a result wherever it stands -----

  ghost predicate Everywhere(p: Program, x: seq<int>, env: Env, exact: bool, r: Result<Val>) {
    forall at: int :: CodeAt(p, at, x) ==> Means(p, at, |x|, env, exact, r)
  }

  lemma EverywherePush(p: Program, v: int, env: Env)
    ensures Everywhere(p, [PUSH, v], env, true, if IsInteger(v) then Ok(Val(v, [])) else Throws)
  {
    forall at | CodeAt(p, at, [PUSH, v])
      ensures Means(p, at, 2, env, true, if IsInteger(v) then Ok(Val(v, [])) else Throws)
    {
      MeansPush(p, at, v, env);
    }
  }

  lemma EverywhereUnary(p: Program, x: seq<int>, op: UnaryOp, env: Env, r: Result<Val>)
    requires Everywhere(p, x, env, true, r) && Proper(r)
    ensures Everywhere(p, x + [UnaryInstruction(op)], env, true, EvalUnary(op, r))
  {
    hide Means;
    forall at | CodeAt(p, at, x + [UnaryInstruction(op)])
      ensures Means(p, at, |x| + 1, env, true, EvalUnary(op, r))
    {
      CodeSplit(p, at, x, [UnaryInstruction(op)]);
      MeansUnary(p, at, x, op, env, r);
    }
  }

  lemma EverywhereBinary(p: Program, x: seq<int>, y: seq<int>, op: BinaryOp, env: Env, rx: Result<Val>, ry: Result<Val>)
    requires Everywhere(p, x, env, true, rx) && Everywhere(p, y, env, true, ry) && Proper(rx) && Proper(ry)
    ensures Everywhere(p, x + y + [BinaryInstruction(op)], env, true, EvalBinary(op, rx, ry))
  {
    hide Means, EvalBinary;
    forall at | CodeAt(p, at, x + y + [BinaryInstruction(op)])
      ensures Means(p, at, |x| + |y| + 1, env, true, EvalBinary(op, rx, ry))
    {
      CodeSplit(p, at, x + y, [BinaryInstruction(op)]);
      CodeSplit(p, at, x, y);
      MeansBinary(p, at, x, y, op, env, rx, ry);
    }
  }

  lemma EverywhereLoad(p: Program, x: seq<int>, kind: Kind, env: Env, r: Result<Val>)
    requires Everywhere(p, x, env, true, r) && Proper(r) && (r.Ok? ==> r.value.value >= 0)
    ensures Everywhere(p, x + LoadCode(kind), env, true, if r.Ok? then Mapped(r, Load(kind, r.value.value, env)) else r)
  {
    hide Means;
    forall at | CodeAt(p, at, x + LoadCode(kind))
      ensures Means(p, at, |x| + 1, env, true, if r.Ok? then Mapped(r, Load(kind, r.value.value, env)) else r)
    {
      CodeSplit(p, at, x, LoadCode(kind));
      MeansLoad(p, at, x, kind, env, r);
    }
  }

  lemma EverywhereCheck(p: Program, x: seq<int>, lo: int, hi: int, env: Env, r: Result<Val>)
    requires Everywhere(p, x, env, true, r) && Proper(r)
    ensures Everywhere(p, x + [FAILNOTIN, lo, hi], env, true, if r.Ok? && !(lo <= r.value.value <= hi) then Throws else r)
  {
    hide Means;
    forall at | CodeAt(p, at, x + [FAILNOTIN, lo, hi])
      ensures Means(p, at, |x| + 3, env, true, if r.Ok? && !(lo <= r.value.value <= hi) then Throws else r)
    {
      CodeSplit(p, at, x, [FAILNOTIN, lo, hi]);
      MeansCheck(p, at, x, lo, hi, env, r);
    }
  }

  lemma EverywhereElem(p: Program, v: Var, off: Expr, env: Env)
    requires Everywhere(p, RvalueCode(off), env, true, Eval(off, env, p.clocks))
    ensures Everywhere(p, LvalueCode(Elem(v, off)), env, true, Address(Elem(v, off), env, p.clocks))
  {
    hide Everywhere, Eval, RvalueCode;
    var x, y, chk := [PUSH, v.id], RvalueCode(off), [FAILNOTIN, 0, v.size - 1];
    var r := Eval(off, env, p.clocks);
    EverywherePush(p, v.id, env);
    EverywhereCheck(p, y, 0, v.size - 1, env, r);
    var rx: Result<Val> := if IsInteger(v.id) then Ok(Val(v.id, [])) else Throws;
    var ry := if r.Ok? && !(0 <= r.value.value <= v.size - 1) then Throws else r;
    EverywhereBinary(p, x, y + chk, Plus, env, rx, ry);
    assert x + (y + chk) + [SUM] == x + y + chk + [SUM];
    assert r.Ok? ==> [] + r.value.constrs == r.value.constrs;
    assert EvalBinary(Plus, rx, ry) == Address(Elem(v, off), env, p.clocks);
  }

  lemma EverywhereConstraint(p: Program, x: seq<int>, y: seq<int>, b: seq<int>, cmp: int, env: Env,
                             rx: Result<Val>, ry: Result<Val>, rb: Result<Val>)
    requires Everywhere(p, x, env, true, rx) && Everywhere(p, y, env, true, ry) && Everywhere(p, b, env, true, rb) && Proper(rb)
    ensures Everywhere(p, ConstraintCode(x, y, b, cmp), env, true, EvalConstraint(rx, ry, rb, cmp == 0, p.clocks))
  {
    hide Means, EvalConstraint;
    var i := [CLKCONSTR, cmp] + [PUSH, 1];
    var code := ConstraintCode(x, y, b, cmp);
    assert code == x + y + b + i;
    forall at | CodeAt(p, at, code)
      ensures Means(p, at, |code|, env, true, EvalConstraint(rx, ry, rb, cmp == 0, p.clocks))
    {
      CodeSplit(p, at, x + y + b, i);
      CodeSplit(p, at, x + y, b);
      CodeSplit(p, at, x, y);
      MeansConstraint(p, at, x, y, b, cmp, env, rx, ry, rb);
    }
  }

  lemma EverywherePredicate(p: Program, op: BinaryOp, x: seq<int>, y: seq<int>, b: seq<int>, env: Env,
                            rx: Result<Val>, ry: Result<Val>, rb: Result<Val>)
    requires Everywhere(p, x, env, true, rx) && Everywhere(p, y, env, true, ry) && Everywhere(p, b, env, true, rb) && Proper(rb)
    ensures Everywhere(p, PredicateCode(op, x, y, b), env, true, EvalPredicate(op, rx, ry, rb, p.clocks))
  {
    hide Everywhere, ConstraintCode, EvalConstraint;
    EverywhereUnary(p, b, Neg, env, rb);
    var nb := EvalUnary(Neg, rb);
    EverywhereConstraint(p, x, y, b, 0, env, rx, ry, rb);
    EverywhereConstraint(p, x, y, b, 1, env, rx, ry, rb);
    EverywhereConstraint(p, y, x, b + [NEG], 0, env, ry, rx, nb);
    EverywhereConstraint(p, y, x, b + [NEG], 1, env, ry, rx, nb);
    EverywhereBinary(p, ConstraintCode(x, y, b, 1), ConstraintCode(y, x, b + [NEG], 1), LAnd, env,
                     EvalConstraint(rx, ry, rb, false, p.clocks), EvalConstraint(ry, rx, nb, false, p.clocks));
  }

  lemma EverywhereChoice(p: Program, x: seq<int>, y: seq<int>, z: seq<int>, env: Env, exact: bool, exact': bool,
                         rx: Result<Val>, ry: Result<Val>, rz: Result<Val>)
    requires Everywhere(p, x, env, exact, rx) && Everywhere(p, y, env, exact', ry) && Everywhere(p, z, env, exact', rz)
    requires Proper(ry) && Proper(rz)
    ensures Everywhere(p, Choice(x, y, z), env, exact', EvalChoice(rx, ry, rz))
  {
    hide Means, EvalChoice;
    forall at | CodeAt(p, at, Choice(x, y, z))
      ensures Means(p, at, |Choice(x, y, z)|, env, exact', EvalChoice(rx, ry, rz))
    {
      ChoiceSplit(p, at, x, y, z);
      MeansChoice(p, at, x, y, z, env, exact, exact', rx, ry, rz);
    }
  }

  /** A word that stands for a value stands for its truth. */
  lemma EverywhereTruth(p: Program, x: seq<int>, env: Env, exact: bool, r: Result<Val>)
    requires Everywhere(p, x, env, exact, r)
    ensures Everywhere(p, x, env, false, AsTruth(r))
  {
    forall at, s: State | CodeAt(p, at, x) && s.ip == at && s.mem.env == env
      ensures Runs(p, s, |x|, false, AsTruth(r))
    {
      hide Steps, CodeAt;
      assert Means(p, at, |x|, env, exact, r);
      var n, w := RunFrom(p, s, |x|, env, exact, r);
      assert Yields(p, s, |x|, false, AsTruth(r), n, w);
    }
  }

  // ----- expressions -----

  predicate Exact(e: Expr) {
    !TypeOf(e).ConjunctiveFormula?
  }

  /** The code of an assignable expression computes the identifier of what it denotes. */
  lemma {:induction false} LvalueCorrect(p: Program, e: Expr, env: Env)
    requires IsLvalue(e) && TypeOf(e) != BadType && PlainClocks(e)
    ensures Everywhere(p, LvalueCode(e), env, true, Address(e, env, p.clocks))
    decreases e, 0
  {
    hide Everywhere;
    match e
    case Ref(v) => EverywherePush(p, v.id, env);
    case Elem(v, off) =>
      RvalueCorrect(p, off, env);
      EverywhereElem(p, v, off, env);
  }

  /** The code of an expression computes its value, or for a conjunction its truth; it imposes its clock constraints; and it
      fails exactly as the expression does. */
  lemma {:induction false} RvalueCorrect(p: Program, e: Expr, env: Env)
    requires Formula(e)
    ensures Everywhere(p, RvalueCode(e), env, Exact(e), Eval(e, env, p.clocks))
    decreases e, 1
  {
    hide Everywhere, PredicateCode, Choice, EvalPredicate, EvalChoice, EvalBinary, EvalUnary, Address, LvalueCode, AsTruth;
    match e
    case Const(v) => EverywherePush(p, v, env);
    case Ref(v) =>
      LvalueCorrect(p, e, env);
      EverywhereLoad(p, LvalueCode(e), v.kind, env, Address(e, env, p.clocks));
    case Elem(v, _) =>
      LvalueCorrect(p, e, env);
      EverywhereLoad(p, LvalueCode(e), v.kind, env, Address(e, env, p.clocks));
    case Par(x) => RvalueCorrect(p, x, env);
    case Unary(op, x) =>
      RvalueCorrect(p, x, env);
      EverywhereUnary(p, RvalueCode(x), op, env, Eval(x, env, p.clocks));
    case Binary(op, l, r) => BinaryCorrect(p, e, env);
    case Ite(c, t, f) =>
      RvalueCorrect(p, c, env);
      RvalueCorrect(p, t, env);
      RvalueCorrect(p, f, env);
      EverywhereChoice(p, RvalueCode(c), RvalueCode(t), RvalueCode(f), env, Exact(c), true,
                       Eval(c, env, p.clocks), Eval(t, env, p.clocks), Eval(f, env, p.clocks));
  }

  lemma {:induction false} BinaryCorrect(p: Program, e: Expr, env: Env)
    requires Formula(e) && e.Binary?
    ensures Everywhere(p, RvalueCode(e), env, Exact(e), Eval(e, env, p.clocks))
    decreases e, 0
  {
    hide Everywhere, PredicateCode, Choice, EvalPredicate, EvalChoice, EvalBinary, Address, LvalueCode, AsTruth;
    var op, l, r := e.op, e.left, e.right;
    RvalueCorrect(p, r, env);
    var b := Eval(r, env, p.clocks);
    if op.LAnd? {
      RvalueCorrect(p, l, env);
      EverywhereTruth(p, RvalueCode(r), env, Exact(r), b);
      EverywherePush(p, 0, env);
      EverywhereTruth(p, [PUSH, 0], env, true, Ok(Val(0, [])));
      ZeroIsFalse();
      EverywhereChoice(p, RvalueCode(l), RvalueCode(r), [PUSH, 0], env, Exact(l), false,
                       Eval(l, env, p.clocks), AsTruth(b), Ok(Val(0, [])));
    } else if TypeOf(e).ClkConstrSimple? {
      LvalueCorrect(p, l, env);
      EverywherePush(p, 0, env);
      EverywherePredicate(p, op, LvalueCode(l), [PUSH, 0], RvalueCode(r), env, Address(l, env, p.clocks), ZERO_CLOCK, b);
    } else if TypeOf(e).ClkConstrDiagonal? {
      DiagonalClocks(e);
      LvalueCorrect(p, l.left, env);
      LvalueCorrect(p, l.right, env);
      EverywherePredicate(p, op, LvalueCode(l.left), LvalueCode(l.right), RvalueCode(r), env,
                          Address(l.left, env, p.clocks), Address(l.right, env, p.clocks), b);
    } else {
      RvalueCorrect(p, l, env);
      EverywhereBinary(p, RvalueCode(l), RvalueCode(r), op, env, Eval(l, env, p.clocks), b);
    }
  }

  lemma DiagonalClocks(e: Expr)
    requires Formula(e) && e.Binary? && TypeOf(e).ClkConstrDiagonal?
    ensures e.left.Binary? && ClockRef(e.left.left) && ClockRef(e.left.right)
  {
    var d := e.left;
    assert TypeOf(d).ClkDiff? && PlainClocks(d);
    assert TypeOf(d) == TypeOfBinary(d.op, TypeOf(d.left), TypeOf(d.right));
  }

  lemma ZeroIsFalse()
    ensures AsTruth(Ok(Val(0, []))) == Ok(Val(0, []))
  {}
}
