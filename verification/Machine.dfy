/** The bytecode and the machine that interprets it. */
module Machine {

  /** Values of the program, 32 bits wide by default. */
  type Integer = x: int | -0x8000_0000 <= x <= 0x7fff_ffff witness 0

  const MIN_INTEGER: int := -0x8000_0000
  const MAX_INTEGER: int := 0x7fff_ffff

  predicate IsInteger(x: int) {
    -0x8000_0000 <= x <= 0x7fff_ffff
  }

  /** Identifiers of variables and clocks are unsigned words. */
  predicate IsId(x: int) {
    0 <= x <= 0xffff_ffff
  }

  /** Computations end with a value, with an exception, or without any meaning: signed overflow, division by zero. */
  datatype Result<T> = Ok(value: T) | Throws | Undefined

  function Checked(x: int): Result<Integer> {
    if IsInteger(x) then Ok(x) else Undefined
  }

  // ----- instructions -----

  const RET := 0
  const RETZ := 1
  const FAILNOTIN := 2
  const JMP := 3
  const JMPZ := 4
  const PUSH := 5
  const VALUEAT := 6
  const ASSIGN := 7
  const LAND := 8
  const MINUS := 9
  const DIV := 10
  const EQ := 11
  const GE := 12
  const GT := 13
  const LT := 14
  const LE := 15
  const MUL := 16
  const MOD := 17
  const NE := 18
  const SUM := 19
  const NEG := 20
  const LNOT := 21
  const CLKCONSTR := 22
  const CLKRESET := 23
  const PUSH_FRAME := 24
  const POP_FRAME := 25
  const VALUEAT_FRAME := 26
  const ASSIGN_FRAME := 27
  const INIT_FRAME := 28
  const NOP := 29

  /** The number of words of an instruction: itself and its parameters. */
  function Width(op: int): (w: int)
    ensures 1 <= w <= 3
  {
    if op == FAILNOTIN then 3
    else if op == JMP || op == JMPZ || op == PUSH || op == CLKCONSTR then 2
    else 1
  }

  // ----- arithmetic -----

  /** Division that truncates toward zero; the remainder takes the sign of the dividend. */
  function TruncDiv(l: int, r: int): int
    requires r != 0
  {
    if l >= 0 then l / r else -((-l) / r)
  }

  function TruncMod(l: int, r: int): int
    requires r != 0
  {
    if l >= 0 then l % r else -((-l) % r)
  }

  lemma Truncates(l: int, r: int)
    requires r != 0
    ensures l == TruncDiv(l, r) * r + TruncMod(l, r)
    ensures (if TruncMod(l, r) < 0 then -TruncMod(l, r) else TruncMod(l, r)) < if r < 0 then -r else r
    ensures l >= 0 ==> TruncMod(l, r) >= 0
    ensures l <= 0 ==> TruncMod(l, r) <= 0
  {
    if l < 0 {
      var q := (-l) / r;
      assert (-q) * r == -(q * r);
    }
  }

  function Truth(b: bool): Integer {
    if b then 1 else 0
  }

  /** What a binary instruction makes of the two topmost values. */
  function Compute(op: int, l: Integer, r: Integer): Result<Integer> {
    if op == LAND then Ok(Truth(l != 0 && r != 0))
    else if op == MINUS then Checked(l - r)
    else if op == DIV then if r == 0 then Undefined else Checked(TruncDiv(l, r))
    else if op == EQ then Ok(Truth(l == r))
    else if op == GE then Ok(Truth(l >= r))
    else if op == GT then Ok(Truth(l > r))
    else if op == LT then Ok(Truth(l < r))
    else if op == LE then Ok(Truth(l <= r))
    else if op == MUL then Checked(l * r)
    else if op == MOD then if r == 0 || (r == -1 && l == MIN_INTEGER) then Undefined else Checked(TruncMod(l, r))
    else if op == NE then Ok(Truth(l != r))
    else Checked(l + r)
  }

  // ----- memory -----

  /** Local variables live in a stack of frames; the innermost one that knows an identifier decides. */
  type Frame = map<int, Integer>

  datatype Env = Env(vars: seq<Integer>, frames: seq<Frame>)

  datatype ClockConstraint = ClockConstraint(first: int, second: int, strict: bool, bound: Integer)

  datatype ClockReset = ClockReset(left: int, right: int, value: Integer)

  datatype Memory = Memory(env: Env, constrs: seq<ClockConstraint>, resets: seq<ClockReset>)

  function Lookup(frames: seq<Frame>, id: int): (r: Result<Integer>)
    decreases |frames|
  {
    if frames == [] then Throws
    else
      var top := frames[|frames| - 1];
      if id in top then Ok(top[id]) else Lookup(frames[..|frames| - 1], id)
  }

  /** Frame `k` is the innermost one that binds the identifier. */
  predicate Innermost(frames: seq<Frame>, id: int, k: int) {
    0 <= k < |frames| && id in frames[k] && forall j :: k < j < |frames| ==> id !in frames[j]
  }

  /** Inner declarations hide outer ones. */
  lemma {:induction false} LookupInnermost(frames: seq<Frame>, id: int)
    ensures forall k :: Innermost(frames, id, k) ==> Lookup(frames, id) == Ok(frames[k][id])
    ensures Lookup(frames, id) == Throws <==> forall k :: 0 <= k < |frames| ==> id !in frames[k]
    decreases |frames|
  {
    if frames != [] {
      var rest := frames[..|frames| - 1];
      LookupInnermost(rest, id);
      forall k | Innermost(frames, id, k) && k < |rest| ensures Innermost(rest, id, k) {}
    }
  }

  function Update(frames: seq<Frame>, id: int, v: Integer): (r: Result<seq<Frame>>)
    ensures r.Ok? ==> |r.value| == |frames|
    ensures !r.Undefined?
    decreases |frames|
  {
    if frames == [] then Throws
    else
      var top, rest := frames[|frames| - 1], frames[..|frames| - 1];
      if id in top then Ok(rest + [top[id := v]])
      else
        var r := Update(rest, id, v);
        if r.Ok? then Ok(r.value + [top]) else Throws
  }

  /** An update changes what its own identifier is bound to, and nothing else. */
  lemma {:induction false} UpdateLookup(frames: seq<Frame>, id: int, v: Integer, id': int)
    ensures Update(frames, id, v).Ok? <==> Lookup(frames, id).Ok?
    ensures Update(frames, id, v).Ok? ==>
              Lookup(Update(frames, id, v).value, id') == if id' == id then Ok(v) else Lookup(frames, id')
    decreases |frames|
  {
    if frames != [] {
      var top, rest := frames[|frames| - 1], frames[..|frames| - 1];
      UpdateLookup(rest, id, v, id');
      if id in top {
        var f := rest + [top[id := v]];
        assert f[..|f| - 1] == rest;
      } else if Update(rest, id, v).Ok? {
        var f := Update(rest, id, v).value + [top];
        assert f[..|f| - 1] == Update(rest, id, v).value;
      }
    }
  }

  // ----- steps -----

  datatype Stack = Empty | Pushed(top: int, below: Stack)

  datatype State = State(ip: int, stack: Stack, mem: Memory)

  datatype Program = Program(code: seq<int>, clocks: nat)

  /** The machine is still running, has returned a value, has thrown an exception, or has left defined behaviour. */
  datatype Outcome = Running(state: State) | Returned(value: Integer, mem: Memory) | Failed | Broken

  function Goto(s: State, ip: int, stack: Stack): Outcome {
    Running(State(ip, stack, s.mem))
  }

  function GotoEnv(s: State, ip: int, stack: Stack, env: Env): Outcome {
    Running(State(ip, stack, s.mem.(env := env)))
  }

  function PushResult(s: State, below: Stack, r: Result<Integer>): Outcome {
    match r
    case Ok(v) => Goto(s, s.ip + 1, Pushed(v, below))
    case Throws => Failed
    case Undefined => Broken
  }

  function StepBinary(op: int, s: State): Outcome {
    match s.stack
    case Pushed(r, Pushed(l, below)) =>
      if IsInteger(l) && IsInteger(r) then PushResult(s, below, Compute(op, l, r)) else Failed
    case _ => Broken
  }

  function StepUnary(op: int, s: State): Outcome {
    match s.stack
    case Pushed(v, below) =>
      if !IsInteger(v) then Failed
      else PushResult(s, below, if op == NEG then Checked(-v) else Ok(Truth(v == 0)))
    case _ => Broken
  }

  function StepAssign(op: int, s: State): Outcome {
    match s.stack
    case Pushed(v, Pushed(id, below)) =>
      var env := s.mem.env;
      if op == INIT_FRAME then
        if !IsId(v) || !IsId(id) then Failed
        else if env.frames == [] || !IsInteger(v) then Broken
        else
          var k := |env.frames| - 1;
          GotoEnv(s, s.ip + 1, below, env.(frames := env.frames[..k] + [env.frames[k][id := v]]))
      else if !IsInteger(v) || !IsId(id) then Failed
      else if op == ASSIGN then
        if id >= |env.vars| then Failed else GotoEnv(s, s.ip + 1, below, env.(vars := env.vars[id := v]))
      else
        var r := Update(env.frames, id, v);
        if r.Ok? then GotoEnv(s, s.ip + 1, below, env.(frames := r.value)) else Failed
    case _ => Broken
  }

  function StepLoad(op: int, s: State): Outcome {
    match s.stack
    case Pushed(id, below) =>
      if op == VALUEAT then
        if !IsId(id) || id >= |s.mem.env.vars| then Failed else PushResult(s, below, Ok(s.mem.env.vars[id]))
      else PushResult(s, below, Lookup(s.mem.env.frames, id))
    case _ => Broken
  }

  predicate ClockId(clocks: nat, id: int) {
    IsId(id) && id < clocks
  }

  function StepConstraint(clocks: nat, s: State, cmp: int): Outcome {
    match s.stack
    case Pushed(b, Pushed(y, Pushed(x, below))) =>
      if !IsInteger(b) || !ClockId(clocks, x) || !ClockId(clocks, y) then Failed
      else Running(State(s.ip + 2, below, s.mem.(constrs := s.mem.constrs + [ClockConstraint(x, y, cmp == 0, b)])))
    case _ => Broken
  }

  function StepReset(clocks: nat, s: State): Outcome {
    match s.stack
    case Pushed(v, Pushed(y, Pushed(x, below))) =>
      if !IsInteger(v) || !ClockId(clocks, x) || !ClockId(clocks, y) then Failed
      else Running(State(s.ip + 1, below, s.mem.(resets := s.mem.resets + [ClockReset(x, y, v)])))
    case _ => Broken
  }

  /** Interprets one instruction. */
  function Step(p: Program, s: State): Outcome {
    if !(0 <= s.ip < |p.code|) || s.ip + Width(p.code[s.ip]) > |p.code| then Broken
    else
      var op := p.code[s.ip];
      var next := s.ip + Width(op);
      if op == RET then
        match s.stack {
          case Pushed(v, _) => if IsInteger(v) then Returned(v, s.mem) else Failed
          case Empty => Broken
        }
      else if op == RETZ then
        match s.stack {
          case Pushed(v, _) => if !IsInteger(v) then Failed else if v == 0 then Returned(0, s.mem) else Goto(s, next, s.stack)
          case Empty => Broken
        }
      else if op == FAILNOTIN then
        match s.stack {
          case Pushed(v, _) =>
            if p.code[s.ip + 1] <= v <= p.code[s.ip + 2] && IsInteger(v) then Goto(s, next, s.stack) else Failed
          case Empty => Broken
        }
      else if op == JMP then Goto(s, next + p.code[s.ip + 1], s.stack)
      else if op == JMPZ then
        match s.stack {
          case Pushed(v, below) =>
            if !IsInteger(v) then Failed else if v == 0 then Goto(s, next + p.code[s.ip + 1], below) else Goto(s, next, below)
          case Empty => Broken
        }
      else if op == PUSH then
        if IsInteger(p.code[s.ip + 1]) then Goto(s, next, Pushed(p.code[s.ip + 1], s.stack)) else Failed
      else if op == VALUEAT || op == VALUEAT_FRAME then StepLoad(op, s)
      else if op == ASSIGN || op == ASSIGN_FRAME || op == INIT_FRAME then StepAssign(op, s)
      else if LAND <= op <= SUM then StepBinary(op, s)
      else if op == NEG || op == LNOT then StepUnary(op, s)
      else if op == CLKCONSTR then StepConstraint(p.clocks, s, p.code[s.ip + 1])
      else if op == CLKRESET then StepReset(p.clocks, s)
      else if op == PUSH_FRAME then GotoEnv(s, next, s.stack, s.mem.env.(frames := s.mem.env.frames + [map[]]))
      else if op == POP_FRAME then
        var k := |s.mem.env.frames|;
        if k == 0 then Broken else GotoEnv(s, next, s.stack, s.mem.env.(frames := s.mem.env.frames[..k - 1]))
      else if op == NOP then Goto(s, next, s.stack)
      else Failed
  }

  /** The machine after `n` instructions, or at its end if that comes first. */
  function Steps(p: Program, s: State, n: nat): Outcome
    decreases n
  {
    if n == 0 then Running(s)
    else match Step(p, s)
      case Running(t) => Steps(p, t, n - 1)
      case o => o
  }

  lemma {:induction false} StepsChain(p: Program, s: State, n: nat, k: nat)
    ensures match Steps(p, s, n) case Running(t) => Steps(p, s, n + k) == Steps(p, t, k) case o => Steps(p, s, n + k) == o
    decreases n
  {
    hide Step;
    if n > 0 && Step(p, s).Running? {
      StepsChain(p, Step(p, s).state, n - 1, k);
    }
  }
}
