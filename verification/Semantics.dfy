// The bytecode language as a function: what one instruction does to stacks,
// frame pointer and memory, and what running a word does. `fuel` bounds the
// depth of the recursion; FuelIsIrrelevant (Runs.dfy) shows that it decides
// only whether there is a result, never which.
module Semantics {
  import opened Arith
  import opened Dictionary
  import opened Endian
  import opened Errors
  import opened Memory
  import opened Opcodes

  /** What a run does not change: the dictionary, the device windows and the
      registered SYS handler (None when there is none). */
  datatype Env = Env(
    words: seq<Word>,
    mmio: seq<Window>,
    sys: Option<(seq<HostCall>, Cell, Cell, Cell, Cell) -> Cell>)

  /** Both stacks bottom first; fp is an index into the return stack. */
  datatype State = State(ds: seq<Cell>, rs: seq<Cell>, fp: Option<nat>, mem: Mem)

  datatype Fault =
    | TruncatedLiteral | TruncatedJump | JumpOutOfRange | FellOffEnd | DivByZero
    | DsOverflow | DsUnderflow | RsOverflow | RsUnderflow
    | NoFrame | NoSuchLocal | NoSuchWord | EmptyWord | UnknownOp
    | MemoryFault(err: int)

  /** The error code the interpreter returns for a fault. */
  function Code(f: Fault): int
  {
    match f
    case TruncatedLiteral => TRUNCATED_LITERAL
    case TruncatedJump => TRUNCATED_JUMP
    case JumpOutOfRange => JUMP_OUT_OF_RANGE
    case FellOffEnd => FELL_OFF_END
    case DivByZero => DIV_BY_ZERO
    case DsOverflow | RsOverflow => STACK_OVERFLOW
    case DsUnderflow | RsUnderflow | NoSuchLocal => STACK_UNDERFLOW
    case NoFrame | EmptyWord => INVALID_ARG
    case NoSuchWord => INVALID_WORD_IDX
    case UnknownOp => UNKNOWN_OP
    case MemoryFault(err) => err
  }

  // ------------------------------------------------------------ actions

  datatype Condition = Always | IfZero | IfNonZero

  /** The opcodes grouped by what they do. */
  datatype Action =
    | Push(k: Cell)
    | Dup | Drop | Swap | Over
    | Binary(bin: BinOp)
    | Unary(un: UnOp)
    | Branch(cond: Condition, off: int)
    | Select
    | LoadMem(width: nat, signed: bool)
    | StoreMem(width: nat)
    | ToR | FromR | RFetch
    | LocalGet(idx: nat)
    | LocalSet(idx: nat)
    | LocalTee(idx: nat)
    | LocalAdd(idx: nat, delta: int)
    | Sys
    | Call(word: nat)
    | Return

  function ActionOf(i: Insn): (a: Action)
    ensures a.LoadMem? || a.StoreMem? ==> a.width in {1, 2, 4}
  {
    match i.op
    case LIT | LIT_U8 | LIT_I8 | LIT_I16 => Push(i.imm)
    case LIT0 => Push(0) case LIT1 => Push(1) case LITN1 => Push(-1)
    case DUP => Dup case DROP => Drop case SWAP => Swap case OVER => Over
    case ADD => Binary(Add) case SUB => Binary(Sub) case MUL => Binary(Mul)
    case DIV => Binary(Div) case MOD => Binary(Mod) case DIVU => Binary(DivU) case MODU => Binary(ModU)
    case EQ => Binary(Eq) case NE => Binary(Ne) case LT => Binary(Lt) case LE => Binary(Le)
    case GT => Binary(Gt) case GE => Binary(Ge) case LTU => Binary(LtU) case LEU => Binary(LeU)
    case AND => Binary(BitAnd) case OR => Binary(BitOr) case XOR => Binary(BitXor)
    case SHL => Binary(Shl) case SHR => Binary(Shr) case SAR => Binary(Sar)
    case INC => Unary(Inc) case DEC => Unary(Dec) case INVERT => Unary(Invert)
    case JMP => Branch(Always, i.imm) case JZ => Branch(IfZero, i.imm) case JNZ => Branch(IfNonZero, i.imm)
    case SELECT => Select
    case LOAD => LoadMem(4, false) case LOAD8U => LoadMem(1, false) case LOAD16U => LoadMem(2, false)
    case LOAD8S => LoadMem(1, true) case LOAD16S => LoadMem(2, true)
    case STORE => StoreMem(4) case STORE8 => StoreMem(1) case STORE16 => StoreMem(2)
    case TOR => ToR case FROMR => FromR case RFETCH => RFetch
    case LGET => LocalGet(i.imm % M8) case LGET0 => LocalGet(0) case LGET1 => LocalGet(1)
    case LSET => LocalSet(i.imm % M8) case LSET0 => LocalSet(0) case LSET1 => LocalSet(1)
    case LTEE => LocalTee(i.imm % M8)
    case LINC => LocalAdd(i.imm % M8, 1) case LDEC => LocalAdd(i.imm % M8, -1)
    case SYS => Sys
    case CALL => Call(i.imm % M16)
    case RET => Return
  }

  // ------------------------------------------------------------ one step

  /** Operand i of the data stack, 0 on top. */
  function Top(ds: seq<Cell>, i: nat): Cell
    requires i < |ds|
  {
    ds[|ds| - 1 - i]
  }

  /** The stack without its n topmost operands. */
  function Cut(ds: seq<Cell>, n: nat): seq<Cell>
    requires n <= |ds|
  {
    ds[..|ds| - n]
  }

  datatype Step =
    | Next(s: State)
    | Jump(s: State, off: int)
    | Trap(fault: Fault, s: State)

  function PushDs(s: State, v: Cell): Step
  {
    if |s.ds| >= DS_SIZE then Trap(DsOverflow, s) else Next(s.(ds := s.ds + [v]))
  }

  /** The operands an action takes off the data stack. */
  function Pops(a: Action): nat
  {
    match a
    case Drop | Unary(_) | LoadMem(_, _) | ToR | LocalSet(_) => 1
    case Branch(c, _) => if c.Always? then 0 else 1
    case Swap | Binary(_) | StoreMem(_) => 2
    case Select => 3
    case Sys => 4
    case _ => 0
  }

  /** The operands an action looks at without taking them off. */
  function Peeks(a: Action): nat
  {
    match a
    case Dup | LocalTee(_) => 1
    case Over => 2
    case _ => 0
  }

  predicate UsesLocal(a: Action)
  {
    a.LocalGet? || a.LocalSet? || a.LocalTee? || a.LocalAdd?
  }

  function SysResult(env: Env, io: seq<HostCall>, id: Cell, a0: Cell, a1: Cell, a2: Cell): (Cell, seq<HostCall>)
  {
    match env.sys
    case None => (-1, io)
    case Some(f) => (f(io, id, a0, a1, a2), io + [SysCall(id, a0, a1, a2)])
  }

  /** One instruction other than CALL and RET. Local accesses check the frame
      first. Operands are then popped one by one, so with too few of them the
      stack is drained; an action that only looks leaves it alone. */
  function Exec(env: Env, a: Action, s: State): Step
    requires !a.Call? && !a.Return?
    requires a.LoadMem? || a.StoreMem? ==> a.width in {1, 2, 4}
  {
    if UsesLocal(a) && s.fp.None? then Trap(NoFrame, s)
    else if UsesLocal(a) && s.fp.value + a.idx >= |s.rs| then Trap(NoSuchLocal, s)
    else if |s.ds| < Pops(a) then Trap(DsUnderflow, s.(ds := []))
    else if |s.ds| < Peeks(a) then Trap(DsUnderflow, s)
    else if IsOutside(a) then ExecOutside(env, a, s)
    else if UsesReturnStack(a) then ExecReturnStack(a, s)
    else ExecData(a, s)
  }

  predicate IsOutside(a: Action) { a.LoadMem? || a.StoreMem? || a.Sys? }
  predicate UsesReturnStack(a: Action) { a.ToR? || a.FromR? || a.RFetch? || UsesLocal(a) }

  /** Actions on the data stack alone. */
  function ExecData(a: Action, s: State): Step
    requires !a.Call? && !a.Return? && !IsOutside(a) && !UsesReturnStack(a)
    requires |s.ds| >= Pops(a) && |s.ds| >= Peeks(a)
  {
    var ds := Cut(s.ds, Pops(a));
    match a
    case Push(k) => PushDs(s, k)
    case Dup => PushDs(s, Top(s.ds, 0))
    case Over => PushDs(s, Top(s.ds, 1))
    case Drop => Next(s.(ds := ds))
    case Swap => Next(s.(ds := ds + [Top(s.ds, 0), Top(s.ds, 1)]))
    case Binary(op) =>
      (match Alu(op, Top(s.ds, 1), Top(s.ds, 0))
       case None => Trap(DivByZero, s.(ds := ds))
       case Some(v) => Next(s.(ds := ds + [v])))
    case Unary(op) => Next(s.(ds := ds + [Arith.Unary(op, Top(s.ds, 0))]))
    case Branch(c, off) =>
      if c.Always? then Jump(s, off)
      else if (Top(s.ds, 0) == 0) == c.IfZero? then Jump(s.(ds := ds), off)
      else Next(s.(ds := ds))
    case Select => Next(s.(ds := ds + [if Top(s.ds, 2) != 0 then Top(s.ds, 0) else Top(s.ds, 1)]))
  }

  /** Actions that reach memory or the host. */
  function ExecOutside(env: Env, a: Action, s: State): Step
    requires IsOutside(a) && (a.Sys? || a.width in {1, 2, 4})
    requires |s.ds| >= Pops(a)
  {
    var ds := Cut(s.ds, Pops(a));
    match a
    case LoadMem(width, signed) =>
      var r := Read(env.mmio, s.mem, ToU32(Top(s.ds, 0)), width);
      if r.err != OK then Trap(MemoryFault(r.err), s.(ds := ds, mem := r.mem))
      else Next(s.(ds := ds + [Loaded(r.val, width, signed)], mem := r.mem))
    case StoreMem(width) =>
      var r := Write(env.mmio, s.mem, ToU32(Top(s.ds, 0)), width, ToU32(Top(s.ds, 1)));
      if r.err != OK then Trap(MemoryFault(r.err), s.(ds := ds, mem := r.mem))
      else Next(s.(ds := ds, mem := r.mem))
    case Sys =>
      var (v, io) := SysResult(env, s.mem.io, Top(s.ds, 0), Top(s.ds, 3), Top(s.ds, 2), Top(s.ds, 1));
      Next(s.(ds := ds + [v], mem := s.mem.(io := io)))
  }

  /** Actions on the return stack. */
  function ExecReturnStack(a: Action, s: State): Step
    requires UsesReturnStack(a) && |s.ds| >= Pops(a) && |s.ds| >= Peeks(a)
    requires UsesLocal(a) ==> s.fp.Some? && s.fp.value + a.idx < |s.rs|
  {
    var ds := Cut(s.ds, Pops(a));
    match a
    case ToR =>
      if |s.rs| >= RS_SIZE then Trap(RsOverflow, s.(ds := ds))
      else Next(s.(ds := ds, rs := s.rs + [Top(s.ds, 0)]))
    case FromR =>
      if s.rs == [] then Trap(RsUnderflow, s)
      else PushDs(s.(rs := Cut(s.rs, 1)), Top(s.rs, 0))
    case RFetch =>
      if s.rs == [] then Trap(RsUnderflow, s) else PushDs(s, Top(s.rs, 0))
    case LocalGet(i) => PushDs(s, s.rs[s.fp.value + i])
    case LocalSet(i) => Next(s.(ds := ds, rs := s.rs[s.fp.value + i := Top(s.ds, 0)]))
    case LocalTee(i) => Next(s.(rs := s.rs[s.fp.value + i := Top(s.ds, 0)]))
    case LocalAdd(i, d) => Next(s.(rs := s.rs[s.fp.value + i := Wrap(s.rs[s.fp.value + i] + d)]))
  }

  /** The cell a load pushes: its value, sign-extended for the signed loads. */
  function Loaded(val: U32, width: nat, signed: bool): Cell
    requires width in {1, 2, 4}
  {
    ModulusTable();
    if signed then SignExtend(val % Modulus(width), Modulus(width)) else Wrap(val)
  }

  // ------------------------------------------------------------ running a word

  datatype Status = Returned | Faulted(fault: Fault) | OutOfFuel

  /** How a run ended. peak and low are the greatest data-stack depth and the
      least return-stack depth over the run, nested calls included; steps counts
      the instructions of the outermost activation. */
  datatype Result = Result(status: Status, state: State, peak: nat, low: nat, steps: nat)

  function Max(a: nat, b: nat): nat { if a < b then b else a }
  function Min(a: nat, b: nat): nat { if a < b then a else b }

  /** The run ends in `end`, at an instruction that began in s. */
  function Stop(status: Status, s: State, end: State, steps: nat): Result
  {
    Result(status, end, Max(|s.ds|, |end.ds|), Min(|s.rs|, |end.rs|), steps)
  }

  /** An instruction that began in s, then the rest of the activation. */
  function Then(s: State, rest: Result): Result
  {
    rest.(peak := Max(|s.ds|, rest.peak), low := Min(|s.rs|, rest.low), steps := rest.steps + 1)
  }

  /** A nested call, seen from its caller, whose frame pointer is put back. */
  function LeaveCall(s: State, callee: Result): Result
  {
    Result(callee.status, callee.state.(fp := s.fp), Max(|s.ds|, callee.peak), Min(|s.rs|, callee.low), 1)
  }

  function AfterCall(call: Result, rest: Result): Result
  {
    rest.(peak := Max(call.peak, rest.peak), low := Min(call.low, rest.low), steps := rest.steps + 1)
  }

  function EnterFrame(s: State): State { s.(fp := Some(|s.rs|)) }

  function Run(env: Env, code: seq<Byte>, ip: nat, s: State, fuel: nat): Result
    requires ip <= |code|
    decreases fuel
  {
    if ip == |code| then Stop(Faulted(FellOffEnd), s, s, 0)
    else if fuel == 0 then Stop(OutOfFuel, s, s, 0)
    else
      match Fetch(code, ip)
      case TruncatedLit => Stop(Faulted(TruncatedLiteral), s, s, 1)
      case TruncatedJmp => Stop(Faulted(TruncatedJump), s, s, 1)
      case BadOpcode => Stop(Faulted(UnknownOp), s, s, 1)
      case Fetched(insn, next) => RunAction(env, code, next, ActionOf(insn), s, fuel)
  }

  function RunAction(env: Env, code: seq<Byte>, next: nat, a: Action, s: State, fuel: nat): Result
    requires next <= |code| && fuel > 0
    requires a.LoadMem? || a.StoreMem? ==> a.width in {1, 2, 4}
    decreases fuel, 0
  {
    match a
    case Return => Stop(Returned, s, s, 1)
    case Call(w) =>
      if w >= |env.words| then Stop(Faulted(NoSuchWord), s, s, 1)
      else if env.words[w].code == [] then Stop(Faulted(EmptyWord), s, s, 1)
      else
        var call := LeaveCall(s, Run(env, env.words[w].code, 0, EnterFrame(s), fuel - 1));
        if !call.status.Returned? then call
        else AfterCall(call, Run(env, code, next, call.state, fuel - 1))
    case _ =>
      match Exec(env, a, s)
      case Trap(f, s') => Stop(Faulted(f), s, s', 1)
      case Next(s') => Then(s, Run(env, code, next, s', fuel - 1))
      case Jump(s', off) =>
        if 0 <= next + off <= |code| then Then(s, Run(env, code, next + off, s', fuel - 1))
        else Stop(Faulted(JumpOutOfRange), s, s', 1)
  }
}
