// What each opcode byte does, stated on the stacks without the interpreter's own
// functions: programs of one instruction and a RET.
module OpcodeMeaning {
  import opened Arith
  import opened Bits
  import opened Endian
  import opened Errors
  import opened Memory
  import opened Opcodes
  import opened Semantics
  import opened Runs

  const RETURN: Byte := 0x51

  predicate IsDivision(b: Byte) { 0x13 <= b <= 0x16 }

  predicate IsBinary(b: Byte)
  {
    0x10 <= b <= 0x16 || 0x20 <= b <= 0x2A || 0x2C <= b <= 0x2E
  }

  predicate Congruent(a: int, b: int) { (a - b) % M32 == 0 }

  /** v is x / y truncated toward zero. */
  ghost predicate IsQuotient(x: int, y: int, v: int)
  {
    exists m :: x == y * v + m && Abs(m) < Abs(y) && (m == 0 || (m < 0) == (x < 0))
  }

  /** v is the remainder of that division, with the sign of x. */
  ghost predicate IsRemainder(x: int, y: int, v: int)
  {
    && Abs(v) < Abs(y) && (v == 0 || (v < 0) == (x < 0))
    && exists q :: x == y * q + v
  }

  predicate UnsignedQuotient(u: nat, d: nat, v: nat) { v * d <= u < (v + 1) * d }

  ghost predicate UnsignedRemainder(u: nat, d: nat, v: nat)
  {
    v < d && exists q :: u == q * d + v
  }

  predicate FloorQuotient(x: int, d: nat, v: int) { v * d <= x < (v + 1) * d }

  /** The result v that opcode b must leave for operands x and y, y on top. */
  ghost predicate BinaryResult(b: Byte, x: Cell, y: Cell, v: Cell)
  {
    var ux, uy, uv := ToU32(x), ToU32(y), ToU32(v);
    var shift := Pow2(y % 32);
    && (b == 0x10 ==> Congruent(v, x + y))
    && (b == 0x11 ==> Congruent(v, x - y))
    && (b == 0x12 ==> Congruent(v, x * y))
    && (b == 0x13 && !(x == -0x8000_0000 && y == -1) ==> IsQuotient(x, y, v))
    && (b == 0x14 ==> IsRemainder(x, y, v))
    && (b == 0x15 ==> UnsignedQuotient(ux, uy, uv))
    && (b == 0x16 ==> UnsignedRemainder(ux, uy, uv))
    && (b == 0x20 ==> v == if x == y then -1 else 0)
    && (b == 0x21 ==> v == if x != y then -1 else 0)
    && (b == 0x22 ==> v == if x < y then -1 else 0)
    && (b == 0x23 ==> v == if x <= y then -1 else 0)
    && (b == 0x24 ==> v == if x > y then -1 else 0)
    && (b == 0x25 ==> v == if x >= y then -1 else 0)
    && (b == 0x26 ==> v == if ux < uy then -1 else 0)
    && (b == 0x27 ==> v == if ux <= uy then -1 else 0)
    && (b == 0x28 ==> forall i :: 0 <= i < 32 ==> Bit(uv, i) == (Bit(ux, i) && Bit(uy, i)))
    && (b == 0x29 ==> forall i :: 0 <= i < 32 ==> Bit(uv, i) == (Bit(ux, i) || Bit(uy, i)))
    && (b == 0x2A ==> forall i :: 0 <= i < 32 ==> Bit(uv, i) == (Bit(ux, i) != Bit(uy, i)))
    && (b == 0x2C ==> Congruent(v, x * shift))
    && (b == 0x2D ==> UnsignedQuotient(ux, shift, uv))
    && (b == 0x2E ==> FloorQuotient(x, shift, v))
  }

  // ------------------------------------------------------------ fetch and one step

  lemma FetchOne(b: Byte, op: Op)
    requires Dispatch(b) == Some(op) && Width(Kind(op)) == 0
    ensures Fetch([b, RETURN], 0) == Fetched(Insn(op, 0), 1)
  {
    FetchFollowsTable([b, RETURN], 1, op);
    assert FromLittleEndian([]) == 0;
  }

  lemma FetchReturn(b: Byte)
    ensures Fetch([b, RETURN], 1) == Fetched(Insn(RET, 0), 2)
    ensures ActionOf(Insn(RET, 0)) == Return
  {}

  /** The run ends as the step st does: it returns after Next, and stops with the
      fault of Trap. */
  ghost predicate EndsAs(r: Result, st: Step)
  {
    && (st.Next? ==> r.status == Returned && r.state == st.s)
    && (st.Trap? ==> r.status == Faulted(st.fault) && r.state == st.s)
  }

  /** A one-instruction program ends as the instruction's one step. */
  lemma RunOne(env: Env, b: Byte, op: Op, s: State, fuel: nat)
    requires Dispatch(b) == Some(op) && Width(Kind(op)) == 0 && fuel >= 2
    requires var a := ActionOf(Insn(op, 0)); !a.Call? && !a.Return?
    ensures EndsAs(Run(env, [b, RETURN], 0, s, fuel), Exec(env, ActionOf(Insn(op, 0)), s))
  {
    hide Dispatch, Kind, Exec, ActionOf, RunAction, Fetch;
    FetchOne(b, op);
    FetchReturn(b);
    var a := ActionOf(Insn(op, 0));
    StepUnfold(env, [b, RETURN], 1, a, s, fuel);
    var st := Exec(env, a, s);
    if st.Next? { ReturnEndsRun(env, [b, RETURN], 2, Return, st.s, fuel - 1); }
  }

  // ------------------------------------------------------------ binary opcodes

  lemma BinaryAction(b: Byte) returns (op: Op)
    requires IsBinary(b)
    ensures Dispatch(b) == Some(op) && Width(Kind(op)) == 0 && ActionOf(Insn(op, 0)) == Binary(BinOf(b))
  {
    op := Dispatch(b).value;
  }

  /** Every arithmetic, comparison, logic and shift opcode replaces its two
      operands by the result it must leave; a division by zero consumes them, and
      with fewer than two the stack is drained. */
  lemma BinaryOpcodes(env: Env, b: Byte, s: State, fuel: nat)
    requires IsBinary(b) && fuel >= 2
    ensures var r, n := Run(env, [b, RETURN], 0, s, fuel), |s.ds|;
      if n < 2 then r.status == Faulted(DsUnderflow) && r.state == s.(ds := [])
      else if IsDivision(b) && s.ds[n - 1] == 0
      then r.status == Faulted(DivByZero) && r.state == s.(ds := s.ds[..n - 2])
      else
        && r.status == Returned
        && exists v :: r.state == s.(ds := s.ds[..n - 2] + [v]) && BinaryResult(b, s.ds[n - 2], s.ds[n - 1], v)
  {
    hide Dispatch, Kind, ActionOf, Run, Alu, BinaryResult, BinOf;
    var op := BinaryAction(b);
    RunOne(env, b, op, s, fuel);
    var n := |s.ds|;
    if n >= 2 {
      assert Cut(s.ds, 2) == s.ds[..n - 2] && Top(s.ds, 0) == s.ds[n - 1] && Top(s.ds, 1) == s.ds[n - 2];
      ResultOfAlu(b, s.ds[n - 2], s.ds[n - 1]);
    }
  }

  function BinOf(b: Byte): BinOp
    requires IsBinary(b)
  {
    if b == 0x10 then Add else if b == 0x11 then Sub else if b == 0x12 then Mul else if b == 0x13 then Div
    else if b == 0x14 then Mod else if b == 0x15 then DivU else if b == 0x16 then ModU
    else if b == 0x20 then Eq else if b == 0x21 then Ne else if b == 0x22 then Lt else if b == 0x23 then Le
    else if b == 0x24 then Gt else if b == 0x25 then Ge else if b == 0x26 then LtU else if b == 0x27 then LeU
    else if b == 0x28 then BitAnd else if b == 0x29 then BitOr else if b == 0x2A then BitXor
    else if b == 0x2C then Shl else if b == 0x2D then Shr else Sar
  }

  lemma ResultOfAlu(b: Byte, x: Cell, y: Cell)
    requires IsBinary(b)
    ensures Alu(BinOf(b), x, y).None? <==> IsDivision(b) && y == 0
    ensures Alu(BinOf(b), x, y).Some? ==> BinaryResult(b, x, y, Alu(BinOf(b), x, y).value)
  {
    hide BinaryResult, Alu;
    if b <= 0x16 {
      ArithmeticResult(b, x, y);
    } else if b <= 0x27 {
      ComparisonResult(b, x, y);
    } else {
      LogicResult(b, x, y);
    }
  }

  lemma ArithmeticResult(b: Byte, x: Cell, y: Cell)
    requires 0x10 <= b <= 0x16
    ensures Alu(BinOf(b), x, y).None? <==> IsDivision(b) && y == 0
    ensures Alu(BinOf(b), x, y).Some? ==> BinaryResult(b, x, y, Alu(BinOf(b), x, y).value)
  {
    hide Pow2, And, Or, Xor, Bit, TruncDiv, TruncMod, Wrap, ToU32;
    if b >= 0x13 && y != 0 {
      SignedQuotient(x, y);
      SignedRemainder(x, y);
      UnsignedDivision(x, y);
    }
  }

  lemma ComparisonResult(b: Byte, x: Cell, y: Cell)
    requires 0x20 <= b <= 0x27
    ensures Alu(BinOf(b), x, y).Some? && BinaryResult(b, x, y, Alu(BinOf(b), x, y).value)
  {
    hide Pow2, And, Or, Xor, Bit, TruncDiv, TruncMod, Wrap, ToU32;
  }

  lemma LogicResult(b: Byte, x: Cell, y: Cell)
    requires 0x28 <= b <= 0x2A || 0x2C <= b <= 0x2E
    ensures Alu(BinOf(b), x, y).Some? && BinaryResult(b, x, y, Alu(BinOf(b), x, y).value)
  {
    hide Pow2, And, Or, Xor, Bit, TruncDiv, TruncMod, Wrap, ToU32;
    if b <= 0x2A {
      LogicResults(ToU32(x), ToU32(y));
    } else {
      ShiftResults(x, Pow2(y % 32));
    }
  }

  lemma SignedQuotient(x: Cell, y: Cell)
    requires y != 0
    ensures !(x == -0x8000_0000 && y == -1) ==> IsQuotient(x, y, Wrap(TruncDiv(x, y)))
  {
    hide TruncDiv, TruncMod, Wrap;
    TruncDivision(x, y);
    DivisionFits(x, y);
    assert Abs(TruncMod(x, y)) < Abs(y);
  }

  lemma SignedRemainder(x: Cell, y: Cell)
    requires y != 0
    ensures IsRemainder(x, y, Wrap(TruncMod(x, y)))
  {
    hide TruncDiv, TruncMod, Wrap;
    TruncDivision(x, y);
    DivisionFits(x, y);
    assert x == y * TruncDiv(x, y) + TruncMod(x, y);
  }

  lemma UnsignedDivision(x: Cell, y: Cell)
    requires y != 0
    ensures var ux, uy := ToU32(x), ToU32(y);
      uy > 0 && UnsignedQuotient(ux, uy, ToU32(Wrap(ux / uy))) && UnsignedRemainder(ux, uy, ToU32(Wrap(ux % uy)))
  {
    var ux, uy: nat := ToU32(x), ToU32(y);
    assert uy > 0;
    hide Wrap, ToU32;
    QuotientShrinks(ux, uy);
    Division(ux, uy);
    WrapUnsigned(ux / uy);
    WrapUnsigned(ux % uy);
    QuotientBounds(ux, uy);
  }

  lemma QuotientBounds(u: nat, d: nat)
    requires d > 0
    ensures u / d * d <= u < (u / d + 1) * d
  {
    Division(u, d);
    assert (u / d + 1) * d == u / d * d + d;
  }

  lemma WrapUnsigned(u: nat)
    requires u < M32
    ensures ToU32(Wrap(u)) == u
  {}

  lemma {:induction false} LogicFits(a: nat, b: nat, n: nat)
    requires a < Pow2(n) && b < Pow2(n)
    ensures Or(a, b) < Pow2(n) && Xor(a, b) < Pow2(n)
    decreases n
  {
    OrStep(a, b);
    XorStep(a, b);
    if n > 0 { LogicFits(a / 2, b / 2, n - 1); }
  }

  lemma LogicResults(a: U32, b: U32)
    ensures forall i :: 0 <= i < 32 ==> Bit(ToU32(Wrap(And(a, b))), i) == (Bit(a, i) && Bit(b, i))
    ensures forall i :: 0 <= i < 32 ==> Bit(ToU32(Wrap(Or(a, b))), i) == (Bit(a, i) || Bit(b, i))
    ensures forall i :: 0 <= i < 32 ==> Bit(ToU32(Wrap(Xor(a, b))), i) == (Bit(a, i) != Bit(b, i))
  {
    Pow2Bytes();
    LogicFits(a, b, 32);
    hide And, Or, Xor, Bit, Pow2, Wrap, ToU32;
    WrapUnsigned(And(a, b));
    WrapUnsigned(Or(a, b));
    WrapUnsigned(Xor(a, b));
    forall i | 0 <= i < 32
      ensures Bit(And(a, b), i) == (Bit(a, i) && Bit(b, i))
      ensures Bit(Or(a, b), i) == (Bit(a, i) || Bit(b, i))
      ensures Bit(Xor(a, b), i) == (Bit(a, i) != Bit(b, i))
    {
      AndBits(a, b, i);
      OrBits(a, b, i);
      XorBits(a, b, i);
    }
  }

  lemma ShiftResults(x: Cell, p: nat)
    requires p >= 1
    ensures UnsignedQuotient(ToU32(x), p, ToU32(Wrap(ToU32(x) / p)))
    ensures FloorQuotient(x, p, Wrap(x / p))
  {
    hide Wrap, ToU32;
    QuotientShrinks(ToU32(x), p);
    WrapUnsigned(ToU32(x) / p);
    QuotientBounds(ToU32(x), p);
    FloorDivision(x, p);
  }

  lemma FloorDivision(x: Cell, p: nat)
    requires p >= 1
    ensures Wrap(x / p) == x / p && FloorQuotient(x, p, x / p)
  {
    var q := x / p;
    assert x == q * p + x % p;
    assert (q + 1) * p == q * p + p;
    if q >= 0 {
      ProductGrows(q, p);
    } else {
      ProductGrows(-q - 1, p);
      assert (-q - 1) * p == -(q * p) - p;
    }
  }

  // ------------------------------------------------------------ other opcodes

  predicate IsStackOpcode(b: Byte)
  {
    0x01 <= b <= 0x04 || b == 0x17 || b == 0x18 || b == 0x2B || b == 0x43 || 0x73 <= b <= 0x75
  }

  predicate IsComplement(v: Cell, z: Cell)
  {
    forall i :: 0 <= i < 32 ==> Bit(ToU32(v), i) == !Bit(ToU32(z), i)
  }

  /** How many operands a stack opcode needs. */
  function Operands(b: Byte): nat
    requires IsStackOpcode(b)
  {
    if b == 0x43 then 3 else if b == 0x03 || b == 0x04 then 2 else if b >= 0x73 then 0 else 1
  }

  /** DUP and OVER look at their operands and the constants have none; the others
      take theirs off first. */
  predicate Grows(b: Byte) { b == 0x01 || b == 0x04 || b >= 0x73 }

  /** What the operands, topmost last, become. */
  ghost predicate StackEffect(b: Byte, args: seq<Cell>, out: seq<Cell>)
    requires IsStackOpcode(b) && |args| == Operands(b)
  {
    && (b == 0x01 ==> out == [args[0], args[0]])
    && (b == 0x02 ==> out == [])
    && (b == 0x03 ==> out == [args[1], args[0]])
    && (b == 0x04 ==> out == [args[0], args[1], args[0]])
    && (b == 0x17 ==> |out| == 1 && Congruent(out[0], args[0] as int + 1))
    && (b == 0x18 ==> |out| == 1 && Congruent(out[0], args[0] as int - 1))
    && (b == 0x2B ==> |out| == 1 && IsComplement(out[0], args[0]))
    && (b == 0x43 ==> out == [if args[0] != 0 then args[2] else args[1]])
    && (b == 0x73 ==> out == [0])
    && (b == 0x74 ==> out == [1])
    && (b == 0x75 ==> out == [-1])
  }

  function StackActionOf(b: Byte): (a: Action)
    requires IsStackOpcode(b)
    ensures !a.Call? && !a.Return? && !a.LoadMem? && !a.StoreMem?
  {
    if b == 0x01 then Dup else if b == 0x02 then Drop else if b == 0x03 then Swap else if b == 0x04 then Over
    else if b == 0x17 then Semantics.Unary(Inc) else if b == 0x18 then Semantics.Unary(Dec)
    else if b == 0x2B then Semantics.Unary(Invert) else if b == 0x43 then Select
    else if b == 0x73 then Push(0) else if b == 0x74 then Push(1) else Push(-1)
  }

  lemma StackAction(b: Byte) returns (op: Op)
    requires IsStackOpcode(b)
    ensures Dispatch(b) == Some(op) && Width(Kind(op)) == 0 && ActionOf(Insn(op, 0)) == StackActionOf(b)
  {
    op := Dispatch(b).value;
  }

  lemma ComplementResult(z: Cell)
    ensures IsComplement(Wrap(-1 - z), z)
  {
    Pow2Bytes();
    assert ToU32(Wrap(-1 - z)) == Not(ToU32(z), 32);
    forall i | 0 <= i < 32
      ensures Bit(Not(ToU32(z), 32), i) == !Bit(ToU32(z), i)
    {
      ComplementBits(ToU32(z), 32, i);
    }
  }

  /** Every stack-shuffling, unary and constant opcode does what its picture says.
      With too few operands the stack is drained, or left as it is by the opcodes
      that only look; those overflow at a full stack and leave it as it is. */
  lemma StackOpcodes(env: Env, b: Byte, s: State, fuel: nat)
    requires IsStackOpcode(b) && fuel >= 2
    ensures var r, n := Run(env, [b, RETURN], 0, s, fuel), |s.ds| - Operands(b);
      if n < 0 then r.status == Faulted(DsUnderflow) && r.state == s.(ds := if Grows(b) then s.ds else [])
      else if Grows(b) && |s.ds| >= DS_SIZE then r.status == Faulted(DsOverflow) && r.state == s
      else
        r.status == Returned && exists out :: r.state == s.(ds := s.ds[..n] + out) && StackEffect(b, s.ds[n..], out)
  {
    hide Dispatch, Kind, ActionOf, Run, StackActionOf, Exec, Grows, StackEffect;
    var op := StackAction(b);
    RunOne(env, b, op, s, fuel);
    var n := |s.ds| - Operands(b);
    if n < 0 || (Grows(b) && |s.ds| >= DS_SIZE) {
      StackFault(env, b, s);
    } else {
      var out := StackStep(env, b, s, s.ds[..n], s.ds[n..]);
    }
  }

  lemma StackFault(env: Env, b: Byte, s: State)
    requires IsStackOpcode(b) && (|s.ds| < Operands(b) || (Grows(b) && |s.ds| >= DS_SIZE))
    ensures Exec(env, StackActionOf(b), s) ==
      if |s.ds| < Operands(b) then Trap(DsUnderflow, s.(ds := if Grows(b) then s.ds else []))
      else Trap(DsOverflow, s)
  {}

  lemma StackStep(env: Env, b: Byte, s: State, base: seq<Cell>, args: seq<Cell>) returns (out: seq<Cell>)
    requires IsStackOpcode(b) && s.ds == base + args && |args| == Operands(b)
    requires Grows(b) ==> |s.ds| < DS_SIZE
    ensures Exec(env, StackActionOf(b), s) == Next(s.(ds := base + out)) && StackEffect(b, args, out)
  {
    hide Exec, Wrap, ToU32, Bit, Alu;
    var a := StackActionOf(b);
    out := Picture(a, args);
    if b == 0x2B { ComplementResult(args[0]); }
    if Grows(b) {
      GrowExec(env, a, s);
      assert s.ds + [Grown(a, s.ds)] == base + (args + [Grown(a, args)]);
    } else {
      TakeExec(env, a, s, base, args);
    }
  }

  predicate Growing(a: Action) { a.Push? || a.Dup? || a.Over? }
  predicate Taking(a: Action) { a.Drop? || a.Swap? || a.Select? || a.Unary? }

  /** The cell that DUP, OVER and the constants push. */
  function Grown(a: Action, ds: seq<Cell>): Cell
    requires Growing(a) && |ds| >= Peeks(a)
  {
    if a.Push? then a.k else ds[|ds| - Peeks(a)]
  }

  /** The cells that replace the operands. */
  function Picture(a: Action, args: seq<Cell>): seq<Cell>
    requires (Growing(a) && |args| >= Peeks(a)) || (Taking(a) && |args| == Pops(a))
  {
    match a
    case Drop => []
    case Swap => [args[1], args[0]]
    case Select => [if args[0] != 0 then args[2] else args[1]]
    case Unary(op) => [Arith.Unary(op, args[0])]
    case _ => args + [Grown(a, args)]
  }

  lemma GrowExec(env: Env, a: Action, s: State)
    requires Growing(a) && |s.ds| >= Peeks(a) && |s.ds| < DS_SIZE
    ensures Exec(env, a, s) == Next(s.(ds := s.ds + [Grown(a, s.ds)]))
  {
    hide Exec, Alu, Arith.Unary, Wrap, ToU32;
    DataExec(env, a, s);
  }

  lemma TakeExec(env: Env, a: Action, s: State, base: seq<Cell>, args: seq<Cell>)
    requires Taking(a) && s.ds == base + args && |args| == Pops(a)
    ensures Exec(env, a, s) == Next(s.(ds := base + Picture(a, args)))
  {
    assert Cut(s.ds, |args|) == base;
    hide Exec, Alu, Arith.Unary, Wrap, ToU32, Cut;
    DataExec(env, a, s);
    assert Peeks(a) == 0;
  }

  lemma DataExec(env: Env, a: Action, s: State)
    requires !a.Call? && !a.Return? && !IsOutside(a) && !UsesReturnStack(a)
    requires |s.ds| >= Pops(a) && |s.ds| >= Peeks(a)
    ensures Exec(env, a, s) == ExecData(a, s)
  {
    hide ExecData, ExecOutside, ExecReturnStack;
  }

  predicate IsLoad(b: Byte) { b == 0x30 || b == 0x32 || b == 0x33 || b == 0x36 || b == 0x37 }
  predicate IsStore(b: Byte) { b == 0x31 || b == 0x34 || b == 0x35 }

  /** Bytes an access opcode moves. */
  function AccessWidth(b: Byte): nat
    requires IsLoad(b) || IsStore(b)
  {
    if b == 0x30 || b == 0x31 then 4 else if b == 0x32 || b == 0x34 || b == 0x36 then 1 else 2
  }

  /** The cell a load pushes for the value read: the same number modulo 2^32, or
      the signed number with those low bits. */
  predicate LoadResult(b: Byte, val: U32, v: Cell)
  {
    && (b == 0x30 || b == 0x32 || b == 0x33 ==> Congruent(v, val))
    && (b == 0x36 ==> -0x80 <= v < 0x80 && (v - val) % M8 == 0)
    && (b == 0x37 ==> -0x8000 <= v < 0x8000 && (v - val) % M16 == 0)
  }

  lemma AccessAction(b: Byte) returns (op: Op)
    requires IsLoad(b) || IsStore(b)
    ensures Dispatch(b) == Some(op) && Width(Kind(op)) == 0
    ensures ActionOf(Insn(op, 0)) ==
      if IsStore(b) then StoreMem(AccessWidth(b)) else LoadMem(AccessWidth(b), b >= 0x36)
  {
    op := Dispatch(b).value;
  }

  lemma LoadedResult(b: Byte, val: U32)
    requires IsLoad(b)
    ensures LoadResult(b, val, Loaded(val, AccessWidth(b), b >= 0x36))
  {
    ModulusTable();
  }

  /** Every load pops an address and pushes what a read of its width gives; every
      store pops an address and a value and writes. A failed access consumes the
      operands and stops the run with the memory's error; with too few operands
      the stack is drained and memory is not touched. */
  lemma MemoryOpcodes(env: Env, b: Byte, s: State, fuel: nat)
    requires IsLoad(b) || IsStore(b)
    requires fuel >= 2
    ensures var r, n := Run(env, [b, RETURN], 0, s, fuel), |s.ds|;
      if n < (if IsLoad(b) then 1 else 2) then r.status == Faulted(DsUnderflow) && r.state == s.(ds := [])
      else if IsLoad(b) then
        var rd := Read(env.mmio, s.mem, ToU32(s.ds[n - 1]), AccessWidth(b));
        if rd.err != OK then
          r.status == Faulted(MemoryFault(rd.err)) && r.state == s.(ds := s.ds[..n - 1], mem := rd.mem)
        else
          && r.status == Returned
          && exists v :: r.state == s.(ds := s.ds[..n - 1] + [v], mem := rd.mem) && LoadResult(b, rd.val, v)
      else
        var wr := Write(env.mmio, s.mem, ToU32(s.ds[n - 1]), AccessWidth(b), ToU32(s.ds[n - 2]));
        && r.status == (if wr.err != OK then Faulted(MemoryFault(wr.err)) else Returned)
        && r.state == s.(ds := s.ds[..n - 2], mem := wr.mem)
  {
    hide Dispatch, Kind, ActionOf, Run, Read, Write, Loaded, ToU32, LoadResult;
    var op := AccessAction(b);
    RunOne(env, b, op, s, fuel);
    var w, n := AccessWidth(b), |s.ds|;
    if IsLoad(b) && n >= 1 {
      assert Cut(s.ds, 1) == s.ds[..n - 1];
      LoadedResult(b, Read(env.mmio, s.mem, ToU32(s.ds[n - 1]), w).val);
    }
  }

  // ------------------------------------------------------------ immediates

  /** The same for one instruction with an immediate. */
  lemma RunInsn(env: Env, i: Insn, s: State, fuel: nat)
    requires Encodable(i) && fuel >= 2
    requires var a := ActionOf(i); !a.Call? && !a.Return?
    ensures EndsAs(Run(env, Encode(i) + [RETURN], 0, s, fuel), Exec(env, ActionOf(i), s))
  {
    hide Fetch, Encode, Encodable, Exec, ActionOf, RunAction;
    var code, n := Encode(i) + [RETURN], |Encode(i)|;
    FetchInvertsEncode([], i, [RETURN]);
    assert [] + Encode(i) + [RETURN] == code;
    ReturnEncoding();
    FetchInvertsEncode(Encode(i), Insn(RET, 0), []);
    assert Encode(i) + [RETURN] + [] == code;
    StepUnfold(env, code, n, ActionOf(i), s, fuel);
    var st := Exec(env, ActionOf(i), s);
    if st.Next? { ReturnEndsRun(env, code, n + 1, Return, st.s, fuel - 1); }
  }

  lemma ReturnEncoding()
    ensures Encodable(Insn(RET, 0)) && Encode(Insn(RET, 0)) == [RETURN] && ActionOf(Insn(RET, 0)) == Return
  {}

  /** The bytes of the literals with an immediate, and how many bytes they take. */
  predicate IsLiteral(b: Byte, imm: seq<Byte>)
  {
    (b == 0x00 && |imm| == 4) || ((b == 0x76 || b == 0x77) && |imm| == 1) || (b == 0x78 && |imm| == 2)
  }

  /** The number a literal stands for: little-endian, and two's complement for all
      but 0x76. */
  ghost predicate LiteralValue(b: Byte, imm: seq<Byte>, k: Cell)
    requires IsLiteral(b, imm)
  {
    && (b == 0x76 ==> k == imm[0])
    && (b == 0x77 ==> k == if imm[0] < 0x80 then imm[0] else imm[0] - M8)
    && (b == 0x78 ==> k == imm[0] + M8 * imm[1] - if imm[1] < 0x80 then 0 else M16)
    && (b == 0x00 ==>
      k == imm[0] + M8 * imm[1] + M16 * imm[2] + M24 * imm[3] - if imm[3] < 0x80 then 0 else M32)
  }

  /** The four literals with an immediate push it, or overflow at a full stack. */
  lemma LiteralOpcodes(env: Env, b: Byte, imm: seq<Byte>, s: State, fuel: nat)
    requires IsLiteral(b, imm) && fuel >= 2
    ensures var r := Run(env, [b] + imm + [RETURN], 0, s, fuel);
      if |s.ds| >= DS_SIZE then r.status == Faulted(DsOverflow) && r.state == s
      else r.status == Returned && exists k :: r.state == s.(ds := s.ds + [k]) && LiteralValue(b, imm, k)
  {
    hide Run, Encode, Encodable, Exec, ActionOf;
    var i := LiteralInsn(b, imm);
    RunInsn(env, i, s, fuel);
    PushStep(env, i.imm, s);
  }

  lemma LiteralInsn(b: Byte, imm: seq<Byte>) returns (i: Insn)
    requires IsLiteral(b, imm)
    ensures Encodable(i) && Encode(i) == [b] + imm && ActionOf(i) == Push(i.imm) && LiteralValue(b, imm, i.imm)
  {
    hide Encode, Encodable;
    var code := [b] + imm;
    var f := LiteralFetch(b, imm);
    i := f.insn;
    EncodeInvertsFetch(code, 0);
    assert code[0..f.next] == code;
  }

  lemma LiteralFetch(b: Byte, imm: seq<Byte>) returns (f: Fetched)
    requires IsLiteral(b, imm)
    ensures f == Fetch([b] + imm, 0) && f.Fetched? && f.next == 1 + |imm|
    ensures ActionOf(f.insn) == Push(f.insn.imm) && LiteralValue(b, imm, f.insn.imm)
  {
    var code := [b] + imm;
    assert forall j :: 0 <= j < |imm| ==> code[1 + j] == imm[j];
    f := Fetch(code, 0);
  }

  lemma PushStep(env: Env, k: Cell, s: State)
    ensures Exec(env, Push(k), s) == if |s.ds| >= DS_SIZE then Trap(DsOverflow, s) else Next(s.(ds := s.ds + [k]))
  {
    hide Alu, Arith.Unary, Wrap;
  }

  predicate IsLocal(op: Op) { op.LGET? || op.LSET? || op.LTEE? || op.LINC? || op.LDEC? }

  /** Why an access to local n fails, if it does: the frame is looked at before the
      data stack. */
  function LocalFault(op: Op, n: Byte, s: State): (f: Option<Fault>)
  {
    if s.fp.None? then Some(NoFrame)
    else if s.fp.value + n >= |s.rs| then Some(NoSuchLocal)
    else if op.LGET? && |s.ds| >= DS_SIZE then Some(DsOverflow)
    else if (op.LSET? || op.LTEE?) && s.ds == [] then Some(DsUnderflow)
    else None
  }

  /** A failed access changes nothing. Otherwise a cell moves between the top of
      the data stack and slot fp + n of the return stack, or that slot counts. */
  ghost predicate LocalOutcome(op: Op, n: Byte, s: State, r: Result)
  {
    match LocalFault(op, n, s)
    case Some(f) => r.status == Faulted(f) && r.state == s
    case None =>
      var slot, top := s.fp.value + n, |s.ds| - 1;
      && r.status == Returned
      && (op.LGET? ==> r.state == s.(ds := s.ds + [s.rs[slot]]))
      && (op.LSET? ==> r.state == s.(ds := s.ds[..top], rs := s.rs[slot := s.ds[top]]))
      && (op.LTEE? ==> r.state == s.(rs := s.rs[slot := s.ds[top]]))
      && (op.LINC? ==> r.state == s.(rs := s.rs[slot := Wrap(s.rs[slot] as int + 1)]))
      && (op.LDEC? ==> r.state == s.(rs := s.rs[slot := Wrap(s.rs[slot] as int - 1)]))
  }

  predicate IsLocalByte(b: Byte) { 0x79 <= b <= 0x7B || b == 0x80 || b == 0x81 }

  /** The bytes of the indexed local opcodes. */
  function LocalOp(b: Byte): (op: Op)
    requires IsLocalByte(b)
    ensures IsLocal(op)
  {
    if b == 0x79 then LGET else if b == 0x7A then LSET else if b == 0x7B then LTEE
    else if b == 0x80 then LINC else LDEC
  }

  lemma LocalOpcodes(env: Env, b: Byte, n: Byte, s: State, fuel: nat)
    requires IsLocalByte(b) && fuel >= 2
    ensures LocalOutcome(LocalOp(b), n, s, Run(env, [b, n, RETURN], 0, s, fuel))
  {
    hide Run, ActionOf, Encode, Encodable, Exec, IsLocal, LocalOutcome, EndsAs, LocalOp;
    var op := LocalOp(b);
    LocalEncoding(b, n);
    LocalAction(op, n);
    RunInsn(env, Insn(op, n), s, fuel);
    assert [b, n] + [RETURN] == [b, n, RETURN];
    LocalStep(env, op, n, s, Run(env, [b, n, RETURN], 0, s, fuel));
  }

  lemma LocalStep(env: Env, op: Op, n: Byte, s: State, r: Result)
    requires IsLocal(op) && EndsAs(r, Exec(env, LocalActionOf(op, n), s))
    ensures LocalOutcome(op, n, s, r)
  {
    hide Wrap, Alu, Arith.Unary, Read, Write, Loaded, SysResult, ToU32;
    if s.ds != [] {
      assert Cut(s.ds, 1) == s.ds[..|s.ds| - 1];
    } else {
      assert s.(ds := []) == s;
    }
  }

  lemma LocalEncoding(b: Byte, n: Byte)
    requires IsLocalByte(b)
    ensures Encodable(Insn(LocalOp(b), n)) && Encode(Insn(LocalOp(b), n)) == [b, n]
  {
    ModulusTable();
    var op := LocalOp(b);
    assert Kind(op) == IMM8 && !Signed(op);
    assert LittleEndian(n, 1) == [n];
  }

  function LocalActionOf(op: Op, n: Byte): (a: Action)
    requires IsLocal(op)
    ensures !a.Call? && !a.Return? && !a.LoadMem? && !a.StoreMem?
  {
    if op.LGET? then LocalGet(n) else if op.LSET? then LocalSet(n) else if op.LTEE? then LocalTee(n)
    else if op.LINC? then LocalAdd(n, 1) else LocalAdd(n, -1)
  }

  lemma LocalAction(op: Op, n: Byte)
    requires IsLocal(op)
    ensures ActionOf(Insn(op, n)) == LocalActionOf(op, n)
  {}

  /** The four bytes for locals 0 and 1 do what LGET and LSET with that index do. */
  lemma ShortLocalOpcodes(env: Env, b: Byte, s: State, fuel: nat)
    requires 0x7C <= b <= 0x7F && fuel >= 2
    ensures LocalOutcome(if b <= 0x7D then LGET else LSET, b % 2, s, Run(env, [b, RETURN], 0, s, fuel))
  {
    hide Kind, Run, Exec, LocalOutcome, EndsAs;
    var op := Dispatch(b).value;
    var like := if b <= 0x7D then LGET else LSET;
    assert ActionOf(Insn(op, 0)) == LocalActionOf(like, b % 2);
    ShortLocal(b, op);
    hide Dispatch, ActionOf, LocalActionOf;
    RunOne(env, b, op, s, fuel);
    LocalStep(env, like, b % 2, s, Run(env, [b, RETURN], 0, s, fuel));
  }

  lemma ShortLocal(b: Byte, op: Op)
    requires 0x7C <= b <= 0x7F && Dispatch(b) == Some(op)
    ensures Width(Kind(op)) == 0
  {}

  /** How the return-stack bytes end: the stack they take from is popped before
      the other is found full. */
  function ReturnStackOutcome(b: Byte, s: State): (o: (Status, State))
    requires 0x70 <= b <= 0x72
  {
    var d, r := |s.ds| - 1, |s.rs| - 1;
    if b == 0x70 then
      if s.ds == [] then (Faulted(DsUnderflow), s)
      else if |s.rs| >= RS_SIZE then (Faulted(RsOverflow), s.(ds := s.ds[..d]))
      else (Returned, s.(ds := s.ds[..d], rs := s.rs + [s.ds[d]]))
    else if s.rs == [] then (Faulted(RsUnderflow), s)
    else
      var under := if b == 0x71 then s.rs[..r] else s.rs;
      if |s.ds| >= DS_SIZE then (Faulted(DsOverflow), s.(rs := under))
      else (Returned, s.(ds := s.ds + [s.rs[r]], rs := under))
  }

  lemma ReturnStackOpcodes(env: Env, b: Byte, s: State, fuel: nat)
    requires 0x70 <= b <= 0x72 && fuel >= 2
    ensures var r := Run(env, [b, RETURN], 0, s, fuel); (r.status, r.state) == ReturnStackOutcome(b, s)
  {
    hide Kind, Run, Exec, ReturnStackOutcome;
    var op := Dispatch(b).value;
    ReturnStackStep(env, b, op, s);
    hide Dispatch, ActionOf;
    RunOne(env, b, op, s, fuel);
  }

  lemma ReturnStackStep(env: Env, b: Byte, op: Op, s: State)
    requires 0x70 <= b <= 0x72 && Dispatch(b) == Some(op)
    ensures Width(Kind(op)) == 0
    ensures var a := ActionOf(Insn(op, 0));
      && !a.Call? && !a.Return? && !Exec(env, a, s).Jump?
      && (var st := Exec(env, a, s);
          (if st.Next? then (Returned, st.s) else (Faulted(st.fault), st.s)) == ReturnStackOutcome(b, s))
  {
    var a := ActionOf(Insn(op, 0));
    assert a == if b == 0x70 then ToR else if b == 0x71 then FromR else RFetch;
    hide Dispatch, ActionOf, Exec;
    ReturnStackExec(env, a, s);
    if s.ds != [] { assert Cut(s.ds, 1) == s.ds[..|s.ds| - 1]; } else { assert s.(ds := []) == s; }
    if s.rs != [] { assert Cut(s.rs, 1) == s.rs[..|s.rs| - 1]; }
  }

  lemma ReturnStackExec(env: Env, a: Action, s: State)
    requires a.ToR? || a.FromR? || a.RFetch?
    ensures Exec(env, a, s) ==
      if |s.ds| < Pops(a) then Trap(DsUnderflow, s.(ds := [])) else ExecReturnStack(a, s)
  {
    hide ExecData, ExecOutside, ExecReturnStack;
  }

  /** SYS: the handler gets the id on top and the three arguments in the order
      they were pushed, and its result replaces them; without a handler the
      result is -1 and nobody is called. With fewer than four operands the stack
      is drained and nobody is called. */
  lemma SysOpcode(env: Env, s: State, fuel: nat)
    requires fuel >= 2
    ensures var r, n := Run(env, [0x60, RETURN], 0, s, fuel), |s.ds| - 4;
      if n < 0 then r.status == Faulted(DsUnderflow) && r.state == s.(ds := [])
      else
        var (a0, a1, a2, id) := (s.ds[n], s.ds[n + 1], s.ds[n + 2], s.ds[n + 3]);
        && r.status == Returned
        && r.state == match env.sys
           case None => s.(ds := s.ds[..n] + [-1])
           case Some(f) => s.(ds := s.ds[..n] + [f(s.mem.io, id, a0, a1, a2)],
                              mem := s.mem.(io := s.mem.io + [SysCall(id, a0, a1, a2)]))
  {
    assert Dispatch(0x60) == Some(SYS) && ActionOf(Insn(SYS, 0)) == Sys;
    if |s.ds| >= 4 { assert Cut(s.ds, 4) == s.ds[..|s.ds| - 4]; }
    hide Dispatch, ActionOf, Run;
    RunOne(env, 0x60, SYS, s, fuel);
  }

  /** CALL: the index is the little-endian 16-bit immediate; the word runs with a
      frame at the current return-stack depth, and the caller goes on after it
      only if it returned. */
  lemma CallOpcode(env: Env, pre: seq<Byte>, lo: Byte, hi: Byte, rest: seq<Byte>, s: State, fuel: nat)
    requires fuel > 0
    ensures var code, w := pre + [0x50, lo, hi] + rest, lo + M8 * hi;
      var r := Run(env, code, |pre|, s, fuel);
      if w >= |env.words| then r.status == Faulted(NoSuchWord) && r.state == s
      else if env.words[w].code == [] then r.status == Faulted(EmptyWord) && r.state == s
      else
        var called := Run(env, env.words[w].code, 0, s.(fp := Some(|s.rs|)), fuel - 1);
        var back := called.state.(fp := s.fp);
        if called.status != Returned then r.status == called.status && r.state == back
        else
          var after := Run(env, code, |pre| + 3, back, fuel - 1);
          r.status == after.status && r.state == after.state && r.steps == after.steps + 1
  {
    var code := pre + [0x50, lo, hi] + rest;
    CallAction(code, |pre|, lo, hi);
    hide Fetch, ActionOf, RunAction;
    CallUnfold(env, code, |pre| + 3, lo + M8 * hi, s, fuel);
  }

  lemma CallAction(code: seq<Byte>, at: nat, lo: Byte, hi: Byte)
    requires at + 3 <= |code| && code[at] == 0x50 && code[at + 1] == lo && code[at + 2] == hi
    ensures var f := Fetch(code, at);
      f.Fetched? && f.next == at + 3 && ActionOf(f.insn) == Call(lo + M8 * hi)
  {}

  /** JMP, JZ and JNZ: the offset counts from the next instruction; a conditional
      jump pops its flag, if there is one; a jump taken out of the code stops the
      run. */
  lemma JumpOpcodes(env: Env, pre: seq<Byte>, b: Byte, lo: Byte, hi: Byte, rest: seq<Byte>, s: State, fuel: nat)
    requires 0x40 <= b <= 0x42 && fuel > 0
    ensures var code, top := pre + [b, lo, hi] + rest, |s.ds| - 1;
      var r := Run(env, code, |pre|, s, fuel);
      if b != 0x40 && s.ds == [] then r.status == Faulted(DsUnderflow) && r.state == s
      else
        var off := if hi < 0x80 then lo + M8 * hi else lo + M8 * hi - M16;
        var taken := b == 0x40 || (b == 0x41) == (s.ds[top] == 0);
        var s' := if b == 0x40 then s else s.(ds := s.ds[..top]);
        var to := |pre| + if taken then 3 + off else 3;
        if 0 <= to <= |code| then
          var after := Run(env, code, to, s', fuel - 1);
          r.status == after.status && r.state == after.state && r.steps == after.steps + 1
        else r.status == Faulted(JumpOutOfRange) && r.state == s'
  {
    var code := pre + [b, lo, hi] + rest;
    var off := if hi < 0x80 then lo + M8 * hi else lo + M8 * hi - M16;
    hide Fetch, ActionOf, RunAction, Exec;
    JumpAction(b, code, |pre|, off);
    JumpStep(env, JumpCondition(b), off, s);
    StepUnfold(env, code, |pre| + 3, ActionOf(Fetch(code, |pre|).insn), s, fuel);
  }

  function JumpCondition(b: Byte): Condition
  {
    if b == 0x40 then Always else if b == 0x41 then IfZero else IfNonZero
  }

  lemma JumpStep(env: Env, c: Condition, off: int, s: State)
    ensures Exec(env, Branch(c, off), s) ==
      if c.Always? then Jump(s, off)
      else if s.ds == [] then Trap(DsUnderflow, s)
      else
        var top := |s.ds| - 1;
        if (s.ds[top] == 0) == c.IfZero? then Jump(s.(ds := s.ds[..top]), off) else Next(s.(ds := s.ds[..top]))
  {
    hide Wrap, Alu, Arith.Unary, Read, Write, Loaded, SysResult, ToU32;
  }

  lemma JumpAction(b: Byte, code: seq<Byte>, at: nat, off: int)
    requires 0x40 <= b <= 0x42 && at + 3 <= |code| && code[at] == b
    requires off == code[at + 1] + M8 * code[at + 2] - if code[at + 2] < 0x80 then 0 else M16
    ensures var f := Fetch(code, at);
      && f.Fetched? && f.next == at + 3
      && ActionOf(f.insn) == Branch(JumpCondition(b), off)
  {}
}
