// The opcode table (opcodes.def), the interpreter's instruction fetch, and an
// assembler and disassembler written against them.
module Opcodes {
  import opened Arith
  import opened Endian

  datatype Op =
    | LIT | DUP | DROP | SWAP | OVER
    | ADD | SUB | MUL | DIV | MOD | DIVU | MODU | INC | DEC
    | EQ | NE | LT | LE | GT | GE | LTU | LEU
    | AND | OR | XOR | INVERT | SHL | SHR | SAR
    | LOAD | STORE | LOAD8U | LOAD16U | STORE8 | STORE16 | LOAD8S | LOAD16S
    | JMP | JZ | JNZ | SELECT | CALL | RET | SYS
    | TOR | FROMR | RFETCH
    | LIT0 | LIT1 | LITN1 | LIT_U8 | LIT_I8 | LIT_I16
    | LGET | LSET | LTEE | LGET0 | LGET1 | LSET0 | LSET1 | LINC | LDEC

  /** The immediate column of opcodes.def. */
  datatype ImmKind = NO_IMM | IMM8 | IMM16 | IMM32 | REL16 | IDX16

  /** The opcode numbers of opcodes.def. */
  function OpByte(op: Op): Byte
  {
    match op
    case LIT => 0x00 case DUP => 0x01 case DROP => 0x02 case SWAP => 0x03 case OVER => 0x04
    case ADD => 0x10 case SUB => 0x11 case MUL => 0x12 case DIV => 0x13 case MOD => 0x14
    case DIVU => 0x15 case MODU => 0x16 case INC => 0x17 case DEC => 0x18
    case EQ => 0x20 case NE => 0x21 case LT => 0x22 case LE => 0x23
    case GT => 0x24 case GE => 0x25 case LTU => 0x26 case LEU => 0x27
    case AND => 0x28 case OR => 0x29 case XOR => 0x2A case INVERT => 0x2B
    case SHL => 0x2C case SHR => 0x2D case SAR => 0x2E
    case LOAD => 0x30 case STORE => 0x31 case LOAD8U => 0x32 case LOAD16U => 0x33
    case STORE8 => 0x34 case STORE16 => 0x35 case LOAD8S => 0x36 case LOAD16S => 0x37
    case JMP => 0x40 case JZ => 0x41 case JNZ => 0x42 case SELECT => 0x43
    case CALL => 0x50 case RET => 0x51 case SYS => 0x60
    case TOR => 0x70 case FROMR => 0x71 case RFETCH => 0x72
    case LIT0 => 0x73 case LIT1 => 0x74 case LITN1 => 0x75
    case LIT_U8 => 0x76 case LIT_I8 => 0x77 case LIT_I16 => 0x78
    case LGET => 0x79 case LSET => 0x7A case LTEE => 0x7B case LGET0 => 0x7C
    case LGET1 => 0x7D case LSET0 => 0x7E case LSET1 => 0x7F
    case LINC => 0x80 case LDEC => 0x81
  }

  function Kind(op: Op): ImmKind
  {
    match op
    case LIT => IMM32
    case JMP | JZ | JNZ => REL16
    case CALL => IDX16
    case LIT_U8 | LIT_I8 | LGET | LSET | LTEE | LINC | LDEC => IMM8
    case LIT_I16 => IMM16
    case _ => NO_IMM
  }

  function Width(k: ImmKind): nat
  {
    match k
    case NO_IMM => 0
    case IMM8 => 1
    case IMM16 | REL16 | IDX16 => 2
    case IMM32 => 4
  }

  /** The switch of the interpreter: which case a byte selects. */
  function Dispatch(b: Byte): (r: Option<Op>)
    ensures r.Some? ==> OpByte(r.value) == b
  {
    if b < 0x10 then DispatchStack(b)
    else if b < 0x30 then DispatchArithmetic(b)
    else if b < 0x40 then DispatchMemory(b)
    else if b < 0x70 then DispatchControl(b)
    else if b < 0x79 then DispatchReturnStackAndLiterals(b)
    else DispatchLocals(b)
  }

  function DispatchStack(b: Byte): (r: Option<Op>)
    ensures r.Some? ==> OpByte(r.value) == b
  {
    if b == 0x00 then Some(LIT) else if b == 0x01 then Some(DUP) else if b == 0x02 then Some(DROP)
    else if b == 0x03 then Some(SWAP) else if b == 0x04 then Some(OVER) else None
  }

  function DispatchArithmetic(b: Byte): (r: Option<Op>)
    ensures r.Some? ==> OpByte(r.value) == b
  {
    if b == 0x10 then Some(ADD) else if b == 0x11 then Some(SUB) else if b == 0x12 then Some(MUL)
    else if b == 0x13 then Some(DIV) else if b == 0x14 then Some(MOD) else if b == 0x15 then Some(DIVU)
    else if b == 0x16 then Some(MODU) else if b == 0x17 then Some(INC) else if b == 0x18 then Some(DEC)
    else DispatchLogic(b)
  }

  function DispatchLogic(b: Byte): (r: Option<Op>)
    ensures r.Some? ==> OpByte(r.value) == b
  {
    if b == 0x20 then Some(EQ) else if b == 0x21 then Some(NE) else if b == 0x22 then Some(LT)
    else if b == 0x23 then Some(LE) else if b == 0x24 then Some(GT) else if b == 0x25 then Some(GE)
    else if b == 0x26 then Some(LTU) else if b == 0x27 then Some(LEU) else if b == 0x28 then Some(AND)
    else if b == 0x29 then Some(OR) else if b == 0x2A then Some(XOR) else if b == 0x2B then Some(INVERT)
    else if b == 0x2C then Some(SHL) else if b == 0x2D then Some(SHR) else if b == 0x2E then Some(SAR)
    else None
  }

  function DispatchMemory(b: Byte): (r: Option<Op>)
    ensures r.Some? ==> OpByte(r.value) == b
  {
    if b == 0x30 then Some(LOAD) else if b == 0x31 then Some(STORE) else if b == 0x32 then Some(LOAD8U)
    else if b == 0x33 then Some(LOAD16U) else if b == 0x34 then Some(STORE8) else if b == 0x35 then Some(STORE16)
    else if b == 0x36 then Some(LOAD8S) else if b == 0x37 then Some(LOAD16S) else None
  }

  function DispatchControl(b: Byte): (r: Option<Op>)
    ensures r.Some? ==> OpByte(r.value) == b
  {
    if b == 0x40 then Some(JMP) else if b == 0x41 then Some(JZ) else if b == 0x42 then Some(JNZ)
    else if b == 0x43 then Some(SELECT) else if b == 0x50 then Some(CALL) else if b == 0x51 then Some(RET)
    else if b == 0x60 then Some(SYS) else None
  }

  function DispatchReturnStackAndLiterals(b: Byte): (r: Option<Op>)
    ensures r.Some? ==> OpByte(r.value) == b
  {
    if b == 0x70 then Some(TOR) else if b == 0x71 then Some(FROMR) else if b == 0x72 then Some(RFETCH)
    else DispatchLiterals(b)
  }

  function DispatchLiterals(b: Byte): (r: Option<Op>)
    ensures r.Some? ==> OpByte(r.value) == b
  {
    if b == 0x73 then Some(LIT0) else if b == 0x74 then Some(LIT1) else if b == 0x75 then Some(LITN1)
    else if b == 0x76 then Some(LIT_U8) else if b == 0x77 then Some(LIT_I8) else if b == 0x78 then Some(LIT_I16)
    else None
  }

  function DispatchLocals(b: Byte): (r: Option<Op>)
    ensures r.Some? ==> OpByte(r.value) == b
  {
    if b == 0x79 then Some(LGET) else if b == 0x7A then Some(LSET) else if b == 0x7B then Some(LTEE)
    else if b == 0x7C then Some(LGET0) else if b == 0x7D then Some(LGET1)
    else DispatchLocalWrites(b)
  }

  function DispatchLocalWrites(b: Byte): (r: Option<Op>)
    ensures r.Some? ==> OpByte(r.value) == b
  {
    if b == 0x7E then Some(LSET0) else if b == 0x7F then Some(LSET1)
    else if b == 0x80 then Some(LINC) else if b == 0x81 then Some(LDEC)
    else None
  }

  /** Every opcode of the table reaches its own case of the switch. */
  lemma DispatchInvertsTable(op: Op)
    ensures Dispatch(OpByte(op)) == Some(op)
  {
    hide Dispatch, OpByte;
    match op {
      case LIT | DUP | DROP | SWAP | OVER | ADD | SUB | MUL | DIV | MOD | DIVU | MODU | INC | DEC =>
        InvertsArithmetic(op);
      case EQ | NE | LT | LE | GT | GE | LTU | LEU | AND | OR | XOR | INVERT | SHL | SHR | SAR =>
        InvertsLogic(op);
      case LOAD | STORE | LOAD8U | LOAD16U | STORE8 | STORE16 | LOAD8S | LOAD16S
        | JMP | JZ | JNZ | SELECT | CALL | RET | SYS =>
        InvertsMemoryAndControl(op);
      case TOR | FROMR | RFETCH | LIT0 | LIT1 | LITN1 | LIT_U8 | LIT_I8 | LIT_I16 =>
        InvertsReturnStackAndLiterals(op);
      case _ =>
        InvertsLocals(op);
    }
  }

  lemma InvertsArithmetic(op: Op)
    requires op in {LIT, DUP, DROP, SWAP, OVER, ADD, SUB, MUL, DIV, MOD, DIVU, MODU, INC, DEC}
    ensures Dispatch(OpByte(op)) == Some(op)
  {}

  lemma InvertsLogic(op: Op)
    requires op in {EQ, NE, LT, LE, GT, GE, LTU, LEU, AND, OR, XOR, INVERT, SHL, SHR, SAR}
    ensures Dispatch(OpByte(op)) == Some(op)
  {}

  lemma InvertsMemoryAndControl(op: Op)
    requires op in {LOAD, STORE, LOAD8U, LOAD16U, STORE8, STORE16, LOAD8S, LOAD16S,
                    JMP, JZ, JNZ, SELECT, CALL, RET, SYS}
    ensures Dispatch(OpByte(op)) == Some(op)
  {}

  lemma InvertsReturnStackAndLiterals(op: Op)
    requires op in {TOR, FROMR, RFETCH, LIT0, LIT1, LITN1, LIT_U8, LIT_I8, LIT_I16}
    ensures Dispatch(OpByte(op)) == Some(op)
  {}

  lemma InvertsLocals(op: Op)
    requires op in {LGET, LSET, LTEE, LGET0, LGET1, LSET0, LSET1, LINC, LDEC}
    ensures Dispatch(OpByte(op)) == Some(op)
  {}

  // ---------------------------------------------------------------- fetch

  function ReadU16(code: seq<Byte>, at: nat): U16
    requires at + 2 <= |code|
  {
    code[at] + M8 * code[at + 1]
  }

  function ReadI16(code: seq<Byte>, at: nat): Cell
    requires at + 2 <= |code|
  {
    SignExtend(ReadU16(code, at), M16)
  }

  function ReadI32(code: seq<Byte>, at: nat): Cell
    requires at + 4 <= |code|
  {
    SignExtend(code[at] + M8 * code[at + 1] + M16 * code[at + 2] + M24 * code[at + 3], M32)
  }

  datatype Insn = Insn(op: Op, imm: Cell)

  datatype Fetched =
    | Fetched(insn: Insn, next: nat)
    | TruncatedLit
    | TruncatedJmp
    | BadOpcode

  /** Reading one instruction at ip: the opcode, the truncation check of its
      case, then its immediate with the case's own width and signedness. */
  function Fetch(code: seq<Byte>, ip: nat): (f: Fetched)
    requires ip < |code|
    ensures f.Fetched? ==> ip < f.next <= |code|
  {
    match Dispatch(code[ip])
    case None => BadOpcode
    case Some(op) => FetchImm(code, ip + 1, op)
  }

  function FetchImm(code: seq<Byte>, at: nat, op: Op): (f: Fetched)
    requires 0 < at <= |code|
    ensures f.Fetched? ==> at <= f.next <= |code|
  {
    match op
    case LIT =>
      if at + 4 > |code| then TruncatedLit else Fetched(Insn(op, ReadI32(code, at)), at + 4)
    case LIT_U8 | LGET | LSET | LTEE | LINC | LDEC =>
      if at >= |code| then TruncatedLit else Fetched(Insn(op, code[at]), at + 1)
    case LIT_I8 =>
      if at >= |code| then TruncatedLit else Fetched(Insn(op, SignExtend(code[at], M8)), at + 1)
    case LIT_I16 =>
      if at + 2 > |code| then TruncatedLit else Fetched(Insn(op, ReadI16(code, at)), at + 2)
    case JMP | JZ | JNZ =>
      if at + 2 > |code| then TruncatedJmp else Fetched(Insn(op, ReadI16(code, at)), at + 2)
    case CALL =>
      if at + 2 > |code| then TruncatedJmp else Fetched(Insn(op, ReadU16(code, at)), at + 2)
    case _ => Fetched(Insn(op, 0), at)
  }

  // ------------------------------------------------- assembler, disassembler

  predicate Signed(op: Op)
  {
    match op
    case LIT | LIT_I8 | LIT_I16 | JMP | JZ | JNZ => true
    case _ => false
  }

  /** The value the interpreter gives to the immediate bytes of an opcode. */
  function Immediate(op: Op, bs: seq<Byte>): Cell
    requires |bs| == Width(Kind(op))
  {
    var u := FromLittleEndian(bs);
    ModulusTable();
    if Signed(op) && bs != [] then SignExtend(u, Modulus(|bs|)) else u
  }

  /** The immediates an instruction can carry. */
  predicate Encodable(i: Insn)
  {
    var m := Modulus(Width(Kind(i.op)));
    if Signed(i.op) then -(m / 2) <= i.imm < m / 2 else 0 <= i.imm < m
  }

  /** One instruction with the immediate width of the opcode table. */
  function Encode(i: Insn): (bs: seq<Byte>)
    requires Encodable(i)
    ensures |bs| == 1 + Width(Kind(i.op))
  {
    var w := Width(Kind(i.op));
    [OpByte(i.op)] + LittleEndian(i.imm % Modulus(w), w)
  }

  ghost function Assemble(insns: seq<Insn>): seq<Byte>
    requires forall i :: i in insns ==> Encodable(i)
  {
    if insns == [] then [] else Encode(insns[0]) + Assemble(insns[1..])
  }

  /** Fetching from `at` to the end; None when some fetch fails. */
  function Disassemble(code: seq<Byte>, at: nat): Option<seq<Insn>>
    requires at <= |code|
    decreases |code| - at
  {
    if at == |code| then Some([])
    else
      var f := Fetch(code, at);
      if !f.Fetched? then None
      else
        match Disassemble(code, f.next)
        case None => None
        case Some(rest) => Some([f.insn] + rest)
  }

  /** The hand-written reads of the interpreter's switch follow the opcode table:
      width and truncation error come from the immediate kind, for every opcode. */
  lemma FetchFollowsTable(code: seq<Byte>, at: nat, op: Op)
    requires 0 < at <= |code|
    ensures var w := Width(Kind(op));
      FetchImm(code, at, op) ==
        if at + w <= |code| then Fetched(Insn(op, Immediate(op, code[at..at + w])), at + w)
        else if Kind(op).REL16? || Kind(op).IDX16? then TruncatedJmp
        else TruncatedLit
  {
    var w := Width(Kind(op));
    if at + w <= |code| {
      ReadsAreLittleEndian(code, at, w);
    }
  }

  lemma ReadsAreLittleEndian(code: seq<Byte>, at: nat, width: nat)
    requires at + width <= |code| && width in {0, 1, 2, 4}
    ensures FromLittleEndian(code[at..at + width]) ==
      if width == 0 then 0
      else if width == 1 then code[at]
      else if width == 2 then ReadU16(code, at)
      else code[at] + M8 * code[at + 1] + M16 * code[at + 2] + M24 * code[at + 3]
    ensures Modulus(0) == 1 && Modulus(1) == M8 && Modulus(2) == M16 && Modulus(4) == M32
  {
    var bs := code[at..at + width];
    BytesToNumber(bs);
    ModulusTable();
  }

  /** Sign extension and reduction modulo a power of 256 undo each other. */
  lemma SignExtendInverse(x: int, width: nat)
    requires width in {1, 2, 4}
    ensures var m := Modulus(width);
      && (-(m / 2) <= x < m / 2 ==> SignExtend(x % m, m) == x)
      && (0 <= x < m ==> SignExtend(x, m) % m == x)
  {
    ModulusTable();
    if width == 1 {
      assert x < 0 && -M8 <= x ==> x % M8 == x + M8;
    } else if width == 2 {
      assert x < 0 && -M16 <= x ==> x % M16 == x + M16;
    } else {
      assert x < 0 && -M32 <= x ==> x % M32 == x + M32;
    }
  }

  /** Encoding an instruction anywhere in a program, then fetching there, gives it back. */
  lemma FetchInvertsEncode(pre: seq<Byte>, i: Insn, post: seq<Byte>)
    requires Encodable(i)
    ensures Fetch(pre + Encode(i) + post, |pre|) == Fetched(i, |pre| + |Encode(i)|)
  {
    var w := Width(Kind(i.op));
    var u := i.imm % Modulus(w);
    var at := |pre| + 1;
    var code := pre + Encode(i) + post;
    DispatchInvertsTable(i.op);
    assert code[|pre|] == OpByte(i.op);
    assert code[at..at + w] == LittleEndian(u, w);
    FetchFollowsTable(code, at, i.op);
    ValueRoundTrip(u, w);
    ImmediateInverse(i);
  }

  lemma ImmediateInverse(i: Insn)
    requires Encodable(i)
    ensures var w := Width(Kind(i.op));
      Immediate(i.op, LittleEndian(i.imm % Modulus(w), w)) == i.imm
  {
    var w := Width(Kind(i.op));
    hide Kind, Width, Signed, Modulus, FromLittleEndian, LittleEndian;
    WidthTable(i.op);
    ValueRoundTrip(i.imm % Modulus(w), w);
    if Signed(i.op) {
      SignExtendInverse(i.imm, w);
    } else {
      UnsignedInverse(i.imm, w);
    }
  }

  /** Round trip: assembling any list of instructions and disassembling it gives
      the list back, with no truncation and no unknown opcode. */
  lemma {:induction false} AssembleThenDisassemble(pre: seq<Byte>, insns: seq<Insn>)
    requires forall i :: i in insns ==> Encodable(i)
    ensures Disassemble(pre + Assemble(insns), |pre|) == Some(insns)
    decreases |insns|
  {
    if insns != [] {
      var first, rest := Encode(insns[0]), Assemble(insns[1..]);
      FetchInvertsEncode(pre, insns[0], rest);
      assert pre + (first + rest) == pre + first + rest;
      AssembleThenDisassemble(pre + first, insns[1..]);
      assert [insns[0]] + insns[1..] == insns;
    }
  }

  /** Whatever fetch returns is an encodable instruction whose encoding is the bytes read. */
  lemma EncodeInvertsFetch(code: seq<Byte>, ip: nat)
    requires ip < |code| && Fetch(code, ip).Fetched?
    ensures Encodable(Fetch(code, ip).insn)
    ensures Encode(Fetch(code, ip).insn) == code[ip..Fetch(code, ip).next]
  {
    var op := Dispatch(code[ip]).value;
    var f := Fetch(code, ip);
    FetchFollowsTable(code, ip + 1, op);
    var bs := code[ip + 1..f.next];
    BytesRoundTrip(bs);
    ImmediateBytes(op, bs);
    assert code[ip..f.next] == [code[ip]] + bs;
  }

  lemma WidthTable(op: Op)
    ensures Width(Kind(op)) in {0, 1, 2, 4}
    ensures Signed(op) ==> Width(Kind(op)) != 0
  {}

  lemma UnsignedInverse(x: int, width: nat)
    requires width in {0, 1, 2, 4} && 0 <= x < Modulus(width)
    ensures x % Modulus(width) == x
  {
    ModulusTable();
  }

  lemma ImmediateBytes(op: Op, bs: seq<Byte>)
    requires |bs| == Width(Kind(op))
    ensures Encodable(Insn(op, Immediate(op, bs)))
    ensures Immediate(op, bs) % Modulus(|bs|) == FromLittleEndian(bs)
  {
    hide Kind, Width, Signed, Modulus, FromLittleEndian;
    WidthTable(op);
    var u := FromLittleEndian(bs);
    if Signed(op) {
      SignExtendInverse(u, |bs|);
    } else {
      UnsignedInverse(u, |bs|);
    }
  }

  /** The converse: bytes that disassemble are exactly the assembly of their listing. */
  lemma {:induction false} DisassembleThenAssemble(code: seq<Byte>, at: nat)
    requires at <= |code| && Disassemble(code, at).Some?
    ensures forall i :: i in Disassemble(code, at).value ==> Encodable(i)
    ensures Assemble(Disassemble(code, at).value) == code[at..]
    decreases |code| - at
  {
    if at < |code| {
      var f := Fetch(code, at);
      EncodeInvertsFetch(code, at);
      DisassembleThenAssemble(code, f.next);
      var rest := Disassemble(code, f.next).value;
      assert ([f.insn] + rest)[1..] == rest;
      assert code[at..] == code[at..f.next] + code[f.next..];
    }
  }
}
