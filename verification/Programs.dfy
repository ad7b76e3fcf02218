// Programs of several instructions: what an instruction does does not depend on
// where it stands, and how a run ends where the code does.
module Programs {
  import opened Arith
  import opened Endian
  import opened Opcodes
  import opened Semantics
  import opened Runs
  import opened OpcodeMeaning

  predicate Ends(r: Result, status: Status, state: State)
  {
    r.status == status && r.state == state
  }

  // ------------------------------------------------------------ composition

  /** Neither a jump nor a call nor RET. */
  predicate Straight(i: Insn)
  {
    !i.op.RET? && !i.op.CALL? && !i.op.JMP? && !i.op.JZ? && !i.op.JNZ?
  }

  lemma StraightAction(i: Insn)
    requires Straight(i)
    ensures var a := ActionOf(i); !a.Call? && !a.Return? && !a.Branch?
  {}

  /** The run of one instruction with a RET after it. */
  function Alone(env: Env, i: Insn, s: State): Result
    requires Encodable(i)
  {
    Run(env, Encode(i) + [RETURN], 0, s, 2)
  }

  /** An instruction does anywhere in a program what it does alone: the program
      stops as it does, or goes on after it in the state it leaves. */
  lemma InstructionAnywhere(env: Env, pre: seq<Byte>, i: Insn, post: seq<Byte>, s: State, fuel: nat)
    requires Encodable(i) && Straight(i) && fuel > 0
    ensures var code, one := pre + Encode(i) + post, Alone(env, i, s);
      var r := Run(env, code, |pre|, s, fuel);
      if one.status != Returned then Ends(r, one.status, one.state) && r.steps == 1
      else
        var after := Run(env, code, |pre| + |Encode(i)|, one.state, fuel - 1);
        Ends(r, after.status, after.state) && r.steps == after.steps + 1
  {
    hide Fetch, Encode, Encodable, Exec, ActionOf, RunAction;
    var code, next := pre + Encode(i) + post, |pre| + |Encode(i)|;
    FetchInvertsEncode(pre, i, post);
    StraightAction(i);
    BranchOffset(env, ActionOf(i), s);
    StepUnfold(env, code, next, ActionOf(i), s, fuel);
    RunInsn(env, i, s, 2);
  }

  /** The instructions one after the other, each run alone, up to the first fault. */
  ghost function InTurn(env: Env, insns: seq<Insn>, s: State): (Status, State)
    requires forall i :: i in insns ==> Encodable(i) && Straight(i)
  {
    if insns == [] then (Returned, s)
    else
      var one := Alone(env, insns[0], s);
      if one.status != Returned then (one.status, one.state) else InTurn(env, insns[1..], one.state)
  }

  /** Straight-line code anywhere in a program runs its instructions in turn. */
  lemma {:induction false} StraightLine(
    env: Env, pre: seq<Byte>, insns: seq<Insn>, post: seq<Byte>, s: State, fuel: nat)
    requires (forall i :: i in insns ==> Encodable(i) && Straight(i)) && fuel >= |insns|
    ensures var code := pre + Assemble(insns) + post;
      var (status, state) := InTurn(env, insns, s);
      var r := Run(env, code, |pre|, s, fuel);
      if status != Returned then Ends(r, status, state)
      else
        var after := Run(env, code, |pre| + |Assemble(insns)|, state, fuel - |insns|);
        Ends(r, after.status, after.state)
    decreases |insns|
  {
    hide Run, Encode, Straight;
    if insns != [] {
      var first, rest := Encode(insns[0]), Assemble(insns[1..]);
      assert pre + (first + rest) + post == pre + first + (rest + post);
      assert pre + (first + rest) + post == (pre + first) + rest + post;
      InstructionAnywhere(env, pre, insns[0], rest + post, s, fuel);
      var one := Alone(env, insns[0], s);
      if one.status == Returned {
        StraightLine(env, pre + first, insns[1..], post, one.state, fuel - 1);
      }
    }
  }

  /** Straight-line code in which no instruction fails: with RET after it, it
      returns; without, it fell off the end, in the same state. */
  lemma RetIsNeeded(env: Env, insns: seq<Insn>, s: State, fuel: nat)
    requires (forall i :: i in insns ==> Encodable(i) && Straight(i)) && fuel > |insns|
    ensures var (status, state) := InTurn(env, insns, s);
      && Ends(Run(env, Assemble(insns) + [0x51], 0, s, fuel), status, state)
      && Ends(Run(env, Assemble(insns), 0, s, fuel),
           if status == Returned then Faulted(FellOffEnd) else status, state)
  {
    hide Run, Straight;
    var code := Assemble(insns);
    var (status, state) := InTurn(env, insns, s);
    StraightLine(env, [], insns, [0x51], s, fuel);
    StraightLine(env, [], insns, [], s, fuel);
    assert [] + code + [0x51] == code + [0x51] && [] + code + [] == code;
    EndOfCode(env, code, state, fuel - |insns|);
    ReturnHere(env, code, state, fuel - |insns|);
  }

  lemma ReturnHere(env: Env, pre: seq<Byte>, s: State, fuel: nat)
    requires fuel > 0
    ensures var r := Run(env, pre + [0x51], |pre|, s, fuel); Ends(r, Returned, s) && r.steps == 1
  {
    hide Fetch, RunAction, Encode;
    ReturnEncoding();
    FetchInvertsEncode(pre, Insn(RET, 0), []);
    assert pre + [RETURN] + [] == pre + [0x51];
    ReturnEndsRun(env, pre + [0x51], |pre| + 1, Return, s, fuel);
  }

  // ------------------------------------------------------------ the end of the code

  /** A run that reaches the end of the code, empty code included, fell off. */
  lemma EndOfCode(env: Env, code: seq<Byte>, s: State, fuel: nat)
    ensures var r := Run(env, code, |code|, s, fuel); Ends(r, Faulted(FellOffEnd), s) && r.steps == 0
  {}

  /** One instruction at the end of the code, of any kind but RET: it fails as it
      does alone, or the run falls off the end in the state it leaves. */
  lemma LastInstruction(env: Env, pre: seq<Byte>, i: Insn, s: State, fuel: nat)
    requires Encodable(i) && Straight(i) && fuel > 0
    ensures var one, r := Alone(env, i, s), Run(env, pre + Encode(i), |pre|, s, fuel);
      Ends(r, if one.status == Returned then Faulted(FellOffEnd) else one.status, one.state)
  {
    hide Run, Encode, Straight;
    var code := pre + Encode(i);
    assert code + [] == code;
    InstructionAnywhere(env, pre, i, [], s, fuel);
    EndOfCode(env, code, Alone(env, i, s).state, fuel - 1);
  }

  /** A jump whose target is the end of the code falls off, its flag popped. */
  lemma JumpToEnd(env: Env, pre: seq<Byte>, b: Byte, lo: Byte, hi: Byte, rest: seq<Byte>, s: State, fuel: nat)
    requires 0x40 <= b <= 0x42 && fuel > 0 && (b != 0x40 ==> s.ds != [])
    requires var taken := b == 0x40 || (b == 0x41) == (s.ds[|s.ds| - 1] == 0);
      (if taken then lo + M8 * hi - (if hi < 0x80 then 0 else M16) else 0) == |rest|
    ensures Ends(Run(env, pre + [b, lo, hi] + rest, |pre|, s, fuel),
      Faulted(FellOffEnd), if b == 0x40 then s else s.(ds := s.ds[..|s.ds| - 1]))
  {
    hide Run;
    JumpOpcodes(env, pre, b, lo, hi, rest, s, fuel);
    var s' := if b == 0x40 then s else s.(ds := s.ds[..|s.ds| - 1]);
    EndOfCode(env, pre + [b, lo, hi] + rest, s', fuel - 1);
  }

  /** A call at the end of the code whose word returns falls off after it. */
  lemma CallAtEnd(env: Env, pre: seq<Byte>, lo: Byte, hi: Byte, s: State, fuel: nat)
    requires fuel > 0 && lo + M8 * hi < |env.words| && env.words[lo + M8 * hi].code != []
    ensures var called := Run(env, env.words[lo + M8 * hi].code, 0, s.(fp := Some(|s.rs|)), fuel - 1);
      Ends(Run(env, pre + [0x50, lo, hi], |pre|, s, fuel),
        if called.status == Returned then Faulted(FellOffEnd) else called.status, called.state.(fp := s.fp))
  {
    hide Run;
    var code := pre + [0x50, lo, hi];
    assert code + [] == code;
    CallOpcode(env, pre, lo, hi, [], s, fuel);
    var called := Run(env, env.words[lo + M8 * hi].code, 0, s.(fp := Some(|s.rs|)), fuel - 1);
    EndOfCode(env, code, called.state.(fp := s.fp), fuel - 1);
  }

  // ------------------------------------------------------------ bytes that are no instruction

  /** The bytes of the opcode table. */
  predicate IsOpcode(b: Byte)
  {
    || b <= 0x04 || 0x10 <= b <= 0x18 || 0x20 <= b <= 0x2E || 0x30 <= b <= 0x37
    || 0x40 <= b <= 0x43 || 0x50 <= b <= 0x51 || b == 0x60 || 0x70 <= b <= 0x81
  }

  /** Bytes of immediate after an opcode. */
  function ImmediateBytes(b: Byte): nat
  {
    if b == 0x00 then 4
    else if 0x40 <= b <= 0x42 || b == 0x50 || b == 0x78 then 2
    else if b == 0x76 || b == 0x77 || 0x79 <= b <= 0x7B || b == 0x80 || b == 0x81 then 1
    else 0
  }

  /** Whatever stands before and after it, a byte outside the table stops the run. */
  lemma UnknownByte(env: Env, pre: seq<Byte>, b: Byte, post: seq<Byte>, s: State, fuel: nat)
    requires !IsOpcode(b) && fuel > 0
    ensures Ends(Run(env, pre + [b] + post, |pre|, s, fuel), Faulted(UnknownOp), s)
  {
    assert Dispatch(b).None?;
  }

  /** An opcode whose immediate is cut off by the end of the code stops the run
      before it does anything. */
  lemma CutOff(env: Env, pre: seq<Byte>, b: Byte, some: seq<Byte>, s: State, fuel: nat)
    requires IsOpcode(b) && |some| < ImmediateBytes(b) && fuel > 0
    ensures Ends(Run(env, pre + [b] + some, |pre|, s, fuel),
      Faulted(if 0x40 <= b <= 0x42 || b == 0x50 then TruncatedJump else TruncatedLiteral), s)
  {
    var code := pre + [b] + some;
    CutOffFetch(code, |pre|, b);
    hide Fetch, RunAction;
  }

  lemma CutOffFetch(code: seq<Byte>, at: nat, b: Byte)
    requires at < |code| && code[at] == b && IsOpcode(b) && |code| - at - 1 < ImmediateBytes(b)
    ensures Fetch(code, at) == if 0x40 <= b <= 0x42 || b == 0x50 then TruncatedJmp else TruncatedLit
  {}

  /** A nonempty proper prefix of an instruction is cut off so. */
  lemma InstructionCutOff(env: Env, pre: seq<Byte>, i: Insn, n: nat, s: State, fuel: nat)
    requires Encodable(i) && 0 < n < |Encode(i)| && fuel > 0
    ensures Ends(Run(env, pre + Encode(i)[..n], |pre|, s, fuel),
      Faulted(if i.op.JMP? || i.op.JZ? || i.op.JNZ? || i.op.CALL? then TruncatedJump else TruncatedLiteral), s)
  {
    var b, some := Encode(i)[0], Encode(i)[1..n];
    EncodedBytes(i);
    hide Run;
    assert pre + [b] + some == pre + Encode(i)[..n];
    CutOff(env, pre, b, some, s, fuel);
  }

  lemma EncodedBytes(i: Insn)
    requires Encodable(i)
    ensures var b := Encode(i)[0];
      && IsOpcode(b) && |Encode(i)| == 1 + ImmediateBytes(b)
      && ((0x40 <= b <= 0x42 || b == 0x50) <==> i.op.JMP? || i.op.JZ? || i.op.JNZ? || i.op.CALL?)
  {}

  /** The error code of every fault. */
  lemma FaultCodes()
    ensures Code(TruncatedLiteral) == -1 && Code(TruncatedJump) == -2 && Code(JumpOutOfRange) == -3
    ensures Code(FellOffEnd) == -10 && Code(DivByZero) == -11 && Code(UnknownOp) == -99
    ensures Code(DsOverflow) == Code(RsOverflow) == -14
    ensures Code(DsUnderflow) == Code(RsUnderflow) == Code(NoSuchLocal) == -15
    ensures Code(NoFrame) == Code(EmptyWord) == -16 && Code(NoSuchWord) == -18
    ensures forall err :: Code(MemoryFault(err)) == err
  {}
}
