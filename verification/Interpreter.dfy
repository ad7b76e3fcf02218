// vm_exec_raw over the arrays of the VM. Each method runs one group of opcodes
// with the pops and pushes of the C++ and is proved against Semantics.Exec;
// ExecRaw is proved against Semantics.Run.
module Interpreter {
  import opened Arith
  import opened Errors
  import opened Opcodes
  import opened Memory
  import opened Semantics
  import opened Stacks
  import opened Dictionary
  import opened Runs

  class Vm {
    const stacks: VmStacks
    const memory: MemoryUnit
    const dict: WordTable
    const sys: Option<(seq<HostCall>, Cell, Cell, Cell, Cell) -> Cell>

    ghost predicate Valid()
      reads this, stacks, memory
    {
      && stacks.Valid() && memory.Valid()
      && memory.mem as object? != stacks.DS && memory.mem as object? != stacks.RS
    }

    constructor (stacks: VmStacks, memory: MemoryUnit, dict: WordTable,
                 sys: Option<(seq<HostCall>, Cell, Cell, Cell, Cell) -> Cell>)
      requires stacks.Valid() && memory.Valid()
      requires memory.mem as object? != stacks.DS && memory.mem as object? != stacks.RS
      ensures Valid() && this.stacks == stacks && this.memory == memory && this.dict == dict && this.sys == sys
    {
      this.stacks := stacks;
      this.memory := memory;
      this.dict := dict;
      this.sys := sys;
    }

    ghost function Environment(): Env
      reads memory`mmio, dict`words
    {
      Env(dict.words, memory.mmio, sys)
    }

    ghost function Abs(): State
      requires Valid()
      reads this, stacks, stacks.DS, stacks.RS, memory, memory.mem
    {
      State(stacks.Ds(), stacks.Rs(), stacks.fp, memory.Contents())
    }

    /** Error code e and state s are those of a step that does not jump. */
    ghost predicate Agrees(e: int, s: State, st: Step)
    {
      && s == st.s
      && match st
         case Next(_) => e == OK
         case Trap(f, _) => e == Code(f)
         case Jump(_, _) => false
    }

    method Literal(k: Cell) returns (e: int)
      requires Valid()
      modifies stacks`sp, stacks.DS
      ensures Valid() && Agrees(e, Abs(), Exec(Environment(), Push(k), old(Abs())))
    {
      e := stacks.DsPush(k);
    }

    method DupOp() returns (e: int)
      requires Valid()
      modifies stacks`sp, stacks.DS
      ensures Valid() && Agrees(e, Abs(), Exec(Environment(), Dup, old(Abs())))
    {
      hide Alu, Arith.Unary, ExecOutside, ExecReturnStack;
      var v;
      e, v := stacks.DsPeek(0);
      if e != OK { return; }
      e := stacks.DsPush(v);
    }

    method DropOp() returns (e: int)
      requires Valid()
      modifies stacks`sp
      ensures Valid() && Agrees(e, Abs(), Exec(Environment(), Drop, old(Abs())))
    {
      hide Alu, Arith.Unary, ExecOutside, ExecReturnStack;
      var v;
      e, v := stacks.DsPop();
    }

    method SwapOp() returns (e: int)
      requires Valid()
      modifies stacks`sp, stacks.DS
      ensures Valid() && Agrees(e, Abs(), Exec(Environment(), Swap, old(Abs())))
    {
      hide Alu, Arith.Unary, ExecOutside, ExecReturnStack;
      var x, y;
      e, x, y := stacks.DsPop2();
      if e != OK { return; }
      e := stacks.DsPush(x);
      if e != OK { return; }
      e := stacks.DsPush(y);
    }

    method OverOp() returns (e: int)
      requires Valid()
      modifies stacks`sp, stacks.DS
      ensures Valid() && Agrees(e, Abs(), Exec(Environment(), Semantics.Over, old(Abs())))
    {
      hide Alu, Arith.Unary, ExecOutside, ExecReturnStack;
      var v;
      e, v := stacks.DsPeek(1);
      if e != OK { return; }
      e := stacks.DsPush(v);
    }

    method SelectOp() returns (e: int)
      requires Valid()
      modifies stacks`sp, stacks.DS
      ensures Valid() && Agrees(e, Abs(), Exec(Environment(), Select, old(Abs())))
    {
      hide Alu, Arith.Unary, ExecOutside, ExecReturnStack;
      var x, y, flag;
      e, x, y := stacks.DsPop2();
      if e != OK { return; }
      e, flag := stacks.DsPop();
      if e != OK { return; }
      e := stacks.DsPush(if flag != 0 then x else y);
    }

    method BinaryOp(op: BinOp) returns (e: int)
      requires Valid()
      modifies stacks`sp, stacks.DS
      ensures Valid() && Agrees(e, Abs(), Exec(Environment(), Binary(op), old(Abs())))
    {
      hide Alu, Arith.Unary, ExecOutside, ExecReturnStack;
      var x, y;
      e, y, x := stacks.DsPop2();
      if e != OK { return; }
      var r := Alu(op, x, y);
      if r.None? { return DIV_BY_ZERO; }
      e := stacks.DsPush(r.value);
    }

    method UnaryOp(op: UnOp) returns (e: int)
      requires Valid()
      modifies stacks`sp, stacks.DS
      ensures Valid() && Agrees(e, Abs(), Exec(Environment(), Semantics.Unary(op), old(Abs())))
    {
      hide Alu, Arith.Unary, Exec, ExecOutside, ExecReturnStack;
      ExecGroup(Environment(), Semantics.Unary(op), Abs());
      var x;
      e, x := stacks.DsPop();
      if e != OK { return; }
      e := stacks.DsPush(Arith.Unary(op, x));
    }

    method Load(width: nat, signed: bool) returns (e: int)
      requires Valid() && width in {1, 2, 4}
      modifies stacks`sp, stacks.DS, memory`io
      ensures Valid() && Agrees(e, Abs(), Exec(Environment(), LoadMem(width, signed), old(Abs())))
    {
      hide Read, Write, Loaded, ToU32, Exec, ExecData, ExecReturnStack;
      ExecGroup(Environment(), LoadMem(width, signed), Abs());
      var addr, val;
      e, addr := stacks.DsPop();
      if e != OK { return; }
      e, val := ReadMemory(ToU32(addr), width);
      if e != OK { return; }
      e := stacks.DsPush(Loaded(val, width, signed));
    }

    /** The accessor of the given width. */
    method ReadMemory(addr: U32, width: nat) returns (e: int, val: U32)
      requires Valid() && width in {1, 2, 4}
      modifies memory`io
      ensures Valid() && ReadResult(e, val, memory.Contents()) == Read(memory.mmio, old(memory.Contents()), addr, width)
    {
      hide Read;
      if width == 1 {
        e, val := memory.Read8(addr);
      } else if width == 2 {
        e, val := memory.Read16(addr);
      } else {
        e, val := memory.Read32(addr);
      }
    }

    method StoreTo(width: nat) returns (e: int)
      requires Valid() && width in {1, 2, 4}
      modifies stacks`sp, memory`io, memory.mem
      ensures Valid() && Agrees(e, Abs(), Exec(Environment(), StoreMem(width), old(Abs())))
    {
      hide Read, Write, Loaded, ToU32, Exec, ExecData, ExecReturnStack;
      ExecGroup(Environment(), StoreMem(width), Abs());
      var addr, val;
      e, addr, val := stacks.DsPop2();
      if e != OK { return; }
      if width == 1 {
        e := memory.Write8(ToU32(addr), ToU32(val));
      } else if width == 2 {
        e := memory.Write16(ToU32(addr), ToU32(val));
      } else {
        e := memory.Write32(ToU32(addr), ToU32(val));
      }
    }

    method ToROp() returns (e: int)
      requires Valid()
      modifies stacks`sp, stacks`rp, stacks.RS
      ensures Valid() && Agrees(e, Abs(), Exec(Environment(), ToR, old(Abs())))
    {
      hide Wrap, ExecOutside, ExecData;
      var v;
      e, v := stacks.DsPop();
      if e != OK { return; }
      e := stacks.RsPush(v);
    }

    method FromROp() returns (e: int)
      requires Valid()
      modifies stacks`sp, stacks`rp, stacks.DS
      ensures Valid() && Agrees(e, Abs(), Exec(Environment(), FromR, old(Abs())))
    {
      hide Wrap, ExecOutside, ExecData;
      var v;
      e, v := stacks.RsPop();
      if e != OK { return; }
      e := stacks.DsPush(v);
    }

    method RFetchOp() returns (e: int)
      requires Valid()
      modifies stacks`sp, stacks.DS
      ensures Valid() && Agrees(e, Abs(), Exec(Environment(), RFetch, old(Abs())))
    {
      hide Wrap, ExecOutside, ExecData;
      var v;
      e, v := stacks.RsPeek(0);
      if e != OK { return; }
      e := stacks.DsPush(v);
    }

    method GetLocal(i: nat) returns (e: int)
      requires Valid()
      modifies stacks`sp, stacks.DS
      ensures Valid() && Agrees(e, Abs(), Exec(Environment(), LocalGet(i), old(Abs())))
    {
      hide Wrap, ExecOutside, ExecData;
      var slot;
      e, slot := stacks.FindLocal(i);
      if e != OK { return; }
      e := stacks.DsPush(stacks.RS[slot]);
    }

    method SetLocal(i: nat) returns (e: int)
      requires Valid()
      modifies stacks`sp, stacks.RS
      ensures Valid() && Agrees(e, Abs(), Exec(Environment(), LocalSet(i), old(Abs())))
    {
      hide Wrap, ExecOutside, ExecData;
      var slot;
      e, slot := stacks.FindLocal(i);
      if e != OK { return; }
      var v;
      e, v := stacks.DsPop();
      if e != OK { return; }
      stacks.SetLocal(slot, v);
    }

    method TeeLocal(i: nat) returns (e: int)
      requires Valid()
      modifies stacks.RS
      ensures Valid() && Agrees(e, Abs(), Exec(Environment(), LocalTee(i), old(Abs())))
    {
      hide Wrap, ExecOutside, ExecData;
      var slot;
      e, slot := stacks.FindLocal(i);
      if e != OK { return; }
      var v;
      e, v := stacks.DsPeek(0);
      if e != OK { return; }
      stacks.SetLocal(slot, v);
    }

    method AddLocal(i: nat, d: int) returns (e: int)
      requires Valid()
      modifies stacks.RS
      ensures Valid() && Agrees(e, Abs(), Exec(Environment(), LocalAdd(i, d), old(Abs())))
    {
      hide Wrap, ExecOutside, ExecData;
      var slot;
      e, slot := stacks.FindLocal(i);
      if e != OK { return; }
      stacks.SetLocal(slot, Wrap(stacks.RS[slot] + d));
    }

    method SysCallOp() returns (e: int)
      requires Valid()
      modifies stacks`sp, stacks.DS, memory`io
      ensures Valid() && Agrees(e, Abs(), Exec(Environment(), Sys, old(Abs())))
    {
      hide ExecData, ExecReturnStack, Read, Write, Loaded;
      var id, a2, a1, a0;
      e, id, a2, a1, a0 := stacks.DsPop4();
      if e != OK { return; }
      var result: Cell := -1;
      match sys {
        case None =>
        case Some(handler) =>
          result := handler(memory.io, id, a0, a1, a2);
          memory.io := memory.io + [SysCall(id, a0, a1, a2)];
      }
      e := stacks.DsPush(result);
    }

    method BranchOp(c: Condition, off: int) returns (e: int, taken: bool)
      requires Valid()
      modifies stacks`sp
      ensures Valid()
      ensures var st := Exec(Environment(), Branch(c, off), old(Abs()));
        if st.Jump? then e == OK && taken && Abs() == st.s else !taken && Agrees(e, Abs(), st)
    {
      hide Alu, Arith.Unary, ExecOutside, ExecReturnStack;
      if c.Always? { return OK, true; }
      var cond;
      e, cond := stacks.DsPop();
      if e != OK { return e, false; }
      taken := if c.IfZero? then cond == 0 else cond != 0;
    }

    /** The switch, for every opcode but CALL and RET: taken says that the
        instruction is a jump to be made. */
    method Perform(a: Action) returns (e: int, taken: bool)
      requires Valid() && !a.Call? && !a.Return?
      requires a.LoadMem? || a.StoreMem? ==> a.width in {1, 2, 4}
      modifies stacks`sp, stacks`rp, stacks.DS, stacks.RS, memory`io, memory.mem
      ensures Valid()
      ensures var st := Exec(Environment(), a, old(Abs()));
        if st.Jump? then e == OK && taken && Abs() == st.s && a.Branch? && a.off == st.off
        else !taken && Agrees(e, Abs(), st)
    {
      BranchOffset(Environment(), a, Abs());
      hide Exec;
      taken := false;
      match a {
        case Push(k) => e := Literal(k);
        case Dup => e := DupOp();
        case Drop => e := DropOp();
        case Swap => e := SwapOp();
        case Over => e := OverOp();
        case Select => e := SelectOp();
        case Binary(op) => e := BinaryOp(op);
        case Unary(op) => e := UnaryOp(op);
        case LoadMem(width, signed) => e := Load(width, signed);
        case StoreMem(width) => e := StoreTo(width);
        case ToR => e := ToROp();
        case FromR => e := FromROp();
        case RFetch => e := RFetchOp();
        case LocalGet(i) => e := GetLocal(i);
        case LocalSet(i) => e := SetLocal(i);
        case LocalTee(i) => e := TeeLocal(i);
        case LocalAdd(i, d) => e := AddLocal(i, d);
        case Sys => e := SysCallOp();
        case Branch(c, off) => e, taken := BranchOp(c, off);
      }
    }

    /** How the error code and the final state report a run. */
    ghost predicate Reports(done: bool, e: int, s: State, r: Result)
    {
      && s == r.state
      && match r.status
         case OutOfFuel => !done
         case Returned => done && e == OK
         case Faulted(f) => done && e == Code(f)
    }

    /** vm_exec_raw with a bound on its depth; done is false when the bound is
        reached. */
    method ExecRaw(code: seq<Byte>, fuel: nat) returns (done: bool, e: int)
      requires Valid()
      modifies stacks`sp, stacks`rp, stacks`fp, stacks.DS, stacks.RS, memory`io, memory.mem
      ensures Valid()
      ensures Reports(done, e, Abs(), Run(Environment(), code, 0, old(Abs()), fuel))
      decreases fuel, 0
    {
      hide Fetch, ActionOf, Exec, RunAction;
      ghost var env, s0 := Environment(), Abs();
      var ip, left := 0, fuel;
      while ip < |code|
        invariant Valid() && 0 <= ip <= |code| && 0 <= left <= fuel && Environment() == env
        invariant SameEnd(Run(env, code, ip, Abs(), left), Run(env, code, 0, s0, fuel))
        decreases left
      {
        if left == 0 { return false, OK; }
        ghost var s := Abs();
        match Fetch(code, ip) {
          case TruncatedLit => return true, TRUNCATED_LITERAL;
          case TruncatedJmp => return true, TRUNCATED_JUMP;
          case BadOpcode => return true, UNKNOWN_OP;
          case Fetched(insn, next) =>
            var a := ActionOf(insn);
            if a.Return? {
              ReturnEndsRun(env, code, next, a, s, left);
              return true, OK;
            } else if a.Call? {
              CallUnfold(env, code, next, a.word, s, left);
              done, e := CallWord(a.word, left - 1);
              if !done || e != OK { return; }
              ip := next;
            } else {
              var taken;
              StepUnfold(env, code, next, a, s, left);
              e, taken := Perform(a);
              CodeNonzero(env, a, s);
              if e != OK { return true, e; }
              ip := next;
              if taken {
                if next + a.off < 0 || next + a.off > |code| { return true, JUMP_OUT_OF_RANGE; }
                ip := next + a.off;
              }
            }
        }
        left := left - 1;
      }
      return true, FELL_OFF_END;
    }

    method CallWord(w: nat, fuel: nat) returns (done: bool, e: int)
      requires Valid()
      modifies stacks`sp, stacks`rp, stacks`fp, stacks.DS, stacks.RS, memory`io, memory.mem
      ensures Valid()
      ensures var env, s := Environment(), old(Abs());
        if w >= |env.words| then done && e == INVALID_WORD_IDX && Abs() == s
        else if env.words[w].code == [] then done && e == INVALID_ARG && Abs() == s
        else
          var call := LeaveCall(s, Run(env, env.words[w].code, 0, EnterFrame(s), fuel));
          Reports(done, e, Abs(), call) && (done && e == OK <==> call.status.Returned?)
      decreases fuel, 1
    {
      hide Run;
      if w >= |dict.words| { return true, INVALID_WORD_IDX; }
      var code := dict.words[w].code;
      if code == [] { return true, INVALID_ARG; }
      var oldFp := stacks.fp;
      stacks.fp := Some(stacks.rp);
      RunSafe(Environment(), code, 0, Abs(), fuel);
      done, e := ExecRaw(code, fuel);
      stacks.fp := oldFp;
    }
  }

  predicate SameEnd(r: Result, r': Result)
  {
    r.status == r'.status && r.state == r'.state
  }

  /** An action that takes operands but no local: its underflow, or its group. */
  lemma ExecGroup(env: Env, a: Action, s: State)
    requires a.Unary? || a.LoadMem? || a.StoreMem?
    requires a.LoadMem? || a.StoreMem? ==> a.width in {1, 2, 4}
    ensures Exec(env, a, s) ==
      if |s.ds| < Pops(a) then Trap(DsUnderflow, s.(ds := []))
      else if a.Unary? then ExecData(a, s) else ExecOutside(env, a, s)
  {
    hide ExecData, ExecOutside, ExecReturnStack;
  }

  lemma CodeNonzero(env: Env, a: Action, s: State)
    requires !a.Call? && !a.Return? && (a.LoadMem? || a.StoreMem? ==> a.width in {1, 2, 4})
    requires InBounds(s)
    ensures Exec(env, a, s).Trap? ==> Code(Exec(env, a, s).fault) != OK
  {
    StepSafe(env, a, s);
  }
}
