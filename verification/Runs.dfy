// Properties of every run of bytecode, through every opcode and nested call.
module Runs {
  import opened Arith
  import opened Opcodes
  import opened Memory
  import opened Semantics

  // ------------------------------------------------------------ unfolding

  lemma ReturnEndsRun(env: Env, code: seq<Byte>, next: nat, a: Action, s: State, fuel: nat)
    requires next <= |code| && fuel > 0 && a.Return?
    ensures RunAction(env, code, next, a, s, fuel) == Stop(Returned, s, s, 1)
  {}

  /** What running a CALL amounts to. */
  lemma CallUnfold(env: Env, code: seq<Byte>, next: nat, w: nat, s: State, fuel: nat)
    requires next <= |code| && fuel > 0
    ensures RunAction(env, code, next, Call(w), s, fuel) ==
      if w >= |env.words| then Stop(Faulted(NoSuchWord), s, s, 1)
      else if env.words[w].code == [] then Stop(Faulted(EmptyWord), s, s, 1)
      else
        var call := LeaveCall(s, Run(env, env.words[w].code, 0, EnterFrame(s), fuel - 1));
        if !call.status.Returned? then call
        else AfterCall(call, Run(env, code, next, call.state, fuel - 1))
  {
    hide Exec, Run;
  }

  /** What running an ordinary instruction amounts to. */
  lemma StepUnfold(env: Env, code: seq<Byte>, next: nat, a: Action, s: State, fuel: nat)
    requires next <= |code| && fuel > 0
    requires !a.Call? && !a.Return? && (a.LoadMem? || a.StoreMem? ==> a.width in {1, 2, 4})
    ensures var st := Exec(env, a, s);
      var to := if st.Jump? then next + st.off else next;
      RunAction(env, code, next, a, s, fuel) ==
        if st.Trap? then Stop(Faulted(st.fault), s, st.s, 1)
        else if 0 <= to <= |code| then Then(s, Run(env, code, to, st.s, fuel - 1))
        else Stop(Faulted(JumpOutOfRange), s, st.s, 1)
  {
    hide Exec, Run;
  }

  /** Only branches jump, by their own offset. */
  lemma BranchOffset(env: Env, a: Action, s: State)
    requires !a.Call? && !a.Return? && (a.LoadMem? || a.StoreMem? ==> a.width in {1, 2, 4})
    ensures Exec(env, a, s).Jump? ==> a.Branch? && Exec(env, a, s).off == a.off
  {
    hide Alu, Arith.Unary, Read, Write, Loaded, SysResult, ToU32, Wrap;
  }

  // ------------------------------------------------------------ safety

  /** The stack pointers and the frame pointer stay inside their arrays. */
  predicate InBounds(s: State)
  {
    |s.ds| <= DS_SIZE && |s.rs| <= RS_SIZE && (s.fp.Some? ==> s.fp.value <= RS_SIZE)
  }

  lemma StepSafe(env: Env, a: Action, s: State)
    requires !a.Call? && !a.Return? && (a.LoadMem? || a.StoreMem? ==> a.width in {1, 2, 4})
    requires InBounds(s)
    ensures var s' := Exec(env, a, s).s;
      InBounds(s') && s'.fp == s.fp && s'.mem.ram.Some? == s.mem.ram.Some?
    ensures Exec(env, a, s).Trap? ==>
      |Exec(env, a, s).s.ds| <= |s.ds| && Code(Exec(env, a, s).fault) != 0
  {
    hide Alu, Arith.Unary, Read, Write, Loaded, SysResult, ToU32, Wrap, Top;
  }

  /** A run from s that kept to the arrays, put the frame pointer back, and has a
      nonzero code for its fault, if it has one. */
  ghost predicate EndsSafely(s: State, r: Result)
  {
    && InBounds(r.state) && r.state.fp == s.fp
    && |s.ds| <= r.peak <= DS_SIZE && |r.state.ds| <= r.peak
    && r.low <= |s.rs| && r.low <= |r.state.rs|
    && (r.status.Faulted? ==> Code(r.status.fault) != 0)
  }

  /** Safety: every run of any bytes stays in bounds, restores the frame pointer it
      started with however it ends, and never reports a fault as success. */
  lemma {:induction false} RunSafe(env: Env, code: seq<Byte>, ip: nat, s: State, fuel: nat)
    requires ip <= |code| && InBounds(s)
    ensures EndsSafely(s, Run(env, code, ip, s, fuel))
    decreases fuel
  {
    hide Fetch, ActionOf, Exec, RunAction;
    if ip < |code| && fuel > 0 && Fetch(code, ip).Fetched? {
      var f := Fetch(code, ip);
      var a := ActionOf(f.insn);
      if a.Call? {
        RunSafeCall(env, code, f.next, a.word, s, fuel);
      } else if a.Return? {
        ReturnEndsRun(env, code, f.next, a, s, fuel);
      } else {
        StepSafe(env, a, s);
        StepUnfold(env, code, f.next, a, s, fuel);
        var st := Exec(env, a, s);
        var to := if st.Jump? then f.next + st.off else f.next;
        if !st.Trap? && 0 <= to <= |code| {
          RunSafe(env, code, to, st.s, fuel - 1);
        }
      }
    }
  }

  lemma RunSafeCall(env: Env, code: seq<Byte>, next: nat, w: nat, s: State, fuel: nat)
    requires next <= |code| && InBounds(s) && fuel > 0
    ensures EndsSafely(s, RunAction(env, code, next, Call(w), s, fuel))
    decreases fuel, 0
  {
    hide Fetch, ActionOf, Exec, Run, RunAction;
    CallUnfold(env, code, next, w, s, fuel);
    if w < |env.words| && env.words[w].code != [] {
      var body := env.words[w].code;
      RunSafe(env, body, 0, EnterFrame(s), fuel - 1);
      var call := LeaveCall(s, Run(env, body, 0, EnterFrame(s), fuel - 1));
      if call.status.Returned? {
        RunSafe(env, code, next, call.state, fuel - 1);
      }
    }
  }

  // ------------------------------------------------------------ fuel

  /** Fuel decides only whether there is a result: two amounts that are both
      enough give the same one. */
  lemma {:induction false} FuelIsIrrelevant(env: Env, code: seq<Byte>, ip: nat, s: State, fuel: nat, more: nat)
    requires ip <= |code| && fuel <= more
    requires !Run(env, code, ip, s, fuel).status.OutOfFuel?
    ensures Run(env, code, ip, s, more) == Run(env, code, ip, s, fuel)
    decreases fuel
  {
    hide Fetch, ActionOf, Exec, RunAction;
    if ip < |code| && fuel > 0 && Fetch(code, ip).Fetched? {
      var f := Fetch(code, ip);
      var a := ActionOf(f.insn);
      if a.Call? {
        FuelIsIrrelevantCall(env, code, f.next, a.word, s, fuel, more);
      } else if a.Return? {
        ReturnEndsRun(env, code, f.next, a, s, fuel);
        ReturnEndsRun(env, code, f.next, a, s, more);
      } else {
        StepUnfold(env, code, f.next, a, s, fuel);
        StepUnfold(env, code, f.next, a, s, more);
        var st := Exec(env, a, s);
        var to := if st.Jump? then f.next + st.off else f.next;
        if !st.Trap? && 0 <= to <= |code| {
          FuelIsIrrelevant(env, code, to, st.s, fuel - 1, more - 1);
        }
      }
    }
  }

  lemma FuelIsIrrelevantCall(env: Env, code: seq<Byte>, next: nat, w: nat, s: State, fuel: nat, more: nat)
    requires next <= |code| && 0 < fuel <= more
    requires !RunAction(env, code, next, Call(w), s, fuel).status.OutOfFuel?
    ensures RunAction(env, code, next, Call(w), s, more) == RunAction(env, code, next, Call(w), s, fuel)
    decreases fuel, 0
  {
    hide Fetch, ActionOf, Exec, Run, RunAction;
    CallUnfold(env, code, next, w, s, fuel);
    CallUnfold(env, code, next, w, s, more);
    if w < |env.words| && env.words[w].code != [] {
      var body := env.words[w].code;
      FuelIsIrrelevant(env, body, 0, EnterFrame(s), fuel - 1, more - 1);
      var call := LeaveCall(s, Run(env, body, 0, EnterFrame(s), fuel - 1));
      if call.status.Returned? {
        FuelIsIrrelevant(env, code, next, call.state, fuel - 1, more - 1);
      }
    }
  }

  // ------------------------------------------------------------ frame rule

  /** s standing on top of the operands `under`. */
  function Above(under: seq<Cell>, s: State): State
  {
    s.(ds := under + s.ds)
  }

  function AboveStep(under: seq<Cell>, st: Step): Step
  {
    match st
    case Next(s) => Next(Above(under, s))
    case Jump(s, off) => Jump(Above(under, s), off)
    case Trap(f, s) => Trap(f, Above(under, s))
  }

  lemma TopCutAbove(under: seq<Cell>, ds: seq<Cell>)
    ensures forall i :: 0 <= i < |ds| ==> Top(under + ds, i) == Top(ds, i)
    ensures forall n :: 0 <= n <= |ds| ==> Cut(under + ds, n) == under + Cut(ds, n)
  {
    forall n | 0 <= n <= |ds|
      ensures Cut(under + ds, n) == under + Cut(ds, n)
    {
      assert (under + ds)[..|under| + |ds| - n] == under + ds[..|ds| - n];
    }
  }

  /** A step that finds its operands does the same with more below them. */
  lemma StepFrame(env: Env, a: Action, s: State, under: seq<Cell>)
    requires !a.Call? && !a.Return? && (a.LoadMem? || a.StoreMem? ==> a.width in {1, 2, 4})
    requires Exec(env, a, s) != Trap(DsUnderflow, Exec(env, a, s).s)
    requires |under| + |s.ds| <= DS_SIZE && |under| + |Exec(env, a, s).s.ds| <= DS_SIZE
    ensures Exec(env, a, Above(under, s)) == AboveStep(under, Exec(env, a, s))
  {
    hide Exec;
    if UsesReturnStack(a) {
      StepFrameReturnStack(env, a, s, under);
    } else if IsOutside(a) {
      StepFrameOutside(env, a, s, under);
    } else {
      StepFrameData(env, a, s, under);
    }
  }

  lemma StepFrameData(env: Env, a: Action, s: State, under: seq<Cell>)
    requires !a.Call? && !a.Return? && (a.LoadMem? || a.StoreMem? ==> a.width in {1, 2, 4})
    requires Exec(env, a, s) != Trap(DsUnderflow, Exec(env, a, s).s)
    requires |under| + |s.ds| <= DS_SIZE && |under| + |Exec(env, a, s).s.ds| <= DS_SIZE
    requires !IsOutside(a) && !UsesReturnStack(a)
    ensures Exec(env, a, Above(under, s)) == AboveStep(under, Exec(env, a, s))
  {
    hide Alu, Arith.Unary;
    TopCutAbove(under, s.ds);
    assert |s.ds| >= Pops(a);
    var ds := Cut(s.ds, Pops(a));
    match a {
      case Push(k) => OnTop(under, s.ds, [k]);
      case Dup => OnTop(under, s.ds, [Top(s.ds, 0)]);
      case Over => OnTop(under, s.ds, [Top(s.ds, 1)]);
      case Swap => OnTop(under, ds, [Top(s.ds, 0), Top(s.ds, 1)]);
      case Select => OnTop(under, ds, [if Top(s.ds, 2) != 0 then Top(s.ds, 0) else Top(s.ds, 1)]);
      case Unary(op) => OnTop(under, ds, [Arith.Unary(op, Top(s.ds, 0))]);
      case Binary(op) =>
        var v := Alu(op, Top(s.ds, 1), Top(s.ds, 0));
        if v.Some? { OnTop(under, ds, [v.value]); }
      case _ =>
    }
  }

  lemma StepFrameOutside(env: Env, a: Action, s: State, under: seq<Cell>)
    requires !a.Call? && !a.Return? && (a.LoadMem? || a.StoreMem? ==> a.width in {1, 2, 4})
    requires Exec(env, a, s) != Trap(DsUnderflow, Exec(env, a, s).s)
    requires |under| + |s.ds| <= DS_SIZE && |under| + |Exec(env, a, s).s.ds| <= DS_SIZE
    requires IsOutside(a)
    ensures Exec(env, a, Above(under, s)) == AboveStep(under, Exec(env, a, s))
  {
    hide Read, Write, Loaded, SysResult, ToU32;
    TopCutAbove(under, s.ds);
    assert |s.ds| >= Pops(a);
    var ds := Cut(s.ds, Pops(a));
    match a {
      case LoadMem(width, signed) =>
        OnTop(under, ds, [Loaded(Read(env.mmio, s.mem, ToU32(Top(s.ds, 0)), width).val, width, signed)]);
      case StoreMem(_) =>
      case Sys =>
        OnTop(under, ds, [SysResult(env, s.mem.io, Top(s.ds, 0), Top(s.ds, 3), Top(s.ds, 2), Top(s.ds, 1)).0]);
    }
  }

  lemma StepFrameReturnStack(env: Env, a: Action, s: State, under: seq<Cell>)
    requires !a.Call? && !a.Return? && (a.LoadMem? || a.StoreMem? ==> a.width in {1, 2, 4})
    requires Exec(env, a, s) != Trap(DsUnderflow, Exec(env, a, s).s)
    requires |under| + |s.ds| <= DS_SIZE && |under| + |Exec(env, a, s).s.ds| <= DS_SIZE
    requires UsesReturnStack(a)
    ensures Exec(env, a, Above(under, s)) == AboveStep(under, Exec(env, a, s))
  {
    hide Wrap, Alu, Arith.Unary, Read, Write, Loaded, SysResult, ToU32;
    if UsesLocal(a) {
      StepFrameLocal(env, a, s, under);
    } else {
      TopCutAbove(under, s.ds);
      if s.rs != [] { OnTop(under, s.ds, [Top(s.rs, 0)]); }
    }
  }

  lemma StepFrameLocal(env: Env, a: Action, s: State, under: seq<Cell>)
    requires UsesLocal(a)
    requires Exec(env, a, s) != Trap(DsUnderflow, Exec(env, a, s).s)
    requires |under| + |s.ds| <= DS_SIZE && |under| + |Exec(env, a, s).s.ds| <= DS_SIZE
    ensures Exec(env, a, Above(under, s)) == AboveStep(under, Exec(env, a, s))
  {
    hide Wrap, Alu, Arith.Unary, Read, Write, Loaded, SysResult, ToU32;
    TopCutAbove(under, s.ds);
    if s.fp.Some? && s.fp.value + a.idx < |s.rs| {
      OnTop(under, s.ds, [s.rs[s.fp.value + a.idx]]);
    }
  }

  lemma OnTop(under: seq<Cell>, ds: seq<Cell>, more: seq<Cell>)
    ensures (under + ds) + more == under + (ds + more)
  {}

  predicate Framed(r: Result, r': Result, under: seq<Cell>)
  {
    && r'.status == r.status && r'.state == Above(under, r.state)
    && r'.low == r.low && r'.steps == r.steps && r'.peak == |under| + r.peak
  }

  /** Data-stack frame rule. A run that never asks for operands below its stack
      does the same on top of any others, as long as its greatest depth leaves
      room for them: same status, same return stack, frame pointer, RAM and host
      calls, and the operands below come out untouched. */
  lemma {:induction false} FrameRule(env: Env, code: seq<Byte>, ip: nat, s: State, fuel: nat, under: seq<Cell>)
    requires ip <= |code| && InBounds(s)
    requires Run(env, code, ip, s, fuel).status != Faulted(DsUnderflow)
    requires |under| + Run(env, code, ip, s, fuel).peak <= DS_SIZE
    ensures Framed(Run(env, code, ip, s, fuel), Run(env, code, ip, Above(under, s), fuel), under)
    decreases fuel
  {
    hide Fetch, ActionOf, Exec, RunAction;
    if ip < |code| && fuel > 0 && Fetch(code, ip).Fetched? {
      var f := Fetch(code, ip);
      var a := ActionOf(f.insn);
      if a.Call? {
        FrameRuleCall(env, code, f.next, a.word, s, fuel, under);
      } else if a.Return? {
        ReturnEndsRun(env, code, f.next, a, s, fuel);
        ReturnEndsRun(env, code, f.next, a, Above(under, s), fuel);
      } else {
        FrameRuleStep(env, code, f.next, a, s, fuel, under);
      }
    }
  }

  lemma FrameRuleStep(env: Env, code: seq<Byte>, next: nat, a: Action, s: State, fuel: nat, under: seq<Cell>)
    requires next <= |code| && InBounds(s) && fuel > 0
    requires !a.Call? && !a.Return? && (a.LoadMem? || a.StoreMem? ==> a.width in {1, 2, 4})
    requires RunAction(env, code, next, a, s, fuel).status != Faulted(DsUnderflow)
    requires |under| + RunAction(env, code, next, a, s, fuel).peak <= DS_SIZE
    ensures Framed(RunAction(env, code, next, a, s, fuel), RunAction(env, code, next, a, Above(under, s), fuel), under)
    decreases fuel, 0
  {
    hide Fetch, ActionOf, Exec, Run, RunAction;
    StepSafe(env, a, s);
    StepUnfold(env, code, next, a, s, fuel);
    StepUnfold(env, code, next, a, Above(under, s), fuel);
    var st := Exec(env, a, s);
    var to := if st.Jump? then next + st.off else next;
    if !st.Trap? && 0 <= to <= |code| {
      RunSafe(env, code, to, st.s, fuel - 1);
      StepFrame(env, a, s, under);
      FrameRule(env, code, to, st.s, fuel - 1, under);
    } else {
      StepFrame(env, a, s, under);
    }
  }

  lemma FrameRuleCall(env: Env, code: seq<Byte>, next: nat, w: nat, s: State, fuel: nat, under: seq<Cell>)
    requires next <= |code| && InBounds(s) && fuel > 0
    requires RunAction(env, code, next, Call(w), s, fuel).status != Faulted(DsUnderflow)
    requires |under| + RunAction(env, code, next, Call(w), s, fuel).peak <= DS_SIZE
    ensures Framed(RunAction(env, code, next, Call(w), s, fuel),
                   RunAction(env, code, next, Call(w), Above(under, s), fuel), under)
    decreases fuel, 0
  {
    hide Fetch, ActionOf, Exec, Run;
    if w < |env.words| && env.words[w].code != [] {
      var body := env.words[w].code;
      RunSafe(env, body, 0, EnterFrame(s), fuel - 1);
      FrameRule(env, body, 0, EnterFrame(s), fuel - 1, under);
      var call := LeaveCall(s, Run(env, body, 0, EnterFrame(s), fuel - 1));
      if call.status.Returned? {
        RunSafe(env, code, next, call.state, fuel - 1);
        FrameRule(env, code, next, call.state, fuel - 1, under);
      }
    }
  }
}
