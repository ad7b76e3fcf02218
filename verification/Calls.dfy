// What a CALL can touch, and a class of programs that always terminates.
module Calls {
  import opened Arith
  import opened Opcodes
  import opened Memory
  import opened Semantics
  import opened Runs

  // ------------------------------------------------------------ confinement

  lemma StepConfined(env: Env, a: Action, s: State, m: nat)
    requires !a.Call? && !a.Return? && (a.LoadMem? || a.StoreMem? ==> a.width in {1, 2, 4})
    requires m <= |s.rs| && m <= |Exec(env, a, s).s.rs|
    requires s.fp.Some? ==> m <= s.fp.value
    ensures Exec(env, a, s).s.rs[..m] == s.rs[..m]
    ensures Exec(env, a, s).s.fp == s.fp
  {
    hide Alu, Arith.Unary, Read, Write, Loaded, SysResult, ToU32, Wrap, PushDs;
    assert forall v :: (s.rs + [v])[..m] == s.rs[..m];
    PushKeepsReturnStack(s, a);
    if a.FromR? && s.rs != [] {
      assert Cut(s.rs, 1)[..m] == s.rs[..m];
    }
  }

  lemma PushKeepsReturnStack(s: State, a: Action)
    ensures forall t: State, v: Cell :: PushDs(t, v).s.rs == t.rs && PushDs(t, v).s.fp == t.fp
  {}

  /** A run leaves alone every return-stack slot below the least depth it
      reaches, if its own frame starts no lower. */
  lemma {:induction false} RunConfined(env: Env, code: seq<Byte>, ip: nat, s: State, fuel: nat, m: nat)
    requires ip <= |code| && InBounds(s)
    requires m <= Run(env, code, ip, s, fuel).low
    requires s.fp.Some? ==> m <= s.fp.value
    ensures var r := Run(env, code, ip, s, fuel);
      m <= |s.rs| && m <= |r.state.rs| && r.state.rs[..m] == s.rs[..m]
    decreases fuel
  {
    hide Fetch, ActionOf, Exec, RunAction;
    RunSafe(env, code, ip, s, fuel);
    if ip < |code| && fuel > 0 && Fetch(code, ip).Fetched? {
      var f := Fetch(code, ip);
      var a := ActionOf(f.insn);
      if a.Call? {
        RunConfinedCall(env, code, f.next, a.word, s, fuel, m);
      } else if a.Return? {
        ReturnEndsRun(env, code, f.next, a, s, fuel);
      } else {
        StepSafe(env, a, s);
        StepUnfold(env, code, f.next, a, s, fuel);
        var st := Exec(env, a, s);
        var to := if st.Jump? then f.next + st.off else f.next;
        if !st.Trap? && 0 <= to <= |code| {
          RunConfined(env, code, to, st.s, fuel - 1, m);
        }
        StepConfined(env, a, s, m);
      }
    }
  }

  lemma RunConfinedCall(env: Env, code: seq<Byte>, next: nat, w: nat, s: State, fuel: nat, m: nat)
    requires next <= |code| && InBounds(s) && fuel > 0
    requires m <= RunAction(env, code, next, Call(w), s, fuel).low
    requires s.fp.Some? ==> m <= s.fp.value
    ensures var r := RunAction(env, code, next, Call(w), s, fuel);
      m <= |s.rs| && m <= |r.state.rs| && r.state.rs[..m] == s.rs[..m]
    decreases fuel, 0
  {
    hide Fetch, ActionOf, Exec, Run;
    if w < |env.words| && env.words[w].code != [] {
      var body := env.words[w].code;
      RunSafe(env, body, 0, EnterFrame(s), fuel - 1);
      RunConfined(env, body, 0, EnterFrame(s), fuel - 1, m);
      var call := LeaveCall(s, Run(env, body, 0, EnterFrame(s), fuel - 1));
      if call.status.Returned? {
        RunConfined(env, code, next, call.state, fuel - 1, m);
      }
    }
  }

  /** Call confinement. However the called word ends, and whatever it calls and
      writes to its locals, the return stack is unchanged below the least depth
      reached during the call, and the caller's frame pointer is back. A word
      that never pops below its entry depth leaves the caller's whole stack. */
  lemma CallConfinement(env: Env, w: nat, s: State, fuel: nat)
    requires w < |env.words| && InBounds(s)
    ensures var call := LeaveCall(s, Run(env, env.words[w].code, 0, EnterFrame(s), fuel));
      && call.state.fp == s.fp && InBounds(call.state)
      && call.low <= |s.rs| && call.low <= |call.state.rs|
      && call.state.rs[..call.low] == s.rs[..call.low]
      && (call.low == |s.rs| ==> s.rs <= call.state.rs)
  {
    var r := Run(env, env.words[w].code, 0, EnterFrame(s), fuel);
    RunSafe(env, env.words[w].code, 0, EnterFrame(s), fuel);
    RunConfined(env, env.words[w].code, 0, EnterFrame(s), fuel, r.low);
  }

  // ------------------------------------------------------------ termination

  /** Code whose instructions begin at `starts`, whose jumps go forward, and
      which calls only words with index below n. */
  ghost predicate Forward(code: seq<Byte>, starts: set<nat>, n: nat)
  {
    && 0 in starts
    && forall ip :: ip in starts && ip < |code| && Fetch(code, ip).Fetched? ==>
      ForwardInsn(Fetch(code, ip).insn, Fetch(code, ip).next, |code|, starts, n)
  }

  ghost predicate ForwardInsn(i: Insn, next: nat, length: nat, starts: set<nat>, n: nat)
  {
    var a := ActionOf(i);
    && next in starts
    && (a.Branch? ==> 0 <= a.off && (next + a.off <= length ==> next + a.off in starts))
    && (a.Call? ==> a.word < n)
  }

  /** Every word jumps forward and calls only words registered before it. */
  ghost predicate ForwardProgram(env: Env, starts: seq<set<nat>>)
  {
    |starts| == |env.words| && forall w :: 0 <= w < |env.words| ==> Forward(env.words[w].code, starts[w], w)
  }

  /** Total length of the first n words. */
  function CodeBelow(env: Env, n: nat): nat
    requires n <= |env.words|
  {
    if n == 0 then 0 else |env.words[n - 1].code| + CodeBelow(env, n - 1)
  }

  lemma {:induction false} CodeBelowMonotone(env: Env, m: nat, n: nat)
    requires m <= n <= |env.words|
    ensures CodeBelow(env, m) <= CodeBelow(env, n)
    decreases n
  {
    if m < n { CodeBelowMonotone(env, m, n - 1); }
  }

  /** Termination: code that jumps forward and calls only earlier words of a
      forward program never needs more depth than the remaining bytes plus the
      length of the words it may call, whatever the stacks and the memory hold;
      and one activation executes at most one instruction per remaining byte. */
  lemma {:induction false} ForwardTerminates(
    env: Env, starts: seq<set<nat>>, code: seq<Byte>, here: set<nat>, n: nat, ip: nat, s: State, fuel: nat)
    requires ForwardProgram(env, starts) && n <= |env.words| && Forward(code, here, n)
    requires ip <= |code| && ip in here
    requires fuel >= |code| - ip + CodeBelow(env, n)
    ensures !Run(env, code, ip, s, fuel).status.OutOfFuel?
    ensures Run(env, code, ip, s, fuel).steps <= |code| - ip
    decreases fuel
  {
    hide Fetch, ActionOf, Exec, RunAction;
    if ip < |code| && Fetch(code, ip).Fetched? {
      var f := Fetch(code, ip);
      var a := ActionOf(f.insn);
      assert ForwardInsn(f.insn, f.next, |code|, here, n);
      if a.Call? {
        ForwardCallTerminates(env, starts, code, here, n, f.next, a.word, s, fuel);
      } else if a.Return? {
        ReturnEndsRun(env, code, f.next, a, s, fuel);
      } else {
        StepUnfold(env, code, f.next, a, s, fuel);
        BranchOffset(env, a, s);
        var st := Exec(env, a, s);
        var to := if st.Jump? then f.next + st.off else f.next;
        if !st.Trap? && to <= |code| {
          ForwardTerminates(env, starts, code, here, n, to, st.s, fuel - 1);
        }
      }
    }
  }

  lemma ForwardCallTerminates(
    env: Env, starts: seq<set<nat>>, code: seq<Byte>, here: set<nat>, n: nat, next: nat, w: nat, s: State, fuel: nat)
    requires ForwardProgram(env, starts) && n <= |env.words| && Forward(code, here, n)
    requires next <= |code| && next in here && w < n && fuel > 0
    requires fuel - 1 >= |code| - next + CodeBelow(env, n)
    ensures !RunAction(env, code, next, Call(w), s, fuel).status.OutOfFuel?
    ensures RunAction(env, code, next, Call(w), s, fuel).steps <= |code| - next + 1
    decreases fuel, 0
  {
    hide Fetch, ActionOf, Exec, Run;
    var body := env.words[w].code;
    if body != [] {
      CodeBelowMonotone(env, w + 1, n);
      ForwardTerminates(env, starts, body, starts[w], w, 0, EnterFrame(s), fuel - 1);
      var call := LeaveCall(s, Run(env, body, 0, EnterFrame(s), fuel - 1));
      if call.status.Returned? {
        ForwardTerminates(env, starts, code, here, n, next, call.state, fuel - 1);
      }
    }
  }
}
