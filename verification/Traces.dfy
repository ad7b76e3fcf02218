// The states a run goes through, nested calls included, and what the depths kept
// in its result say about them.
module Traces {
  import opened Arith
  import opened Memory
  import opened Opcodes
  import opened Semantics
  import opened Runs

  /** The states in which the instructions of the run begin, nested calls
      included, and those in which it or a call of it ends. */
  ghost function Trace(env: Env, code: seq<Byte>, ip: nat, s: State, fuel: nat): seq<State>
    requires ip <= |code|
    decreases fuel
  {
    if ip == |code| || fuel == 0 || !Fetch(code, ip).Fetched? then [s]
    else
      var f := Fetch(code, ip);
      var a := ActionOf(f.insn);
      if a.Return? then [s]
      else if a.Call? then
        if a.word >= |env.words| || env.words[a.word].code == [] then [s]
        else
          var body, inside := env.words[a.word].code, s.(fp := Some(|s.rs|));
          var called := Run(env, body, 0, inside, fuel - 1);
          [s] + Trace(env, body, 0, inside, fuel - 1) +
            if called.status.Returned? then Trace(env, code, f.next, called.state.(fp := s.fp), fuel - 1) else []
      else
        var st := Exec(env, a, s);
        var to := if st.Jump? then f.next + st.off else f.next;
        if !st.Trap? && 0 <= to <= |code| then [s] + Trace(env, code, to, st.s, fuel - 1) else [s, st.s]
  }

  /** low is the least return-stack depth of these states, peak the greatest
      data-stack depth, and both are reached. */
  ghost predicate Bounds(t: seq<State>, low: nat, peak: nat)
  {
    && (forall i :: 0 <= i < |t| ==> low <= |t[i].rs| && |t[i].ds| <= peak)
    && (exists i :: 0 <= i < |t| && |t[i].rs| == low)
    && (exists i :: 0 <= i < |t| && |t[i].ds| == peak)
  }

  lemma BoundsOfAppend(a: seq<State>, b: seq<State>, low: nat, peak: nat, low': nat, peak': nat)
    requires Bounds(a, low, peak) && Bounds(b, low', peak')
    ensures Bounds(a + b, Min(low, low'), Max(peak, peak'))
  {
    var t := a + b;
    var i :| 0 <= i < |a| && |a[i].rs| == low;
    var j :| 0 <= j < |a| && |a[j].ds| == peak;
    var m :| 0 <= m < |b| && |b[m].rs| == low';
    var n :| 0 <= n < |b| && |b[n].ds| == peak';
    assert t[i] == a[i] && t[j] == a[j] && t[|a| + m] == b[m] && t[|a| + n] == b[n];
  }

  lemma BoundsOfOne(s: State)
    ensures Bounds([s], |s.rs|, |s.ds|)
  {
    assert [s][0] == s;
  }

  /** The depths in a result are those of its trace: the least return-stack depth
      and the greatest data-stack depth that any state of the run has. */
  lemma {:induction false} DepthsAreReached(env: Env, code: seq<Byte>, ip: nat, s: State, fuel: nat)
    requires ip <= |code|
    ensures var r := Run(env, code, ip, s, fuel); Bounds(Trace(env, code, ip, s, fuel), r.low, r.peak)
    decreases fuel, 1
  {
    hide Fetch, ActionOf, Exec, RunAction, Bounds;
    BoundsOfOne(s);
    if ip < |code| && fuel > 0 && Fetch(code, ip).Fetched? {
      var f := Fetch(code, ip);
      var a := ActionOf(f.insn);
      if a.Call? {
        CallDepths(env, code, ip, s, fuel);
      } else if a.Return? {
        ReturnEndsRun(env, code, f.next, a, s, fuel);
      } else {
        StepUnfold(env, code, f.next, a, s, fuel);
        var st := Exec(env, a, s);
        var to := if st.Jump? then f.next + st.off else f.next;
        if !st.Trap? && 0 <= to <= |code| {
          var rest := Run(env, code, to, st.s, fuel - 1);
          DepthsAreReached(env, code, to, st.s, fuel - 1);
          BoundsOfAppend([s], Trace(env, code, to, st.s, fuel - 1), |s.rs|, |s.ds|, rest.low, rest.peak);
        } else {
          BoundsOfOne(st.s);
          BoundsOfAppend([s], [st.s], |s.rs|, |s.ds|, |st.s.rs|, |st.s.ds|);
          assert [s] + [st.s] == [s, st.s];
        }
      }
    }
  }

  lemma CallDepths(env: Env, code: seq<Byte>, ip: nat, s: State, fuel: nat)
    requires ip < |code| && fuel > 0 && Fetch(code, ip).Fetched? && ActionOf(Fetch(code, ip).insn).Call?
    ensures var r := Run(env, code, ip, s, fuel); Bounds(Trace(env, code, ip, s, fuel), r.low, r.peak)
    decreases fuel, 0
  {
    hide Fetch, ActionOf, Exec, RunAction, Bounds;
    BoundsOfOne(s);
    var f := Fetch(code, ip);
    var w := ActionOf(f.insn).word;
    CallUnfold(env, code, f.next, w, s, fuel);
    if w < |env.words| && env.words[w].code != [] {
      var body, inside := env.words[w].code, EnterFrame(s);
      var called := Run(env, body, 0, inside, fuel - 1);
      var call := LeaveCall(s, called);
      var inner := Trace(env, body, 0, inside, fuel - 1);
      DepthsAreReached(env, body, 0, inside, fuel - 1);
      BoundsOfAppend([s], inner, |s.rs|, |s.ds|, called.low, called.peak);
      if called.status.Returned? {
        var rest := Run(env, code, f.next, call.state, fuel - 1);
        DepthsAreReached(env, code, f.next, call.state, fuel - 1);
        BoundsOfAppend([s] + inner, Trace(env, code, f.next, call.state, fuel - 1),
          call.low, call.peak, rest.low, rest.peak);
      } else {
        assert [s] + inner + [] == [s] + inner;
      }
    }
  }
}
