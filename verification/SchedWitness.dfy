// Runs from initialisation in which the scheduler departs from its evident
// intent: a stack copied past its block, and stacks or sleep cut short.
module SchedWitness {
  import opened Arith
  import opened TaskModel
  import opened SchedSelect
  import opened SchedRuns
  import opened SchedSafety
  import opened SchedFits
  import opened SchedSwitch

  /** The spawn of a task of priority 1 with a data stack of `size` cells. */
  function Worker(size: U16): (e: Event)
    requires size > 0
    ensures Legal(e)
  {
    Spawn(0, 1, 1, size, 0, Some(seq(size, _ => 0)), Some(seq(64, _ => 0)))
  }

  /** Slots 0 to n - 1 hold workers with `size` cells, the others are dead, and no
      copy has passed the end of a block. */
  ghost predicate Crowd(s: Kernel, n: nat, size: nat)
  {
    && WellFormed(s) && Owned(s) && Fits(s) && !s.overrun && n <= MAX_TASKS
    && (forall i :: 0 <= i < n ==>
      && HasBoth(s.tasks[i]) && !s.tasks[i].state.Dead? && s.tasks[i].priority == 1
      && |Block(s.heap, s.tasks[i].dsBase)| == size && |Block(s.heap, s.tasks[i].rsBase)| == RS_SIZE)
    && (forall i :: n <= i < MAX_TASKS ==> s.tasks[i].state.Dead?)
  }

  lemma InitCrowd(vm: Registers, timeSlice: U32, size: nat)
    requires ValidRegisters(vm)
    ensures Crowd(Init(vm, timeSlice), 0, size)
  {
    hide Fits, Owned;
    InitFits(vm, timeSlice);
    InitOwned(vm, timeSlice);
  }

  lemma SpawnCrowd(s: Kernel, n: nat, size: U16)
    requires Crowd(s, n, size) && n < MAX_TASKS && size > 0
    ensures var r := Step(s, Worker(size));
      && Crowd(r, n + 1, size) && Holds(r, n, [], []) && r.tasks[n].state.Ready?
      && r.tasks == s.tasks[n := r.tasks[n]] && r.current == s.current && r.vm == s.vm
  {
    hide Fits, Owned, FirstDead, Schedule;
    var e := Worker(size);
    var (id, r) := SpawnTask(s, e);
    StepOverrunIff(s, e);
    StepOwned(s, e);
    SpawnOutcome(s, e);
    assert s.tasks[n].state.Dead? && !NoneDead(s.tasks);
    var k: nat := id;
    if k > n { DeadWithin(s.tasks, n, k); }
    forall i | 0 <= i < n
      ensures r.tasks[i] == s.tasks[i] && |Block(r.heap, s.tasks[i].dsBase)| == size
      ensures |Block(r.heap, s.tasks[i].rsBase)| == RS_SIZE
    {
      SpawnKeepsOther(s, e, i);
    }
    OwnedBlock(r, n);
  }

  lemma DeadWithin(tasks: seq<Task>, n: nat, k: nat)
    requires n < k <= |tasks| && tasks[n].state.Dead?
    ensures !NoneDead(tasks[..k])
  {
    assert tasks[..k][n] == tasks[n];
  }

  /** Every worker can run at the given tick. */
  predicate Due(s: Kernel, n: nat, tick: U32)
    requires WellFormed(s) && n <= MAX_TASKS
  {
    forall i :: 0 <= i < n ==>
      Runnable(s.tasks[i]) || (s.tasks[i].state.Blocked? && s.tasks[i].sleepUntil <= tick)
  }

  function NextOf(current: nat, n: nat): nat { if current + 1 < n then current + 1 else 0 }

  /** Among n runnable tasks of priority 1 in the first slots, the next slot is chosen. */
  lemma RoundRobin(tasks: seq<Task>, current: nat, n: nat)
    requires |tasks| == MAX_TASKS && current < n <= MAX_TASKS
    requires forall i :: 0 <= i < n ==> Runnable(tasks[i]) && tasks[i].priority == 1
    requires forall i :: n <= i < MAX_TASKS ==> tasks[i].state.Dead?
    ensures Selected(tasks, current) == NextOf(current, n)
  {
    hide Choice;
    assert IsSelection(tasks, current, NextOf(current, n));
    SelectionUnique(tasks, current, NextOf(current, n));
  }

  /** What selection sees of workers that can all run. */
  lemma DueCandidates(s: Kernel, n: nat, tick: U32)
    requires WellFormed(s) && s.current < n <= MAX_TASKS && Due(s, n, tick)
    requires forall i :: 0 <= i < n ==> s.tasks[i].priority == 1
    requires forall i :: n <= i < MAX_TASKS ==> s.tasks[i].state.Dead?
    ensures var c := Candidates(s, tick);
      && (forall i :: 0 <= i < n ==> Runnable(c[i]) && c[i].priority == 1)
      && (forall i :: n <= i < MAX_TASKS ==> c[i].state.Dead?)
  {
    hide Park, Candidates;
    ParkEffect(s);
    forall i | 0 <= i < MAX_TASKS
      ensures Candidates(s, tick)[i] == WakeTask(Park(s).tasks[i], tick)
    {
      CandidateEffect(s, tick, i);
    }
  }

  lemma YieldTurns(s: Kernel, n: nat, tick: U32)
    requires WellFormed(s) && s.current < n <= MAX_TASKS && Due(s, n, tick)
    requires forall i :: 0 <= i < n ==> s.tasks[i].priority == 1
    requires forall i :: n <= i < MAX_TASKS ==> s.tasks[i].state.Dead?
    ensures var r := Schedule(s, tick);
      && r.current == NextOf(s.current, n) && r.tasks[r.current].state.Running?
      && (forall i :: 0 <= i < n ==> Runnable(r.tasks[i]) && r.tasks[i].priority == 1)
      && (forall i :: n <= i < MAX_TASKS ==> r.tasks[i].state.Dead?)
  {
    hide Schedule, Park, Candidates, Selected, Stays, Due, Restore, Overruns;
    DueCandidates(s, n, tick);
    RoundRobin(Candidates(s, tick), s.current, n);
    ScheduleEffect(s, tick);
  }

  /** A yield among workers that can all run passes the turn to the next slot. */
  lemma YieldCrowd(s: Kernel, n: nat, size: nat, tick: U32)
    requires Crowd(s, n, size) && s.current < n && Due(s, n, tick) && SaveFits(s)
    ensures var r := Step(s, Yield(tick));
      && Crowd(r, n, size) && (forall i :: 0 <= i < n ==> Runnable(r.tasks[i]))
      && r.current == NextOf(s.current, n) && r.tasks[r.current].state.Running?
  {
    hide Fits, Owned, Schedule, SaveFits, Block;
    var e := Yield(tick);
    var r := Step(s, e);
    StepOverrunIff(s, e);
    StepOwned(s, e);
    YieldTurns(s, n, tick);
    forall i | 0 <= i < n
      ensures HasBoth(r.tasks[i])
      ensures |Block(r.heap, r.tasks[i].dsBase)| == size && |Block(r.heap, r.tasks[i].rsBase)| == RS_SIZE
    {
      StepKeepsSizes(s, e, i);
    }
  }

  lemma TouchCrowd(s: Kernel, n: nat, size: nat, regs: Registers)
    requires Crowd(s, n, size) && ValidRegisters(regs)
    ensures Step(s, Touch(regs)) == s.(vm := regs) && Crowd(s.(vm := regs), n, size)
  {
    hide Schedule, SpawnTask, BuryFrom, OwnedBy, DepthFits, Block;
  }

  /** Blocks of 256 and 64 cells hold any stacks. */
  lemma DefaultSizesFit(s: Kernel, n: nat)
    requires Crowd(s, n, 256) && s.current < n
    ensures SaveFits(s)
  {}

  // ------------------------------------------------------------ the runs

  /** Two workers, and a yield that lets the second run. */
  function Prologue(tick: U32): seq<Event> { [Worker(256), Worker(256), Yield(tick)] }

  lemma TwoWorkers(vm: Registers, tick: U32) returns (s: Kernel)
    requires ValidRegisters(vm)
    ensures s == Run(Init(vm, 10), Prologue(tick))
    ensures Crowd(s, 2, 256) && s.current == 1 && s.tasks[1].state.Running? && s.tasks[0].state.Ready?
    ensures OnlyCurrentRuns(s) && Holds(s, 1, [], [])
  {
    hide Crowd, Holds, Step, Due, OnlyCurrentRuns;
    var a := Init(vm, 10);
    InitCrowd(vm, 10, 256);
    SpawnCrowd(a, 0, 256);
    var b := Step(a, Worker(256));
    SpawnCrowd(b, 1, 256);
    var c := Step(b, Worker(256));
    FreshWorkers(c);
    DefaultSizesFit(c, 2);
    YieldCrowd(c, 2, 256, tick);
    YieldHolds(c, tick);
    s := Step(c, Yield(tick));
    RunThree(a, Worker(256), Worker(256), Yield(tick));
    InitRunsNone(vm, 10);
    RunningIsCurrent(a, Prologue(tick));
    OtherIsReady(s);
  }

  lemma FreshWorkers(c: Kernel)
    requires Crowd(c, 2, 256) && c.tasks[0].state.Ready? && c.tasks[1].state.Ready?
    ensures forall tick: U32 :: Due(c, 2, tick)
  {}

  lemma OtherIsReady(s: Kernel)
    requires WellFormed(s) && Runnable(s.tasks[0]) && s.current == 1 && OnlyCurrentRuns(s)
    ensures s.tasks[0].state.Ready?
  {}

  lemma YieldHolds(c: Kernel, tick: U32)
    requires Crowd(c, 2, 256) && c.current == 0 && Holds(c, 1, [], [])
    ensures Holds(Step(c, Yield(tick)), 1, [], [])
  {
    hide Schedule, Holds, Park;
    ParkHoldsOther(c, 1, [], []);
    ScheduleHolds(c, tick, 1, [], []);
  }

  lemma RunTwo(s: Kernel, a: Event, b: Event)
    requires WellFormed(s) && Legal(a) && Legal(b)
    ensures Run(s, [a, b]) == Step(Step(s, a), b)
  {
    hide Step;
    assert [a, b][1..] == [b];
    assert Run(Step(s, a), [b]) == Run(Step(Step(s, a), b), []);
  }

  lemma RunThree(s: Kernel, a: Event, b: Event, c: Event)
    requires WellFormed(s) && Legal(a) && Legal(b) && Legal(c)
    ensures Run(s, [a, b, c]) == Step(Step(Step(s, a), b), c)
  {
    hide Step;
    assert [a, b, c][1..] == [b, c];
    RunTwo(Step(s, a), b, c);
  }

  /** One task, spawned with a data stack of one cell, yields at a depth of 200:
      the yield copies 200 cells into its block of one. */
  lemma OverrunWitness(vm: Registers, regs: Registers, tick: U32)
    requires ValidRegisters(vm) && ValidRegisters(regs) && regs.sp == 200
    ensures var s := Run(Init(vm, 10), [Worker(1), Yield(tick), Touch(regs)]);
      && s.current == 0 && s.tasks[0].state.Running? && |Block(s.heap, s.tasks[0].dsBase)| == 1
      && !s.overrun && Step(s, Yield(tick)).overrun
  {
    hide Step, Fits, Owned, Due, Block;
    var a := Init(vm, 10);
    InitCrowd(vm, 10, 1);
    SpawnCrowd(a, 0, 1);
    var b := Step(a, Worker(1));
    NotYetRunning(b);
    YieldCrowd(b, 1, 1, tick);
    var c := Step(b, Yield(tick));
    TouchCrowd(c, 1, 1, regs);
    RunThree(a, Worker(1), Yield(tick), Touch(regs));
    var s := Step(c, Touch(regs));
    StepOverrunIff(s, Yield(tick));
    DoesNotFit(s);
  }

  lemma NotYetRunning(s: Kernel)
    requires WellFormed(s) && s.current == 0 && s.tasks[0].state.Ready?
    ensures SaveFits(s) && forall tick: U32 :: Due(s, 1, tick)
  {}

  lemma DoesNotFit(s: Kernel)
    requires WellFormed(s) && s.tasks[s.current].state.Running? && s.tasks[s.current].dsBase.Some?
    requires |Block(s.heap, s.tasks[s.current].dsBase)| == 1 && s.vm.sp == 200
    ensures !SaveFits(s)
  {}

  /** A task with a full data stack yields to another, and when that one yields
      back its data stack is empty; its return stack is what it was. */
  lemma FullStackWitness(vm: Registers, regs: Registers, tick: U32)
    requires ValidRegisters(vm) && ValidRegisters(regs) && regs.sp == DS_SIZE
    ensures var s := Step(Run(Init(vm, 10), Prologue(tick)), Touch(regs));
      var r := Run(s, [Yield(tick), Yield(tick)]);
      && s.current == 1 && s.tasks[1].state.Running? && s.vm == regs && Step(s, Yield(tick)).current == 0
      && r.current == 1 && !r.overrun && StacksAre(r.vm, [], regs.RS[..regs.rp])
  {
    hide Step, Fits, Owned, Due, Block, StacksAre, Holds, OnlyCurrentRuns;
    var a := TwoWorkers(vm, tick);
    TouchCrowd(a, 2, 256, regs);
    var s := Step(a, Touch(regs));
    BothDue(s, tick);
    DefaultSizesFit(s, 2);
    YieldCrowd(s, 2, 256, tick);
    var t := Step(s, Yield(tick));
    BothDue(t, tick);
    DefaultSizesFit(t, 2);
    YieldCrowd(t, 2, 256, tick);
    BackAfterOne(t, Yield(tick), 1);
    YieldIsSchedule(s, tick);
    ContextSwitch(s, tick, [Yield(tick)]);
    RunTwo(s, Yield(tick), Yield(tick));
    assert s.vm.DS[..s.vm.sp % M8] == [];
  }

  lemma BothDue(s: Kernel, tick: U32)
    requires Crowd(s, 2, 256) && Runnable(s.tasks[0]) && Runnable(s.tasks[1])
    ensures Due(s, 2, tick)
  {}

  lemma YieldIsSchedule(s: Kernel, tick: U32)
    requires WellFormed(s)
    ensures Step(s, Yield(tick)) == Schedule(s, tick)
  {
    hide Schedule;
  }

  lemma BackAfterOne(s: Kernel, e: Event, k: nat)
    requires WellFormed(s) && Legal(e) && !e.Cleanup? && s.current != k && Step(s, e).current == k
    ensures AwayUntilBack(s, [e], k) && Run(s, [e]) == Step(s, e)
  {
    hide Step;
    assert [e][1..] == [] && Run(Step(s, e), []) == Step(s, e);
  }

  /** A task pushes on its empty stacks and sleeps; when it is dispatched again,
      its deadline reached, they are empty. */
  lemma SleepWitness(vm: Registers, regs: Registers)
    requires ValidRegisters(vm) && ValidRegisters(regs) && regs.sp > 0
    ensures var s := Step(Run(Init(vm, 10), Prologue(0)), Touch(regs));
      var r := Run(s, [Sleep(0, 5, 0), Yield(5)]);
      && s.current == 1 && s.tasks[1].state.Running? && s.vm == regs
      && Asleep(Step(s, Sleep(0, 5, 0)), 1, 5)
      && r.current == 1 && !r.overrun && StacksAre(r.vm, [], [])
  {
    hide Step, Fits, Owned, Due, Block, StacksAre, Holds, OnlyCurrentRuns, FindsTask, Asleep;
    var a := TwoWorkers(vm, 0);
    TouchCrowd(a, 2, 256, regs);
    var s := Step(a, Touch(regs));
    HoldsTransfer(a, s, 1, [], []);
    FallsAsleep(s);
    var t := Step(s, Sleep(0, 5, 0));
    DefaultSizesFit(t, 2);
    YieldCrowd(t, 2, 256, 5);
    BackAfterOne(t, Yield(5), 1);
    SleepKeepsOnlySavedStacks(s, 0, 5, 0, [Yield(5)], [], []);
    RunTwo(s, Sleep(0, 5, 0), Yield(5));
  }

  lemma FallsAsleep(s: Kernel)
    requires Crowd(s, 2, 256) && s.current == 1 && s.tasks[0].state.Ready?
    ensures var r := Step(s, Sleep(0, 5, 0));
      Crowd(r, 2, 256) && r.current == 0 && Asleep(r, 1, 5) && Due(r, 2, 5)
  {
    hide Fits, Owned, Schedule, Block, BeforeDispatch;
    var e := Sleep(0, 5, 0);
    var r := Step(s, e);
    StepOverrunIff(s, e);
    StepOwned(s, e);
    OtherRuns(s);
    forall i | 0 <= i < 2
      ensures HasBoth(r.tasks[i])
      ensures |Block(r.heap, r.tasks[i].dsBase)| == 256 && |Block(r.heap, r.tasks[i].rsBase)| == RS_SIZE
    {
      StepKeepsSizes(s, e, i);
    }
  }

  /** The sleep of the second of two workers dispatches the first. */
  lemma OtherRuns(s: Kernel)
    requires WellFormed(s) && s.current == 1
    requires s.tasks[0].state.Ready? && s.tasks[0].priority == 1 && s.tasks[1].priority == 1
    requires forall i :: 2 <= i < MAX_TASKS ==> s.tasks[i].state.Dead?
    ensures var r := Step(s, Sleep(0, 5, 0));
      && r.current == 0 && r.tasks[0].state.Running? && Asleep(r, 1, 5)
      && r.tasks[0].priority == 1 && r.tasks[1].priority == 1
      && (forall i :: 2 <= i < MAX_TASKS ==> r.tasks[i].state.Dead?)
  {
    hide Schedule, Candidates, Park, Restore, Overruns, TopSet, Stays, Dispatched, IsSelection;
    var e := Sleep(0, 5, 0);
    var (before, tick) := BeforeDispatch(s, e).value;
    var c := Candidates(before, tick);
    forall i | 0 <= i < MAX_TASKS
      ensures c[i] == before.tasks[i]
    {
      CandidateEffect(before, tick, i);
      ParkEffect(before);
    }
    assert Runnable(c[0]) && c[0].priority > 0;
    FallbackKeepsCurrent(before, tick);
    SelectedRuns(c, 1, Schedule(before, tick).current);
    ScheduleEffect(before, tick);
  }

  lemma SelectedRuns(tasks: seq<Task>, current: nat, k: nat)
    requires |tasks| == MAX_TASKS && current < MAX_TASKS && IsSelection(tasks, current, k)
    ensures k < MAX_TASKS && Runnable(tasks[k])
  {}

  /** A sleep whose deadline is already reached: a task alone pushes on its empty
      stacks, sleeps for 0 ms, is picked again awake and keeps what it pushed. */
  lemma AwakeAtOnceWitness(vm: Registers, regs: Registers)
    requires ValidRegisters(vm) && ValidRegisters(regs) && regs.sp > 0
    ensures var s := Run(Init(vm, 10), [Worker(256), Yield(0), Touch(regs)]);
      var r := Step(s, Sleep(0, 0, 0));
      s.current == 0 && Holds(s, 0, [], []) && r.current == 0 && r.vm == regs
  {
    hide Step, Fits, Owned, Due, Block, Holds, StacksAre, AwayUntilBack;
    var a := Init(vm, 10);
    InitCrowd(vm, 10, 256);
    SpawnCrowd(a, 0, 256);
    var b := Step(a, Worker(256));
    NotYetRunning(b);
    YieldCrowd(b, 1, 256, 0);
    ReadyHolds(b);
    var c := Step(b, Yield(0));
    TouchCrowd(c, 1, 256, regs);
    RunThree(a, Worker(256), Yield(0), Touch(regs));
    var s := Step(c, Touch(regs));
    HoldsTransfer(c, s, 0, [], []);
    AloneStays(s);
    SleepKeepsOnlySavedStacks(s, 0, 0, 0, [], [], []);
  }

  lemma ReadyHolds(s: Kernel)
    requires Crowd(s, 1, 256) && s.current == 0 && s.tasks[0].state.Ready? && Holds(s, 0, [], [])
    ensures Holds(Step(s, Yield(0)), 0, [], [])
  {
    hide Schedule, Holds, Park;
    ParkHoldsOther(s, 0, [], []);
    ScheduleHolds(s, 0, 0, [], []);
  }

  lemma AloneStays(s: Kernel)
    requires Crowd(s, 1, 256) && s.current == 0
    ensures Step(s, Sleep(0, 0, 0)).current == 0
  {
    hide Schedule;
    YieldTurns(BeforeDispatch(s, Sleep(0, 0, 0)).value.0, 1, 0);
  }

  /** At 10 ms before the tick counter wraps a task asks for 20 ms of sleep: it is
      not put to sleep at all. */
  lemma EarlyWakeWitness(vm: Registers)
    requires ValidRegisters(vm)
    ensures var now := 0xFFFF_FFF6;
      var s := Run(Init(vm, 10), Prologue(now));
      s.current == 1 && s.tasks[1].state.Running? && !Step(s, Sleep(now, 20, now)).tasks[1].state.Blocked?
  {
    hide Step, Run, Crowd, Holds, OnlyCurrentRuns, FindsTask, Prologue;
    var s := TwoWorkers(vm, 0xFFFF_FFF6);
    SleepStarts(s, 0xFFFF_FFF6, 20, 0xFFFF_FFF6);
  }
}
