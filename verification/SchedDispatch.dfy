// What every operation of the scheduler does to each slot and to each counter,
// told by the fields alone, and which slot a dispatch picks.
module SchedDispatch {
  import opened Arith
  import opened TaskModel
  import opened SchedSelect
  import opened SchedRuns
  import opened SchedSafety

  // ------------------------------------------------------------ one dispatch

  /** A task that a dispatch reading this tick may pick. */
  predicate CanRun(t: Task, tick: U32)
  {
    t.state.Ready? || t.state.Running? || (t.state.Blocked? && t.sleepUntil <= tick)
  }

  lemma CandidateCanRun(s: Kernel, tick: U32, i: nat)
    requires WellFormed(s) && i < MAX_TASKS
    ensures var c := Candidates(s, tick)[i];
      && (Runnable(c) <==> CanRun(s.tasks[i], tick)) && c.priority == s.tasks[i].priority
  {
    hide Park, Candidates;
    ParkEffect(s);
    CandidateEffect(s, tick, i);
  }

  /** A dispatch picks, of the tasks that can run at its tick, one of greatest
      priority, and of those the first after the current slot going round; with
      none of priority 1 or more it keeps the current slot. */
  lemma DispatchPicks(s: Kernel, tick: U32)
    requires WellFormed(s)
    ensures var k, t := Schedule(s, tick).current, s.tasks;
      if exists j :: 0 <= j < 8 && CanRun(t[j], tick) && t[j].priority > 0 then
        && k < 8 && CanRun(t[k], tick) && t[k].priority > 0
        && forall j :: 0 <= j < 8 && CanRun(t[j], tick) ==>
          && t[j].priority <= t[k].priority
          && (t[j].priority == t[k].priority ==> (k - s.current - 1) % 8 <= (j - s.current - 1) % 8)
      else k == s.current
  {
    hide Schedule, Candidates, CanRun, Runnable;
    FallbackKeepsCurrent(s, tick);
    forall i | 0 <= i < MAX_TASKS
      ensures Runnable(Candidates(s, tick)[i]) <==> CanRun(s.tasks[i], tick)
      ensures Candidates(s, tick)[i].priority == s.tasks[i].priority
    {
      CandidateCanRun(s, tick, i);
    }
  }

  /** A dispatch that picked slot k restored it, rather than let it go on. */
  predicate Switched(s: Kernel, tick: U32, k: nat)
    requires WellFormed(s)
  {
    var t := s.tasks[s.current];
    k != s.current || t.state.Dead? || (t.state.Blocked? && tick < t.sleepUntil)
  }

  /** One slot before and after a dispatch. A task keeps what it was spawned with
      and its deadline. The running one is saved; a sleeper that is due wakes; the
      picked one runs, and is counted if it was switched to. */
  predicate SlotAfter(t: Task, u: Task, current: bool, vm: Registers, tick: U32, picked: bool, switched: bool)
  {
    && u.wordIdx == t.wordIdx && u.pc == t.pc && u.priority == t.priority
    && u.dsSize == t.dsSize && u.rsSize == t.rsSize && u.dsBase == t.dsBase && u.rsBase == t.rsBase
    && u.sleepUntil == t.sleepUntil
    && u.dsDepth == (if current && t.state.Running? then vm.sp % 256 else t.dsDepth)
    && u.rsDepth == (if current && t.state.Running? then vm.rp else t.rsDepth)
    && u.execCount == (if picked && switched then (t.execCount + 1) % 0x1_0000 else t.execCount)
    && u.state ==
      if picked then Running
      else if (current && t.state.Running?) || (t.state.Blocked? && t.sleepUntil <= tick) then Ready
      else t.state
  }

  /** The stacks after a switch to a task have its saved depths; above them, and for
      a task without stacks altogether, the arrays hold what they held. What lies
      below is for SchedSwitch.SavedStacksReturn to say. */
  predicate Restored(t: Task, before: Registers, after: Registers)
    requires ValidRegisters(before) && ValidRegisters(after)
  {
    && after.sp == t.dsDepth && after.rp == t.rsDepth
    && (forall j :: 0 <= j < 256 && (t.dsBase.None? || t.dsDepth <= j) ==> after.DS[j] == before.DS[j])
    && (forall j :: 0 <= j < 64 && (t.rsBase.None? || t.rsDepth <= j) ==> after.RS[j] == before.RS[j])
  }

  lemma RestoreIs(s: Kernel, k: nat)
    requires WellFormed(s) && k < MAX_TASKS
    ensures Restored(s.tasks[k], s.vm, Restore(s, k).vm)
  {}

  /** Every slot and every counter after a dispatch. */
  lemma DispatchSlots(s: Kernel, tick: U32)
    requires WellFormed(s)
    ensures var r := Schedule(s, tick);
      && (forall i :: 0 <= i < 8 ==>
           SlotAfter(s.tasks[i], r.tasks[i], i == s.current, s.vm, tick, i == r.current, Switched(s, tick, r.current)))
      && r.switches == (if Switched(s, tick, r.current) then (s.switches + 1) % 0x1_0000_0000 else s.switches)
      && (if Switched(s, tick, r.current) then Restored(r.tasks[r.current], s.vm, r.vm) else r.vm == s.vm)
      && r.nesting == s.nesting && r.timeSlice == s.timeSlice && r.preemptions == s.preemptions
      && r.count == s.count
  {
    hide Schedule, Park, Candidates, Dispatched, Restore, Restored, Selected;
    ScheduleEffect(s, tick);
    SwitchRestores(s, tick);
    ParkEffect(s);
    forall i | 0 <= i < MAX_TASKS
      ensures Candidates(s, tick)[i] == WakeTask(Park(s).tasks[i], tick)
    {
      CandidateEffect(s, tick, i);
    }
  }

  lemma SwitchRestores(s: Kernel, tick: U32)
    requires WellFormed(s)
    ensures var r := Schedule(s, tick);
      !Stays(s, tick) ==> Restored(r.tasks[r.current], s.vm, r.vm)
  {
    hide Schedule, Park, Candidates, Dispatched, Restore, Selected, Stays;
    ScheduleEffect(s, tick);
    var p := Park(s).(tasks := Candidates(s, tick));
    ParkEffect(s);
    forall i | 0 <= i < MAX_TASKS
      ensures p.tasks[i].rsDepth <= RS_SIZE
    {
      CandidateEffect(s, tick, i);
    }
    RestoreIs(p, Dispatched(s, tick));
  }

  // ------------------------------------------------------------ operations

  /** The operations that dispatch, and the tick they read there. */
  function DispatchTick(s: Kernel, e: Event): Option<U32>
  {
    if e.Exit? || e.Sleep? || e.Yield? || (e.Isr? && s.nesting == 0) then Some(e.tick) else None
  }

  /** What the operation makes of its caller's slot before it dispatches. */
  function Called(e: Event, t: Task): Task
  {
    match e
    case Exit(_) => t.(dsBase := None, rsBase := None, state := Dead)
    case Sleep(now, ms, _) => t.(sleepUntil := (now + ms) % 0x1_0000_0000, state := Blocked)
    case _ => t
  }

  lemma BeforeIs(s: Kernel, e: Event)
    requires WellFormed(s)
    ensures match DispatchTick(s, e)
      case None => BeforeDispatch(s, e).None?
      case Some(tick) =>
        && BeforeDispatch(s, e).Some? && BeforeDispatch(s, e).value.1 == tick
        && var before := BeforeDispatch(s, e).value.0;
        && before.tasks == s.tasks[s.current := Called(e, s.tasks[s.current])]
        && before.current == s.current && before.vm == s.vm && before.switches == s.switches
        && before.nesting == s.nesting && before.timeSlice == s.timeSlice
        && before.count == (if e.Exit? then (s.count - 1) % 256 else s.count)
        && before.preemptions == (if e.Isr? then (s.preemptions + 1) % 0x1_0000_0000 else s.preemptions)
  {
    hide FreeBlock;
    if !e.Exit? && !e.Sleep? { assert s.tasks[s.current := s.tasks[s.current]] == s.tasks; }
  }

  /** Exit, sleep, yield and the timer interrupt: the caller's slot changes as the
      operation says, and then every slot as the dispatch says. */
  lemma StepSlots(s: Kernel, e: Event)
    requires WellFormed(s) && Legal(e) && DispatchTick(s, e).Some?
    ensures var r, tick := Step(s, e), DispatchTick(s, e).value;
      var t := s.tasks[s.current := Called(e, s.tasks[s.current])];
      var switched := Switched(s.(tasks := t), tick, r.current);
      && (forall i :: 0 <= i < 8 ==>
           SlotAfter(t[i], r.tasks[i], i == s.current, s.vm, tick, i == r.current, switched))
      && r.switches == (if switched then (s.switches + 1) % 0x1_0000_0000 else s.switches)
      && (if switched then Restored(r.tasks[r.current], s.vm, r.vm) else r.vm == s.vm)
  {
    hide BeforeDispatch, Schedule, SlotAfter, Restored, Switched, Called;
    BeforeIs(s, e);
    var (before, tick) := BeforeDispatch(s, e).value;
    var t := s.tasks[s.current := Called(e, s.tasks[s.current])];
    assert before.tasks == t && WellFormed(s.(tasks := t));
    DispatchSlots(before, tick);
    SameSwitch(before, s.(tasks := t), tick, Schedule(before, tick).current);
  }

  lemma SameSwitch(s: Kernel, r: Kernel, tick: U32, k: nat)
    requires WellFormed(s) && WellFormed(r) && s.tasks == r.tasks && s.current == r.current
    ensures Switched(s, tick, k) <==> Switched(r, tick, k)
  {}

  /** The counters after any operation: interrupts are counted when they dispatch,
      nesting is moved by critical sections alone, live tasks are counted by spawn,
      exit and cleanup, and only dispatches move the current slot or switch. */
  lemma StepCounters(s: Kernel, e: Event)
    requires WellFormed(s) && Legal(e)
    ensures var r := Step(s, e);
      && r.timeSlice == s.timeSlice
      && r.nesting ==
        (if e.CriticalEnter? then (s.nesting + 1) % 256
         else if e.CriticalExit? && s.nesting > 0 then s.nesting - 1 else s.nesting)
      && r.preemptions ==
        (if e.Isr? && s.nesting == 0 then (s.preemptions + 1) % 0x1_0000_0000 else s.preemptions)
      && r.count ==
        (if e.Spawn? && SpawnTask(s, e).0 >= 0 then (s.count + 1) % 256
         else if e.Exit? then (s.count - 1) % 256
         else if e.Cleanup? then 0 else s.count)
      && (DispatchTick(s, e).None? ==>
        && r.current == s.current && r.switches == s.switches
        && r.vm == if e.Touch? then e.regs else s.vm)
  {
    hide BeforeDispatch, Schedule, FirstDead, Bury, BuryFrom;
    BeforeIs(s, e);
    match BeforeDispatch(s, e)
    case Some((before, tick)) => DispatchSlots(before, tick);
    case None =>
      if e.Cleanup? { BuryFromKeeps(s, 0); }
  }

  lemma {:induction false} BuryFromKeeps(s: Kernel, k: nat)
    requires WellFormed(s) && k <= MAX_TASKS
    ensures var r := BuryFrom(s, k);
      && r.current == s.current && r.vm == s.vm && r.switches == s.switches
      && r.nesting == s.nesting && r.timeSlice == s.timeSlice && r.preemptions == s.preemptions
    decreases MAX_TASKS - k
  {
    if k < MAX_TASKS { BuryFromKeeps(Bury(s, k), k + 1); }
  }

  /** After cleanup every slot is dead and without stacks, and the heap is empty. */
  lemma CleanupOutcome(s: Kernel)
    requires WellFormed(s) && Owned(s)
    ensures var r := Step(s, Cleanup);
      && r.heap == map[] && r.count == 0 && !r.badFree
      && forall i :: 0 <= i < 8 ==> r.tasks[i].state.Dead? && r.tasks[i].dsBase.None? && r.tasks[i].rsBase.None?
  {
    hide BuryFrom, Schedule, OwnedBy;
    var r := Step(s, Cleanup);
    StepOwned(s, Cleanup);
    BuryFromEffect(s, 0);
    NoBlocks(r.tasks, r.heap.Keys, r.nextBlock);
  }

  lemma NoBlocks(tasks: seq<Task>, blocks: set<nat>, next: nat)
    requires OwnedBy(tasks, blocks, next) && forall i :: 0 <= i < |tasks| ==> HasNeither(tasks[i])
    ensures blocks == {}
  {}

  /** What exit frees: the caller's blocks leave the heap and no other does; a
      pointer to no block, or one block freed twice, is remembered, in every state
      and not only in those that runs reach. */
  lemma ExitFrees(s: Kernel, tick: U32)
    requires WellFormed(s)
    ensures var r, ds, rs := Step(s, Exit(tick)), s.tasks[s.current].dsBase, s.tasks[s.current].rsBase;
      && (forall b: nat :: b in r.heap <==> b in s.heap && ds != Some(b) && rs != Some(b))
      && (r.badFree <==> s.badFree || (ds.Some? && ds.value !in s.heap)
                         || (rs.Some? && (rs.value !in s.heap || rs == ds)))
  {
    hide Schedule;
    var before := BeforeDispatch(s, Exit(tick)).value.0;
    ScheduleKeepsTasks(before, tick);
    assert Step(s, Exit(tick)).heap.Keys == before.heap.Keys;
  }

  /** A system just initialised. */
  lemma InitState(vm: Registers, timeSlice: U32)
    requires ValidRegisters(vm)
    ensures var s := Init(vm, timeSlice);
      && (forall i :: 0 <= i < 8 ==> s.tasks[i] == Task(0, 0, None, None, 0, 0, Dead, 0, 0, 0, 0, 0))
      && s.current == 0 && s.count == 0 && s.nesting == 0 && s.switches == 0 && s.preemptions == 0
      && s.timeSlice == (if timeSlice == 0 then 10 else timeSlice)
      && s.vm == vm && s.heap == map[] && !s.overrun && !s.badFree
  {}

  // ------------------------------------------------------------ over runs

  /** What a task was spawned with and keeps. */
  predicate SameTask(t: Task, u: Task)
  {
    && u.wordIdx == t.wordIdx && u.pc == t.pc && u.priority == t.priority
    && u.dsSize == t.dsSize && u.rsSize == t.rsSize
  }

  lemma StepKeepsTask(s: Kernel, e: Event, k: nat)
    requires WellFormed(s) && Legal(e) && k < MAX_TASKS && !s.tasks[k].state.Dead?
    requires !e.Cleanup? && !(e.Exit? && s.current == k)
    ensures !Step(s, e).tasks[k].state.Dead? && SameTask(s.tasks[k], Step(s, e).tasks[k])
  {
    hide BeforeDispatch, Schedule, BuryFrom;
    BeforeIs(s, e);
    if DispatchTick(s, e).Some? { StepSlots(s, e); }
  }

  /** The run neither shuts the system down nor has slot k exit. */
  ghost predicate NeverLeaves(s: Kernel, es: seq<Event>, k: nat)
    requires WellFormed(s) && forall e :: e in es ==> Legal(e)
    decreases es
  {
    es != [] ==> !es[0].Cleanup? && !(es[0].Exit? && s.current == k) && NeverLeaves(Step(s, es[0]), es[1..], k)
  }

  /** Over any run until it exits or the system is shut down, a live task stays
      live and keeps its word, its priority and its sizes. */
  lemma {:induction false} TaskKeepsIdentity(s: Kernel, es: seq<Event>, k: nat)
    requires WellFormed(s) && k < MAX_TASKS && !s.tasks[k].state.Dead?
    requires (forall e :: e in es ==> Legal(e)) && NeverLeaves(s, es, k)
    ensures !Run(s, es).tasks[k].state.Dead? && SameTask(s.tasks[k], Run(s, es).tasks[k])
    decreases es
  {
    hide Step;
    if es != [] {
      StepKeepsTask(s, es[0], k);
      TaskKeepsIdentity(Step(s, es[0]), es[1..], k);
    }
  }

  /** The nesting counter after the critical-section calls of a run alone. */
  function NestingAfter(nesting: Byte, es: seq<Event>): Byte
    decreases es
  {
    if es == [] then nesting
    else
      var n := if es[0].CriticalEnter? then (nesting + 1) % 256
               else if es[0].CriticalExit? && nesting > 0 then nesting - 1 else nesting;
      NestingAfter(n, es[1..])
  }

  /** Spawns, exits, sleeps, yields, interrupts and shutdown in between do not
      matter: over any run nesting is moved by the critical-section calls alone,
      and an interrupt after it does nothing exactly when they leave it above 0. */
  lemma {:induction false} NestingOverRuns(s: Kernel, es: seq<Event>, tick: U32)
    requires WellFormed(s) && forall e :: e in es ==> Legal(e)
    ensures Run(s, es).nesting == NestingAfter(s.nesting, es)
    ensures NestingAfter(s.nesting, es) > 0 ==> Step(Run(s, es), Isr(tick)) == Run(s, es)
    ensures NestingAfter(s.nesting, es) == 0 ==>
      Step(Run(s, es), Isr(tick)).preemptions == (Run(s, es).preemptions + 1) % 0x1_0000_0000
    decreases es
  {
    hide Step;
    if es != [] {
      StepCounters(s, es[0]);
      NestingOverRuns(Step(s, es[0]), es[1..], tick);
    } else {
      InterruptBlocked(s, tick);
      StepCounters(s, Isr(tick));
    }
  }
}
