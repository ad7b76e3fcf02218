// What a task finds on its stacks when it is dispatched again.
module SchedSwitch {
  import opened Arith
  import opened TaskModel
  import opened SchedRuns
  import opened SchedSafety
  import opened SchedFits

  /** The live stacks are exactly ds and rs. */
  predicate StacksAre(vm: Registers, ds: seq<Cell>, rs: seq<Cell>)
    requires ValidRegisters(vm)
  {
    vm.DS[..vm.sp] == ds && vm.RS[..vm.rp] == rs
  }

  predicate BlockHolds(heap: map<nat, seq<Cell>>, base: Option<nat>, cells: seq<Cell>)
  {
    base.Some? && base.value in heap && cells <= heap[base.value]
  }

  /** Slot k is live and its saved stacks are exactly ds and rs. */
  predicate Holds(s: Kernel, k: nat, ds: seq<Cell>, rs: seq<Cell>)
    requires WellFormed(s)
  {
    && k < MAX_TASKS && !s.tasks[k].state.Dead?
    && s.tasks[k].dsDepth == |ds| && s.tasks[k].rsDepth == |rs|
    && BlockHolds(s.heap, s.tasks[k].dsBase, ds) && BlockHolds(s.heap, s.tasks[k].rsBase, rs)
  }

  lemma OverlayPrefix(part: seq<Cell>, block: seq<Cell>)
    requires |part| <= |block|
    ensures part <= Overlay(part, block)
  {}

  /** Saving the current task leaves the blocks of the others alone. */
  lemma ParkHoldsOther(s: Kernel, k: nat, ds: seq<Cell>, rs: seq<Cell>)
    requires WellFormed(s) && Owned(s) && Holds(s, k, ds, rs) && (k == s.current ==> !s.tasks[k].state.Running?)
    ensures Holds(Park(s), k, ds, rs)
  {
    var t, u := s.tasks[k], s.tasks[s.current];
    if k != s.current {
      assert Owns(t, t.dsBase.value) && Owns(t, t.rsBase.value);
      assert u.dsBase.Some? ==> Owns(u, u.dsBase.value);
      assert u.rsBase.Some? ==> Owns(u, u.rsBase.value);
    }
  }

  /** Saving the running task puts its stacks in its blocks, when they fit. */
  lemma ParkHoldsSelf(s: Kernel)
    requires WellFormed(s) && Owned(s) && s.tasks[s.current].state.Running? && HasBoth(s.tasks[s.current])
    requires s.vm.sp % M8 <= |Block(s.heap, s.tasks[s.current].dsBase)|
    requires s.vm.rp <= |Block(s.heap, s.tasks[s.current].rsBase)|
    ensures Holds(Park(s), s.current, s.vm.DS[..s.vm.sp % M8], s.vm.RS[..s.vm.rp])
  {
    hide Overlay, OwnedBy;
    var t := s.tasks[s.current];
    var ds, rs := s.vm.DS[..s.vm.sp % M8], s.vm.RS[..s.vm.rp];
    OwnsItsBlocks(s.tasks, s.heap.Keys, s.nextBlock, s.current);
    OverlayPrefix(ds, s.heap[t.dsBase.value]);
    OverlayPrefix(rs, s.heap[t.rsBase.value]);
  }

  lemma RestoreHeld(s: Kernel, k: nat, ds: seq<Cell>, rs: seq<Cell>)
    requires WellFormed(s) && Holds(s, k, ds, rs)
    ensures StacksAre(Restore(s, k).vm, ds, rs)
  {
    var t := s.tasks[k];
    assert s.heap[t.dsBase.value][..t.dsDepth] == ds;
    assert s.heap[t.rsBase.value][..t.rsDepth] == rs;
  }

  /** One dispatch and a slot with saved stacks: it still holds them, and if it is
      switched to, they are the live stacks. */
  lemma ScheduleHolds(s: Kernel, tick: U32, k: nat, ds: seq<Cell>, rs: seq<Cell>)
    requires WellFormed(s) && Holds(Park(s), k, ds, rs)
    ensures var r := Schedule(s, tick);
      && Holds(r, k, ds, rs)
      && (r.current == k && !Stays(s, tick) ==> StacksAre(r.vm, ds, rs))
      && (Stays(s, tick) ==> r.vm == s.vm)
  {
    hide Park, Schedule, Candidates, Restore, Stays, Dispatched, BlockHolds;
    ScheduleEffect(s, tick);
    CandidateEffect(s, tick, k);
    var c := Candidates(s, tick);
    var p := Park(s).(tasks := c);
    forall i | 0 <= i < MAX_TASKS
      ensures c[i].rsDepth <= RS_SIZE
    {
      CandidateEffect(s, tick, i);
    }
    if Schedule(s, tick).current == k {
      RestoreHeld(p, k, ds, rs);
    }
  }

  lemma SpawnHolds(s: Kernel, e: Event, k: nat, ds: seq<Cell>, rs: seq<Cell>)
    requires WellFormed(s) && Owned(s) && e.Spawn? && Holds(s, k, ds, rs)
    ensures Holds(SpawnTask(s, e).1, k, ds, rs)
  {
    hide FirstDead;
    var t := s.tasks[k];
    assert Owns(t, t.dsBase.value) && Owns(t, t.rsBase.value);
  }

  /** An operation of another task, seen from a slot with saved stacks. */
  lemma DispatchHolds(s: Kernel, e: Event, k: nat, ds: seq<Cell>, rs: seq<Cell>)
    requires WellFormed(s) && Owned(s) && k != s.current && Holds(s, k, ds, rs)
    requires BeforeDispatch(s, e).Some?
    ensures var before := BeforeDispatch(s, e).value.0;
      before.current == s.current && Holds(before, k, ds, rs)
  {
    var t, u := s.tasks[k], s.tasks[s.current];
    assert Owns(t, t.dsBase.value) && Owns(t, t.rsBase.value);
    assert u.dsBase.Some? ==> Owns(u, u.dsBase.value);
    assert u.rsBase.Some? ==> Owns(u, u.rsBase.value);
  }

  lemma StepHolds(s: Kernel, e: Event, k: nat, ds: seq<Cell>, rs: seq<Cell>)
    requires WellFormed(s) && Legal(e) && !e.Cleanup? && Owned(s) && k != s.current && Holds(s, k, ds, rs)
    ensures if Step(s, e).current == k then StacksAre(Step(s, e).vm, ds, rs) else Holds(Step(s, e), k, ds, rs)
  {
    hide Schedule, Owned, Holds, BeforeDispatch, SpawnTask, Park, StacksAre;
    match BeforeDispatch(s, e)
    case Some((before, tick)) =>
      DispatchHolds(s, e, k, ds, rs);
      DispatchOwned(s, e);
      ParkHoldsOther(before, k, ds, rs);
      ScheduleHolds(before, tick, k, ds, rs);
      ScheduleEffect(before, tick);
    case None =>
      if e.Spawn? {
        SpawnHolds(s, e, k, ds, rs);
        SpawnCurrent(s, e);
      } else {
        HoldsTransfer(s, Step(s, e), k, ds, rs);
      }
  }

  lemma SpawnCurrent(s: Kernel, e: Event)
    requires WellFormed(s) && e.Spawn?
    ensures SpawnTask(s, e).1.current == s.current
  {}

  lemma HoldsTransfer(s: Kernel, r: Kernel, k: nat, ds: seq<Cell>, rs: seq<Cell>)
    requires WellFormed(s) && WellFormed(r) && Holds(s, k, ds, rs) && r.tasks == s.tasks && r.heap == s.heap
    ensures Holds(r, k, ds, rs)
  {}

  /** The run ends with the first dispatch of slot k; the system is not shut down
      meanwhile. */
  ghost predicate AwayUntilBack(s: Kernel, es: seq<Event>, k: nat)
    requires WellFormed(s) && forall e :: e in es ==> Legal(e)
    decreases es
  {
    && es != [] && s.current != k && !es[0].Cleanup?
    && (if |es| == 1 then Step(s, es[0]).current == k else AwayUntilBack(Step(s, es[0]), es[1..], k))
  }

  /** Whatever spawns, exits, sleeps, yields, interrupts and stack changes happen
      in between, as long as nobody's stacks were copied past their block, a task
      finds on its stacks what its slot held. */
  lemma {:induction false} SavedStacksReturn(s: Kernel, es: seq<Event>, k: nat, ds: seq<Cell>, rs: seq<Cell>)
    requires WellFormed(s) && Owned(s) && Holds(s, k, ds, rs)
    requires (forall e :: e in es ==> Legal(e)) && AwayUntilBack(s, es, k)
    requires !Run(s, es).overrun
    ensures Run(s, es).current == k && StacksAre(Run(s, es).vm, ds, rs)
    decreases es
  {
    hide Step, Owned, Holds, StacksAre;
    StepHolds(s, es[0], k, ds, rs);
    var s' := Step(s, es[0]);
    if |es| == 1 {
      assert es[1..] == [] && Run(s', []) == s';
    } else {
      assert s'.current != k;
      StepOwned(s, es[0]);
      SavedStacksReturn(s', es[1..], k, ds, rs);
    }
  }

  /** Context switches are transparent. A running task leaves through vm_schedule.
      If it is picked again at once its stacks are untouched. Otherwise, when it is
      next dispatched and no copy has passed the end of a block (RunOverrunIff in
      SchedFits says in which runs), both stacks are what they were, up to a
      data-stack depth taken modulo 256: a depth of 256 comes back as 0, any other
      as itself. */
  lemma ContextSwitch(s: Kernel, tick: U32, es: seq<Event>)
    requires WellFormed(s) && Owned(s) && Fits(s)
    requires s.tasks[s.current].state.Running? && HasBoth(s.tasks[s.current])
    requires forall e :: e in es ==> Legal(e)
    ensures var k, r := s.current, Schedule(s, tick);
      && (r.current == k ==> r.vm == s.vm)
      && (r.current != k && AwayUntilBack(r, es, k) && !Run(r, es).overrun ==>
        && StacksAre(Run(r, es).vm, s.vm.DS[..s.vm.sp % M8], s.vm.RS[..s.vm.rp])
        && (StacksAre(Run(r, es).vm, s.vm.DS[..s.vm.sp], s.vm.RS[..s.vm.rp]) <==> s.vm.sp < DS_SIZE))
  {
    hide Park, Schedule, Candidates, OwnedBy, Step, Holds, AwayUntilBack, Run, StacksAre, Fits;
    var k, r := s.current, Schedule(s, tick);
    var ds, rs := s.vm.DS[..s.vm.sp % M8], s.vm.RS[..s.vm.rp];
    RunningStays(s, tick);
    ScheduleEffect(s, tick);
    if r.current != k && AwayUntilBack(r, es, k) && !Run(r, es).overrun {
      if r.overrun { OverrunStays(r, es); }
      ScheduleOverrunIff(s, tick);
      ParkHoldsSelf(s);
      ScheduleHolds(s, tick, k, ds, rs);
      ScheduleKeepsTasks(s, tick);
      OwnedTransfer(s.tasks, r.tasks, s.heap.Keys, s.nextBlock);
      SavedStacksReturn(r, es, k, ds, rs);
      FullDepthIsLost(Run(r, es).vm, s.vm);
    }
  }

  /** A running task that is picked again is not restored. */
  lemma RunningStays(s: Kernel, tick: U32)
    requires WellFormed(s) && s.tasks[s.current].state.Running?
    ensures Schedule(s, tick).current == s.current ==> Stays(s, tick)
  {
    hide Park, Schedule, Candidates, Selected;
    ScheduleEffect(s, tick);
    ParkEffect(s);
    CandidateEffect(s, tick, s.current);
  }

  lemma FullDepthIsLost(a: Registers, b: Registers)
    requires ValidRegisters(a) && ValidRegisters(b) && StacksAre(a, b.DS[..b.sp % M8], b.RS[..b.rp])
    ensures StacksAre(a, b.DS[..b.sp], b.RS[..b.rp]) <==> b.sp < DS_SIZE
  {
    if b.sp == DS_SIZE { assert |b.DS[..b.sp]| != |a.DS[..a.sp]|; }
  }

  /** Sleep does not save the stacks. A task that held ds and rs from its last save
      calls sleep. If its deadline is already reached and it is picked again, its
      stacks are untouched; in every other case it finds ds and rs when it is next
      dispatched, at once or after a run in which no copy passed the end of a
      block. So its stacks survive exactly when it is picked again awake at once,
      or they were the saved ones. */
  lemma SleepKeepsOnlySavedStacks(
    s: Kernel, now: U32, ms: U32, tick: U32, es: seq<Event>, ds: seq<Cell>, rs: seq<Cell>)
    requires WellFormed(s) && Owned(s) && Holds(s, s.current, ds, rs)
    requires forall e :: e in es ==> Legal(e)
    ensures var k, r := s.current, Step(s, Sleep(now, ms, tick));
      var awake := r.current == k && tick >= (now + ms) % TICKS;
      r.current == k || (AwayUntilBack(r, es, k) && !Run(r, es).overrun) ==>
        var after := if r.current == k then r.vm else Run(r, es).vm;
        && (if awake then after == s.vm else StacksAre(after, ds, rs))
        && (StacksAre(after, s.vm.DS[..s.vm.sp], s.vm.RS[..s.vm.rp]) <==> awake || StacksAre(s.vm, ds, rs))
  {
    hide Step, Owned, AwayUntilBack, StacksAre, Holds;
    var k, e := s.current, Sleep(now, ms, tick);
    var r := Step(s, e);
    SleepDispatch(s, now, ms, tick, ds, rs);
    LiveStacks(s.vm);
    if r.current == k {
      if tick < (now + ms) % TICKS { SameStacks(r.vm, s.vm, ds, rs); }
    } else if AwayUntilBack(r, es, k) && !Run(r, es).overrun {
      StepOwned(s, e);
      SavedStacksReturn(r, es, k, ds, rs);
      SameStacks(Run(r, es).vm, s.vm, ds, rs);
    }
  }

  /** The dispatch of a sleep call: its caller still has its saved stacks, and if it
      is picked again it goes on awake or finds them restored. */
  lemma SleepDispatch(s: Kernel, now: U32, ms: U32, tick: U32, ds: seq<Cell>, rs: seq<Cell>)
    requires WellFormed(s) && Owned(s) && Holds(s, s.current, ds, rs)
    ensures var k, r := s.current, Step(s, Sleep(now, ms, tick));
      && Holds(r, k, ds, rs)
      && (r.current == k ==>
        if tick >= (now + ms) % TICKS then r.vm == s.vm else StacksAre(r.vm, ds, rs))
  {
    hide Schedule, Owned, Holds, StacksAre, Park, BeforeDispatch, Stays;
    var k, e := s.current, Sleep(now, ms, tick);
    SleepCaller(s, now, ms, tick, ds, rs);
    var before := BeforeDispatch(s, e).value.0;
    DispatchOwned(s, e);
    ParkHoldsOther(before, k, ds, rs);
    ScheduleHolds(before, tick, k, ds, rs);
    BlockedStays(before, tick);
  }

  /** The caller of sleep on its way into the dispatch. */
  lemma SleepCaller(s: Kernel, now: U32, ms: U32, tick: U32, ds: seq<Cell>, rs: seq<Cell>)
    requires WellFormed(s) && Holds(s, s.current, ds, rs)
    ensures BeforeDispatch(s, Sleep(now, ms, tick)).Some? && BeforeDispatch(s, Sleep(now, ms, tick)).value.1 == tick
    ensures var before := BeforeDispatch(s, Sleep(now, ms, tick)).value.0;
      && Holds(before, s.current, ds, rs) && before.current == s.current && before.vm == s.vm
      && before.tasks[s.current].state.Blocked? && before.tasks[s.current].sleepUntil == (now + ms) % TICKS
  {}

  /** A blocked current task that is picked goes on without a restore exactly when
      it is due. */
  lemma BlockedStays(s: Kernel, tick: U32)
    requires WellFormed(s) && s.tasks[s.current].state.Blocked?
    ensures Schedule(s, tick).current == s.current ==>
      (Stays(s, tick) <==> tick >= s.tasks[s.current].sleepUntil)
  {
    hide Schedule, Candidates, Selected, Park;
    ScheduleEffect(s, tick);
    ParkEffect(s);
    CandidateEffect(s, tick, s.current);
  }

  lemma LiveStacks(vm: Registers)
    requires ValidRegisters(vm)
    ensures StacksAre(vm, vm.DS[..vm.sp], vm.RS[..vm.rp])
  {}

  lemma SameStacks(a: Registers, b: Registers, ds: seq<Cell>, rs: seq<Cell>)
    requires ValidRegisters(a) && ValidRegisters(b) && StacksAre(a, ds, rs)
    ensures StacksAre(a, b.DS[..b.sp], b.RS[..b.rp]) <==> StacksAre(b, ds, rs)
  {}

  /** When a spawn fails and why, that a failed spawn changes nothing, and what a
      successful one makes: the first dead slot is ready with the given word and
      priority, has blocks of the requested sizes and saved stacks that are empty;
      nothing else moves. */
  lemma SpawnOutcome(s: Kernel, e: Event)
    requires WellFormed(s) && Legal(e) && Owned(s) && e.Spawn?
    ensures var (id, r) := SpawnTask(s, e);
      && (id == -18 <==> e.wordIdx >= e.wordCount)
      && (id == -20 <==> e.wordIdx < e.wordCount && NoneDead(s.tasks))
      && (id == -23 <==>
           e.wordIdx < e.wordCount && !NoneDead(s.tasks) && (e.dsMem.None? || e.rsMem.None?))
      && (id < 0 ==> r == s)
      && (id >= 0 ==> id < MAX_TASKS && Spawned(s, r, id, e))
  {
    var k := FirstDead(s.tasks);
    if k.Some? {
      DeadHasNeither(s.tasks, s.heap.Keys, s.nextBlock, k.value);
      assert !NoneDead(s.tasks);
      assert s.tasks[k.value := s.tasks[k.value]] == s.tasks;
    }
  }

  predicate NoneDead(tasks: seq<Task>)
  {
    forall i :: 0 <= i < |tasks| ==> !tasks[i].state.Dead?
  }

  ghost predicate Spawned(s: Kernel, r: Kernel, k: nat, e: Event)
    requires WellFormed(s) && WellFormed(r) && k < MAX_TASKS && e.Spawn?
  {
    && s.tasks[k].state.Dead? && NoneDead(s.tasks[..k])
    && r.tasks[k].state.Ready? && r.tasks[k].wordIdx == e.wordIdx && r.tasks[k].priority == e.priority
    && r.tasks[k].pc == 0 && r.tasks[k].sleepUntil == 0 && r.tasks[k].execCount == 0
    && r.tasks[k].dsSize == (if e.dsSize == 0 then 256 else e.dsSize) % 256
    && r.tasks[k].rsSize == (if e.rsSize == 0 then 64 else e.rsSize) % 256
    && Holds(r, k, [], [])
    && |Block(r.heap, r.tasks[k].dsBase)| == (if e.dsSize == 0 then 256 else e.dsSize)
    && |Block(r.heap, r.tasks[k].rsBase)| == (if e.rsSize == 0 then 64 else e.rsSize)
    && r.tasks == s.tasks[k := r.tasks[k]] && r.vm == s.vm && r.current == s.current
    && r.count == (s.count + 1) % 256
    && (forall b :: b in s.heap ==> b in r.heap && r.heap[b] == s.heap[b])
  }
}
