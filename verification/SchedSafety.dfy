// Who owns the stack blocks of the scheduler's tasks, over every run.
module SchedSafety {
  import opened Arith
  import opened TaskModel
  import opened SchedRuns
  import SchedSelect

  predicate Owns(t: Task, b: nat) { t.dsBase == Some(b) || t.rsBase == Some(b) }

  /** A slot has both stack blocks, and different ones, or neither. */
  predicate HasBoth(t: Task) { t.dsBase.Some? && t.rsBase.Some? && t.dsBase != t.rsBase }
  predicate HasNeither(t: Task) { t.dsBase.None? && t.rsBase.None? }

  /** The blocks of the heap are exactly the blocks of the slots, each block of
      one slot, and a dead slot has none. */
  ghost predicate OwnedBy(tasks: seq<Task>, blocks: set<nat>, next: nat)
  {
    && (forall i :: 0 <= i < |tasks| ==>
      HasNeither(tasks[i]) || (HasBoth(tasks[i]) && !tasks[i].state.Dead?))
    && (forall i, b :: 0 <= i < |tasks| && Owns(tasks[i], b) ==> b in blocks)
    && (forall i, j, b :: 0 <= i < |tasks| && 0 <= j < |tasks| && Owns(tasks[i], b) && Owns(tasks[j], b) ==> i == j)
    && (forall b :: b in blocks ==> b < next && exists i :: 0 <= i < |tasks| && Owns(tasks[i], b))
  }

  ghost predicate Owned(s: Kernel)
    requires WellFormed(s)
  {
    OwnedBy(s.tasks, s.heap.Keys, s.nextBlock) && !s.badFree
  }

  predicate SameBlocks(a: seq<Task>, b: seq<Task>)
  {
    && |a| == |b|
    && forall i :: 0 <= i < |a| ==>
      && b[i].dsBase == a[i].dsBase && b[i].rsBase == a[i].rsBase
      && (b[i].state.Dead? ==> a[i].state.Dead?)
  }

  lemma OwnedTransfer(a: seq<Task>, b: seq<Task>, blocks: set<nat>, next: nat)
    requires OwnedBy(a, blocks, next) && SameBlocks(a, b)
    ensures OwnedBy(b, blocks, next)
  {
    forall x | x in blocks
      ensures exists i :: 0 <= i < |b| && Owns(b[i], x)
    {
      var i :| 0 <= i < |a| && Owns(a[i], x);
      assert Owns(b[i], x);
    }
    assert forall i, x :: 0 <= i < |b| && Owns(b[i], x) ==> Owns(a[i], x);
  }

  lemma OwnedRemoval(a: seq<Task>, blocks: set<nat>, next: nat, k: nat, t: Task)
    requires OwnedBy(a, blocks, next) && k < |a| && HasNeither(t)
    ensures OwnedBy(a[k := t], (set x | x in blocks && !Owns(a[k], x)), next)
  {
    var b := a[k := t];
    forall x | x in blocks && !Owns(a[k], x)
      ensures exists i :: 0 <= i < |b| && Owns(b[i], x)
    {
      var i :| 0 <= i < |a| && Owns(a[i], x);
      assert Owns(b[i], x);
    }
    assert forall i, x :: 0 <= i < |b| && Owns(b[i], x) ==> i != k && Owns(a[i], x);
  }

  lemma OwnedAddition(a: seq<Task>, blocks: set<nat>, next: nat, k: nat, t: Task)
    requires OwnedBy(a, blocks, next) && k < |a| && HasNeither(a[k])
    requires t.dsBase == Some(next) && t.rsBase == Some(next + 1) && !t.state.Dead?
    ensures OwnedBy(a[k := t], blocks + {next, next + 1}, next + 2)
  {
    var b := a[k := t];
    var all := blocks + {next, next + 1};
    forall x | x in all
      ensures exists i :: 0 <= i < |b| && Owns(b[i], x)
    {
      if x in blocks {
        var i :| 0 <= i < |a| && Owns(a[i], x);
        assert Owns(b[i], x);
      } else {
        assert Owns(b[k], x);
      }
    }
    assert forall i, x :: 0 <= i < |b| && i != k && Owns(b[i], x) ==> Owns(a[i], x);
    assert forall x :: Owns(b[k], x) <==> x == next || x == next + 1;
  }

  /** vm_schedule moves no block between slots and kills nobody. */
  lemma ScheduleKeepsTasks(s: Kernel, tick: U32)
    requires WellFormed(s)
    ensures var r := Schedule(s, tick);
      && r.heap.Keys == s.heap.Keys && r.nextBlock == s.nextBlock && r.badFree == s.badFree && r.count == s.count
      && forall i :: 0 <= i < MAX_TASKS ==>
        && r.tasks[i].dsBase == s.tasks[i].dsBase && r.tasks[i].rsBase == s.tasks[i].rsBase
        && r.tasks[i].state.Dead? == (s.tasks[i].state.Dead? && i != r.current)
  {
    hide Schedule, Park, Candidates, Dispatched, Stays;
    ScheduleEffect(s, tick);
    ParkEffect(s);
    forall i | 0 <= i < MAX_TASKS
      ensures Candidates(s, tick)[i] == WakeTask(Park(s).tasks[i], tick)
    {
      CandidateEffect(s, tick, i);
    }
  }

  lemma OwnsItsBlocks(tasks: seq<Task>, blocks: set<nat>, next: nat, k: nat)
    requires OwnedBy(tasks, blocks, next) && k < |tasks|
    ensures HasNeither(tasks[k])
      || (HasBoth(tasks[k]) && tasks[k].dsBase.value in blocks && tasks[k].rsBase.value in blocks)
  {
    var t := tasks[k];
    assert HasBoth(t) ==> Owns(t, t.dsBase.value) && Owns(t, t.rsBase.value);
  }

  lemma BuryOwned(s: Kernel, k: nat)
    requires WellFormed(s) && Owned(s) && k < MAX_TASKS
    ensures Owned(Bury(s, k))
  {
    hide OwnedBy;
    var r, t := Bury(s, k), s.tasks[k];
    OwnedRemoval(s.tasks, s.heap.Keys, s.nextBlock, k, r.tasks[k]);
    OwnsItsBlocks(s.tasks, s.heap.Keys, s.nextBlock, k);
    assert r.heap.Keys == set x | x in s.heap.Keys && !Owns(t, x);
  }

  lemma {:induction false} BuryFromOwned(s: Kernel, k: nat)
    requires WellFormed(s) && Owned(s) && k <= MAX_TASKS
    ensures Owned(BuryFrom(s, k))
    decreases MAX_TASKS - k
  {
    hide Bury, Owned;
    if k < MAX_TASKS {
      BuryOwned(s, k);
      BuryFromOwned(Bury(s, k), k + 1);
    }
  }

  lemma SpawnOwned(s: Kernel, e: Event)
    requires WellFormed(s) && Owned(s) && Legal(e) && e.Spawn?
    ensures Owned(SpawnTask(s, e).1)
  {
    hide OwnedBy;
    var r := SpawnTask(s, e).1;
    var k := FirstDead(s.tasks);
    if e.wordIdx < e.wordCount && k.Some? {
      DeadHasNeither(s.tasks, s.heap.Keys, s.nextBlock, k.value);
      if e.dsMem.Some? && e.rsMem.Some? {
        OwnedAddition(s.tasks, s.heap.Keys, s.nextBlock, k.value, r.tasks[k.value]);
        assert r.heap.Keys == s.heap.Keys + {s.nextBlock, s.nextBlock + 1};
      } else {
        OwnedTransfer(s.tasks, r.tasks, s.heap.Keys, s.nextBlock);
      }
    }
  }

  lemma DeadHasNeither(a: seq<Task>, blocks: set<nat>, next: nat, k: nat)
    requires OwnedBy(a, blocks, next) && k < |a| && a[k].state.Dead?
    ensures HasNeither(a[k])
  {}

  lemma StepOwned(s: Kernel, e: Event)
    requires WellFormed(s) && Legal(e) && Owned(s)
    ensures Owned(Step(s, e))
  {
    hide Schedule, SpawnTask, Bury, BuryFrom, OwnedBy, BeforeDispatch;
    match BeforeDispatch(s, e)
    case Some((before, tick)) =>
      DispatchOwned(s, e);
      ScheduleKeepsTasks(before, tick);
      OwnedTransfer(before.tasks, Schedule(before, tick).tasks, before.heap.Keys, before.nextBlock);
    case None =>
      if e.Spawn? { SpawnOwned(s, e); }
      if e.Cleanup? { BuryFromOwned(s, 0); }
  }

  lemma DispatchOwned(s: Kernel, e: Event)
    requires WellFormed(s) && Legal(e) && Owned(s) && BeforeDispatch(s, e).Some?
    ensures Owned(BeforeDispatch(s, e).value.0)
  {
    hide Bury, OwnedBy;
    if e.Exit? { BuryOwned(s, s.current); }
    if e.Sleep? {
      OwnedTransfer(s.tasks, BeforeDispatch(s, e).value.0.tasks, s.heap.Keys, s.nextBlock);
    }
  }

  /** In every reachable state, with no side condition, no stack block is shared,
      leaked, dangling or freed twice. */
  lemma {:induction false} BlocksAreOwned(s: Kernel, es: seq<Event>)
    requires WellFormed(s) && Owned(s) && forall e :: e in es ==> Legal(e)
    ensures Owned(Run(s, es))
    decreases es
  {
    hide Step, Owned;
    if es != [] {
      StepOwned(s, es[0]);
      BlocksAreOwned(Step(s, es[0]), es[1..]);
    }
  }

  lemma InitOwned(vm: Registers, timeSlice: U32)
    requires ValidRegisters(vm)
    ensures Owned(Init(vm, timeSlice)) && Conserved(Init(vm, timeSlice))
  {
    var s := Init(vm, timeSlice);
    assert forall i :: 0 <= i < MAX_TASKS ==> s.tasks[i] == NO_TASK;
    AllDead(s.tasks);
  }

  // ------------------------------------------------------------ conservation

  function Live(tasks: seq<Task>): nat
  {
    if tasks == [] then 0
    else Live(tasks[..|tasks| - 1]) + Weight(tasks[|tasks| - 1])
  }

  function Weight(t: Task): nat { if t.state.Dead? then 0 else 1 }

  lemma {:induction false} LiveBound(tasks: seq<Task>)
    ensures Live(tasks) <= |tasks|
    decreases |tasks|
  {
    if tasks != [] { LiveBound(tasks[..|tasks| - 1]); }
  }

  lemma {:induction false} AllDead(tasks: seq<Task>)
    requires forall i :: 0 <= i < |tasks| ==> tasks[i].state.Dead?
    ensures Live(tasks) == 0
    decreases |tasks|
  {
    if tasks != [] { AllDead(tasks[..|tasks| - 1]); }
  }

  /** Two task tables that differ, as far as being dead goes, in slot k at most. */
  lemma {:induction false} LiveOneChange(a: seq<Task>, b: seq<Task>, k: nat)
    requires |a| == |b|
    requires forall i :: 0 <= i < |a| && i != k ==> a[i].state.Dead? == b[i].state.Dead?
    ensures k < |a| ==> Live(b) + Weight(a[k]) == Live(a) + Weight(b[k])
    ensures k >= |a| ==> Live(a) == Live(b)
    decreases |a|
  {
    if a != [] {
      var n := |a| - 1;
      LiveOneChange(a[..n], b[..n], k);
    }
  }

  /** task_count is the number of live slots, and the live slots are exactly those
      with stack blocks. */
  predicate Conserved(s: Kernel)
    requires WellFormed(s)
  {
    && s.count == Live(s.tasks)
    && forall i :: 0 <= i < MAX_TASKS ==>
      if s.tasks[i].state.Dead? then HasNeither(s.tasks[i]) else HasBoth(s.tasks[i])
  }

  lemma CleanupConserves(s: Kernel)
    requires WellFormed(s) && Owned(s)
    ensures Conserved(BuryFrom(s, 0).(count := 0))
  {
    hide BuryFrom, OwnedBy;
    BuryFromEffect(s, 0);
    AllDead(BuryFrom(s, 0).tasks);
  }

  lemma QuietConserves(s: Kernel, e: Event)
    requires WellFormed(s) && Legal(e) && Owned(s) && Conserved(s) && BeforeDispatch(s, e).None?
    ensures Conserved(Step(s, e))
  {
    hide BuryFrom, Owned, SpawnTask;
    if e.Cleanup? { CleanupConserves(s); }
    if e.Spawn? { SpawnConserves(s, e); }
  }

  lemma SpawnConserves(s: Kernel, e: Event)
    requires WellFormed(s) && Conserved(s) && e.Spawn?
    ensures Conserved(SpawnTask(s, e).1)
  {
    hide FirstDead;
    var r := SpawnTask(s, e).1;
    var k := FirstDead(s.tasks);
    if k.Some? {
      LiveOneChange(s.tasks, r.tasks, k.value);
      LiveBound(r.tasks);
    }
  }

  /** What keeps the count right: exit and sleep are called by a live task, and
      every dispatch has a live current slot or finds a task to run. */
  ghost predicate Guard(s: Kernel, e: Event)
    requires WellFormed(s)
  {
    && (e.Exit? || e.Sleep? ==> !s.tasks[s.current].state.Dead?)
    && match BeforeDispatch(s, e)
       case Some((before, tick)) =>
         !before.tasks[s.current].state.Dead? || TopSet(Candidates(before, tick)) != {}
       case None => true
  }

  /** A dispatch keeps the set of live slots exactly when it does not revive a
      dead current slot. */
  lemma ScheduleLive(s: Kernel, tick: U32)
    requires WellFormed(s)
    ensures var r := Schedule(s, tick);
      var ok := !s.tasks[s.current].state.Dead? || TopSet(Candidates(s, tick)) != {};
      && (ok ==> forall i :: 0 <= i < MAX_TASKS ==> r.tasks[i].state.Dead? == s.tasks[i].state.Dead?)
      && (!ok ==> r.current == s.current && s.tasks[s.current].state.Dead? && !r.tasks[s.current].state.Dead?)
  {
    hide Schedule, Candidates, Park, TopSet, Turns;
    ScheduleKeepsTasks(s, tick);
    ScheduleEffect(s, tick);
    var c := Candidates(s, tick);
    SchedSelect.TurnsListOnce(TopSet(c), s.current);
    SchedSelect.ChoiceIsSelection(c, s.current);
    ParkEffect(s);
    CandidateEffect(s, tick, Schedule(s, tick).current);
  }

  /** Live-slot conservation, one step: starting from a conserved state, an
      operation keeps task_count right, and the blocks with the live slots,
      exactly when its guard holds. */
  lemma StepConservesIff(s: Kernel, e: Event)
    requires WellFormed(s) && Legal(e) && Owned(s) && Conserved(s)
    ensures Conserved(Step(s, e)) <==> Guard(s, e)
  {
    match BeforeDispatch(s, e)
    case None => QuietConserves(s, e);
    case Some((before, tick)) => DispatchConservesIff(s, e, before, tick);
  }

  /** A dispatch from a conserved state keeps it so exactly when it revives no
      dead slot. */
  lemma ScheduleConservesIff(s: Kernel, tick: U32)
    requires WellFormed(s) && Conserved(s)
    ensures Conserved(Schedule(s, tick)) <==>
      !s.tasks[s.current].state.Dead? || TopSet(Candidates(s, tick)) != {}
  {
    hide Schedule, Candidates, TopSet;
    ScheduleKeepsTasks(s, tick);
    ScheduleLive(s, tick);
    LiveOneChange(s.tasks, Schedule(s, tick).tasks, s.current);
  }

  /** A dispatch never mends a count that is off by more than one slot, nor a live
      slot without stacks. */
  lemma ScheduleNeverMends(s: Kernel, tick: U32)
    requires WellFormed(s)
    requires (s.count != Live(s.tasks) && s.count != Live(s.tasks) + 1)
      || (!s.tasks[s.current].state.Dead? && HasNeither(s.tasks[s.current]))
    ensures !Conserved(Schedule(s, tick))
  {
    hide Schedule, Candidates, TopSet;
    ScheduleKeepsTasks(s, tick);
    ScheduleLive(s, tick);
    LiveOneChange(s.tasks, Schedule(s, tick).tasks, s.current);
  }

  lemma DispatchConservesIff(s: Kernel, e: Event, before: Kernel, tick: U32)
    requires WellFormed(s) && Legal(e) && Owned(s) && Conserved(s)
    requires BeforeDispatch(s, e) == Some((before, tick))
    ensures Conserved(Step(s, e)) <==> Guard(s, e)
  {
    hide Schedule, Candidates, Bury, TopSet, Conserved, Live, Owned;
    if (e.Exit? || e.Sleep?) && s.tasks[s.current].state.Dead? {
      DeadCaller(s, e, before);
      ScheduleNeverMends(before, tick);
    } else {
      LiveCaller(s, e, before);
      ScheduleConservesIff(before, tick);
    }
  }

  lemma LiveCaller(s: Kernel, e: Event, before: Kernel)
    requires WellFormed(s) && Legal(e) && Conserved(s)
    requires BeforeDispatch(s, e).Some? && BeforeDispatch(s, e).value.0 == before
    requires e.Exit? || e.Sleep? ==> !s.tasks[s.current].state.Dead?
    ensures before.current == s.current && Conserved(before)
  {
    hide Bury;
    BuryEffect(s, s.current);
    LiveOneChange(s.tasks, before.tasks, s.current);
    LiveBound(s.tasks);
  }

  lemma DeadCaller(s: Kernel, e: Event, before: Kernel)
    requires WellFormed(s) && Legal(e) && Conserved(s) && (e.Exit? || e.Sleep?)
    requires BeforeDispatch(s, e).Some? && BeforeDispatch(s, e).value.0 == before
    requires s.tasks[s.current].state.Dead?
    ensures before.current == s.current
    ensures (before.count != Live(before.tasks) && before.count != Live(before.tasks) + 1)
      || (!before.tasks[s.current].state.Dead? && HasNeither(before.tasks[s.current]))
  {
    hide Bury;
    BuryEffect(s, s.current);
    LiveOneChange(s.tasks, before.tasks, s.current);
    LiveBound(s.tasks);
  }

  lemma BuryEffect(s: Kernel, k: nat)
    requires WellFormed(s) && k < MAX_TASKS
    ensures var r := Bury(s, k);
      && r.current == s.current && r.count == s.count
      && r.tasks == s.tasks[k := s.tasks[k].(dsBase := None, rsBase := None, state := Dead)]
  {}

  /** Every step of the run has its guard. */
  ghost predicate Guarded(s: Kernel, es: seq<Event>)
    requires WellFormed(s) && forall e :: e in es ==> Legal(e)
    decreases es
  {
    es != [] ==> Guard(s, es[0]) && Guarded(Step(s, es[0]), es[1..])
  }

  /** Live-slot conservation over every guarded run. */
  lemma {:induction false} LiveSlotConservation(s: Kernel, es: seq<Event>)
    requires WellFormed(s) && Owned(s) && Conserved(s)
    requires (forall e :: e in es ==> Legal(e)) && Guarded(s, es)
    ensures Conserved(Run(s, es)) && Owned(Run(s, es))
    decreases es
  {
    hide Step, Owned, Conserved, Guard;
    if es != [] {
      StepOwned(s, es[0]);
      StepConservesIff(s, es[0]);
      LiveSlotConservation(Step(s, es[0]), es[1..]);
    }
  }

  /** Without the guard it fails at once: a yield right after initialisation makes
      dead slot 0 a running task without stacks that is not counted. */
  lemma RevivedSlotWitness(vm: Registers, tick: U32)
    requires ValidRegisters(vm)
    ensures var s := Step(Init(vm, 10), Yield(tick));
      s.tasks[0].state.Running? && HasNeither(s.tasks[0]) && s.count == 0 && !Conserved(s)
  {
    hide Schedule, Candidates, TopSet;
    var s := Init(vm, 10);
    InitOwned(vm, 10);
    NobodyToRun(s, tick);
    ScheduleLive(s, tick);
    ScheduleRunsOne(s, tick);
    ScheduleKeepsTasks(s, tick);
  }

  lemma NobodyToRun(s: Kernel, tick: U32)
    requires WellFormed(s) && forall i :: 0 <= i < MAX_TASKS ==> s.tasks[i].state.Dead?
    ensures TopSet(Candidates(s, tick)) == {}
  {
    forall i | 0 <= i < MAX_TASKS
      ensures i !in TopSet(Candidates(s, tick))
    {
      CandidateEffect(s, tick, i);
    }
  }
}
