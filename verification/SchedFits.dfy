// Whether the stacks that are saved fit the blocks they are copied to. The code
// never compares a depth with the size of a block; these are the runs in which
// no copy passes the end of one.
module SchedFits {
  import opened Arith
  import opened TaskModel
  import opened SchedRuns
  import opened SchedSafety

  predicate DepthFits(heap: map<nat, seq<Cell>>, base: Option<nat>, depth: nat)
  {
    base.None? || depth <= |Block(heap, base)|
  }

  /** The saved depths of every slot lie inside its blocks. */
  predicate Fits(s: Kernel)
    requires WellFormed(s)
  {
    forall i :: 0 <= i < MAX_TASKS ==>
      && DepthFits(s.heap, s.tasks[i].dsBase, s.tasks[i].dsDepth)
      && DepthFits(s.heap, s.tasks[i].rsBase, s.tasks[i].rsDepth)
  }

  /** The stacks a dispatch would save fit the blocks of the running task, the
      data-stack depth taken as it is stored, modulo 256. */
  predicate SaveFits(s: Kernel)
    requires WellFormed(s)
  {
    var t := s.tasks[s.current];
    t.state.Running? ==>
      DepthFits(s.heap, t.dsBase, s.vm.sp % M8) && DepthFits(s.heap, t.rsBase, s.vm.rp)
  }

  /** Saving changes contents of blocks, never their sizes. */
  lemma ParkSizes(s: Kernel, base: Option<nat>)
    requires WellFormed(s)
    ensures |Block(Park(s).heap, base)| == |Block(s.heap, base)|
  {}

  /** Parking overruns exactly when the save does not fit, and only then leaves a
      depth that does not fit. */
  lemma ParkFits(s: Kernel)
    requires WellFormed(s) && Fits(s)
    ensures Park(s).overrun <==> s.overrun || !SaveFits(s)
    ensures Fits(Park(s)) <==> SaveFits(s)
  {
    forall i | 0 <= i < MAX_TASKS
      ensures |Block(Park(s).heap, s.tasks[i].dsBase)| == |Block(s.heap, s.tasks[i].dsBase)|
      ensures |Block(Park(s).heap, s.tasks[i].rsBase)| == |Block(s.heap, s.tasks[i].rsBase)|
    {
      ParkSizes(s, s.tasks[i].dsBase);
      ParkSizes(s, s.tasks[i].rsBase);
    }
    if s.tasks[s.current].state.Running? { SaveOverruns(s); }
    ParkEffect(s);
  }

  lemma SaveOverruns(s: Kernel)
    requires WellFormed(s) && s.tasks[s.current].state.Running?
    ensures var t := s.tasks[s.current];
      Park(s).overrun ==
        (s.overrun || Overruns(s.heap, t.dsBase, s.vm.sp % M8) || Overruns(s.heap, t.rsBase, s.vm.rp))
  {}

  /** One dispatch, from a state in which all saved depths fit: it copies past a
      block exactly when the stacks of the running task do not fit its own, and
      otherwise all saved depths still fit. */
  lemma ScheduleOverrunIff(s: Kernel, tick: U32)
    requires WellFormed(s) && Fits(s)
    ensures Schedule(s, tick).overrun <==> s.overrun || !SaveFits(s)
    ensures Fits(Schedule(s, tick)) <==> SaveFits(s)
  {
    hide Schedule, Park, Candidates, Dispatched, Stays, SaveFits, Block;
    ScheduleEffect(s, tick);
    ParkFits(s);
    forall i | 0 <= i < MAX_TASKS
      ensures Candidates(s, tick)[i] == WakeTask(Park(s).tasks[i], tick)
    {
      CandidateEffect(s, tick, i);
    }
  }

  /** The guard of one operation: a yield, or an interrupt outside critical
      sections, finds the stacks of the running task within its blocks. */
  predicate StepFits(s: Kernel, e: Event)
    requires WellFormed(s)
  {
    e.Yield? || (e.Isr? && s.nesting == 0) ==> SaveFits(s)
  }

  predicate SameBlock(s: Kernel, r: Kernel, base: Option<nat>)
  {
    base.Some? ==> base.value in s.heap && base.value in r.heap && r.heap[base.value] == s.heap[base.value]
  }

  /** Slots that are the same, or empty, with their blocks the same. */
  lemma FitsTransfer(s: Kernel, r: Kernel)
    requires WellFormed(s) && WellFormed(r) && Fits(s)
    requires forall i :: 0 <= i < MAX_TASKS ==>
      HasNeither(r.tasks[i]) || (
        && r.tasks[i].dsBase == s.tasks[i].dsBase && r.tasks[i].rsBase == s.tasks[i].rsBase
        && r.tasks[i].dsDepth == s.tasks[i].dsDepth && r.tasks[i].rsDepth == s.tasks[i].rsDepth
        && SameBlock(s, r, s.tasks[i].dsBase) && SameBlock(s, r, s.tasks[i].rsBase))
    ensures Fits(r)
  {}

  lemma OwnedBlock(s: Kernel, i: nat)
    requires WellFormed(s) && Owned(s) && i < MAX_TASKS
    ensures SameBlock(s, s, s.tasks[i].dsBase) && SameBlock(s, s, s.tasks[i].rsBase)
    ensures forall b: nat :: Owns(s.tasks[i], b) ==> b < s.nextBlock
  {
    OwnsItsBlocks(s.tasks, s.heap.Keys, s.nextBlock, i);
  }

  lemma BuryFits(s: Kernel, k: nat)
    requires WellFormed(s) && Owned(s) && Fits(s) && k < MAX_TASKS
    ensures Fits(Bury(s, k)) && Bury(s, k).overrun == s.overrun
  {
    var r := Bury(s, k);
    BuryEffect(s, k);
    forall i | 0 <= i < MAX_TASKS && i != k
      ensures SameBlock(s, r, s.tasks[i].dsBase) && SameBlock(s, r, s.tasks[i].rsBase)
    {
      BuryKeepsOther(s, k, i);
    }
    FitsTransfer(s, r);
  }

  lemma OwnsApart(s: Kernel, i: nat, k: nat)
    requires WellFormed(s) && Owned(s) && i < MAX_TASKS && k < MAX_TASKS && i != k
    ensures forall b: nat :: Owns(s.tasks[i], b) ==> !Owns(s.tasks[k], b)
    ensures s.tasks[i].dsBase.Some? ==> s.tasks[i].dsBase != s.tasks[k].dsBase && s.tasks[i].dsBase != s.tasks[k].rsBase
    ensures s.tasks[i].rsBase.Some? ==> s.tasks[i].rsBase != s.tasks[k].dsBase && s.tasks[i].rsBase != s.tasks[k].rsBase
  {
    var t := s.tasks[i];
    assert t.dsBase.Some? ==> Owns(t, t.dsBase.value);
    assert t.rsBase.Some? ==> Owns(t, t.rsBase.value);
  }

  lemma {:induction false} BuryFromFits(s: Kernel, k: nat)
    requires WellFormed(s) && Owned(s) && Fits(s) && k <= MAX_TASKS
    ensures Fits(BuryFrom(s, k)) && BuryFrom(s, k).overrun == s.overrun
    decreases MAX_TASKS - k
  {
    hide Bury, Owned, Fits;
    if k < MAX_TASKS {
      BuryFits(s, k);
      BuryOwned(s, k);
      BuryFromFits(Bury(s, k), k + 1);
    }
  }

  lemma SpawnFits(s: Kernel, e: Event)
    requires WellFormed(s) && Owned(s) && Fits(s) && Legal(e) && e.Spawn?
    ensures Fits(SpawnTask(s, e).1) && SpawnTask(s, e).1.overrun == s.overrun
  {
    hide FirstDead, OwnedBy;
    var r := SpawnTask(s, e).1;
    forall i | 0 <= i < MAX_TASKS
      ensures SameBlock(s, r, s.tasks[i].dsBase) && SameBlock(s, r, s.tasks[i].rsBase)
    {
      SpawnKeepsOther(s, e, i);
    }
  }

  /** One operation: from a state in which all saved depths fit, it copies past a
      block exactly when its guard fails, and otherwise all of them still fit. */
  lemma StepOverrunIff(s: Kernel, e: Event)
    requires WellFormed(s) && Legal(e) && Owned(s) && Fits(s)
    ensures Step(s, e).overrun <==> s.overrun || !StepFits(s, e)
    ensures Fits(Step(s, e)) <==> StepFits(s, e)
  {
    hide Schedule, SpawnTask, Bury, BuryFrom, Owned, Fits, BeforeDispatch;
    match BeforeDispatch(s, e)
    case Some((before, tick)) =>
      BeforeFits(s, e);
      ScheduleOverrunIff(before, tick);
    case None =>
      QuietFits(s, e);
  }

  lemma BeforeFits(s: Kernel, e: Event)
    requires WellFormed(s) && Legal(e) && Owned(s) && Fits(s) && BeforeDispatch(s, e).Some?
    ensures var before := BeforeDispatch(s, e).value.0;
      Fits(before) && before.overrun == s.overrun && (SaveFits(before) <==> StepFits(s, e))
  {
    hide Bury;
    if e.Exit? {
      BuryFits(s, s.current);
      BuryEffect(s, s.current);
    }
  }

  lemma QuietFits(s: Kernel, e: Event)
    requires WellFormed(s) && Legal(e) && Owned(s) && Fits(s) && BeforeDispatch(s, e).None?
    ensures StepFits(s, e) && Fits(Step(s, e)) && Step(s, e).overrun == s.overrun
  {
    hide SpawnTask, BuryFrom, Owned;
    if e.Spawn? { SpawnFits(s, e); }
    if e.Cleanup? { BuryFromFits(s, 0); }
  }

  /** Every operation of the run has its guard. */
  ghost predicate KeepsWithin(s: Kernel, es: seq<Event>)
    requires WellFormed(s) && forall e :: e in es ==> Legal(e)
    decreases es
  {
    es != [] ==> StepFits(s, es[0]) && KeepsWithin(Step(s, es[0]), es[1..])
  }

  lemma ScheduleOverrunStays(s: Kernel, tick: U32)
    requires WellFormed(s) && s.overrun
    ensures Schedule(s, tick).overrun
  {
    hide Schedule, Candidates, Dispatched, Stays, SaveBlock, Overruns;
    ScheduleEffect(s, tick);
  }

  lemma StepOverrunStays(s: Kernel, e: Event)
    requires WellFormed(s) && Legal(e) && s.overrun
    ensures Step(s, e).overrun
  {
    hide Schedule, FreeBlock, BuryFrom, FirstDead;
    match BeforeDispatch(s, e)
    case Some((before, tick)) => ScheduleOverrunStays(before, tick);
    case None => if e.Cleanup? { BuryFromOverrun(s, 0); }
  }

  lemma {:induction false} BuryFromOverrun(s: Kernel, k: nat)
    requires WellFormed(s) && k <= MAX_TASKS
    ensures BuryFrom(s, k).overrun == s.overrun
    decreases MAX_TASKS - k
  {
    if k < MAX_TASKS { BuryFromOverrun(Bury(s, k), k + 1); }
  }

  lemma {:induction false} OverrunStays(s: Kernel, es: seq<Event>)
    requires WellFormed(s) && s.overrun && forall e :: e in es ==> Legal(e)
    ensures Run(s, es).overrun
    decreases es
  {
    hide Step;
    if es != [] {
      StepOverrunStays(s, es[0]);
      OverrunStays(Step(s, es[0]), es[1..]);
    }
  }

  /** Over whole runs: no stack is ever copied past its block exactly when at every
      yield, and every interrupt that dispatches, the stacks of the running task
      are within the blocks it was spawned with. */
  lemma {:induction false} RunOverrunIff(s: Kernel, es: seq<Event>)
    requires WellFormed(s) && Owned(s) && Fits(s) && !s.overrun && forall e :: e in es ==> Legal(e)
    ensures !Run(s, es).overrun <==> KeepsWithin(s, es)
    ensures KeepsWithin(s, es) ==> Fits(Run(s, es))
    decreases es
  {
    hide Step, Owned, Fits, StepFits;
    if es != [] {
      var s' := Step(s, es[0]);
      StepOverrunIff(s, es[0]);
      StepOwned(s, es[0]);
      if StepFits(s, es[0]) {
        RunOverrunIff(s', es[1..]);
      } else {
        OverrunStays(s', es[1..]);
      }
    }
  }

  lemma InitFits(vm: Registers, timeSlice: U32)
    requires ValidRegisters(vm)
    ensures Fits(Init(vm, timeSlice)) && !Init(vm, timeSlice).overrun
  {}

  /** A live slot keeps its blocks, and they keep the sizes they were spawned with,
      until its task exits or the system is shut down. */
  lemma StepKeepsSizes(s: Kernel, e: Event, k: nat)
    requires WellFormed(s) && Legal(e) && Owned(s) && k < MAX_TASKS && HasBoth(s.tasks[k])
    requires !e.Cleanup? && !(e.Exit? && k == s.current)
    ensures var r, t, u := Step(s, e), s.tasks[k], Step(s, e).tasks[k];
      && u.dsBase == t.dsBase && u.rsBase == t.rsBase
      && |Block(r.heap, u.dsBase)| == |Block(s.heap, t.dsBase)|
      && |Block(r.heap, u.rsBase)| == |Block(s.heap, t.rsBase)|
  {
    hide Schedule, SpawnTask, Park, OwnedBy, Bury;
    var t := s.tasks[k];
    OwnedBlock(s, k);
    assert Owns(t, t.dsBase.value) && Owns(t, t.rsBase.value);
    match BeforeDispatch(s, e)
    case Some((before, tick)) =>
      if e.Exit? { BuryKeepsOther(s, s.current, k); }
      ScheduleKeepsTasks(before, tick);
      ScheduleEffect(before, tick);
      ParkSizes(before, t.dsBase);
      ParkSizes(before, t.rsBase);
    case None =>
      if e.Spawn? { SpawnKeepsOther(s, e, k); }
  }

  lemma BuryKeepsOther(s: Kernel, k: nat, i: nat)
    requires WellFormed(s) && Owned(s) && k < MAX_TASKS && i < MAX_TASKS && i != k
    ensures var r := Bury(s, k);
      r.tasks[i] == s.tasks[i] && SameBlock(s, r, s.tasks[i].dsBase) && SameBlock(s, r, s.tasks[i].rsBase)
  {
    BuryEffect(s, k);
    OwnedBlock(s, i);
    OwnsApart(s, i, k);
  }

  lemma SpawnKeepsOther(s: Kernel, e: Event, i: nat)
    requires WellFormed(s) && Owned(s) && e.Spawn? && i < MAX_TASKS
    ensures var r := SpawnTask(s, e).1;
      && SameBlock(s, r, s.tasks[i].dsBase) && SameBlock(s, r, s.tasks[i].rsBase)
      && (HasBoth(s.tasks[i]) ==> r.tasks[i] == s.tasks[i])
  {
    hide FirstDead;
    var t := s.tasks[i];
    OwnedBlock(s, i);
    assert t.dsBase.Some? ==> Owns(t, t.dsBase.value);
    assert t.rsBase.Some? ==> Owns(t, t.rsBase.value);
  }
}
