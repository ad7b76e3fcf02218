// One dispatch, taken apart, and what holds over whole runs of the scheduler:
// who runs, who waits, and who wakes.
module SchedRuns {
  import opened Arith
  import opened TaskModel
  import opened SchedSelect

  // ------------------------------------------------------------ one dispatch

  /** The slot vm_schedule ends up with. */
  function Dispatched(s: Kernel, tick: U32): (k: nat)
    requires WellFormed(s)
    ensures k < MAX_TASKS
  {
    Selected(Candidates(s, tick), s.current)
  }

  /** Whether vm_schedule stays in the current slot without restoring stacks. */
  predicate Stays(s: Kernel, tick: U32)
    requires WellFormed(s)
  {
    var k := Dispatched(s, tick);
    var t := Candidates(s, tick)[s.current];
    k == s.current && !t.state.Dead? && !t.state.Blocked?
  }

  /** vm_schedule touches, beyond what parking and waking do, the state of the slot
      it picks, and unless it stays that slot's run counter, the switch counter and
      the stacks. */
  lemma ScheduleEffect(s: Kernel, tick: U32)
    requires WellFormed(s)
    ensures var r, k, c, p := Schedule(s, tick), Dispatched(s, tick), Candidates(s, tick), Park(s);
      && r.current == k
      && r.tasks[k] == c[k].(state := Running,
           execCount := if Stays(s, tick) then c[k].execCount else (c[k].execCount + 1) % M16)
      && r.switches == (if Stays(s, tick) then s.switches else (s.switches + 1) % M32)
      && (forall i :: 0 <= i < MAX_TASKS && i != k ==> r.tasks[i] == c[i])
      && r.heap == p.heap && r.nextBlock == s.nextBlock
      && r.count == s.count && r.nesting == s.nesting && r.badFree == s.badFree
      && r.preemptions == s.preemptions && r.timeSlice == s.timeSlice
      && r.vm == (if Stays(s, tick) then s.vm else Restore(p.(tasks := c), k).vm)
      && r.overrun == (p.overrun || (!Stays(s, tick) &&
           (Overruns(p.heap, c[k].dsBase, c[k].dsDepth) || Overruns(p.heap, c[k].rsBase, c[k].rsDepth))))
  {
    hide Choice, SaveBlock, Overruns, RestoreArray;
  }

  /** Parking changes the current slot only, and of a running task only. */
  lemma ParkEffect(s: Kernel)
    requires WellFormed(s)
    ensures var p, k := Park(s), s.current;
      && (forall i :: 0 <= i < MAX_TASKS && i != k ==> p.tasks[i] == s.tasks[i])
      && p.tasks[k] == (if s.tasks[k].state.Running?
           then s.tasks[k].(dsDepth := s.vm.sp % M8, rsDepth := s.vm.rp % M8, state := Ready) else s.tasks[k])
      && p.heap.Keys == s.heap.Keys
      && p.vm == s.vm && p.current == s.current && p.count == s.count && p.badFree == s.badFree
  {}

  /** What selection sees of a slot. */
  lemma CandidateEffect(s: Kernel, tick: U32, i: nat)
    requires WellFormed(s) && i < MAX_TASKS
    ensures Candidates(s, tick)[i] == WakeTask(Park(s).tasks[i], tick)
  {
    hide Park;
  }

  // ------------------------------------------------------------ who runs

  /** At most one task is running, and it is the current one. */
  predicate OnlyCurrentRuns(s: Kernel)
    requires WellFormed(s)
  {
    forall i :: 0 <= i < MAX_TASKS && s.tasks[i].state.Running? ==> i == s.current
  }

  /** After every dispatch exactly one task is running: the current one. */
  lemma ScheduleRunsOne(s: Kernel, tick: U32)
    requires WellFormed(s) && OnlyCurrentRuns(s)
    ensures var r := Schedule(s, tick);
      r.tasks[r.current].state.Running? && OnlyCurrentRuns(r)
  {
    hide Schedule, Park, Candidates, Dispatched, Stays;
    ScheduleEffect(s, tick);
    ParkEffect(s);
    forall i | 0 <= i < MAX_TASKS
      ensures !Candidates(s, tick)[i].state.Running?
    {
      CandidateEffect(s, tick, i);
    }
  }

  lemma {:induction false} BuryFromEffect(s: Kernel, k: nat)
    requires WellFormed(s) && k <= MAX_TASKS
    ensures var r := BuryFrom(s, k);
      && r.current == s.current
      && (forall i :: 0 <= i < k ==> r.tasks[i] == s.tasks[i])
      && (forall i :: k <= i < MAX_TASKS ==>
           r.tasks[i] == s.tasks[i].(dsBase := None, rsBase := None, state := Dead))
    decreases MAX_TASKS - k
  {
    if k < MAX_TASKS { BuryFromEffect(Bury(s, k), k + 1); }
  }

  lemma StepRunsOne(s: Kernel, e: Event)
    requires WellFormed(s) && Legal(e) && OnlyCurrentRuns(s)
    ensures OnlyCurrentRuns(Step(s, e))
    ensures BeforeDispatch(s, e).Some? ==> Step(s, e).tasks[Step(s, e).current].state.Running?
  {
    hide Schedule, SpawnTask, Bury, BuryFrom, OnlyCurrentRuns, BeforeDispatch;
    match BeforeDispatch(s, e)
    case Some((before, tick)) =>
      BeforeRunsOne(s, e);
      ScheduleRunsOne(before, tick);
    case None => QuietRunsOne(s, e);
  }

  lemma BeforeRunsOne(s: Kernel, e: Event)
    requires WellFormed(s) && Legal(e) && OnlyCurrentRuns(s) && BeforeDispatch(s, e).Some?
    ensures OnlyCurrentRuns(BeforeDispatch(s, e).value.0)
  {
    hide FreeBlock;
  }

  lemma QuietRunsOne(s: Kernel, e: Event)
    requires WellFormed(s) && Legal(e) && OnlyCurrentRuns(s) && BeforeDispatch(s, e).None?
    ensures OnlyCurrentRuns(Step(s, e))
  {
    hide FirstDead, Bury, BuryFrom;
    if e.Cleanup? { BuryFromEffect(s, 0); }
  }

  /** In every reachable state, with no side condition, at most one task is
      running and it is the current one. */
  lemma {:induction false} RunningIsCurrent(s: Kernel, es: seq<Event>)
    requires WellFormed(s) && OnlyCurrentRuns(s) && forall e :: e in es ==> Legal(e)
    ensures OnlyCurrentRuns(Run(s, es))
    decreases es
  {
    hide Step;
    if es != [] {
      StepRunsOne(s, es[0]);
      RunningIsCurrent(Step(s, es[0]), es[1..]);
    }
  }

  lemma InitRunsNone(vm: Registers, timeSlice: U32)
    requires ValidRegisters(vm)
    ensures OnlyCurrentRuns(Init(vm, timeSlice))
  {}

  // ------------------------------------------------------------ who waits

  datatype Dispatch = Dispatch(top: set<nat>, chosen: nat)

  /** The dispatches of a run: the top tasks at that moment and the slot chosen. */
  ghost function Dispatches(s: Kernel, es: seq<Event>): seq<Dispatch>
    requires WellFormed(s) && forall e :: e in es ==> Legal(e)
    decreases es
  {
    if es == [] then []
    else
      (match BeforeDispatch(s, es[0])
       case Some((before, tick)) => [Dispatch(TopSet(Candidates(before, tick)), Step(s, es[0]).current)]
       case None => []) + Dispatches(Step(s, es[0]), es[1..])
  }

  function Chosen(ds: seq<Dispatch>): (r: seq<nat>)
    ensures |r| == |ds|
  {
    if ds == [] then [] else [ds[0].chosen] + Chosen(ds[1..])
  }

  lemma StepChooses(s: Kernel, e: Event)
    requires WellFormed(s) && Legal(e)
    ensures match BeforeDispatch(s, e)
      case Some((before, tick)) =>
        var turns := Turns(TopSet(Candidates(before, tick)), s.current);
        Step(s, e).current == if turns == [] then s.current else turns[0]
      case None => Step(s, e).current == s.current
  {
    hide Schedule, FreeBlock, FirstDead, Candidates, Turns, TopSet;
    match BeforeDispatch(s, e)
    case Some((before, tick)) => ScheduleEffect(before, tick);
    case None => if e.Cleanup? { BuryFromEffect(s, 0); }
  }

  /** Bounded waiting. Over any run, with spawns, stack changes and critical
      sections in between, at whose dispatches the runnable tasks of top priority
      are the set c each time: |c| dispatches make each member of c current
      exactly once, in cyclic slot order from the slot that was current. */
  lemma {:induction false} BoundedWaiting(s: Kernel, es: seq<Event>, c: set<nat>)
    requires WellFormed(s) && forall e :: e in es ==> Legal(e)
    requires c != {} && forall x :: x in c ==> x < MAX_TASKS
    requires forall d :: d in Dispatches(s, es) ==> d.top == c
    requires |Dispatches(s, es)| <= |c|
    ensures var n := |Dispatches(s, es)|;
      && |Turns(c, s.current)| == |c| && multiset(Turns(c, s.current)) == multiset(c)
      && Chosen(Dispatches(s, es)) == Turns(c, s.current)[..n]
    decreases es
  {
    hide Step, BeforeDispatch, Turns, TopSet, Candidates;
    TurnsListOnce(c, s.current);
    if es != [] {
      StepChooses(s, es[0]);
      var s' := Step(s, es[0]);
      var rest := Dispatches(s', es[1..]);
      var all := Dispatches(s, es);
      if BeforeDispatch(s, es[0]).Some? {
        assert all[0] in all && all[1..] == rest;
        var turns := Turns(c, s.current);
        assert s'.current == turns[0];
        TurnsRotate(c, s.current);
        BoundedWaiting(s', es[1..], c);
        assert (turns[1..] + [turns[0]])[..|rest|] == turns[1..][..|rest|];
      } else {
        assert all == rest;
        BoundedWaiting(s', es[1..], c);
      }
    }
  }

  /** A task chosen by selection has a priority of at least 1; with no such task
      runnable, vm_schedule makes the current slot running, dead or blocked
      though it may be. */
  lemma FallbackKeepsCurrent(s: Kernel, tick: U32)
    requires WellFormed(s)
    ensures var r, c := Schedule(s, tick), Candidates(s, tick);
      if exists j :: 0 <= j < MAX_TASKS && Runnable(c[j]) && c[j].priority > 0
      then IsSelection(c, s.current, r.current)
      else r.current == s.current && r.tasks[s.current].state.Running?
  {
    hide Schedule, Candidates, Choice;
    ScheduleEffect(s, tick);
    NoChoice(Candidates(s, tick), s.current);
    ChoiceIsSelection(Candidates(s, tick), s.current);
  }

  // ------------------------------------------------------------ who wakes

  predicate Asleep(s: Kernel, k: nat, deadline: U32)
    requires WellFormed(s)
  {
    k < MAX_TASKS && k != s.current && s.tasks[k].state.Blocked? && s.tasks[k].sleepUntil == deadline
  }

  /** The dispatch, if e makes one, finds a runnable task of priority at least 1. */
  ghost predicate FindsTask(s: Kernel, e: Event)
    requires WellFormed(s)
  {
    match BeforeDispatch(s, e)
    case Some((before, tick)) => TopSet(Candidates(before, tick)) != {}
    case None => true
  }

  lemma TopSetNonempty(tasks: seq<Task>)
    ensures TopSet(tasks) != {} <==> exists j :: 0 <= j < |tasks| && Runnable(tasks[j]) && tasks[j].priority > 0
  {
    var p := TopPriority(tasks);
    if p > 0 {
      var i :| 0 <= i < |tasks| && Runnable(tasks[i]) && tasks[i].priority == p;
      assert i in TopSet(tasks);
    }
  }

  /** One dispatch and one sleeper. Before its deadline it sleeps on, and is
      dispatched only if it is itself the current slot and nobody is found; from
      the deadline on it is ready, or running if chosen. */
  lemma ScheduleSleeper(s: Kernel, tick: U32, k: nat)
    requires WellFormed(s) && k < MAX_TASKS && s.tasks[k].state.Blocked?
    ensures var r, deadline := Schedule(s, tick), s.tasks[k].sleepUntil;
      if tick >= deadline then r.tasks[k].state == if r.current == k then Running else Ready
      else Asleep(r, k, deadline) <==> k != s.current || TopSet(Candidates(s, tick)) != {}
  {
    hide Schedule, Candidates, Park, TopSet, Turns;
    ScheduleEffect(s, tick);
    ParkEffect(s);
    CandidateEffect(s, tick, k);
    ChoiceIsSelection(Candidates(s, tick), s.current);
    TurnsListOnce(TopSet(Candidates(s, tick)), s.current);
  }

  lemma StepSleeper(s: Kernel, e: Event, k: nat, deadline: U32)
    requires WellFormed(s) && Legal(e) && !e.Cleanup? && Asleep(s, k, deadline)
    ensures match BeforeDispatch(s, e)
      case Some((_, tick)) =>
        if tick < deadline then Asleep(Step(s, e), k, deadline)
        else Step(s, e).tasks[k].state == if Step(s, e).current == k then Running else Ready
      case None => Asleep(Step(s, e), k, deadline)
  {
    hide Schedule, FreeBlock, Candidates;
    match BeforeDispatch(s, e)
    case Some((before, tick)) => ScheduleSleeper(before, tick, k);
    case None =>
  }

  /** The run does not shut the system down, and every dispatch in it reads a tick
      before the deadline. */
  ghost predicate AllBefore(s: Kernel, es: seq<Event>, deadline: U32)
    requires WellFormed(s) && forall e :: e in es ==> Legal(e)
    decreases es
  {
    es != [] ==>
      && !es[0].Cleanup?
      && (BeforeDispatch(s, es[0]).Some? ==> BeforeDispatch(s, es[0]).value.1 < deadline)
      && AllBefore(Step(s, es[0]), es[1..], deadline)
  }

  /** Sleep deadlines. A task that sleeps stays blocked, and is chosen by no
      dispatch, over any run whose dispatches read ticks before its deadline,
      whether or not they find a task; the first dispatch from the deadline on
      wakes it, chosen or not. */
  lemma {:induction false} SleepDeadline(s: Kernel, es: seq<Event>, k: nat, deadline: U32)
    requires WellFormed(s) && Asleep(s, k, deadline)
    requires (forall e :: e in es ==> Legal(e)) && AllBefore(s, es, deadline)
    ensures var s' := Run(s, es);
      && Asleep(s', k, deadline)
      && k !in Chosen(Dispatches(s, es))
      && forall e | Legal(e) && !e.Cleanup? && BeforeDispatch(s', e).Some? ::
           BeforeDispatch(s', e).value.1 >= deadline ==>
             Step(s', e).tasks[k].state == if Step(s', e).current == k then Running else Ready
    decreases es
  {
    hide Step, BeforeDispatch;
    if es != [] {
      StepSleeper(s, es[0], k, deadline);
      SleepDeadline(Step(s, es[0]), es[1..], k, deadline);
      var rest := Dispatches(Step(s, es[0]), es[1..]);
      var all := Dispatches(s, es);
      assert if BeforeDispatch(s, es[0]).Some? then all[0].chosen != k && all[1..] == rest else all == rest;
    } else {
      forall e | Legal(e) && !e.Cleanup? && BeforeDispatch(s, e).Some?
          && BeforeDispatch(s, e).value.1 >= deadline
        ensures Step(s, e).tasks[k].state == if Step(s, e).current == k then Running else Ready
      {
        StepSleeper(s, e, k, deadline);
      }
    }
  }

  /** A sleep call puts its caller to sleep exactly when the tick read after the
      call is before the deadline and there is another task to run; once the
      deadline is reached the caller is awake instead. */
  lemma SleepStarts(s: Kernel, now: U32, ms: U32, tick: U32)
    requires WellFormed(s)
    ensures var r, deadline := Step(s, Sleep(now, ms, tick)), (now + ms) % TICKS;
      && (Asleep(r, s.current, deadline) <==> tick < deadline && FindsTask(s, Sleep(now, ms, tick)))
      && (tick >= deadline ==> r.tasks[s.current].state == if r.current == s.current then Running else Ready)
  {
    hide Schedule, Candidates, TopSet;
    var (before, t) := BeforeDispatch(s, Sleep(now, ms, tick)).value;
    ScheduleSleeper(before, t, s.current);
  }

  // ------------------------------------------------------------ tick wrap

  /** The tick an operation hands to its dispatch, if it makes one. */
  function TickOf(e: Event): Option<U32>
  {
    if e.Exit? || e.Sleep? || e.Yield? || e.Isr? then Some(e.tick) else None
  }

  /** The run reads the clock at the true times ts, in milliseconds since power-on,
      all of them from `from` on and before `until`; the clock shows true time
      modulo 2^32. */
  predicate AtTrueTimes(es: seq<Event>, ts: seq<nat>, from: nat, until: nat)
  {
    && |ts| == |es|
    && forall i :: 0 <= i < |es| ==>
      && Legal(es[i]) && !es[i].Cleanup?
      && (TickOf(es[i]).Some? ==> from <= ts[i] < until && TickOf(es[i]).value == ts[i] % TICKS)
  }

  /** A sleep call at true time `start` that reads the clock again at time t, and a
      run of dispatches, all of it before start + ms. */
  ghost predicate CallAndRun(start: nat, ms: U32, t: nat, es: seq<Event>, ts: seq<nat>)
    ensures CallAndRun(start, ms, t, es, ts) ==> forall e :: e in es ==> Legal(e)
  {
    start <= t < start + ms && AtTrueTimes(es, ts, start, start + ms) && forall e :: e in es ==> Legal(e)
  }

  /** A caller of sleep at true time `start`, whose call reads the clock again at
      time t, is still asleep after the run es and chosen by none of its dispatches. */
  ghost predicate SleptThrough(s: Kernel, start: nat, ms: U32, t: nat, es: seq<Event>)
    requires WellFormed(s) && forall e :: e in es ==> Legal(e)
  {
    var r := Step(s, Sleep(start % TICKS, ms, t % TICKS));
    && Asleep(r, s.current, (start + ms) % TICKS)
    && Asleep(Run(r, es), s.current, (start + ms) % TICKS)
    && s.current !in Chosen(Dispatches(r, es))
  }

  lemma {:induction false} TrueTimesBefore(
    s: Kernel, es: seq<Event>, ts: seq<nat>, from: nat, until: nat, deadline: U32)
    requires WellFormed(s) && AtTrueTimes(es, ts, from, until) && forall e :: e in es ==> Legal(e)
    requires forall t: nat {:trigger t % TICKS} :: from <= t < until ==> t % TICKS < deadline
    ensures AllBefore(s, es, deadline)
    decreases es
  {
    hide Step;
    if es != [] {
      assert BeforeDispatch(s, es[0]).Some? ==> TickOf(es[0]) == Some(BeforeDispatch(s, es[0]).value.1);
      TrueTimesBefore(Step(s, es[0]), es[1..], ts[1..], from, until, deadline);
    }
  }

  lemma SameEpoch(start: nat, ms: U32)
    requires start % TICKS + ms < TICKS
    ensures (start + ms) % TICKS == start % TICKS + ms
    ensures forall t: nat {:trigger t % TICKS} ::
      start <= t < start + ms ==> start % TICKS <= t % TICKS < start % TICKS + ms
  {}

  /** A task found by a sleep call is found by the same call reading a later tick. */
  lemma FindsTaskLater(s: Kernel, now: U32, ms: U32, tick: U32, later: U32)
    requires WellFormed(s) && tick <= later && FindsTask(s, Sleep(now, ms, tick))
    ensures FindsTask(s, Sleep(now, ms, later))
  {
    hide Park, TopSet;
    var before := BeforeDispatch(s, Sleep(now, ms, tick)).value.0;
    var c, d := Candidates(before, tick), Candidates(before, later);
    TopSetNonempty(c);
    TopSetNonempty(d);
    var j :| 0 <= j < |c| && Runnable(c[j]) && c[j].priority > 0;
    CandidateEffect(before, tick, j);
    CandidateEffect(before, later, j);
    assert Runnable(d[j]);
  }

  /** No dispatch before its time: a caller of sleep at true time `start` sleeps
      through every run of dispatches at true times before start + ms, exactly when
      the deadline does not wrap around the tick counter and there is another task
      to run at the time of the call (or it asked for no sleep at all). */
  lemma SleepNeverEarlyIff(s: Kernel, start: nat, ms: U32)
    requires WellFormed(s)
    ensures (forall t: nat, es: seq<Event>, ts: seq<nat> ::
        CallAndRun(start, ms, t, es, ts) ==> SleptThrough(s, start, ms, t, es))
      <==> ms == 0 || (start % TICKS + ms < TICKS && FindsTask(s, Sleep(start % TICKS, ms, start % TICKS)))
  {
    hide Step, FindsTask, SleptThrough, AtTrueTimes;
    if ms > 0 {
      if start % TICKS + ms < TICKS && FindsTask(s, Sleep(start % TICKS, ms, start % TICKS)) {
        forall t: nat, es: seq<Event>, ts: seq<nat> | CallAndRun(start, ms, t, es, ts)
          ensures SleptThrough(s, start, ms, t, es)
        {
          NotWrapped(s, start, ms, t, es, ts);
        }
      } else {
        AwakeAtOnce(s, start, ms);
        NoEvents(start, ms);
      }
    }
  }

  /** The call alone, with no run after it. */
  lemma NoEvents(start: nat, ms: U32)
    requires ms > 0
    ensures CallAndRun(start, ms, start, [], [])
  {}

  lemma NotWrapped(s: Kernel, start: nat, ms: U32, t: nat, es: seq<Event>, ts: seq<nat>)
    requires WellFormed(s) && start <= t < start + ms && forall e :: e in es ==> Legal(e)
    requires AtTrueTimes(es, ts, start, start + ms)
    requires start % TICKS + ms < TICKS && FindsTask(s, Sleep(start % TICKS, ms, start % TICKS))
    ensures SleptThrough(s, start, ms, t, es)
  {
    hide Step, FindsTask, AtTrueTimes, AllBefore;
    var now: U32 := start % TICKS;
    var deadline: U32 := (start + ms) % TICKS;
    SameEpoch(start, ms);
    assert now <= t % TICKS < deadline;
    FindsTaskLater(s, now, ms, now, t % TICKS);
    SleepStarts(s, now, ms, t % TICKS);
    var r := Step(s, Sleep(now, ms, t % TICKS));
    TrueTimesBefore(r, es, ts, start, start + ms, deadline);
    SleepDeadline(r, es, s.current, deadline);
  }

  lemma AwakeAtOnce(s: Kernel, start: nat, ms: U32)
    requires WellFormed(s) && ms > 0
    requires !(start % TICKS + ms < TICKS && FindsTask(s, Sleep(start % TICKS, ms, start % TICKS)))
    ensures !SleptThrough(s, start, ms, start, [])
  {
    hide Step, FindsTask;
    var now: U32 := start % TICKS;
    SleepStarts(s, now, ms, now);
    assert start % TICKS + ms >= TICKS ==> (start + ms) % TICKS == start % TICKS + ms - TICKS;
    assert (now + ms) % TICKS == (start + ms) % TICKS;
  }

  // ------------------------------------------------------------ who may interrupt

  function Enters(n: nat): (es: seq<Event>)
    ensures |es| == n && forall e :: e in es ==> e.CriticalEnter?
  {
    if n == 0 then [] else [CriticalEnter] + Enters(n - 1)
  }

  function Exits(n: nat): (es: seq<Event>)
    ensures |es| == n && forall e :: e in es ==> e.CriticalExit?
  {
    if n == 0 then [] else [CriticalExit] + Exits(n - 1)
  }

  lemma {:induction false} EntersCount(s: Kernel, n: nat)
    requires WellFormed(s)
    ensures Run(s, Enters(n)) == s.(nesting := (s.nesting + n) % M8)
    decreases n
  {
    hide Step, BeforeDispatch;
    if n > 0 {
      CriticalSteps(s);
      EntersCount(Step(s, CriticalEnter), n - 1);
      ModAdd(s.nesting + 1, n - 1);
    } else {
      ModAdd(0, s.nesting);
    }
  }

  lemma ModAdd(a: nat, b: nat)
    ensures (a % M8 + b) % M8 == (a + b) % M8
    ensures b < M8 ==> b % M8 == b
  {}

  lemma CriticalSteps(s: Kernel)
    requires WellFormed(s)
    ensures Step(s, CriticalEnter) == s.(nesting := (s.nesting + 1) % M8)
    ensures Step(s, CriticalExit) == s.(nesting := if s.nesting > 0 then s.nesting - 1 else 0)
  {
    hide Schedule, SpawnTask, BuryFrom;
  }

  lemma {:induction false} ExitsCount(s: Kernel, n: nat)
    requires WellFormed(s)
    ensures Run(s, Exits(n)) == s.(nesting := if n <= s.nesting then s.nesting - n else 0)
    decreases n
  {
    hide Step, BeforeDispatch;
    if n > 0 {
      CriticalSteps(s);
      ExitsCount(Step(s, CriticalExit), n - 1);
    }
  }

  /** Nested critical sections: n entries from outside keep the timer interrupt
      from doing anything exactly when n is not a multiple of 256, where the
      8-bit counter is back at zero; n exits after n < 256 entries end them all. */
  lemma CriticalSections(s: Kernel, n: nat, tick: U32)
    requires WellFormed(s) && s.nesting == 0
    ensures var inside := Run(s, Enters(n));
      && (BeforeDispatch(inside, Isr(tick)).None? <==> n % M8 != 0)
      && (n % M8 != 0 ==> Step(inside, Isr(tick)) == inside)
      && (n < M8 ==> Run(inside, Exits(n)) == s)
  {
    hide Run, Step, BeforeDispatch, Enters, Exits;
    EntersCount(s, n);
    var inside := Run(s, Enters(n));
    InterruptBlocked(inside, tick);
    ExitsCount(inside, n);
  }

  lemma InterruptBlocked(s: Kernel, tick: U32)
    requires WellFormed(s)
    ensures BeforeDispatch(s, Isr(tick)).None? <==> s.nesting != 0
    ensures s.nesting != 0 ==> Step(s, Isr(tick)) == s
  {
    hide Schedule, SpawnTask, BuryFrom;
  }
}
