// The scheduler and its operations on tasks, in place: a task array, the VM's stack
// arrays, and the C heap as a map from block to contents. Each operation is
// proved against its function in TaskModel; selection is the source's single pass.
module Scheduler {
  import opened Arith
  import opened Errors
  import opened Stacks
  import opened TaskModel
  import SchedSelect

  /** memcpy to the beginning of an array. */
  method CopyIn(a: array<Cell>, part: seq<Cell>)
    modifies a
    ensures a[..] == Overlay(part, old(a[..]))
  {
    var n := if |part| <= a.Length then |part| else a.Length;
    var i := 0;
    while i < n
      invariant 0 <= i <= n
      invariant forall j :: 0 <= j < i ==> a[j] == part[j]
      invariant forall j :: i <= j < a.Length ==> a[j] == old(a[j])
    {
      a[i] := part[i];
      i := i + 1;
    }
    assert a[..] == Overlay(part, old(a[..]));
  }

  class TaskScheduler {
    const stacks: VmStacks
    const tasks: array<Task>
    var currentTask: nat
    var taskCount: Byte
    var criticalNesting: Byte
    var timeSliceMs: U32
    var contextSwitches: U32
    var preemptions: U32
    var heap: map<nat, seq<Cell>>
    var nextBlock: nat
    ghost var overrun: bool
    ghost var badFree: bool

    ghost function Abs(): Kernel
      requires stacks.Valid()
      reads this, tasks, stacks, stacks.DS, stacks.RS
    {
      Kernel(tasks[..], currentTask, taskCount, criticalNesting, timeSliceMs, contextSwitches, preemptions,
             Registers(stacks.DS[..], stacks.sp, stacks.RS[..], stacks.rp), heap, nextBlock, overrun, badFree)
    }

    ghost predicate Valid()
      reads this, tasks, stacks, stacks.DS, stacks.RS
    {
      stacks.Valid() && WellFormed(Abs())
    }

    constructor (stacks: VmStacks, timeSlice: U32)
      requires stacks.Valid()
      ensures Valid() && this.stacks == stacks && fresh(tasks)
      ensures Abs() == Init(Registers(stacks.DS[..], stacks.sp, stacks.RS[..], stacks.rp), timeSlice)
    {
      this.stacks := stacks;
      tasks := new Task[MAX_TASKS](_ => NO_TASK);
      currentTask, taskCount, criticalNesting := 0, 0, 0;
      timeSliceMs := if timeSlice > 0 then timeSlice else 10;
      contextSwitches, preemptions := 0, 0;
      heap, nextBlock := map[], 0;
      overrun, badFree := false, false;
    }

    /** memcpy of the bottom of a stack to a task's block, unless there is nothing
        to copy or nowhere to copy it. */
    method CopyOut(base: Option<nat>, part: seq<Cell>)
      modifies `heap, `overrun
      ensures heap == SaveBlock(old(heap), base, part)
      ensures overrun == (old(overrun) || Overruns(old(heap), base, |part|))
    {
      overrun := overrun || Overruns(heap, base, |part|);
      if base.Some? && base.value in heap && |part| > 0 {
        heap := heap[base.value := Overlay(part, heap[base.value])];
      }
    }

    method SaveContext(k: nat)
      requires Valid() && k < MAX_TASKS
      modifies `heap, `overrun, tasks
      ensures Valid() && Abs() == Save(old(Abs()), k)
    {
      hide SaveBlock, Overruns;
      var t := tasks[k];
      var d: Byte, r: Byte := stacks.sp % M8, stacks.rp % M8;
      tasks[k] := t.(dsDepth := d, rsDepth := r);
      CopyOut(t.dsBase, stacks.DS[..d]);
      CopyOut(t.rsBase, stacks.RS[..r]);
      assert stacks.DS[..][..d] == stacks.DS[..d] && stacks.RS[..][..r] == stacks.RS[..r];
    }

    method RestoreContext(k: nat)
      requires Valid() && k < MAX_TASKS
      modifies `overrun, stacks`sp, stacks`rp, stacks.DS, stacks.RS
      ensures Valid() && Abs() == Restore(old(Abs()), k)
    {
      var t := tasks[k];
      overrun := overrun || Overruns(heap, t.dsBase, t.dsDepth) || Overruns(heap, t.rsBase, t.rsDepth);
      if t.dsBase.Some? {
        CopyIn(stacks.DS, Lowest(t.dsBase, t.dsDepth));
      }
      if t.rsBase.Some? {
        CopyIn(stacks.RS, Lowest(t.rsBase, t.rsDepth));
      }
      stacks.sp := t.dsDepth;
      stacks.rp := t.rsDepth;
    }

    /** The lowest cells of a block, or all of it when it is shorter. */
    function Lowest(base: Option<nat>, depth: nat): seq<Cell>
      reads this
    {
      var b := Block(heap, base);
      if depth <= |b| then b[..depth] else b
    }

    /** One pass over the slots wakes sleepers and selects. */
    method SelectNext(tick: U32) returns (k: nat)
      requires Valid()
      modifies tasks
      ensures Valid() && Abs() == old(Abs()).(tasks := Wake(old(tasks[..]), tick))
      ensures k == Selected(tasks[..], currentTask)
    {
      hide Wake, Selected, Best, Runnable;
      ghost var before, woken := tasks[..], Wake(tasks[..], tick);
      var highest := 0;
      var selected := 0xFF;
      var i := 0;
      BestNone(woken);
      while i < MAX_TASKS
        invariant 0 <= i <= MAX_TASKS
        invariant forall j :: 0 <= j < i ==> tasks[j] == woken[j]
        invariant forall j :: i <= j < MAX_TASKS ==> tasks[j] == before[j]
        invariant Best(woken, i, highest, selected)
      {
        if tasks[i].state.Blocked? && tick >= tasks[i].sleepUntil {
          tasks[i] := tasks[i].(state := Ready);
        }
        assert tasks[i] == woken[i];
        BestNext(woken, i, highest, selected);
        if Runnable(tasks[i]) {
          if tasks[i].priority > highest {
            highest := tasks[i].priority;
            selected := i;
          } else if tasks[i].priority == highest && selected != 0xFF {
            if i > currentTask && selected <= currentTask {
              selected := i;
            }
          }
        }
        i := i + 1;
      }
      assert tasks[..] == woken;
      k := if selected == 0xFF then currentTask else selected;
      BestIsSelected(woken, highest, selected);
    }

    /** The pass so far: selected is the best of the first i slots. */
    ghost predicate Best(w: seq<Task>, i: nat, highest: nat, selected: nat)
      requires |w| == MAX_TASKS && i <= MAX_TASKS
      reads `currentTask
    {
      && currentTask < MAX_TASKS
      && (forall j :: 0 <= j < i && Runnable(w[j]) ==> w[j].priority <= highest)
      && (if selected == 0xFF then highest == 0
          else
            && selected < i && Runnable(w[selected]) && w[selected].priority == highest && highest > 0
            && (forall j :: 0 <= j < i && Runnable(w[j]) && w[j].priority == highest ==>
                 SchedSelect.Distance(currentTask, selected) <= SchedSelect.Distance(currentTask, j)))
    }

    lemma BestNone(w: seq<Task>)
      requires |w| == MAX_TASKS && currentTask < MAX_TASKS
      ensures Best(w, 0, 0, 0xFF)
    {}

    /** Looking at one more slot. */
    lemma BestNext(w: seq<Task>, i: nat, highest: nat, selected: nat)
      requires |w| == MAX_TASKS && i < MAX_TASKS && Best(w, i, highest, selected)
      ensures var t := w[i];
        if Runnable(t) && t.priority > highest then Best(w, i + 1, t.priority, i)
        else if Runnable(t) && t.priority == highest && selected != 0xFF && i > currentTask && selected <= currentTask
        then Best(w, i + 1, highest, i)
        else Best(w, i + 1, highest, selected)
    {
      hide Runnable;
    }

    lemma BestIsSelected(w: seq<Task>, highest: nat, selected: nat)
      requires |w| == MAX_TASKS && Best(w, MAX_TASKS, highest, selected)
      ensures Selected(w, currentTask) == if selected == 0xFF then currentTask else selected
    {
      hide Choice;
      SchedSelect.NoChoice(w, currentTask);
      if selected != 0xFF { SchedSelect.SelectionUnique(w, currentTask, selected); }
    }

    /** The switching half of vm_schedule. */
    method SwitchContext(next: nat)
      requires Valid() && next < MAX_TASKS
      modifies `overrun, `currentTask, `contextSwitches, tasks, stacks`sp, stacks`rp, stacks.DS, stacks.RS
      ensures Valid() && Abs() == SwitchTo(old(Abs()), next)
    {
      hide Restore;
      RestoreContext(next);
      tasks[next] := tasks[next].(state := Running);
      tasks[next] := tasks[next].(execCount := (tasks[next].execCount + 1) % M16);
      currentTask := next;
      contextSwitches := (contextSwitches + 1) % M32;
    }

    /** The saving half: a running task is saved and made ready. */
    method ParkCurrent()
      requires Valid()
      modifies `heap, `overrun, tasks
      ensures Valid() && Abs() == Park(old(Abs()))
    {
      hide Save;
      if tasks[currentTask].state.Running? {
        SaveContext(currentTask);
        tasks[currentTask] := tasks[currentTask].(state := Ready);
      }
    }

    method Schedule(tick: U32)
      requires Valid()
      modifies this, tasks, stacks`sp, stacks`rp, stacks.DS, stacks.RS
      ensures Valid() && Abs() == TaskModel.Schedule(old(Abs()), tick)
    {
      hide Park, Wake, Selected, SwitchTo;
      ParkCurrent();
      var next := SelectNext(tick);
      var state := tasks[currentTask].state;
      if next == currentTask && !state.Dead? && !state.Blocked? {
        tasks[currentTask] := tasks[currentTask].(state := Running);
      } else {
        SwitchContext(next);
      }
    }

    method ScheduleFromIsr(tick: U32)
      requires Valid()
      modifies this, tasks, stacks`sp, stacks`rp, stacks.DS, stacks.RS
      ensures Valid() && Abs() == Step(old(Abs()), Isr(tick))
    {
      hide TaskModel.Schedule;
      if criticalNesting > 0 { return; }
      preemptions := (preemptions + 1) % M32;
      Schedule(tick);
    }

    method YieldTask(tick: U32)
      requires Valid()
      modifies this, tasks, stacks`sp, stacks`rp, stacks.DS, stacks.RS
      ensures Valid() && Abs() == Step(old(Abs()), Yield(tick))
    {
      hide TaskModel.Schedule;
      Schedule(tick);
    }

    method SleepTask(now: U32, ms: U32, tick: U32)
      requires Valid()
      modifies this, tasks, stacks`sp, stacks`rp, stacks.DS, stacks.RS
      ensures Valid() && Abs() == Step(old(Abs()), Sleep(now, ms, tick))
    {
      hide TaskModel.Schedule;
      tasks[currentTask] := tasks[currentTask].(sleepUntil := (now + ms) % TICKS, state := Blocked);
      Schedule(tick);
    }

    /** free() both stacks of slot k and mark it dead. */
    method FreeSlot(k: nat)
      requires Valid() && k < MAX_TASKS
      modifies `heap, `badFree, tasks
      ensures Valid() && Abs() == Bury(old(Abs()), k)
    {
      var t := tasks[k];
      if t.dsBase.Some? {
        badFree := badFree || t.dsBase.value !in heap;
        heap := heap - {t.dsBase.value};
      }
      if t.rsBase.Some? {
        badFree := badFree || t.rsBase.value !in heap;
        heap := heap - {t.rsBase.value};
      }
      tasks[k] := t.(dsBase := None, rsBase := None, state := Dead);
    }

    method ExitTask(tick: U32)
      requires Valid()
      modifies this, tasks, stacks`sp, stacks`rp, stacks.DS, stacks.RS
      ensures Valid() && Abs() == Step(old(Abs()), Exit(tick))
    {
      hide TaskModel.Schedule, Bury;
      FreeSlot(currentTask);
      taskCount := (taskCount - 1) % M8;
      Schedule(tick);
    }

    method CleanupTasks()
      requires Valid()
      modifies `heap, `badFree, `taskCount, tasks
      ensures Valid() && Abs() == Step(old(Abs()), Cleanup)
    {
      hide Bury;
      var i := 0;
      while i < MAX_TASKS
        invariant 0 <= i <= MAX_TASKS && Valid() && taskCount == old(taskCount)
        invariant BuryFrom(Abs(), i) == BuryFrom(old(Abs()), 0)
      {
        FreeSlot(i);
        i := i + 1;
      }
      taskCount := 0;
    }

    /** dsMem and rsMem are what the two mallocs return. */
    method SpawnTask(wordIdx: U16, wordCount: int, priority: Byte, dsSize: U16, rsSize: U16,
                     dsMem: Option<seq<Cell>>, rsMem: Option<seq<Cell>>) returns (id: int)
      requires Valid()
      modifies `heap, `nextBlock, `taskCount, tasks
      ensures Valid()
      ensures (id, Abs()) ==
        TaskModel.SpawnTask(old(Abs()), Spawn(wordIdx, wordCount, priority, dsSize, rsSize, dsMem, rsMem))
    {
      if wordIdx >= wordCount { return INVALID_WORD_IDX; }
      var slot := 0;
      while slot < MAX_TASKS && !tasks[slot].state.Dead?
        invariant 0 <= slot <= MAX_TASKS
        invariant forall j :: 0 <= j < slot ==> !tasks[j].state.Dead?
      {
        slot := slot + 1;
      }
      if slot == MAX_TASKS { return TASK_LIMIT; }
      assert FirstDead(tasks[..]) == Some(slot);
      if dsMem.None? || rsMem.None? {
        tasks[slot] := tasks[slot].(dsBase := None, rsBase := None);
        return NO_MEMORY;
      }
      var dsCells, rsCells := StackSize(dsSize, 256), StackSize(rsSize, 64);
      heap := heap[nextBlock := dsMem.value][nextBlock + 1 := rsMem.value];
      tasks[slot] := Task(wordIdx, 0, Some(nextBlock), Some(nextBlock + 1), 0, 0, Ready, priority, 0,
                          dsCells % M8, rsCells % M8, 0);
      nextBlock := nextBlock + 2;
      taskCount := (taskCount + 1) % M8;
      id := slot;
    }

    method EnterCritical()
      requires Valid()
      modifies `criticalNesting
      ensures Valid() && Abs() == Step(old(Abs()), CriticalEnter)
    {
      hide TaskModel.SpawnTask, BuryFrom, TaskModel.Schedule, Bury;
      criticalNesting := (criticalNesting + 1) % M8;
    }

    method ExitCritical()
      requires Valid()
      modifies `criticalNesting
      ensures Valid() && Abs() == Step(old(Abs()), CriticalExit)
    {
      hide TaskModel.SpawnTask, BuryFrom, TaskModel.Schedule, Bury;
      if criticalNesting > 0 {
        criticalNesting := criticalNesting - 1;
      }
    }
  }
}
