// Task scheduling (scheduler.cpp, task_backend_custom.cpp, task.cpp) as a
// state machine: eight task slots, the VM's stack arrays, and the heap blocks
// that hold the stacks of tasks that are not running.
module TaskModel {
  import opened Arith
  import opened Errors

  /** The platform's millisecond tick is a 32-bit counter. */
  const TICKS := M32

  datatype TaskState = Dead | Ready | Running | Blocked

  /** dsBase and rsBase name heap blocks; None is a null pointer. */
  datatype Task = Task(
    wordIdx: U16, pc: U16,
    dsBase: Option<nat>, rsBase: Option<nat>, dsDepth: Byte, rsDepth: Byte,
    state: TaskState, priority: Byte, sleepUntil: U32,
    dsSize: Byte, rsSize: Byte, execCount: U16)

  const NO_TASK := Task(0, 0, None, None, 0, 0, Dead, 0, 0, 0, 0, 0)

  /** The stack arrays, whole, and their pointers. */
  datatype Registers = Registers(DS: seq<Cell>, sp: nat, RS: seq<Cell>, rp: nat)

  /** overrun: a stack was copied past the end of its block, or from a pointer
      to no block. badFree: a pointer to no block was freed. Both are undefined
      behaviour in C++; here they are remembered. */
  datatype Kernel = Kernel(
    tasks: seq<Task>, current: nat, count: Byte, nesting: Byte,
    timeSlice: U32, switches: U32, preemptions: U32,
    vm: Registers, heap: map<nat, seq<Cell>>, nextBlock: nat,
    overrun: bool, badFree: bool)

  predicate ValidRegisters(r: Registers)
  {
    |r.DS| == DS_SIZE && |r.RS| == RS_SIZE && r.sp <= DS_SIZE && r.rp <= RS_SIZE
  }

  predicate WellFormed(s: Kernel)
  {
    && |s.tasks| == MAX_TASKS && s.current < MAX_TASKS && ValidRegisters(s.vm)
    && (forall i :: 0 <= i < MAX_TASKS ==> s.tasks[i].rsDepth <= RS_SIZE)
  }

  // ------------------------------------------------------------ context

  function Block(heap: map<nat, seq<Cell>>, base: Option<nat>): seq<Cell>
  {
    if base.Some? && base.value in heap then heap[base.value] else []
  }

  /** Copying `src` onto the beginning of `dst`, as far as dst goes. */
  function Overlay(src: seq<Cell>, dst: seq<Cell>): (r: seq<Cell>)
    ensures |r| == |dst|
  {
    if |src| <= |dst| then src + dst[|src|..] else src[..|dst|]
  }

  /** memcpy of the lowest cells of a stack array to a task's block. */
  function SaveBlock(heap: map<nat, seq<Cell>>, base: Option<nat>, part: seq<Cell>): map<nat, seq<Cell>>
  {
    if base.Some? && base.value in heap && part != []
    then heap[base.value := Overlay(part, heap[base.value])] else heap
  }

  predicate Overruns(heap: map<nat, seq<Cell>>, base: Option<nat>, depth: nat)
  {
    base.Some? && depth > |Block(heap, base)|
  }

  /** v4_task_save_context: depths are stored in 8 bits, and that many cells copied. */
  function Save(s: Kernel, k: nat): (r: Kernel)
    requires WellFormed(s) && k < MAX_TASKS
    ensures WellFormed(r)
  {
    var t := s.tasks[k];
    var d, r := s.vm.sp % M8, s.vm.rp % M8;
    var heap1 := SaveBlock(s.heap, t.dsBase, s.vm.DS[..d]);
    var heap2 := SaveBlock(heap1, t.rsBase, s.vm.RS[..r]);
    s.(tasks := s.tasks[k := t.(dsDepth := d, rsDepth := r)], heap := heap2,
       overrun := s.overrun || Overruns(s.heap, t.dsBase, d) || Overruns(heap1, t.rsBase, r))
  }

  /** The lowest `depth` cells of a block that has them, over a stack array. */
  function RestoreArray(heap: map<nat, seq<Cell>>, base: Option<nat>, depth: nat, a: seq<Cell>): (r: seq<Cell>)
    ensures |r| == |a|
  {
    if base.None? then a
    else
      var b := Block(heap, base);
      Overlay(if depth <= |b| then b[..depth] else b, a)
  }

  /** v4_task_restore_context. */
  function Restore(s: Kernel, k: nat): (r: Kernel)
    requires WellFormed(s) && k < MAX_TASKS
    ensures WellFormed(r)
  {
    var t := s.tasks[k];
    s.(vm := Registers(
         RestoreArray(s.heap, t.dsBase, t.dsDepth, s.vm.DS), t.dsDepth,
         RestoreArray(s.heap, t.rsBase, t.rsDepth, s.vm.RS), t.rsDepth),
       overrun := s.overrun || Overruns(s.heap, t.dsBase, t.dsDepth) || Overruns(s.heap, t.rsBase, t.rsDepth))
  }

  // ------------------------------------------------------------ selection

  /** Every sleeper whose deadline is not after `tick` becomes ready. */
  function WakeTask(t: Task, tick: U32): Task
  {
    if t.state.Blocked? && tick >= t.sleepUntil then t.(state := Ready) else t
  }

  function Wake(tasks: seq<Task>, tick: U32): (r: seq<Task>)
    ensures |r| == |tasks|
    ensures forall i :: 0 <= i < |tasks| ==> r[i] == WakeTask(tasks[i], tick)
  {
    seq(|tasks|, i requires 0 <= i < |tasks| => WakeTask(tasks[i], tick))
  }

  predicate Runnable(t: Task) { t.state.Ready? || t.state.Running? }

  /** Greatest priority of a runnable task, 0 when there is none. */
  function TopPriority(tasks: seq<Task>): (p: nat)
    ensures forall i :: 0 <= i < |tasks| && Runnable(tasks[i]) ==> tasks[i].priority <= p
    ensures p > 0 ==> exists i :: 0 <= i < |tasks| && Runnable(tasks[i]) && tasks[i].priority == p
  {
    if tasks == [] then 0
    else
      var n := |tasks| - 1;
      var p := TopPriority(tasks[..n]);
      assert forall i :: 0 <= i < n ==> tasks[i] == tasks[..n][i];
      if Runnable(tasks[n]) && tasks[n].priority > p then tasks[n].priority else p
  }

  /** The runnable tasks of greatest priority, if that is at least 1. */
  function TopSet(tasks: seq<Task>): (c: set<nat>)
    ensures forall i :: i in c ==> i < |tasks|
  {
    var p := TopPriority(tasks);
    set i: nat | i < |tasks| && Runnable(tasks[i]) && tasks[i].priority == p && p > 0
  }

  /** The slot at place i when counting round and round. */
  function At(i: nat): (k: nat)
    ensures k < MAX_TASKS
    ensures i < MAX_TASKS ==> k == i
    ensures MAX_TASKS <= i < 2 * MAX_TASKS ==> k == i - MAX_TASKS
    ensures 2 * MAX_TASKS <= i < 3 * MAX_TASKS ==> k == i - 2 * MAX_TASKS
  {
    i % MAX_TASKS
  }

  /** The members of c among n consecutive slots, in cyclic order, from slot `from`. */
  function Cycle(c: set<nat>, from: nat, n: nat): seq<nat>
    decreases n
  {
    if n == 0 then []
    else (if At(from) in c then [At(from)] else []) + Cycle(c, from + 1, n - 1)
  }

  /** The members of c in the order in which round-robin reaches them from
      `current`: first those strictly after it, current itself last. */
  function Turns(c: set<nat>, current: nat): seq<nat>
  {
    Cycle(c, current + 1, MAX_TASKS)
  }

  /** What selection should find: the first turn among the top tasks. */
  function Choice(tasks: seq<Task>, current: nat): Option<nat>
  {
    var turns := Turns(TopSet(tasks), current);
    if turns == [] then None else Some(turns[0])
  }

  /** v4_task_select_next: without a choice the current slot is kept, whatever
      its state. */
  function Selected(tasks: seq<Task>, current: nat): (k: nat)
    requires |tasks| == MAX_TASKS && current < MAX_TASKS
    ensures k < MAX_TASKS
  {
    TurnsInRange(tasks, current);
    Choice(tasks, current).GetOr(current)
  }

  // ------------------------------------------------------------ vm_schedule

  function SetState(s: Kernel, k: nat, st: TaskState): (r: Kernel)
    requires WellFormed(s) && k < MAX_TASKS
    ensures WellFormed(r)
  {
    s.(tasks := s.tasks[k := s.tasks[k].(state := st)])
  }

  /** The running task, if any, is saved and made ready. */
  function Park(s: Kernel): (r: Kernel)
    requires WellFormed(s)
    ensures WellFormed(r)
  {
    if s.tasks[s.current].state.Running? then SetState(Save(s, s.current), s.current, Ready) else s
  }

  /** The tasks selection looks at: parked, with sleepers woken. */
  function Candidates(s: Kernel, tick: U32): (r: seq<Task>)
    requires WellFormed(s)
    ensures |r| == MAX_TASKS
  {
    Wake(Park(s).tasks, tick)
  }

  /** The stacks of slot k are restored and it becomes the running one. */
  function SwitchTo(s: Kernel, k: nat): (r: Kernel)
    requires WellFormed(s) && k < MAX_TASKS
    ensures WellFormed(r)
  {
    var r := SetState(Restore(s, k), k, Running);
    var t := r.tasks[k];
    r.(tasks := r.tasks[k := t.(execCount := (t.execCount + 1) % M16)],
       current := k, switches := (r.switches + 1) % M32)
  }

  function Schedule(s: Kernel, tick: U32): (r: Kernel)
    requires WellFormed(s)
    ensures WellFormed(r)
  {
    var woken := WakeAll(Park(s), tick);
    var next := Selected(woken.tasks, s.current);
    var cur := woken.tasks[s.current];
    if next == s.current && !cur.state.Dead? && !cur.state.Blocked? then SetState(woken, next, Running)
    else SwitchTo(woken, next)
  }

  function WakeAll(s: Kernel, tick: U32): (r: Kernel)
    requires WellFormed(s)
    ensures WellFormed(r)
  {
    s.(tasks := Wake(s.tasks, tick))
  }

  lemma TurnsInRange(tasks: seq<Task>, current: nat)
    ensures forall k :: k in Turns(TopSet(tasks), current) ==> k in TopSet(tasks)
  {
    CycleMembers(TopSet(tasks), current + 1, MAX_TASKS);
  }

  lemma {:induction false} CycleMembers(c: set<nat>, from: nat, n: nat)
    ensures forall k :: k in Cycle(c, from, n) ==> k in c && k < MAX_TASKS
    decreases n
  {
    if n > 0 { CycleMembers(c, from + 1, n - 1); }
  }

  // ------------------------------------------------------------ operations

  /** One step of the system. A dispatching call carries the ticks it reads from
      the platform clock; Touch is anything the running task does to the stacks;
      dsMem and rsMem are what malloc returns, contents arbitrary. */
  datatype Event =
    | Spawn(wordIdx: U16, wordCount: int, priority: Byte, dsSize: U16, rsSize: U16,
            dsMem: Option<seq<Cell>>, rsMem: Option<seq<Cell>>)
    | Exit(tick: U32)
    | Sleep(now: U32, ms: U32, tick: U32)
    | Yield(tick: U32)
    | Isr(tick: U32)
    | CriticalEnter
    | CriticalExit
    | Touch(regs: Registers)
    | Cleanup

  function StackSize(requested: U16, byDefault: nat): nat
  {
    if requested == 0 then byDefault else requested
  }

  /** What malloc and the running task guarantee. */
  predicate Legal(e: Event)
  {
    && (e.Spawn? ==>
      && (e.dsMem.Some? ==> |e.dsMem.value| == StackSize(e.dsSize, 256))
      && (e.rsMem.Some? ==> |e.rsMem.value| == StackSize(e.rsSize, 64)))
    && (e.Touch? ==> ValidRegisters(e.regs))
  }

  function FirstDead(tasks: seq<Task>): (r: Option<nat>)
    ensures r.Some? ==> r.value < |tasks| && tasks[r.value].state.Dead?
    ensures r.Some? ==> forall i :: 0 <= i < r.value ==> !tasks[i].state.Dead?
    ensures r.None? ==> forall i :: 0 <= i < |tasks| ==> !tasks[i].state.Dead?
  {
    if tasks == [] then None
    else if tasks[0].state.Dead? then Some(0)
    else
      assert forall i :: 1 <= i < |tasks| ==> tasks[i] == tasks[1..][i - 1];
      match FirstDead(tasks[1..])
      case None => None
      case Some(i) => Some(i + 1)
  }

  /** v4_backend_task_spawn: the slot or an error. */
  function SpawnTask(s: Kernel, e: Event): (o: (int, Kernel))
    requires WellFormed(s) && e.Spawn?
    ensures WellFormed(o.1)
  {
    if e.wordIdx >= e.wordCount then (INVALID_WORD_IDX, s)
    else
      match FirstDead(s.tasks)
      case None => (TASK_LIMIT, s)
      case Some(k) =>
        if e.dsMem.None? || e.rsMem.None? then
          (NO_MEMORY, s.(tasks := s.tasks[k := s.tasks[k].(dsBase := None, rsBase := None)]))
        else
          var ds, rs := s.nextBlock, s.nextBlock + 1;
          var t := Task(e.wordIdx, 0, Some(ds), Some(rs), 0, 0, Ready, e.priority, 0,
                        StackSize(e.dsSize, 256) % M8, StackSize(e.rsSize, 64) % M8, 0);
          (k, s.(tasks := s.tasks[k := t],
                 heap := s.heap[ds := e.dsMem.value][rs := e.rsMem.value],
                 nextBlock := s.nextBlock + 2, count := (s.count + 1) % M8))
  }

  function FreeBlock(s: Kernel, base: Option<nat>): (r: Kernel)
    ensures r == s.(heap := r.heap, badFree := r.badFree)
  {
    match base
    case None => s
    case Some(b) => s.(heap := s.heap - {b}, badFree := s.badFree || b !in s.heap)
  }

  /** Both stacks of slot k are freed and the slot is dead. */
  function Bury(s: Kernel, k: nat): (r: Kernel)
    requires WellFormed(s) && k < MAX_TASKS
    ensures WellFormed(r)
  {
    var t := s.tasks[k];
    FreeBlock(FreeBlock(s, t.dsBase), t.rsBase).(
      tasks := s.tasks[k := t.(dsBase := None, rsBase := None, state := Dead)])
  }

  function BuryFrom(s: Kernel, k: nat): (r: Kernel)
    requires WellFormed(s) && k <= MAX_TASKS
    ensures WellFormed(r)
    decreases MAX_TASKS - k
  {
    if k == MAX_TASKS then s else BuryFrom(Bury(s, k), k + 1)
  }

  /** The state in which an operation calls vm_schedule, and the tick it reads
      there; None if it does not call it. */
  function BeforeDispatch(s: Kernel, e: Event): (r: Option<(Kernel, U32)>)
    requires WellFormed(s)
    ensures r.Some? ==> WellFormed(r.value.0)
  {
    match e
    case Exit(tick) => Some((Bury(s, s.current).(count := (s.count - 1) % M8), tick))
    case Sleep(now, ms, tick) =>
      var t := s.tasks[s.current].(sleepUntil := (now + ms) % TICKS, state := Blocked);
      Some((s.(tasks := s.tasks[s.current := t]), tick))
    case Yield(tick) => Some((s, tick))
    case Isr(tick) => if s.nesting > 0 then None else Some((s.(preemptions := (s.preemptions + 1) % M32), tick))
    case _ => None
  }

  function Step(s: Kernel, e: Event): (r: Kernel)
    requires WellFormed(s) && Legal(e)
    ensures WellFormed(r)
  {
    match BeforeDispatch(s, e)
    case Some((before, tick)) => Schedule(before, tick)
    case None =>
      match e
      case Spawn(_, _, _, _, _, _, _) => SpawnTask(s, e).1
      case CriticalEnter => s.(nesting := (s.nesting + 1) % M8)
      case CriticalExit => if s.nesting > 0 then s.(nesting := s.nesting - 1) else s
      case Touch(regs) => s.(vm := regs)
      case Cleanup => BuryFrom(s, 0).(count := 0)
      case _ => s
  }

  /** v4_backend_task_init. The VM's stacks are whatever they were. */
  function Init(vm: Registers, timeSlice: U32): (s: Kernel)
    requires ValidRegisters(vm)
    ensures WellFormed(s)
  {
    Kernel(seq(MAX_TASKS, _ => NO_TASK), 0, 0, 0, if timeSlice > 0 then timeSlice else 10, 0, 0,
           vm, map[], 0, false, false)
  }

  ghost function Run(s: Kernel, es: seq<Event>): (r: Kernel)
    requires WellFormed(s) && forall e :: e in es ==> Legal(e)
    ensures WellFormed(r)
    decreases es
  {
    if es == [] then s else Run(Step(s, es[0]), es[1..])
  }
}
