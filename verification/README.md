# V4-engine: a Dafny model with proofs

V4-engine is a small C++ virtual machine for Forth-like bytecode with a task
system. This project models four of its parts in Dafny and proves what they
promise, or, where the code departs from what it evidently intends, exactly when
it keeps the promise.

- **Bytecode interpreter** (`Opcodes`, `Semantics`, `Stacks`, `Interpreter`; theorems
  in `Runs`, `Traces`, `Calls`, `OpcodeMeaning`, `Programs`). `Semantics.Run` is the meaning of a program on
  sequences; `Interpreter.Vm.ExecRaw` is `vm_exec_raw` on the two stack arrays with
  `sp`, `rp`, `fp`, and is proved to give the same error code, stacks, frame pointer,
  RAM and host calls through every opcode and nested calls. `fuel` bounds the depth of
  the recursion and is shown not to influence results.
- **Scheduler** (`TaskModel`, `SchedSelect`, `SchedRuns`, `SchedSafety`, `SchedDispatch`,
  `SchedFits`, `SchedSwitch`, `SchedWitness`; in place in `Scheduler`). A run is any list of spawn,
  exit, sleep, yield, timer interrupt, critical-section and cleanup steps, with
  arbitrary clock readings and arbitrary changes of the stacks by the running task. The
  C heap is a map from block to contents. Copying past a block and freeing a pointer to
  no block are undefined in C++; the model remembers them in `overrun` and `badFree`. `badFree` is
  proved never to be set, `overrun` exactly when a dispatch saves stacks that exceed
  their blocks; the theorems about saved stacks ask that it is not set.
- **Message queue** (`MsgRing`, `MsgHistory`). The 16-slot ring as a value, in place, and against a
  bounded filtered FIFO.
- **Memory, MMIO, arena, dictionary** (`Memory`, `Endian`, `Arena`, `Bits`,
  `Dictionary`).

Conventions. The interpreter is the one built with `V4_ENABLE_TASKS=0`, in which the
opcodes 0x90-0x9A are unknown (src/core.cpp:1017-1019); with tasks enabled the results
hold of code that does not reach those bytes as opcodes. The SYS handler and the MMIO
callbacks are arbitrary functions of their arguments and of everything the host has been
asked before, and do not reach into the VM. `vm_panic` returns its error and leaves the VM
as it is. `malloc` succeeds or fails as the environment says. Signed overflow of
ADD, SUB, MUL, INC, DEC and SHL wraps, and so does DIV of -2^31 by -1, which C++ leaves
undefined; DIV and MOD truncate toward zero.

Where the code and its documentation disagree the model follows the code:
`docs/sys-opcodes.md` describes an immediate byte after SYS, but SYS takes its id from the
stack (src/core.cpp:844-866); `include/v4/task.h` gives spawn errors -1, -2 and -3, but the
code returns -20, -23 and -18 (src/task_backend_custom.cpp:81-121).

Departures of the code from its evident intent, each with its exact condition:

- A send appends to the queue if and only if `write_idx` is the slot after the last
  pending message (`MsgRing.SendAppendsIff`), which after k successful receives means
  k divisible by 16 (`MsgRing.WriteIndexHistory`); `MsgRing.StaleMessageWitness` is a run
  where a message is delivered twice. `MsgRing.SendRepaired` is not the code: it is the
  one-line repair, under which every history is a FIFO.
- A task of priority 0 is never selected, and with nobody to select the current slot is
  made running whatever its state (`SchedRuns.FallbackKeepsCurrent`). An operation keeps
  `task_count` right if and only if its guard holds (`SchedSafety.StepConservesIff`);
  `SchedSafety.RevivedSlotWitness` is a run that breaks it.
- A data-stack depth of 256 is saved as 0: a context switch gives the stacks back if and
  only if the depth is below 256 (`SchedSwitch.ContextSwitch`).
  `SchedWitness.FullStackWitness` is a run that loses a full stack.
- Saving compares no depth with the size of a block: a run copies past none if and only
  if at every yield, and every interrupt that dispatches, the running task's stacks are
  within the blocks it was spawned with (`SchedFits.RunOverrunIff`);
  `SchedWitness.OverrunWitness` is a run that does.
- Sleep does not save the stacks: they survive it if and only if the sleeper is picked
  again awake at once, or they equal the last saved ones
  (`SchedSwitch.SleepKeepsOnlySavedStacks`); `SchedWitness.SleepWitness` loses them,
  `SchedWitness.AwakeAtOnceWitness` keeps them.
- A call asking for sleep sleeps until its time, in every run, if and only if the
  deadline does not wrap around the tick counter and there is another task of priority 1
  or more to run (`SchedRuns.SleepNeverEarlyIff`, `SchedRuns.SleepStarts`);
  `SchedWitness.EarlyWakeWitness` is a run in which the wrapped deadline ends it at once.
- The arena refuses and accepts as intended if and only if the end of the block does not
  wrap around `size_t` into the buffer (`Arena.AllocExact`, `Arena.WrapWitness`); over a
  history, blocks stay inside the buffer and apart if and only if that never happens
  (`Arena.ArenaHistory`).
- The interrupt lock is an 8-bit counter: n nested entries lock if and only if n is not a
  multiple of 256 (`SchedRuns.CriticalSections`).

## Model
| member | source | states |
|---|---|---|
| Interpreter.Vm.ExecRaw | src/core.cpp:164-1026 | for every bytecode, dictionary and bound, the array interpreter ends with the error code, stacks, frame pointer, RAM and host calls of the sequence semantics; all array accesses are in bounds |
| Interpreter.Vm.CallWord | src/core.cpp:812-842 | a call is refused for a missing or empty word; otherwise the word runs with its frame at the return-stack top and the caller's frame pointer is put back |
| Interpreter.Vm.Perform | src/core.cpp:173-866 | every opcode but CALL and RET does one step of the sequence semantics, and jumps are reported, not made |
| Interpreter.Vm.BranchOp | src/core.cpp:424-473 | the flag is popped before the jump is decided |
| Interpreter.Vm.SwapOp | src/core.cpp:206-218 | popping twice and pushing twice exchanges the two topmost cells, and drains a stack that is too short |
| Interpreter.Vm.SelectOp | src/core.cpp:475-487 | pops three and pushes the one the flag selects |
| Interpreter.Vm.BinaryOp | src/core.cpp:231-316 | second operand popped first; division by zero consumes both |
| Interpreter.Vm.Load | src/core.cpp:490-502 | a failed load has consumed the address |
| Interpreter.Vm.StoreTo | src/core.cpp:504-516 | address popped before value; a failed store has consumed both |
| Interpreter.Vm.FromROp | src/core.cpp:617-625 | the return stack is popped even when the data stack is full |
| Interpreter.Vm.SetLocal | src/core.cpp:705-719 | the frame checks come before the pop |
| Interpreter.Vm.SysCallOp | src/core.cpp:844-866 | operands in stack order, result pushed, host call recorded |
| Stacks.VmStacks.DsPush | src/core.cpp:99-105 | appends, or reports overflow at 256 and changes nothing |
| Stacks.VmStacks.DsPop | src/core.cpp:107-113 | removes the top, or reports underflow and changes nothing |
| Stacks.VmStacks.RsPush | src/core.cpp:125-131 | appends, or reports overflow at 64 and changes nothing |
| Stacks.VmStacks.FindLocal | src/core.cpp:695-699 | a local exists when there is a frame and it lies below the return-stack top |
| Runs.RunSafe | src/core.cpp:99-147 | every run of any bytes keeps both depths and the frame pointer in their arrays, restores the frame pointer, and never reports a fault as success |
| Traces.DepthsAreReached | src/core.cpp:812-842 | the least return-stack and the greatest data-stack depth that the theorems on runs speak of are those of the states the run goes through, nested calls included |
| Runs.FuelIsIrrelevant | src/core.cpp:170-172 | two bounds that are both enough give the same outcome |
| Runs.FrameRule | src/core.cpp:164-869 | a run that never underflows does the same on top of any other operands that fit, and leaves them untouched |
| Calls.CallConfinement | src/core.cpp:812-842 | a call changes the return stack only at or above the least depth reached during it, and the frame pointer is back on success and on error |
| Calls.RunConfined | src/core.cpp:607-810 | the same for any part of a run whose frame starts no lower |
| Calls.ForwardTerminates | src/core.cpp:424-473 | code that jumps forward and calls earlier words terminates within the length of the code it can reach, with at most one instruction per remaining byte in an activation |
| OpcodeMeaning.BinaryOpcodes | src/core.cpp:231-422 | for each arithmetic, comparison, logic and shift byte and any stack, the relation the result must have to its operands; division by zero consumes them, and too few are drained |
| OpcodeMeaning.StackOpcodes | src/core.cpp:188-229 | the stack picture of each shuffling, unary and constant byte on any stack with the operands it needs, and its underflow and overflow with the stack each leaves |
| OpcodeMeaning.MemoryOpcodes | src/core.cpp:490-605 | width, operand order, sign extension and failure of each load and store byte; with too few operands the stack is drained and memory untouched |
| OpcodeMeaning.ReturnStackOpcodes | src/core.cpp:607-635 | the return-stack bytes with any stacks and with or without a frame: what moves, and which stack is already popped when the other overflows |
| OpcodeMeaning.ShortLocalOpcodes | src/core.cpp:737-783 | the bytes for locals 0 and 1 do what the indexed opcodes do at that index, in success and in failure |
| OpcodeMeaning.LocalOpcodes | src/core.cpp:691-810 | which cell each indexed local opcode moves or counts; without a frame, without that local, at a full or an empty data stack it fails with that fault and changes nothing |
| OpcodeMeaning.LiteralOpcodes | src/core.cpp:176-186 | each literal byte pushes the little-endian number of the bytes after it, signed or not as the byte says, or overflows and changes nothing |
| OpcodeMeaning.JumpOpcodes | src/core.cpp:424-473 | anywhere in the code offsets count from the next instruction; which jumps are taken; a missing flag is a fault for JZ and JNZ only; leaving the code is a fault after the pop |
| OpcodeMeaning.CallOpcode | src/core.cpp:812-842 | the word index is little-endian; the caller goes on only if the word returned |
| OpcodeMeaning.SysOpcode | src/core.cpp:844-866 | argument order of the handler, -1 without one; with fewer than four operands the stack is drained and nobody is called |
| Programs.InstructionAnywhere | src/core.cpp:164-173 | an instruction does anywhere in a program what it does alone, and the program goes on after it in the state it leaves |
| Programs.StraightLine | src/core.cpp:164-173 | straight-line code runs its instructions one after the other, each as it runs alone, up to the first fault |
| Programs.RetIsNeeded | src/core.cpp:1022-1024 | straight-line code in which nothing fails returns if RET follows it, and otherwise fell off the end, in the same state |
| Programs.EndOfCode | src/core.cpp:1022-1024 | reaching the end of the code, empty code included, is the fault of falling off |
| Programs.LastInstruction | src/core.cpp:1022-1024 | an instruction at the end of the code fails as it does alone, or the run falls off after it |
| Programs.JumpToEnd | src/core.cpp:424-473 | a jump to the end of the code falls off there, its flag popped |
| Programs.CallAtEnd | src/core.cpp:812-842 | a returning call at the end of the code falls off after it, the caller's frame put back |
| Programs.UnknownByte | src/core.cpp:1017-1019 | a byte that is no opcode stops the run there and changes nothing |
| Programs.CutOff | src/core.cpp:176-184 | an opcode whose immediate the end of the code cuts off stops the run with its truncation fault and changes nothing |
| Programs.InstructionCutOff | src/core.cpp:424-432 | every nonempty proper prefix of an instruction is cut off so |
| Programs.FaultCodes | include/v4/errors.def:2-20 | the error code of every fault |
| Arith.TruncDivision | src/core.cpp:265-274 | quotient and remainder satisfy the division equation, with the remainder's sign that of the dividend |
| Arith.DivisionFits | src/core.cpp:265-274 | division of cells overflows for one pair of operands only |
| Opcodes.DispatchInvertsTable | include/v4/opcodes.def:2-72 | every opcode number of the table reaches its own case of the switch |
| Opcodes.FetchFollowsTable | src/core.cpp:176-184 | the hand-written reads of all opcodes have the width and truncation error of the table's immediate kind |
| Opcodes.FetchInvertsEncode | src/core.cpp:151-160 | fetching at an encoded instruction gives it back, sign extension included |
| Opcodes.AssembleThenDisassemble | include/v4/opcodes.def:2-72 | assembling any list of instructions and fetching it through gives the list, with no truncation |
| Opcodes.DisassembleThenAssemble | src/core.cpp:638-688 | bytes that fetch through are exactly the assembly of their listing |
| Endian.LoadIsLittleEndian | src/memory.cpp:12-26 | combining bytes with shifts and ORs gives the little-endian value |
| Endian.StoreIsLittleEndian | src/memory.cpp:16-31 | shifting and masking writes the little-endian digits |
| Memory.RamIsByteMap | src/memory.cpp:47-151 | after any history of accesses each RAM byte is the one from the last successful write that covers it |
| Memory.StoreThenLoad | src/memory.cpp:97-99 | a load after a store gives the stored value cut to the width |
| Memory.LoadThenStore | src/memory.cpp:70-72 | storing back what was loaded changes nothing |
| Memory.WideReadsAreNarrowReads | src/memory.cpp:103-126 | a wide read is the little-endian combination of the narrower reads it covers |
| Memory.FailedAccessChangesNothing | include/v4/internal/memory.hpp:21-31 | a failed access leaves RAM alone; when exactly a RAM write succeeds |
| Memory.RamAccess | src/memory.cpp:62-151 | which error a RAM access gives, in the order of the checks; a successful read is the bytes little-endian; a failed access changes nothing |
| Memory.DeviceAccess | src/memory.cpp:47-85 | an access covered by a window goes to the first such window and never touches RAM; aligned and allowed it is one host call whose error and value come back, otherwise the error is unaligned or, for a forbidden direction, out of bounds |
| Memory.FirstWindowOfAppend | src/memory.cpp:34-44 | appending windows keeps every covered address and searches the new windows only for the others |
| Memory.RegistrationKeepsRoutes | src/memory.cpp:227-241 | no history of registrations, cut short at capacity or not, moves a covered address; any other goes to the first new window that covers it and fits |
| Memory.RegistrationsInOrder | src/memory.cpp:227-241 | over any history the windows are the first 16 of all that were given, in order |
| Memory.MemoryUnit.FindMmio | src/memory.cpp:34-44 | the 32-bit test finds the least window whose integer interval contains the address |
| Memory.MemoryUnit.Read32 | src/memory.cpp:47-73 | window first, then range, then alignment |
| Memory.MemoryUnit.Read16 | src/memory.cpp:115-126 | RAM only, unaligned allowed |
| Memory.MemoryUnit.Read8 | src/memory.cpp:103-113 | RAM only |
| Memory.MemoryUnit.Write32 | src/memory.cpp:75-100 | window first, then range, then alignment; four bytes change |
| Memory.MemoryUnit.Write16 | src/memory.cpp:140-151 | RAM only; two bytes change |
| Memory.MemoryUnit.Write8 | src/memory.cpp:128-138 | RAM only; one byte changes |
| Memory.MemoryUnit.RegisterMmio | src/memory.cpp:227-241 | appends as many windows as fit and reports whether that was all |
| Memory.MemoryUnit.constructor | src/memory.cpp:170-203 | at most 16 configured windows are kept |
| Bits.PowerOfTwoTest | src/arena.cpp:20-22 | the bit test accepts exactly the powers of two |
| Bits.MaskRoundsDown | src/arena.cpp:26 | masking with the complement of align - 1 rounds down to a multiple |
| Arena.MaskRoundsUp | src/arena.cpp:24-26 | the aligned start is the least multiple at or after used, modulo the word size |
| Arena.RoundUpIsLeast | src/arena.cpp:24-26 | no smaller multiple would do |
| Arena.AllocExact | src/arena.cpp:28-36 | the answer is the intended one exactly when the block's end does not wrap into the buffer |
| Arena.AllocGrants | src/arena.cpp:15-37 | without wrap-around a request is granted exactly when some aligned offset at or after used has room for it, at the least such, and used moves to its end |
| Arena.AllocMisfires | src/arena.cpp:28-34 | what a request that wraps around is given, and where used goes |
| Arena.WrapWitness | src/arena.cpp:28-34 | whatever the width of size_t, a request that wraps is granted and lowers used |
| Arena.ArenaHistory | src/arena.cpp:15-45 | over any history blocks are inside the buffer and disjoint exactly when no request wraps into the buffer, and then they are aligned and in order and used stays in the buffer |
| Arena.BumpArena.Allocate | src/arena.cpp:15-37 | the bit expressions compute the rounded offset; a refused request changes nothing |
| Arena.BumpArena.Available | src/arena.cpp:55-61 | used and available add up to the size |
| Dictionary.FindIsLatest | src/core.cpp:1028-1115 | after any history of registrations and resets, lookup returns the index last reported for the name, where that registration's code is, or -1 |
| Dictionary.RegisterOutcome | src/core.cpp:1028-1073 | a registration succeeds exactly when there is code, a free word and room for the name's copy; its index, which error each failure gives, and how far the arena moves |
| Dictionary.WordTable.RegisterWord | src/core.cpp:1028-1070 | order of the checks; a failed registration leaves no word |
| Dictionary.WordTable.FindWord | src/core.cpp:1100-1115 | the backward search finds the newest word of the name |
| Dictionary.WordTable.Reset | src/core.cpp:54-74 | no word is left, and an arena's memory is not touched |
| SchedSelect.ChoiceIsSelection | src/scheduler.cpp:67-117 | the choice has maximum priority and is the first such slot strictly after current, current itself last |
| SchedSelect.NoChoice | src/scheduler.cpp:92-115 | nobody is chosen exactly when no runnable task has priority 1 or more |
| SchedSelect.SelectionUnique | src/scheduler.cpp:95-107 | only one slot qualifies |
| SchedSelect.TurnsListOnce | src/scheduler.cpp:102-106 | the round-robin order from any slot lists each candidate once |
| SchedSelect.TurnsRotate | src/scheduler.cpp:102-106 | taking a turn moves it to the end of the order |
| Scheduler.TaskScheduler.SelectNext | src/scheduler.cpp:59-118 | the single pass wakes every due sleeper and finds the choice, or keeps current |
| Scheduler.TaskScheduler.SaveContext | src/scheduler.cpp:13-35 | depths kept modulo 256 and that many cells copied to the slot's blocks |
| Scheduler.TaskScheduler.RestoreContext | src/scheduler.cpp:37-57 | saved cells copied back and pointers set |
| Scheduler.TaskScheduler.Schedule | src/scheduler.cpp:120-156 | save, wake, select and switch, or stay without restoring |
| Scheduler.TaskScheduler.ScheduleFromIsr | src/scheduler.cpp:158-172 | nothing happens inside a critical section |
| Scheduler.TaskScheduler.SpawnTask | src/task_backend_custom.cpp:75-138 | first dead slot, defaults, both blocks or neither |
| Scheduler.TaskScheduler.ExitTask | src/task_backend_custom.cpp:140-168 | both blocks freed, slot dead, then a dispatch |
| Scheduler.TaskScheduler.SleepTask | src/task_backend_custom.cpp:170-187 | deadline modulo 2^32, blocked before the dispatch |
| Scheduler.TaskScheduler.YieldTask | src/task_backend_custom.cpp:189-198 | a plain dispatch |
| Scheduler.TaskScheduler.CleanupTasks | src/task_backend_custom.cpp:44-73 | every block freed, every slot dead, count zero |
| Scheduler.TaskScheduler.constructor | src/task_backend_custom.cpp:19-42 | all slots dead, no blocks, default time slice |
| Scheduler.TaskScheduler.EnterCritical | src/task.cpp:47-56 | one level deeper, modulo 256 |
| Scheduler.TaskScheduler.ExitCritical | src/task.cpp:58-73 | one level less, not below zero |
| SchedRuns.ScheduleEffect | src/scheduler.cpp:120-156 | a dispatch changes, beyond saving and waking, only the picked slot and the live stacks |
| SchedRuns.RunningIsCurrent | src/scheduler.cpp:120-156 | in every reachable state at most one task runs and it is the current one |
| SchedRuns.InitRunsNone | src/task_backend_custom.cpp:33-39 | initialisation starts a run in which nobody is running |
| SchedRuns.ScheduleRunsOne | src/scheduler.cpp:138-152 | after every dispatch exactly the current one runs |
| SchedRuns.BoundedWaiting | src/scheduler.cpp:59-156 | while the top candidates stay the same set, as many dispatches as it has members make each current exactly once, in cyclic slot order |
| SchedRuns.FallbackKeepsCurrent | src/scheduler.cpp:111-117 | with nobody of priority 1 or more runnable the current slot is made running whatever its state |
| SchedDispatch.DispatchPicks | src/scheduler.cpp:59-118 | in terms of the tasks before it, a dispatch picks one that can run, of greatest priority, first after the current slot going round; with none of priority 1 or more it keeps the current slot |
| SchedDispatch.DispatchSlots | src/scheduler.cpp:120-156 | every field of every slot and every counter after a dispatch: who is saved, woken, picked and counted, and that a task keeps all else |
| SchedDispatch.StepSlots | src/task_backend_custom.cpp:140-198 | the same for exit, sleep, yield and the timer interrupt, with what each does to its caller first |
| SchedDispatch.StepCounters | src/scheduler.cpp:158-172 | which operations move nesting, preemptions, task count, time slice, current slot and live stacks, and how |
| SchedDispatch.ExitFrees | src/task_backend_custom.cpp:148-158 | exit frees exactly its caller's blocks; freeing what is no block, or one block twice, is remembered in every state |
| SchedDispatch.CleanupOutcome | src/task_backend_custom.cpp:44-73 | after cleanup every slot is dead, without stacks, and the heap is empty |
| SchedDispatch.InitState | src/task_backend_custom.cpp:19-42 | every field after initialisation |
| SchedDispatch.TaskKeepsIdentity | src/task_backend_custom.cpp:124-133 | over any run until it exits or the system is shut down a live task stays live and keeps its word, priority and sizes |
| SchedDispatch.NestingOverRuns | src/task.cpp:47-73 | over any run nesting is moved by the critical-section calls alone, and an interrupt does nothing exactly when they leave it above zero |
| SchedRuns.SleepDeadline | src/scheduler.cpp:79-90 | a sleeper is dispatched by no run that stays before its deadline, whether or not its dispatches find a task, and the first dispatch from then on wakes it, chosen or not |
| SchedRuns.SleepStarts | src/task_backend_custom.cpp:170-187 | a sleep call puts its caller to sleep exactly when its deadline is not yet reached and there is another task to run |
| SchedRuns.SleepNeverEarlyIff | src/task_backend_custom.cpp:170-187 | with ticks read as true times modulo 2^32, a caller of sleep is woken and dispatched by no run without shutdown before its time exactly when the deadline does not wrap and another task can run |
| SchedRuns.CriticalSections | src/scheduler.cpp:163-165 | n nested entries hold off the interrupt exactly when n is not a multiple of 256, and n exits undo n entries |
| SchedSafety.BlocksAreOwned | src/task_backend_custom.cpp:19-187 | in every reachable state no stack block is shared, leaked, dangling or freed twice |
| SchedSafety.InitOwned | src/task_backend_custom.cpp:19-42 | initialisation starts a run with no blocks, no live slot and a count of zero, as the run theorems require |
| SchedSafety.StepConservesIff | src/task_backend_custom.cpp:75-187 | an operation keeps task_count and the blocks in line with the live slots exactly when its guard holds |
| SchedSafety.LiveSlotConservation | src/task_backend_custom.cpp:75-187 | over every guarded run task_count is the number of live slots and exactly these own stacks |
| SchedSafety.RevivedSlotWitness | src/scheduler.cpp:111-115 | a yield right after init makes a dead slot run |
| SchedSafety.ScheduleLive | src/scheduler.cpp:120-156 | a dispatch revives a dead slot exactly when current is dead and nobody is chosen |
| SchedFits.ScheduleOverrunIff | src/scheduler.cpp:19-50 | from saved depths that fit, a dispatch copies past a block exactly when the running task's stacks exceed its blocks, and otherwise all saved depths still fit |
| SchedFits.StepOverrunIff | src/task_backend_custom.cpp:75-198 | of all operations only a yield, or an interrupt that dispatches, can copy past a block; exactly when |
| SchedFits.RunOverrunIff | src/scheduler.cpp:13-57 | a run copies past no block exactly when every such operation finds the running task's stacks within its blocks |
| SchedFits.InitFits | src/task_backend_custom.cpp:19-42 | initialisation starts a run as that theorem requires |
| SchedFits.StepKeepsSizes | src/task_backend_custom.cpp:75-187 | a live task keeps its blocks and their sizes until it exits or the system is shut down |
| SchedSwitch.ContextSwitch | src/scheduler.cpp:13-57 | whatever others do in between, as long as nobody's stacks are copied past their block, a task that left through a dispatch finds its stacks again, exactly when its depth is below 256 |
| SchedSwitch.SavedStacksReturn | src/scheduler.cpp:37-57 | a parked task finds at its next dispatch what its slot held, over any run that copies past no block |
| SchedSwitch.SleepKeepsOnlySavedStacks | src/scheduler.cpp:127-133 | stacks survive a sleep exactly when the sleeper is picked again awake at once or they equal the last saved ones; which of the two it finds |
| SchedSwitch.SpawnOutcome | src/task_backend_custom.cpp:75-138 | which error exactly when; a failed spawn changes nothing; a successful one readies the first dead slot with fresh blocks of the requested sizes and empty stacks |
| SchedWitness.OverrunWitness | src/scheduler.cpp:23-26 | a task spawned with one data-stack cell that yields at depth 200 copies past its block |
| SchedWitness.FullStackWitness | src/scheduler.cpp:19 | a task that yields at depth 256 comes back with an empty data stack and its own return stack |
| SchedWitness.SleepWitness | src/scheduler.cpp:127-133 | a task that pushed and slept is dispatched again with the empty stacks it was spawned with |
| SchedWitness.AwakeAtOnceWitness | src/scheduler.cpp:138-144 | a lone task whose deadline is already reached is picked again and keeps what it pushed |
| SchedWitness.EarlyWakeWitness | src/task_backend_custom.cpp:176-181 | a 20 ms sleep asked for 10 ms before the tick counter wraps does not block its caller |
| MsgRing.RemoveView | src/task_backend_custom.cpp:283-291 | receive removes exactly one pending message and keeps the order of the rest |
| MsgRing.SendAppendsIff | src/task_backend_custom.cpp:241-251 | send appends every message exactly when write_idx follows the last pending one |
| MsgRing.SendOutOfStep | src/task_backend_custom.cpp:241-251 | otherwise a stale slot joins the queue and the message is invisible or replaces a pending one |
| MsgRing.WriteIndexHistory | src/task_backend_custom.cpp:225-298 | over every history write_idx is ahead of the end of the queue by the number of successful receives, modulo 16 |
| MsgRing.RingRefinesFifo | src/task_backend_custom.cpp:225-298 | every history with in-step sends, or with the repaired send, answers as a bounded filtered FIFO |
| MsgRing.StaleMessageWitness | src/task_backend_custom.cpp:225-298 | after send a, receive, send b, the next receive returns a again |
| MsgHistory.SendOutcome | src/task_backend_custom.cpp:231-253 | which sends are refused, with which error and no effect, and what an accepted one writes |
| MsgHistory.ReceiveTakesFirst | src/task_backend_custom.cpp:265-297 | receive answers none exactly when no pending message is for this task or for all with the kind asked for, and otherwise takes the first such one |
| MsgHistory.DeliveredWasSent | src/task_backend_custom.cpp:225-298 | over every history, in step or not, a message a task is given was accepted from a sender before, is for that task or for all, and has the kind asked for |
| MsgHistory.FirstReader | src/task_backend_custom.cpp:272-281 | a message sent in step to an empty queue is received by exactly the tasks it is for: every task, for a broadcast |
| MsgRing.MsgQueue.SendMessage | src/task_backend_custom.cpp:225-254 | target check before the full check; one slot written at write_idx |
| MsgRing.MsgQueue.ReceiveMessage | src/task_backend_custom.cpp:256-298 | the in-place search answers and leaves the queue as the receive on values, which MsgHistory.ReceiveTakesFirst characterises |
| MsgRing.MsgQueue.CloseGap | src/task_backend_custom.cpp:283-290 | the in-place shift moves exactly the later messages |
| MsgRing.MsgQueue.Clear | src/task_backend_custom.cpp:30-31 | the queue is all zero |

## Left out
- TASK_* opcodes inside the interpreter (src/core.cpp:870-1015): they swap the stacks under running bytecode; scheduling is modelled at the level of its API.
- Interpreter.Vm.ExecRaw: an MMIO callback or SYS handler that changes the VM it is called from is not modelled.
- Interpreter.Vm.ExecRaw: the run is bounded by a depth of recursion, because a C++ run may not terminate; Runs.FuelIsIrrelevant says the bound does not matter otherwise.
- OpcodeMeaning.BinaryOpcodes: says nothing about the quotient of -2^31 by -1, which C++ leaves undefined.
- SchedSwitch.ContextSwitch: the frame pointer and the program counter are not saved by the code, so nothing is said about them.
- SchedSwitch.SavedStacksReturn: nothing is said of a run after a stack was copied past its block, which C++ leaves undefined.
- Scheduler.TaskScheduler.constructor: initialising a system whose tasks are still alive loses their blocks; runs here start from initialisation.
- v4_backend_task_receive_blocking: its sleep may change the current slot in the middle of its own loop.
- The FreeRTOS backend, the HAL wrapper, bare-metal demos, size tools and the build with task stubs: they depend on code outside these files or only do I/O.
- Panic printing and snapshots, stack inspection, word accessors, vm_exec's null checks, and the platform's critical-section hooks: I/O or one-line accessors.
- Dictionary.RegisterOutcome: a name is a sequence of one-byte characters other than NUL, so its copy takes its length and one byte more.
- Name buffers of the dictionary are values: freeing them, and an arena reset under a live dictionary, are not modelled.
