# A verified model of a user-space round-robin thread scheduler

`scheduler.c` implements cooperative, timer-preempted threads in user space:
every task is a heap record (status, entry routine and argument, a private
stack, a `next` link) kept in a circular singly linked list that the
scheduler singleton reaches through `head` and `current`.
`scheduler_create` allocates a record and its stack and links it in right
after `current`. `scheduler_execute` dispatches round-robin:
`thread_candidate` picks the first record after `current` that is not
TERMINATED, and `schedule` either starts it on its own stack or resumes
it. This repeats until no candidate is left. Then `destroy` frees every
record.

This project models that core in Dafny, in three modules:

- `StackRegion` (`stack.dfy`) models the stack arithmetic. It covers
  `SZ_STACK`, the contract of `memory_align`, and the region `setup_stack`
  carves out of its malloc'd block.
- `ReadyRing` (`ring.dfy`) models the ring on values.
  - Records live in an arena (`seq<Thread>`, where a pointer is an arena
    index and `NULL` is -1).
  - The ring's link order is a sequence of arena indices that starts at
    `head`.
  - It defines candidate selection (`CandidatePos`), one time slice
    (`Slice`), a whole run of the dispatcher (`Run`), and the order in
    which the teardown frees memory (`FreeOrder`, `FreeCalls`).
  - It holds the lemmas about all of these.
- `Scheduler` (`scheduler.dfy`) models the scheduler singleton as the
  class `ThreadScheduler`.
  - Its fields are `threads`, `head` and `current`. It also keeps the set
    of heap blocks it owns (`live`) and a log of every `free()` it made
    (`freed`).
  - Every C function except the timer helpers (`set_timer`,
    `clear_timer`) is a method proved against the `ReadyRing`
    definitions. The ones that write to the scheduler or to a record do
    so in place. `thread_candidate`, `select_next_thread` and
    `setup_stack_pointer` only read.
  - The ghost fields `Ring` and `Cur` give the pointers their meaning:
    `head == Ring[0]` and `current == Ring[Cur]`.
  - The loops of `thread_candidate`, `free_all_threads` and
    `scheduler_execute` are `while` loops with invariants.

The model replaces the context switch with a script.
`setjmp`/`longjmp` and the stack-pointer `asm` transfer control. The
model does not follow those transfers. Instead, `scheduler_execute` is
driven by a script of slice outcomes (`Outcome`): `Yielded` means the
task went through `scheduler_yield`, and `Returned` means its entry
routine returned.

- Each pass of the dispatcher loop (`RunSlice`) schedules the candidate
  and ends its slice the way the script says.
- The loop ends when `schedule` finds no candidate and returns. That is
  the only way `scheduler_execute` reaches `destroy`.
- The loop also stops when the script runs out. In that case nothing has
  been freed.

## Model

| member | source | states |
|---|---|---|
| StackRegion.MemoryAlign | scheduler.c:86 | the aligned stack base is a multiple of the page size, at least the raw address and less than one page above it, and is the least such multiple |
| StackRegion.StackTop | scheduler.c:129 | for an aligned base in the first page of the raw block, the initial stack pointer base + SZ_STACK is SZ_STACK above the base and does not pass the end of the block of SZ_STACK plus one page |
| StackRegion.StackRegionOf | scheduler.c:77-88 | the stack block is SZ_STACK plus one page; the aligned base lies in the first page of the block and base + SZ_STACK stays inside the block |
| ReadyRing.RingClosed | scheduler.c:92-101 | in the circular list every member's next is again a member and never NULL, even for a single record |
| ReadyRing.SetStatus | scheduler.c:135 | writing one record's status keeps the ring's links and changes that member's status only |
| ReadyRing.RingStep | scheduler.c:57 | one next step from a ring member lands on a ring member, whatever the records outside the ring hold |
| ReadyRing.Follow | scheduler.c:52-57 | following next links from a ring member only ever visits ring members |
| ReadyRing.FollowShort | scheduler.c:53 | fewer next steps than the ring has members never come back to the starting record |
| ReadyRing.Circular | scheduler.c:51-60 | following next from any member returns to it after exactly as many steps as the ring has members, never sooner, so the walks from current->next end; records outside the ring play no part |
| ReadyRing.InsertAfter | scheduler.c:91-102 | the order after an insertion: one record more, the new one alone in an empty ring, otherwise right after current with head kept |
| ReadyRing.InsertAfterShape | scheduler.c:96-101 | inserting after current puts the new record right after it, keeps head and current's position, and keeps the order of all other members |
| ReadyRing.InsertAfterMembers | scheduler.c:91-102 | the members after insertion are the old ones plus the new record, nothing else |
| ReadyRing.Relink | scheduler.c:97-100 | the two pointer writes: current now links to the new record, the new record to current's old successor, and no other record and no other field changes |
| ReadyRing.InsertLinks | scheduler.c:96-101 | after relinking, the ring with the new record after current is again a circular list of distinct records |
| ReadyRing.InsertDistinct | scheduler.c:91-102 | a record not yet in the ring appears exactly once after insertion |
| ReadyRing.InsertStatuses | scheduler.c:97-100 | relinking changes no status: the ring's statuses gain only the new record's, right after current's |
| ReadyRing.CreatedBeforeRun | scheduler.c:105-118 | successive scheduler_create calls before the run give one ring member per task, with the first task created at the head |
| ReadyRing.CreationOrder | scheduler.c:91-102 | tasks created before the run sit in the ring as the first one followed by the rest in reverse creation order |
| ReadyRing.ThreeTaskRing | main.c:31-33 | three tasks created in order A, B, C are linked as A, C, B |
| ReadyRing.After | scheduler.c:52-57 | the walk from current->next meets every member other than current once, in ring order |
| ReadyRing.AfterFresh | scheduler.c:170-175 | the walk from current->next never meets the same record twice |
| ReadyRing.CandidatePos | scheduler.c:51-60 | the candidate is never current, is not TERMINATED, and every member between current and it is TERMINATED; there is none exactly when every member other than current is TERMINATED |
| ReadyRing.CandidateAt | scheduler.c:53-56 | the first live record met on the walk is the candidate |
| ReadyRing.NoCandidate | scheduler.c:53-59 | a walk back to current that met only TERMINATED records means no candidate |
| ReadyRing.AfterPosStep | scheduler.c:57 | one step of the walk reaches the next member after current, or current itself after the last |
| ReadyRing.NextLiveIsCandidate | scheduler.c:52-55 | when current->next is not TERMINATED it is the candidate |
| ReadyRing.SliceEnd | scheduler.c:137 | a slice leaves its task SLEEPING (put_thread_to_sleep, line 220) or TERMINATED, and TERMINATED exactly when the entry routine returned |
| ReadyRing.Slice | scheduler.c:141-159 | one dispatch: none exactly when every other member is TERMINATED; otherwise the candidate becomes current and ends its slice SLEEPING or TERMINATED, with every other status unchanged |
| ReadyRing.Run | scheduler.c:210-216 | the dispatcher run keeps the ring size, dispatches at most one task per slice, and finishes only with every member but current TERMINATED |
| ReadyRing.RunStep | scheduler.c:210-216 | a run with a candidate is that candidate's slice followed by the run from where it left off |
| ReadyRing.RunContinues | scheduler.c:210-216 | one more pass of the dispatcher loop appends the dispatched position to the trace and continues from the slice's result |
| ReadyRing.RunStarts | scheduler.c:211 | before the first pass of the dispatcher loop nothing has been dispatched and the whole run is still ahead |
| ReadyRing.RunStops | scheduler.c:210-216 | the loop ends when the script is used up or no candidate is left, and is finished exactly in the second case |
| ReadyRing.TerminatedStays | scheduler.c:137 | TERMINATED is never left: a TERMINATED record stays TERMINATED for the rest of the run |
| ReadyRing.TraceInRing | scheduler.c:141-147 | every dispatched position is a ring position |
| ReadyRing.ReturnedRunsAtMostOnce | scheduler.c:134-138 | when every entry routine returns, no task is dispatched twice and only tasks live at the start are dispatched |
| ReadyRing.AllReturnedFinishes | scheduler.c:210-216 | when every entry routine returns and some task other than current is live, the run finishes after one slice per live task, all TERMINATED |
| ReadyRing.NothingLeft | scheduler.c:141-145 | with no candidate and current TERMINATED the run ends at once with every record TERMINATED |
| ReadyRing.AllReturnedRunsEachOnce | scheduler.c:210-216 | when every entry routine returns, each live task is dispatched exactly once and the run ends with all of them TERMINATED |
| ReadyRing.YieldingRotation | scheduler.c:224-230 | round-robin fairness: while tasks keep yielding, slice i goes to the record i+1 steps after current, in ring order |
| ReadyRing.FreeOrder | scheduler.c:186-193 | destroy frees as many records as the ring holds, and current last |
| ReadyRing.FreeCalls | scheduler.c:163-166 | two free() calls per record: its stack block, then the record |
| ReadyRing.FreeCallsConcat | scheduler.c:169-176 | the free() log of two batches of records is the concatenation of their logs |
| ReadyRing.BlocksOfOwner | scheduler.c:163-166 | a block is owned by a set of records exactly when its owner is one of them |
| ReadyRing.BlocksOfConcat | scheduler.c:169-176 | the blocks of two batches of records are the union of their blocks |
| ReadyRing.FreeCallsCount | scheduler.c:163-166 | each block is freed as many times as its owner is passed to free_thread_memory |
| ReadyRing.FreedExactlyOnce | scheduler.c:186-193 | destroy frees every block of every ring member exactly once and frees no other block |
| ReadyRing.SingleTaskNeverRuns | scheduler.c:51-60 | as written, a lone task is never dispatched, whatever its status and whatever the script: the run finishes at once with nothing changed |
| ReadyRing.LoneLiveCurrentCutShort | scheduler.c:51-60 | as written, in every state where current is the only record that may not be TERMINATED, the run finishes at once with nothing dispatched and nothing changed |
| ReadyRing.LastSurvivorCutShort | scheduler.c:51-60 | as written, two NOT_STARTED tasks with slices ending yield, return, yield, return: the trace is second, first, second, and the run finishes with the second task SLEEPING |
| ReadyRing.CandidateFixed | scheduler.c:51-60 | intended selection: the same candidate when there is one, otherwise current if it is live; none exactly when every record is TERMINATED |
| ReadyRing.RunFixed | scheduler.c:210-216 | with the intended selection a run finishes only when every record is TERMINATED, and TERMINATED is never left |
| ReadyRing.SingleTaskRunsWhenFixed | scheduler.c:51-60 | with the intended selection a lone live task whose first return is at slice k is dispatched k + 1 times and ends TERMINATED; the run is finished exactly when the script goes on past k |
| ReadyRing.SingleTaskExampleFixed | scheduler.c:51-60 | with the intended selection a lone NOT_STARTED task with slices ending yield, return, yield runs twice and the run finishes with it TERMINATED |
| Scheduler.OutsideRing | scheduler.c:63-88 | records outside the ring can be allocated and filled in without changing the ring or its statuses |
| Scheduler.StatusWriteKeepsRecords | scheduler.c:220 | a status write keeps every other field of every record, and the number of records |
| Scheduler.StatusChange | scheduler.c:220 | a status write keeps the ring and its stacks and changes only that member's status |
| Scheduler.Insertion | scheduler.c:96-101 | linking in a record with a stack keeps the ring well formed; the statuses gain the new one after current |
| Scheduler.InsertedBlocks | scheduler.c:105-118 | a created task adds exactly its record and stack blocks to the blocks the scheduler owns |
| Scheduler.NextStillOwned | scheduler.c:170-175 | the next record of the freeing walk still owns both its blocks |
| Scheduler.FreedOneMore | scheduler.c:172-174 | freeing the next record extends the freed prefix of the walk by one |
| Scheduler.OnlyCurrentLeft | scheduler.c:169-176 | once the walk is done, current's two blocks are all that is left |
| Scheduler.ThreadScheduler.constructor | scheduler.c:45-49 | the scheduler starts with head and current NULL and owns nothing |
| Scheduler.ThreadScheduler.CurrentWalkReturns | scheduler.c:52-53 | in every valid state, including one after a failed creation, the walk from current->next visits only ring members and is back at current after exactly as many steps as the ring has members |
| Scheduler.ThreadScheduler.FreeBlock | scheduler.c:164-165 | free() of an owned block: it leaves the owned set and is logged; nothing else changes |
| Scheduler.ThreadScheduler.AllocateThread | scheduler.c:63-74 | on malloc failure NULL and nothing changed; otherwise a fresh NOT_STARTED record with fnc, arg and next NULL, outside the ring |
| Scheduler.ThreadScheduler.SetupStack | scheduler.c:77-88 | -1 with nothing changed on malloc failure; otherwise 0, with the block recorded and only t's stack fields written: the raw address and memory_align of it, which lies inside the block's first page |
| Scheduler.ThreadScheduler.LinkAsOnlyTask | scheduler.c:92-95 | into an empty list the record becomes head and current and its own successor |
| Scheduler.ThreadScheduler.LinkAfterCurrent | scheduler.c:96-101 | the record is linked between current and current->next; head and current stay |
| Scheduler.ThreadScheduler.InsertThreadIntoScheduler | scheduler.c:91-102 | both branches: the ring becomes the old ring with the record after current, statuses likewise; into an empty ring only the record's own next is written, otherwise only current's and the record's next (Relink), and no other record changes |
| Scheduler.ThreadScheduler.Create | scheduler.c:105-118 | -1 when either malloc fails: the record is freed again if it was allocated, and the ring, pointers and existing records are unchanged. Otherwise 0 with a NOT_STARTED record for fnc and arg, its stack set up, inserted after current. The new arena is stated exactly: the old records plus the new one, with only the next links written by insert_thread_into_scheduler changed, and the owned blocks match the ring |
| Scheduler.ThreadScheduler.ThreadCandidate | scheduler.c:51-60 | the loop returns exactly the record CandidatePos names, or NULL when it names none |
| Scheduler.ThreadScheduler.SelectNextThread | scheduler.c:121-125 | the same candidate as thread_candidate |
| Scheduler.ThreadScheduler.SetupStackPointer | scheduler.c:127-131 | the initial stack pointer is SZ_STACK above the aligned base and within the stack block |
| Scheduler.ThreadScheduler.RunNewThread | scheduler.c:134-135 | the started record is RUNNING and nothing else changes |
| Scheduler.ThreadScheduler.MakeCurrent | scheduler.c:147 | current becomes the candidate |
| Scheduler.ThreadScheduler.ResumeThread | scheduler.c:154-156 | the resumed record is RUNNING and nothing else changes |
| Scheduler.ThreadScheduler.StartOrResume | scheduler.c:149-158 | once the candidate is current it is RUNNING, whether started afresh or resumed, and nothing else changes |
| Scheduler.ThreadScheduler.Schedule | scheduler.c:141-159 | without a candidate NULL, with no record and no pointer changed; otherwise the candidate becomes current and RUNNING and no other record or field changes |
| Scheduler.ThreadScheduler.PutThreadToSleep | scheduler.c:219-221 | current is SLEEPING and nothing else changes |
| Scheduler.ThreadScheduler.SchedulerYield | scheduler.c:224-230 | only for SIGALRM; current is SLEEPING and nothing else changes |
| Scheduler.ThreadScheduler.EndSlice | scheduler.c:134-138 | a slice ends with current SLEEPING after a yield or TERMINATED after its entry routine returned |
| Scheduler.ThreadScheduler.RunSlice | scheduler.c:211-213 | one pass of the dispatcher: NULL exactly when Slice has no candidate, with no record changed. Otherwise statuses and current exactly as Slice says, and only the dispatched record's status is written |
| Scheduler.ThreadScheduler.Dispatch | scheduler.c:210-214 | the loop leaves the trace, statuses, current and finished flag exactly as Run says; no record is added and only statuses change |
| Scheduler.ThreadScheduler.Execute | scheduler.c:210-216 | when no candidate is left, every record has been freed in FreeOrder and the scheduler is empty; otherwise statuses and current as Run says and nothing freed. Either way no record's fields other than its status change |
| Scheduler.ThreadScheduler.FreeThreadMemory | scheduler.c:163-166 | the stack block and then the record are freed |
| Scheduler.ThreadScheduler.FreeAllThreads | scheduler.c:169-176 | every member other than current is freed, in ring order from current->next, and only current's blocks remain |
| Scheduler.ThreadScheduler.ResetScheduler | scheduler.c:179-183 | current is freed and head and current are NULL |
| Scheduler.ThreadScheduler.Destroy | scheduler.c:186-193 | nothing is freed when current is NULL; otherwise each record is freed once, others first and current last, and the scheduler is empty |

## Left out

- Context switching is not modelled. `setjmp`/`longjmp`, the saved `jmp_buf`s and the `asm` that loads the stack pointer
  (scheduler.c:130, 153, 157, 211, 227-229) transfer control and do not change any field the model keeps (status, next, head,
  current). The `jmp_buf`s that `setjmp` writes (`scheduler.env` at 211, `current->env` at 227) are not modelled.
  - The dispatcher loop is modelled as the loop those transfers form.
  - What runs inside a slice is abstracted to how the slice ends (`Outcome`).
- The SIGALRM timer (`set_timer`, `clear_timer`, `alarm`, `signal`) and `TRACE` are left out. They are operating-system I/O.
  Preemption is modelled only inside a task's own slice, where a SIGALRM is the call to `scheduler_yield` that `Yielded` stands for.
- ReadyRing.TerminatedStays holds only for the model, where preemption arrives inside a slice.
  - In the code the alarm is armed at scheduler.c:212 before `schedule()` selects a task. It is disarmed only at 214, once no candidate is left.
  - After `run_new_thread` writes TERMINATED (137), the alarm stays armed up to the `longjmp` (153) and through the next selection.
  - A SIGALRM in that window runs `put_thread_to_sleep` (220) on the previous `current`, which can turn a TERMINATED task back into SLEEPING. The model does not capture signals that arrive there.
- `malloc` is not modelled. Its outcome is a parameter of the methods that call it. `page_size()` is the constant `pageSize`.
  `free` is `FreeBlock`, whose `b in live` precondition rules out double frees.
- `memory_align` is given only by its contract (`MemoryAlign`). It is declared in system.h (included at scheduler.c:15), which is outside this model.
- Addresses are unbounded naturals. The 64-bit wrap of `stack.memory + SZ_STACK` is not modelled.
- Scheduler.ThreadScheduler.Execute requires a non-empty ring. The C code dereferences a NULL `current` there
  (scheduler.c:52), so the empty case is undefined behaviour.
- Scheduler.ThreadScheduler.Execute and Dispatch do not model the task that runs past the end of the script. The script stands in for
  the unbounded run, which ends only when no candidate is left. The trace of dispatched tasks is a ghost result (ring positions).
- Scheduler.ThreadScheduler.RunNewThread and EndSlice split `run_new_thread` around the call of the entry routine. The call itself is the slice.
- The program in main.c is not modelled beyond the ring its five `scheduler_create` calls build (CreationOrder, ThreeTaskRing).
- Creation does not check the entry routine. A NULL entry routine is accepted by the code, and the model follows the code.
- Tasks are not dispatched in creation order, and selection never falls back to `current`. The model follows the code (see
  Findings and CreationOrder).

## Findings

| source | as written | input that shows it | evidently intended | confidence | as-written member | corrected member |
|---|---|---|---|---|---|---|
| scheduler.c:51-60 | `thread_candidate` starts at `current->next` and stops at `current`, so `current` is never a candidate | one task created, then `scheduler_execute`: the task is never dispatched. Two tasks, slices ending yield, return, yield: the second task runs, the first returns, the second is resumed once and yields, and then, being `current` and the only live task, it is never resumed again, so the run ends with it SLEEPING | fall back to `current` when it is the only record not TERMINATED, so the run ends only when every task has returned | not executed | ReadyRing.SingleTaskNeverRuns, ReadyRing.LoneLiveCurrentCutShort, ReadyRing.LastSurvivorCutShort | ReadyRing.CandidateFixed, ReadyRing.RunFixed, ReadyRing.SingleTaskRunsWhenFixed, ReadyRing.SingleTaskExampleFixed |
