# uCore process kernel in Dafny

A Dafny model of the process-management core of the uCore teaching kernel for RV64.
It covers four pieces of C code:

- **The stride-ordered ready queue** (`os/queue.c`). This is a circular buffer of parallel
  `data[]`/`stride[]` arrays with `front`, `tail` and an `empty` flag.
- **The process table** (`os/proc.c`). This is a fixed pool of process records, the task-info
  records beside them, the pid counter, the idle process and `current_proc`. It covers
  `proc_init`, `allocpid`, `allocproc`, one selection step of `scheduler`, `sched`, `yield`,
  `freeproc`, `exit` and `growproc`.
- **The system calls the kernel implements itself** (`os/syscall.c`): `sys_mmap` and
  `sys_munmap` in the lazy build, `sys_set_priority`, `sys_sbrk`, `sys_getppid`, `sys_spawn`,
  the arithmetic of `sys_gettimeofday`, and the `syscall` dispatch that writes the result back
  into `a0`.
- **The trap path** (`os/trap.c`): the cause dispatch of `usertrap`, `unknown_trap`, the
  access-fault resolution, and the trap-frame and `sstatus` writes of `usertrapret`.

Modules, one per file:

| file | module | contents |
|---|---|---|
| `machine.dfy` | `Machine` | 64-bit words, C `int`/`long long`, and the C conversions between them (`U64`, `I32`, `I64`) |
| `queue.dfy` | `Queue` | three layers: `QueueState` with `PushAsWritten`/`PopAsWritten` (what the C code does to the struct), the reference ordered insertion `InsertSorted` on `Entries`, and the class `StrideQueue` that runs the C loops in place on arrays |
| `vm.dfy` | `VM` | the page-table operations that `os/vm.h` only declares, on a map from page addresses to `Reserved(perm)` or `Backed(frame, perm)` |
| `proc.dfy` | `Proc` | the class `ProcTable`, with `pool` and `info` as arrays and `current` and `nextPid` as fields |
| `syscall.dfy` | `Syscall` | the system calls and `Dispatch` |
| `trap.dfy` | `Trap` | `Classify`, `UserTrap`, `UserTrapRet` |

Hardware is not modelled; its values are inputs.
- `scause` and `stval` are parameters of `UserTrap`.
- `satp` and `tp` are fields of `Hart`.
- What `kalloc` returns is the parameter `mem`.
- What the code outside the model returns during a system call is a `World` value. This
  covers `copyinstr`, `fork`/`exec`/`wait`, `get_id_by_name` and `uvmalloc`/`uvmdealloc`.
- The `PageTable` passed to `Dispatch`, `OnEnvCall`, `OnAccessFault` and `UserTrap` stands for
  `curr_proc()->pagetable`, the page table of the process in the current slot (os/trap.c:92,
  os/syscall.c:121). The model keeps that table as a separate object, so nothing ties it to the
  number stored in the slot's `pagetable` field.

Constants defined in headers that are not part of this model are parameters or stated
constants:
- NPROC (`nproc`, with `1 <= nproc <= 1024`).
- BIG_STRIDE.
- The addresses of the kernel stacks, of `usertrap` and of `usertrapret`.
- CPU_FREQ.
- The system-call numbers, taken to be the RISC-V Linux ones, with 400 for `spawn`.
- KSTACK_SIZE (one page, as the `kstack` array in os/proc.c:13 is).
- MAX_SYSCALL_NUM = 500.
- PTE_U = 16.
- STDIN = 0 and STDOUT = 1.

The model follows what the code does in three places where a reader of uCore might expect
otherwise:
- `syscall` does not count system calls per id.
- An exited process has its slot UNUSED and its task info EXITED; there is no EXITED slot
  state.
- `sys_munmap` in the lazy build is not all-or-nothing. This is recorded as a finding below.

## Model

| member | source | states |
|---|---|---|
| Queue.StrideQueue.constructor | os/queue.c:4-9 | a new queue over zeroed buffers is initialised: `front == tail == 0`, `empty`, no entries |
| Queue.StrideQueue.Init | os/queue.c:4-9 | `init_queue` sets `front == tail == 0` and `empty`, so the queue holds no entries; the buffers are not touched |
| Queue.Count | os/queue.c:14-16 | the number of entries is at most NPROC and is 0 exactly when `empty` is set, so `front == tail` is full unless `empty` |
| Queue.ScanIndex | os/queue.c:26-31 | the scan stops at the first index in `[front, tail]` with a larger stored stride, or at `tail + 1`; every index it passes has stride `<=` the new one; it does not run when `tail < front` |
| Queue.StrideQueue.Scan | os/queue.c:26-31 | the scan loop returns exactly `ScanIndex` |
| Queue.StrideQueue.ShiftUp | os/queue.c:37-40 | the shift loop moves slots `i..t-1` up by one and leaves every other slot alone |
| Queue.PushAsWritten | os/queue.c:11-43 | the struct after `push_queue` is well formed and non-empty, `front` is unchanged and `tail` has advanced by one modulo NPROC |
| Queue.StrideQueue.Push | os/queue.c:11-43 | `push_queue` as written, including its scan bound; the new array state is `PushAsWritten` of the old. The preconditions are the two panics of os/queue.c:14-16 and 33-36, and a third: the scan must stop inside the QUEUE_SIZE buffers. That excludes the store `data[QUEUE_SIZE]` of os/queue.c:41, which happens when NPROC equals QUEUE_SIZE, `tail` is NPROC - 1 and the scan passes every slot |
| Queue.PushOntoEmpty | os/queue.c:18-24 | pushing onto an empty queue stores `(value, stride)` at `tail`, clears `empty` and leaves exactly that one entry |
| Queue.PushAsWrittenInserts | os/queue.c:26-42 | with no wrap-around and a scan that stops inside `[front, tail]`, the push as written is the ordered insertion `InsertSorted`: after every entry of stride `<=` the new one, before the first strictly larger one |
| Queue.PushAsWrittenKeepsSorted | os/queue.c:26-42 | under the same condition a sorted queue stays sorted, gains exactly the new entry (multiset), and its count grows by one |
| Queue.InsertSortedPlacement | os/queue.c:26-42 | on a sorted queue the new entry sits after every entry of stride `<=` its own, so equal strides stay first-in first-out, and before every larger one |
| Queue.InsertSortedSorted | os/queue.c:26-42 | the ordered insertion keeps a sorted sequence sorted |
| Queue.InsertSortedMultiset | os/queue.c:26-42 | the ordered insertion adds exactly the new entry and loses none |
| Queue.InsertSortedIndex | os/queue.c:37-42 | entries before the insertion point stay in place, the new entry is at it, and the later ones move up by one |
| Queue.FirstLarger | os/queue.c:27-31 | the insertion point: everything before it has stride `<=` s and the entry at it is larger |
| Queue.FirstLargerUnique | os/queue.c:27-31 | the insertion point is the only index with that property |
| Queue.PopAsWritten | os/queue.c:45-55 | `pop_queue` keeps the struct well formed, never writes `data` or `stride`, and never moves `tail` |
| Queue.StrideQueue.Pop | os/queue.c:45-55 | the array state after `pop_queue`, and its result, are those of `PopAsWritten` |
| Queue.PopEmpty | os/queue.c:48-49 | pop on an empty queue returns -1 and changes nothing |
| Queue.PopFront | os/queue.c:50-54 | pop returns the value of the front entry and leaves the remaining entries in order |
| Queue.PopReturnsMinimum | os/queue.c:45-55 | on a sorted queue pop returns an entry of minimum stride, and the rest stays sorted |
| Queue.StaleSlotLosesEntry | os/queue.c:27-31 | concrete state where the scan reads the stale slot at `tail`, writes the new entry outside the occupied range, and loses it |
| Queue.WrapOverwritesFront | os/queue.c:27-31 | concrete wrapped state where the scan does not run and the push overwrites the front entry |
| Queue.TailWrapSkipsShift | os/queue.c:33-42 | concrete state with `tail` = NPROC - 1 where `tail` wraps to 0, the shift does not run, the entry at the scan index is overwritten and the stale last slot becomes an entry |
| Queue.StrideQueue.FindInsertion | os/queue.c:26-31 | the corrected scan over the occupied entries in queue order returns `FirstLarger` of the entries |
| Queue.StrideQueue.InsertAt | os/queue.c:37-42 | the corrected shift and store, wrapping at NPROC: the positions before k are kept, (value, stride) is at k, and later positions hold their predecessor |
| Queue.RingInsert | os/queue.c:37-42 | that slot-level effect, read through `Entries`, is exactly `InsertSorted` |
| Queue.StrideQueue.PushFixed | os/queue.c:11-43 | the corrected push, with the same fatal conditions as the source: the new entries are `InsertSorted` of the old ones, and the queue stays well formed |
| Queue.CountGrows | os/queue.c:33 | advancing `tail` of a queue that is not full adds one entry |
| Proc.FirstInState | os/proc.c:74-79 | the first-fit scan returns the lowest slot in the wanted state at or after `from`, and none exactly when there is no such slot |
| Proc.ProcTable.constructor | os/proc.c:11-18 | before `proc_init` the globals are zero, `current_proc` is null and the pid counter is 1 |
| Proc.ProcTable.ProcInit | os/proc.c:33-58 | every slot is UNUSED on its own kernel stack and every task info is UnInit with time 0 and all counters 0; idle gets pid 0 and the boot stack and becomes current; every other field is kept |
| Proc.ProcTable.AllocPid | os/proc.c:60-65 | returns the counter and increments it, so pids come out 1, 2, 3, … and none twice |
| Proc.ProcTable.Claimed | os/proc.c:81-94 | a claimed record is USED with the fresh pid; page table, user stack, `max_page`, break and heap bottom are 0; the context is zero except `ra = usertrapret` and `sp = kstack + KSTACK_SIZE`; the trap page is zero |
| Proc.ProcTable.AllocProc | os/proc.c:70-95 | none exactly when no slot is UNUSED, changing nothing; otherwise the lowest UNUSED slot becomes `Claimed` with the next pid and no other slot changes; the new pid differs from every live pid |
| Proc.ProcTable.SchedulerStep | os/proc.c:102-125 | one selection: the first RUNNABLE slot becomes RUNNING, its task info Running, and it becomes current; when there is none nothing changes |
| Proc.ProcTable.Yield | os/proc.c:144-154 | the current process becomes RUNNABLE and nothing else changes; `sched`'s panic condition (still RUNNING) is its precondition, and `yield` meets it |
| Proc.ProcTable.FreeProc | os/proc.c:156-162 | the slot becomes UNUSED and its task info Exited; nothing else changes |
| Proc.ProcTable.Exit | os/proc.c:164-173 | the current process is freed and nothing else changes |
| Proc.ProcTable.Load | os/syscall.c:218 | `loader(id, np)` on an allocated slot writes the program image (trap frame, page table, user stack, `max_page`, break, heap bottom, state) into that slot and changes nothing else; pid, kernel stack, context, parent, priority and pass stay as `allocproc` left them |
| Proc.ProcTable.SetParent | os/syscall.c:219 | `np->parent = p` changes only the parent link of the child slot |
| Proc.ProcTable.SetTrapFrame | os/trap.c:81 | a write into a slot's trap page (`trapframe->epc += 4` here, `trapframe->a0 = ret` at os/syscall.c:310, the fields of `usertrapret`) changes that slot's trap frame and nothing else |
| Proc.ProcTable.Sched | os/proc.c:134-141 | `sched` panics when the current process is still RUNNING, so that is excluded by its precondition; the switch itself changes nothing the model holds |
| Proc.GrowBreak | os/proc.c:177-198 | while the heap size fits an `int`, `growproc` fails exactly when the break would go below the heap bottom or `uvmalloc` returns 0; growing by 0 keeps the break; otherwise the break is what `uvmalloc`/`uvmdealloc` returned |
| Proc.ProcTable.GrowProc | os/proc.c:177-198 | `growproc` returns -1 changing nothing, or returns 0 and sets only `program_brk`, as `GrowBreak` says |
| Proc.GrowShrinkRoundTrip | os/proc.c:187-195 | with exact allocators, growing by n and then shrinking by n restores the break |
| Syscall.PortValid | os/syscall.c:93-94 | the `port` check on a C `int` accepts exactly 1..7 |
| Syscall.RoundUp | os/syscall.c:105 | the rounded length is the smallest multiple of PAGE_SIZE at or above `len`, and an aligned length is unchanged |
| Syscall.RoundUpBound | os/syscall.c:94-105 | an accepted length rounds to an accepted, page-aligned length that is zero only for zero |
| Syscall.MmapPerm | os/syscall.c:121-122 | shifting `port` left by one and setting the user bit gives the entry permission `2 * port + 16`: R, W, X from the port bits, valid bit clear |
| Syscall.MaxPageAfter | os/syscall.c:131-133 | the new `max_page` is the larger of the old one and `(start + len) / PAGE_SIZE + 1` |
| Syscall.RollbackVisitsAsWritten | os/syscall.c:124 | the offsets the rollback loop visits as written: a C `int` `j` stepping by PAGE_SIZE while `j < i - 1` as `uint64` |
| Syscall.RollbackVisits | os/syscall.c:124-126 | the offsets a rollback must visit: the pages reserved before the failure at offset `i` |
| Syscall.RollbackAsWrittenAgrees | os/syscall.c:124-126 | when `lazy_mappages` fails at an offset `i > 0`, the rollback as written visits exactly the offsets below `i` |
| Syscall.RollbackAsWrittenWrapsAtFirstPage | os/syscall.c:124-126 | when it fails at `i == 0`, the bound `i - 1` wraps and the rollback as written visits offsets, starting with 0, that were never reserved |
| Syscall.ReserveOne | os/syscall.c:121-122 | one `lazy_mappages` step: on success the page at offset `i` was free and is now reserved, so one more page of the range is; on failure nothing changes |
| Syscall.UndoOne | os/syscall.c:125 | one `lazy_uvmunmap` step of the rollback drops the reservation at offset `j`, which is still there |
| Syscall.Rollback | os/syscall.c:123-127 | the corrected rollback, over the offsets below `i` only, gives back the address space from before the call |
| Syscall.MapRange | os/syscall.c:107-130 | the mapping loop with the corrected rollback either reserves every page of the range, each of which was free (0), or returns -1 with the address space unchanged; with the rollback as written a failure at the first page would unmap pages this call never reserved (see Findings) |
| Syscall.SysMmap | os/syscall.c:89-136 | with the corrected rollback: bad arguments give -1 and a zero length 0, both changing nothing; otherwise, on success, every page of the rounded range was free and is now reserved with `MmapPerm(port)`, and `max_page` covers the range; on failure (-1) nothing changes |
| Syscall.ReserveDropRoundTrip | os/syscall.c:121-126 | reserving a free range and then unmapping it gives back the original address space |
| Syscall.MunmapSpan | os/syscall.c:164 | the loop guard `a < start + len` on `uint64` covers the whole rounded length, or nothing when `start + len` wraps |
| Syscall.FirstAbsent | os/syscall.c:164-168 | the first unmapped page of a range, and none exactly when every page of it is mapped |
| Syscall.UnmapOne | os/syscall.c:165-175 | one step of the unmapping loop on a mapped page: a reservation is dropped with `lazy_uvmunmap`, a backed page with `uvmunmap`, and nothing else changes |
| Syscall.UnmapStep | os/syscall.c:164-176 | one iteration: at the first unmapped page it stops and changes nothing; otherwise that page is unmapped and the first unmapped page of the rest is still the same |
| Syscall.UnmapPrefix | os/syscall.c:164-176 | the whole loop on a range that does not wrap: 0 with every page unmapped, or -1 at the first unmapped page with exactly the pages before it unmapped |
| Syscall.UnmapAscending | os/syscall.c:163-176 | the lazy loop unmaps every page of the range and returns 0, or returns -1 at the first unmapped page with the pages before it already unmapped |
| Syscall.SysMunmap | os/syscall.c:138-180 | `sys_munmap` as written: bad arguments give -1 and a zero length 0, both changing nothing; otherwise it behaves as `UnmapAscending` on the rounded range |
| Syscall.MunmapAsWrittenNotAtomic | os/syscall.c:164-176 | concrete address space where `sys_munmap` returns -1 after it has removed a page |
| Syscall.AllMapped | os/syscall.c:152-159 | the walk over the range returns true exactly when every page is mapped |
| Syscall.UnmapAll | os/syscall.c:163-176 | unmapping a range whose pages are all mapped removes exactly those pages |
| Syscall.SysMunmapChecked | os/syscall.c:138-180 | the atomic `sys_munmap`: on success every page of the range is removed and it returns 0; with some page unmapped it returns -1 and changes nothing |
| Syscall.MmapThenMunmap | os/syscall.c:89-180 | `sys_munmap` of a range that `sys_mmap` just reserved finds every page mapped and gives back the original address space |
| Syscall.Pass | os/syscall.c:233 | `BIG_STRIDE / prio` is the largest pass whose product with the priority stays within BIG_STRIDE |
| Syscall.PassAntitone | os/syscall.c:232-233 | a higher priority never gets a larger pass |
| Syscall.SysSetPriority | os/syscall.c:225-235 | a priority `<= 1` gives -1 and changes nothing; otherwise the current process gets the priority and the pass `BIG_STRIDE / prio`, and the priority is returned |
| Syscall.SysSbrk | os/syscall.c:237-246 | returns the break from before the call when `growproc` succeeds, and -1, changing nothing, when it fails |
| Syscall.SysGetPpid | os/syscall.c:75-80 | the parent's pid, or the idle pid 0 for a process with no parent |
| Syscall.TimeOfDay | os/syscall.c:63-64 | the seconds are the whole seconds elapsed at CPU_FREQ cycles per second |
| Syscall.TimeOfDayCorrect | os/syscall.c:63-64 | the microseconds are below a million at every frequency, the wrapped `uint64` product included; while the product does not overflow they are the fraction of the unfinished second rounded down |
| Syscall.SysSpawnAsWritten | os/syscall.c:200-223 | `sys_spawn` as written: -1 when no slot is free, and nothing changes; -1 with the claimed slot left USED when the name is unknown; otherwise the claimed slot is loaded with the program's image (the `loader` input `img`), becomes the child of the caller, and its pid is returned. The pid counter advances exactly when a slot was claimed, the task infos, the idle process and `current_proc` do not change |
| Syscall.SpawnAsWrittenLeaksSlot | os/syscall.c:210-216 | after a failed spawn as written, one slot fewer is free |
| Syscall.SysSpawn | os/syscall.c:200-223 | the corrected `sys_spawn` frees the claimed slot again when the name is unknown, marking its task info Exited as `freeproc` does; the pid counter advances exactly when a slot was claimed; otherwise as `SysSpawnAsWritten`, with the same loaded child slot |
| Syscall.SpawnFailureKeepsSlots | os/syscall.c:210-216 | after a failed corrected spawn, as many slots are free as before |
| Syscall.IdOf | os/syscall.c:259-305 | the case label of each handler; every one is below MAX_SYSCALL_NUM |
| Syscall.HandlerOf | os/syscall.c:259-309 | the `switch (id)`: the handler whose case label is `id`, and the default branch exactly for numbers that match no label |
| Syscall.HandlerOfIdOf | os/syscall.c:259-305 | every handler is reached through its own number |
| Syscall.PlainResult | os/syscall.c:260-291 | `write`/`read` return -1 for a wrong descriptor, and otherwise the length written or requested; `getpid` returns the pid and `gettimeofday` returns 0 |
| Syscall.SyscallEffect | os/syscall.c:259-309 | the effect of each case of the `switch` on the process slots, task infos, pid counter and address space, and the `int` it returns: the default branch returns -1 and changes nothing, `exit` frees the caller and does not return, `sched_yield` makes it RUNNABLE and returns 0, `getppid` returns the parent's pid and changes nothing, `write`, `read`, `getpid` and `gettimeofday` return `PlainResult` and change nothing, `fork`, `exec` and `wait` return `PlainResult` and leave a state constrained only in its slot and task-info counts, and the other cases as the predicates below say |
| Syscall.SetPriorityEffect | os/syscall.c:225-235 | `set_priority` through `int`: -1 and nothing changed for a priority `<= 1`, otherwise the caller's priority and pass are set and the priority is returned |
| Syscall.SpawnEffect | os/syscall.c:200-223 | the corrected `spawn`: -1 and nothing changed when no slot is free; otherwise the first free slot is claimed with the next pid and the counter advances, then the slot is released with its task Exited and -1 returned for an unknown name, or it is loaded with `World.image`, becomes the caller's child and its pid is returned; no other slot and no task info changes |
| Syscall.SbrkEffect | os/syscall.c:237-246 | `sbrk` through `int`: the old break when `GrowBreak` succeeds, with the caller's break moved, no other slot, task info or pid changed, and no page outside the range between the old break and the one asked for changed (`growproc` maps or unmaps inside it, os/proc.c:187-194); -1 with nothing changed when it fails |
| Syscall.SbrkRoundTrip | os/proc.c:187-195 | with allocators that move the break where asked, `sbrk(n)` then `sbrk(-n)` both return, the old break and then `brk + n`; the process table is as before, and no page outside `[brk, brk + n)` has changed |
| Syscall.MmapEffect | os/syscall.c:89-136 | `mmap` with the corrected rollback, as `SysMmap` states it, on the values of the state |
| Syscall.MunmapEffect | os/syscall.c:138-180 | the atomic `munmap`, as `SysMunmapChecked` states it, on the values of the state; no slot, task info or pid changes |
| Syscall.SyscallTouchesCaller | os/syscall.c:259-305 | no case changes the number of slots, and only `exit` does not return; every case whose handler has a body in this model (all but `fork`, `exec` and `wait`) changes at most the caller's slot, except `spawn`, which also claims the first free slot, never the caller's, and keeps the caller's trap frame and kernel stack |
| Syscall.InvokeTask | os/syscall.c:266-298 | `exit`, `sched_yield`, `set_priority`, `getppid` and `sbrk` have exactly their `SyscallEffect`, so only `sbrk` may change the address space, and only inside the heap range; the caller's trap frame is kept |
| Syscall.InvokeSpawn | os/syscall.c:293-295 | `spawn`, corrected, has exactly its `SyscallEffect`, with the `uint64` result taken as an `int` |
| Syscall.InvokeMmap | os/syscall.c:299-302 | `mmap` has exactly its `SyscallEffect` |
| Syscall.InvokeMunmap | os/syscall.c:303-305 | `munmap`, corrected, has exactly its `SyscallEffect` |
| Syscall.InvokePlain | os/syscall.c:260-292 | `write`, `read`, `gettimeofday`, `getpid`, `clone`, `execve` and `wait4` have exactly their `SyscallEffect` |
| Syscall.Invoke | os/syscall.c:259-305 | every handler has exactly its `SyscallEffect`; the idle process and `current_proc` do not change, and neither does the caller's trap frame unless `fork`, `exec` or `wait` ran |
| Syscall.Dispatch | os/syscall.c:250-312 | with the store into `a0` taken back out, the new state is exactly `SyscallEffect` of the handler `HandlerOf` picks for the number in `a7` (for an unknown number: -1, nothing else changed); `exit` stores nothing, leaves the caller UNUSED and its task Exited, and is the only case that does not return; every other result is stored sign-extended in `a0` and reads back unchanged, and outside `fork`, `exec` and `wait` the rest of the trap frame is as it was |
| Trap.Classify | os/trap.c:65-118 | the interrupt bit with the timer code gives a yield; `ecall` gives the system call; an access fault gives the fault resolver; the page faults and misaligned accesses give exit -2; an illegal instruction gives exit -3; every other interrupt or exception gives exit -1; each in both directions |
| Trap.FaultPage | os/trap.c:89 | `stval & ~0xfff` is the page-aligned address of the page holding `stval` |
| Trap.UserSstatus | os/trap.c:142-145 | the new `sstatus` has SPP clear and SPIE set, and every other bit as it was |
| Trap.ReturnFrame | os/trap.c:130-135 | the frame `usertrapret` leaves has the kernel `satp`, `kstack + KSTACK_SIZE`, the `usertrap` address and the hart id, and every other field as it was |
| Trap.UserTrapRet | os/trap.c:126-145 | traps go to `uservec` again; the current slot's trap frame becomes its `ReturnFrame` and nothing else changes; `sepc` is the saved `epc`; `sstatus` is `UserSstatus` of the old one |
| Trap.OnTimer | os/trap.c:69-73 | the process yields: it is RUNNABLE, and nothing else changes |
| Trap.OnEnvCall | os/trap.c:80-83 | `epc` moves past the 4-byte `ecall` before the dispatch, and the state is then `Dispatch`'s: `SyscallEffect` of the call from the advanced frame, with the `int` result sign-extended in `a0` when the process resumes and, outside `fork`, `exec` and `wait`, the rest of the advanced frame kept; it terminates exactly on `exit`, with the code from `a0`, its slot UNUSED and its task Exited |
| Trap.OnAccessFault | os/trap.c:84-99 | a fault on a reserved page backs it with the new frame, resumes and changes nothing else; otherwise the address space is unchanged and the process exits with -4 exactly as `exit` leaves it |
| Trap.CaseEffect | os/trap.c:65-119 | the whole effect of each branch of the `switch`: the kill codes exit as `exit` does, the timer leaves the process RUNNABLE and nothing else changed, the access fault as `OnAccessFault`, the `ecall` as `OnEnvCall`, the result sign-extended in `a0` included |
| Trap.HandleCause | os/trap.c:65-119 | each action `Classify` gives has exactly its `CaseEffect` |
| Trap.UserTrap | os/trap.c:56-121 | `stvec` goes to the kernel first; SPP clear (the trap came from user mode) is a precondition, since the source panics otherwise; the `switch` takes the state to `mid` as `CaseEffect` says for `Classify(scause)`; a surviving process then leaves through `usertrapret` with its `ReturnFrame` and nothing else changed, and an exited one keeps `stvec` at `kerneltrap` and the state `mid` |
| VM.PageTable.LazyMapPage | os/vm.h:10 | a free page becomes reserved with the permission (0); otherwise nothing changes |
| VM.PageTable.LazyUnmapPage | os/vm.h:16 | a reservation is dropped and nothing else changes |
| VM.PageTable.UnmapPage | os/vm.h:15 | a backed page is unmapped and nothing else changes |
| VM.PageTable.Walk | os/syscall.c:165-175 | 0 for an absent page, 1 for a reservation, and otherwise the backing frame |
| VM.PageTable.UserPageFault | os/vm.h:11 | a reserved page becomes backed by the frame with the recorded permission (0); otherwise nothing changes |
| VM.FaultResolvesOnce | os/trap.c:84-99 | after a successful resolution a second fault at the same page cannot be resolved |
| Machine.U64 | os/syscall.c:131 | conversion to `uint64` is reduction modulo 2^64 and the identity on values in range |
| Machine.I32 | os/syscall.c:254 | conversion to `int` keeps the value modulo 2^32 and the identity on values in range |
| Machine.I32OfU64 | os/syscall.c:310 | an `int` result stored sign-extended in `a0` reads back as the same `int` |

## Left out

- `swtch`, the context transfer, the trampoline jump at the end of `usertrapret`, and the CSR reads and writes are hardware. Their values are inputs, or fields of `Hart`.
- The bodies of the page-table operations (`lazy_mappages`, `lazy_uvmunmap`, `uvmunmap`, `walkaddr`, `user_pagefault`) are only declared in os/vm.h. `VM.PageTable` gives each one a body on a map that meets the contract read off its call sites. The frame allocator is not modelled.
- `uvmalloc`/`uvmdealloc` are function parameters of `GrowProc` and `GrowBreak`, because their bodies are not part of this model.
- Syscall.SbrkEffect: which heap pages `uvmalloc` maps and `uvmdealloc` unmaps is not modelled, because their bodies are not part of this model. Inside the range between the old and the requested break the address space is left free; outside it, it is unchanged. The model's `GrowProc` writes only the break.
- Proc.GrowShrinkRoundTrip: it restores the break only. That the heap range regains its earlier mapped state would need the bodies of `uvmalloc`/`uvmdealloc`; `SbrkRoundTrip` states the part that holds without them, that no page outside the range changes.
- Syscall.InvokeTask: for `sbrk` it carries the same gap as `SbrkEffect`: the heap pages inside the range are not stated.
- Trap.OnEnvCall: for `sbrk` it carries the same heap-page gap as `SbrkEffect`.
- Trap.CaseEffect: its `ecall` case carries the same heap-page gap as `SbrkEffect`.
- Console I/O and `copyin`/`copyout`/`copyinstr` are device plumbing. `PlainResult` takes the length that `write` copied as an input. `read` reports the requested length without the console reads. The `TimeVal` copy-out of `sys_gettimeofday` is not modelled; `TimeOfDay` and `TimeOfDayCorrect` give its arithmetic.
- Syscall.PlainResult: `sys_read`'s missing bound of `len` by MAX_STR_LEN (os/syscall.c:35-37) is not modelled. That is a write past the stack buffer `str`, and the body of `sys_read` beyond the descriptor check is outside the model.
- `fork`, `exec`, `wait`, `loader`, `get_id_by_name`, `add_task`, `finished`, `kalloc`/`kfree`, `set_next_timer` and `get_cycle` have no body here. Their results are inputs (`World`, `mem`, `cycle`).
- Syscall.SyscallEffect: of `fork`, `exec` and `wait` it states only the result and that the slot and task-info counts stay; the process `fork` creates, the image `exec` installs and the children `wait` reaps are not part of this model.
- Syscall.Invoke: `fork`, `exec` and `wait` return their `World` result and, in the model, change nothing; their contract does not promise that, because their bodies are not part of this model.
- Trap.HandleCause: for an `ecall` to `fork`, `exec` or `wait` it carries the same gap as `SyscallEffect`: the state after the call is known only in its shape and its `a0`.
- Syscall.SpawnEffect: `loader` is modelled as writing the `World.image` fields into the claimed record and nothing else. The body of `add_task` is not part of this model, so what it does with the child is not stated.
- Syscall.SysSpawn: the same `loader` and `add_task` boundary as `SpawnEffect`.
- Syscall.SysSpawnAsWritten: the same `loader` and `add_task` boundary as `SpawnEffect`.
- The `TRUE_TIME` accounting (os/proc.c:112-117, 147-151) is conditionally compiled and reads the cycle counter.
- The eager `NOT_USE_LAZY_MMAP` branches (os/syscall.c:108-119, 152-161) are not the default build, and their failure check is dead because of `result = 0` at os/syscall.c:111. `AllMapped` and `SysMunmapChecked` follow the eager `sys_munmap`'s check-first structure on the lazy page table.
- `kerneltrap` only panics. The infinite outer loop of `scheduler` is modelled as one selection step, `SchedulerStep`.
- Proc.ProcTable.AllocPid: the counter is an unbounded integer. The overflow of the C `int` counter after 2^31 - 1 pids is not modelled.
- Proc.ProcTable.Exit: the exit code is only logged by the source, so it is not stored. The page table is not freed, as in the source.
- Proc.ProcTable.Sched: the scheduler that `sched` switches to is not modelled, so `Sched` has a precondition, the panic condition, and no effect.
- Trap.UserTrap: between `yield` and `usertrapret` the process is scheduled again (`RUNNING`). The model goes straight to `usertrapret`, so a process that yielded resumes in the RUNNABLE state.
- Syscall.Dispatch uses the corrected `SysSpawn`, `SysMunmapChecked` and the corrected rollback of `SysMmap`, so its `spawn`, `munmap` and `mmap` effects are those of the corrected members. The as-written members stand beside them.
- Syscall.SysMmap: uses the corrected rollback (`Rollback`, offsets below `i` only). As written, os/syscall.c:124 gives the loop the wrapped bound `i - 1` when the first page fails, so it unmaps `start` and the pages above it, which this call never reserved, and runs until the C `int` `j` overflows. `SysMmap`'s "nothing changes on failure" holds only for the corrected rollback; `RollbackAsWrittenWrapsAtFirstPage` shows the discrepancy.
- Syscall.MapRange: uses the same corrected rollback, for the same reason as `SysMmap`.
- Queue.StrideQueue.Push: its precondition also excludes a scan that leaves the QUEUE_SIZE buffers. In that case os/queue.c:41 writes `data[QUEUE_SIZE]` and `stride[QUEUE_SIZE]`, past the arrays, which a model over bounded arrays cannot express.
- Per-id system-call counting (`syscall_times`) does not happen in the shown `syscall`, so it is not modelled.
- The stride accrual of the scheduler is not in the shown code. The scheduler scans the pool linearly and never uses the queue, so `prio` and `pass` are only stored.
- Logging (`debugf`, `tracef`, `errorf`, `infof`).

## Findings

| source | as written | input that shows it | evidently intended | confidence | as-written member | corrected member |
|---|---|---|---|---|---|---|
| os/queue.c:27 | the scan runs `i <= tail`, one slot past the occupied range `[front, tail)` | NPROC 4, entry (10, 5) at slot 0, `tail` = 1 with a stale stride 0 in slot 1; push (30, 7) writes at slot 2, outside the range, and the stale slot becomes an entry | scan only the occupied entries and insert in order | high, not executed | Queue.StaleSlotLosesEntry | Queue.StrideQueue.PushFixed |
| os/queue.c:27 | the scan compares physical indices, so it does not wrap when `tail < front` | NPROC 4, `front` 2, `tail` 0, entries (1, 3) and (2, 4); push (7, 9) overwrites (1, 3) | scan and shift in queue order, wrapping at NPROC | high, not executed | Queue.WrapOverwritesFront | Queue.StrideQueue.PushFixed |
| os/queue.c:33-42 | `tail` wraps to 0 before the shift `t > i`, so when `tail` was NPROC - 1 the shift does not run | NPROC 4, `front` 1, `tail` 3, entries (10, 5) and (20, 8), stale (99, 0) in slot 3; push (30, 6) overwrites (20, 8) and the stale pair becomes an entry | shift in queue order, wrapping at NPROC | high, not executed | Queue.TailWrapSkipsShift | Queue.StrideQueue.PushFixed |
| os/syscall.c:124 | the rollback loop runs `j < i - 1` with `i` a `uint64` | the first `lazy_mappages` fails (`i` = 0): `i - 1` wraps, and the loop unmaps `start`, a page this call never reserved, and the pages above it | undo only the pages reserved before the failure | high, not executed | Syscall.RollbackAsWrittenWrapsAtFirstPage | Syscall.Rollback |
| os/syscall.c:164-176 | the lazy `sys_munmap` unmaps page by page and returns -1 at the first unmapped page | only the page at 0 is reserved; `munmap(0, 2 * PAGE_SIZE)` removes it and then returns -1 | all or nothing, as the eager branch checks before it unmaps | medium, not executed | Syscall.MunmapAsWrittenNotAtomic | Syscall.SysMunmapChecked |
| os/syscall.c:210-216 | `sys_spawn` returns -1 for an unknown name after `allocproc` claimed a slot | a free slot and `get_id_by_name` < 0: the slot stays USED and is never freed | release the slot on failure | high, not executed | Syscall.SpawnAsWrittenLeaksSlot | Syscall.SpawnFailureKeepsSlots |
