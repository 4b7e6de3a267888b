/** The process table of os/proc.c: a fixed pool of process records, the task-info
    records that go with them, the pid counter, the idle process and the pointer to the
    running process.

    The context switch (`swtch`) is hardware-level control transfer and is not modelled:
    `sched` and the scheduler record the state changes they make and nothing more. */
module Proc {
  import opened Machine

  /** Number of per-task system-call counters (defined in a header that is not part of this model). */
  const MAX_SYSCALL_NUM: nat := 500
  /** Size of a kernel stack: every stack of os/proc.c:13 is one page. */
  const KSTACK_SIZE: nat := PAGE_SIZE
  /** The pid of the idle process, which `proc_init` assigns. */
  const IDLE_PID: int := 0

  datatype ProcState = Unused | Used | Runnable | Running

  datatype TaskStatus = UnInit | Running | Exited

  /** The callee-saved registers `swtch` saves: return address, stack pointer, s0..s11. */
  datatype Context = Context(ra: u64, sp: u64, saved: seq<u64>)

  /** The fields of the trap page that the kernel reads or writes; the other saved user
      registers are not modelled. */
  datatype TrapFrame = TrapFrame(kernelSatp: u64, kernelSp: u64, kernelTrap: u64, epc: u64,
                                 kernelHartid: u64,
                                 a0: u64, a1: u64, a2: u64, a3: u64, a4: u64, a5: u64,
                                 a6: u64, a7: u64)

  datatype TaskInfo = TaskInfo(status: TaskStatus, time: int, syscallTimes: seq<int>)

  /** A `struct proc`. The trap frame is stored inline (each slot owns one trap page), the
      page table is the value of the pointer and the parent link is the parent's slot index. */
  datatype Proc = Proc(state: ProcState, pid: int, kstack: u64, context: Context, tf: TrapFrame,
                       pagetable: u64, ustack: u64, maxPage: u64, programBrk: u64,
                       heapBottom: u64, parent: Option<nat>, prio: int, pass: int)

  /** What `loader` writes into a freshly allocated record: the program's trap frame, page
      table, user stack, `max_page`, break, heap bottom and the state it leaves the process
      in. The loader's body is not part of this model, so the image is an input. */
  datatype Image = Image(tf: TrapFrame, pagetable: u64, ustack: u64, maxPage: u64, programBrk: u64,
                         heapBottom: u64, state: ProcState)

  /** The record `p` once `loader` has written the image `img` into it; pid, kernel stack,
      context, parent, priority and pass are the ones `allocproc` left. */
  function Loaded(p: Proc, img: Image): (r: Proc)
    ensures r.pid == p.pid && r.kstack == p.kstack && r.context == p.context
    ensures r.parent == p.parent && r.prio == p.prio && r.pass == p.pass
    ensures r.tf == img.tf && r.pagetable == img.pagetable && r.ustack == img.ustack
    ensures r.maxPage == img.maxPage && r.programBrk == img.programBrk
    ensures r.heapBottom == img.heapBottom && r.state == img.state
  {
    p.(tf := img.tf, pagetable := img.pagetable, ustack := img.ustack, maxPage := img.maxPage,
       programBrk := img.programBrk, heapBottom := img.heapBottom, state := img.state)
  }

  /** What `current_proc` points to: nothing before `proc_init`, the idle process, or a slot. */
  datatype Current = NoProc | Idle | InPool(index: nat)

  /** Twelve zero words: s0..s11 after `memset`. */
  const ZeroSaved: seq<u64> := [0, 0, 0, 0, 0, 0, 0, 0, 0, 0, 0, 0]
  const ZeroContext: Context := Context(0, 0, ZeroSaved)
  const ZeroFrame: TrapFrame := TrapFrame(0, 0, 0, 0, 0, 0, 0, 0, 0, 0, 0, 0, 0)
  /** A zero-initialised `struct proc` (a C global before `proc_init`). */
  const ZeroProc: Proc := Proc(Unused, 0, 0, ZeroContext, ZeroFrame, 0, 0, 0, 0, 0, None, 0, 0)
  /** The task info `proc_init` installs: not started, no time, every counter zero. */
  const FreshInfo: TaskInfo := TaskInfo(UnInit, 0, seq(MAX_SYSCALL_NUM, _ => 0))

  predicate Live(p: Proc) {
    p.state != Unused
  }

  /** The first slot at or after `from` whose state is `st`: the first-fit scan of
      `allocproc` and of the scheduler. */
  function FirstInState(s: seq<Proc>, st: ProcState, from: nat): (r: Option<nat>)
    requires from <= |s|
    ensures r.None? <==> forall i :: from <= i < |s| ==> s[i].state != st
    ensures r.Some? ==> from <= r.value < |s| && s[r.value].state == st
                        && forall i :: from <= i < r.value ==> s[i].state != st
    decreases |s| - from
  {
    if from == |s| then None
    else if s[from].state == st then Some(from)
    else FirstInState(s, st, from + 1)
  }

  class ProcTable {
    /** NPROC, the number of slots. */
    const nproc: nat
    /** The addresses of the per-slot kernel stacks `kstack[i]`. */
    const kstackAddr: seq<u64>
    /** `boot_stack_top`, the idle process's kernel stack. */
    const bootStackTop: u64
    /** The addresses of the functions `usertrap` and `usertrapret`. */
    const usertrapAddr: u64
    const usertrapretAddr: u64
    /** BIG_STRIDE, the numerator of a process's pass. */
    const bigStride: nat

    const pool: array<Proc>
    const info: array<TaskInfo>
    var idle: Proc
    var current: Current
    /** The static counter of `allocpid`: the next pid to hand out. */
    var nextPid: int

    /** Slot shapes agree with NPROC, every live slot has a pid already handed out, live
        slots have pairwise distinct pids, and every pointer into the pool is in range. */
    ghost predicate Valid()
      reads this, pool
    {
      && nproc >= 1 && pool.Length == nproc && info.Length == nproc && |kstackAddr| == nproc
      && nextPid >= 1
      && (current.InPool? ==> current.index < nproc)
      && (forall i :: 0 <= i < nproc && Live(pool[i]) ==> 1 <= pool[i].pid < nextPid)
      && (forall i, j :: 0 <= i < j < nproc && Live(pool[i]) && Live(pool[j]) ==> pool[i].pid != pool[j].pid)
      && (forall i :: 0 <= i < nproc && pool[i].parent.Some? ==> pool[i].parent.value < nproc)
    }

    /** The slot `current_proc` points to is a user process that is running: the state in
        which traps and system calls are taken. */
    ghost predicate InUserProcess()
      reads this, pool
    {
      Valid() && current.InPool? && pool[current.index].state == ProcState.Running
    }

    /** The record a successful `allocproc` leaves in a slot: a fresh pid, USED, no page table,
        empty user memory, a context that returns to `usertrapret` on the slot's kernel stack,
        and a zeroed trap page. The parent link, priority and pass are not reset. */
    function Claimed(p: Proc, pid: int): (r: Proc)
      ensures r.state == Used && r.pid == pid && r.kstack == p.kstack
      ensures r.pagetable == 0 && r.ustack == 0 && r.maxPage == 0 && r.programBrk == 0 && r.heapBottom == 0
      ensures r.context.ra == usertrapretAddr && r.context.sp == U64(p.kstack + KSTACK_SIZE)
      ensures r.context.saved == ZeroSaved
      ensures r.tf == ZeroFrame
      ensures r.parent == p.parent && r.prio == p.prio && r.pass == p.pass
    {
      p.(pid := pid, state := Used, pagetable := 0, ustack := 0, maxPage := 0, programBrk := 0,
         heapBottom := 0, context := Context(usertrapretAddr, U64(p.kstack + KSTACK_SIZE), ZeroSaved),
         tf := ZeroFrame)
    }

    /** The kernel before `proc_init`: C globals are zero, `current_proc` is null and the
        pid counter starts at 1. */
    constructor (nproc: nat, kstackAddr: seq<u64>, bootStackTop: u64, usertrapAddr: u64,
                 usertrapretAddr: u64, bigStride: nat)
      requires nproc >= 1 && |kstackAddr| == nproc
      ensures Valid() && fresh(pool) && fresh(info)
      ensures this.nproc == nproc && this.kstackAddr == kstackAddr && this.bootStackTop == bootStackTop
      ensures this.usertrapAddr == usertrapAddr && this.usertrapretAddr == usertrapretAddr
      ensures this.bigStride == bigStride
      ensures forall i :: 0 <= i < nproc ==> pool[i] == ZeroProc
      ensures idle == ZeroProc && current == NoProc && nextPid == 1
    {
      this.nproc := nproc;
      this.kstackAddr := kstackAddr;
      this.bootStackTop := bootStackTop;
      this.usertrapAddr := usertrapAddr;
      this.usertrapretAddr := usertrapretAddr;
      this.bigStride := bigStride;
      pool := new Proc[nproc](_ => ZeroProc);
      info := new TaskInfo[nproc](_ => FreshInfo);
      idle := ZeroProc;
      current := NoProc;
      nextPid := 1;
    }

    /** `proc_init`: every slot becomes UNUSED on its own kernel stack with a fresh task
        info, and the idle process (pid 0, boot stack) becomes current. */
    method ProcInit()
      requires Valid()
      modifies this, pool, info
      ensures Valid()
      ensures forall i :: 0 <= i < nproc ==> pool[i] == old(pool[i]).(state := Unused, kstack := kstackAddr[i])
      ensures forall i :: 0 <= i < nproc ==> info[i] == FreshInfo
      ensures idle == old(idle).(kstack := bootStackTop, pid := IDLE_PID)
      ensures current == Idle && nextPid == old(nextPid)
    {
      var i := 0;
      while i < nproc
        invariant 0 <= i <= nproc
        invariant forall j :: 0 <= j < i ==> pool[j] == old(pool[j]).(state := Unused, kstack := kstackAddr[j])
        invariant forall j :: i <= j < nproc ==> pool[j] == old(pool[j])
        invariant forall j :: 0 <= j < i ==> info[j] == FreshInfo
        invariant idle == old(idle) && current == old(current) && nextPid == old(nextPid)
      {
        pool[i] := pool[i].(state := Unused, kstack := kstackAddr[i]);
        info[i] := FreshInfo;
        i := i + 1;
      }
      assert forall j :: 0 <= j < nproc ==> !Live(pool[j]);
      idle := idle.(kstack := bootStackTop, pid := IDLE_PID);
      current := Idle;
    }

    /** `allocpid`: hands out the counter's value and increments it. */
    method AllocPid() returns (pid: int)
      modifies this
      ensures pid == old(nextPid) && nextPid == pid + 1
      ensures idle == old(idle) && current == old(current)
    {
      pid := nextPid;
      nextPid := nextPid + 1;
    }

    /** `allocproc`: claims the lowest-index UNUSED slot, or returns none (the null pointer)
        when every slot is in use. No other slot changes, and the new pid differs from the
        pid of every other live slot. */
    method AllocProc() returns (r: Option<nat>)
      requires Valid()
      modifies this, pool
      ensures Valid()
      ensures r == FirstInState(old(pool[..]), Unused, 0)
      ensures r.None? ==> pool[..] == old(pool[..]) && nextPid == old(nextPid)
      ensures r.Some? ==> r.value < nproc && nextPid == old(nextPid) + 1
                          && pool[..] == old(pool[..])[r.value := Claimed(old(pool[r.value]), old(nextPid))]
      ensures r.Some? ==> forall j :: 0 <= j < nproc && j != r.value && Live(pool[j]) ==> pool[j].pid != pool[r.value].pid
      ensures idle == old(idle) && current == old(current)
    {
      var i := 0;
      while i < nproc
        invariant 0 <= i <= nproc
        invariant forall j :: 0 <= j < i ==> pool[j].state != Unused
      {
        if pool[i].state == Unused {
          break;
        }
        i := i + 1;
      }
      if i == nproc {
        return None;
      }
      var pid := AllocPid();
      pool[i] := Claimed(pool[i], pid);
      r := Some(i);
    }

    /** One selection of `scheduler`'s scan: the first RUNNABLE slot at or after `from`
        becomes RUNNING, its task info records that it runs, and it becomes current. When
        there is none, nothing changes. */
    method SchedulerStep(from: nat) returns (r: Option<nat>)
      requires Valid() && from <= nproc
      modifies this, pool, info
      ensures Valid()
      ensures r == FirstInState(old(pool[..]), Runnable, from)
      ensures r.None? ==> pool[..] == old(pool[..]) && info[..] == old(info[..]) && current == old(current)
      ensures r.Some? ==> r.value < nproc && current == InPool(r.value)
                          && pool[..] == old(pool[..])[r.value := old(pool[r.value]).(state := ProcState.Running)]
                          && info[..] == old(info[..])[r.value := old(info[r.value]).(status := TaskStatus.Running)]
      ensures idle == old(idle) && nextPid == old(nextPid)
    {
      var i := from;
      while i < nproc
        invariant from <= i <= nproc
        invariant forall j :: from <= j < i ==> pool[j].state != Runnable
      {
        if pool[i].state == Runnable {
          break;
        }
        i := i + 1;
      }
      if i == nproc {
        return None;
      }
      pool[i] := pool[i].(state := ProcState.Running);
      info[i] := info[i].(status := TaskStatus.Running);
      current := InPool(i);
      r := Some(i);
    }

    /** `np->parent = p`: links a slot to its parent slot; nothing else changes. */
    method SetParent(child: nat, parent: nat)
      requires Valid() && child < nproc && parent < nproc
      modifies pool
      ensures Valid()
      ensures pool[..] == old(pool[..])[child := old(pool[child]).(parent := Some(parent))]
    {
      pool[child] := pool[child].(parent := Some(parent));
    }

    /** `loader(id, np)` on an allocated slot: the image is written into it and nothing
        else changes. */
    method Load(i: nat, img: Image)
      requires Valid() && i < nproc && Live(pool[i])
      modifies pool
      ensures Valid()
      ensures pool[..] == old(pool[..])[i := Loaded(old(pool[i]), img)]
    {
      pool[i] := Loaded(pool[i], img);
    }

    /** A write to the trap page of a slot (`p->trapframe->...`); nothing else changes. */
    method SetTrapFrame(i: nat, tf: TrapFrame)
      requires Valid() && i < nproc
      modifies pool
      ensures Valid()
      ensures pool[..] == old(pool[..])[i := old(pool[i]).(tf := tf)]
    {
      pool[i] := pool[i].(tf := tf);
    }

    /** `sched`: panics when the current process is still RUNNING; otherwise control goes to
        the scheduler, which is not modelled, and the modelled state does not change. */
    method Sched()
      requires Valid() && current.InPool? && pool[current.index].state != ProcState.Running
    {
    }

    /** `yield`: the current process becomes RUNNABLE before `sched`, so `sched` does not
        panic, and nothing else changes. */
    method Yield()
      requires InUserProcess()
      modifies pool
      ensures Valid()
      ensures pool[..] == old(pool[..])[current.index := old(pool[current.index]).(state := Runnable)]
    {
      pool[current.index] := pool[current.index].(state := Runnable);
      Sched();
    }

    /** `freeproc`: the slot becomes UNUSED and its task is marked exited. The page table is
        not freed and nothing else changes. */
    method FreeProc(k: nat)
      requires Valid() && k < nproc
      modifies pool, info
      ensures Valid()
      ensures pool[..] == old(pool[..])[k := old(pool[k]).(state := Unused)]
      ensures info[..] == old(info[..])[k := old(info[k]).(status := Exited)]
    {
      pool[k] := pool[k].(state := Unused);
      info[k] := info[k].(status := Exited);
    }

    /** `exit`: frees the current process and switches away. The exit code is only logged. */
    method Exit(code: int)
      requires InUserProcess()
      modifies pool, info
      ensures Valid()
      ensures pool[..] == old(pool[..])[current.index := old(pool[current.index]).(state := Unused)]
      ensures info[..] == old(info[..])[current.index := old(info[current.index]).(status := Exited)]
    {
      FreeProc(current.index);
      Sched();
    }

    /** `growproc(n)` on the current process, with `uvmalloc(pagetable, old, new, PTE_W)`
        and `uvmdealloc(pagetable, old, new)` given as `alloc` and `dealloc`. It returns 0 and
        moves the break as `GrowBreak` says, or returns -1 and changes nothing. */
    method GrowProc(n: i32, alloc: (u64, u64) -> u64, dealloc: (u64, u64) -> u64) returns (r: int)
      requires InUserProcess()
      modifies pool
      ensures InUserProcess()
      ensures var p := old(pool[current.index]);
              var g := GrowBreak(p.programBrk, p.heapBottom, n, alloc, dealloc);
              && (g.None? ==> r == -1 && pool[..] == old(pool[..]))
              && (g.Some? ==> r == 0 && pool[..] == old(pool[..])[current.index := p.(programBrk := g.value)])
    {
      var p := pool[current.index];
      var programBrk := p.programBrk;
      var newBrk := I32(programBrk + n - p.heapBottom);
      if newBrk < 0 {
        return -1;
      }
      if n > 0 {
        programBrk := alloc(programBrk, U64(programBrk + n));
        if programBrk == 0 {
          return -1;
        }
      } else if n < 0 {
        programBrk := dealloc(programBrk, U64(programBrk + n));
      }
      pool[current.index] := p.(programBrk := programBrk);
      r := 0;
    }
  }

  /** The break `growproc` leaves, or none when it fails. The size check is made on a C
      `int`: `program_brk + n - heap_bottom` is computed on 64 bits and truncated to 32.
      While the heap size stays within an `int`, it refuses exactly the requests that would
      move the break below the bottom of the heap or that `uvmalloc` cannot satisfy; growing
      by 0 from a break at or above the heap bottom succeeds and changes nothing. */
  function GrowBreak(brk: u64, heapBottom: u64, n: i32, alloc: (u64, u64) -> u64,
                     dealloc: (u64, u64) -> u64): (r: Option<u64>)
    ensures I32_MIN <= brk + n - heapBottom <= I32_MAX ==>
              (r.None? <==> brk + n < heapBottom || (n > 0 && alloc(brk, U64(brk + n)) == 0))
    ensures n == 0 && heapBottom <= brk <= heapBottom + I32_MAX ==> r == Some(brk)
    ensures n > 0 && r.Some? ==> r.value == alloc(brk, U64(brk + n)) != 0
    ensures n < 0 && r.Some? ==> r.value == dealloc(brk, U64(brk + n))
  {
    if I32(brk + n - heapBottom) < 0 then None
    else if n > 0 then (if alloc(brk, U64(brk + n)) == 0 then None else Some(alloc(brk, U64(brk + n))))
    else if n < 0 then Some(dealloc(brk, U64(brk + n)))
    else Some(brk)
  }

  /** With an allocator and a deallocator that move the break exactly where asked, growing
      by `n` and then shrinking by `n` restores the break. */
  lemma GrowShrinkRoundTrip(brk: u64, heapBottom: u64, n: i32, alloc: (u64, u64) -> u64,
                            dealloc: (u64, u64) -> u64)
    requires forall a: u64, b: u64 :: alloc(a, b) == b
    requires forall a: u64, b: u64 :: dealloc(a, b) == b
    requires heapBottom <= brk && 0 < n && brk + n - heapBottom <= I32_MAX && 0 < brk + n < U64_MOD
    ensures GrowBreak(brk, heapBottom, n, alloc, dealloc) == Some(brk + n)
    ensures GrowBreak(brk + n, heapBottom, -n, alloc, dealloc) == Some(brk)
  {
    assert alloc(brk, U64(brk + n)) == brk + n;
    assert dealloc(brk + n, U64(brk + n - n)) == brk;
  }
}
