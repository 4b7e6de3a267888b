/** The trap path of os/trap.c: how `usertrap` decides what a trap from user mode means,
    what each decision does to the current process, and the trap-frame and `sstatus`
    writes of `usertrapret`.

    The control and status registers are values: `scause` and `stval` are inputs of
    `UserTrap`, and `stvec`, `sstatus`, `sepc`, the kernel's `satp` and `tp` are the
    fields of `Hart`. The cause codes and status bits are those of the RISC-V privileged
    architecture (the table of `scause` values and the layout of `sstatus`). */
module Trap {
  import opened Machine
  import opened VM
  import opened Proc
  import opened Syscall

  /** Bit 63 of `scause`: set for interrupts, clear for exceptions. */
  const INTERRUPT: bv64 := 1 << 63
  /** Interrupt code of the supervisor timer. */
  const SUPERVISOR_TIMER: bv64 := 5

  /** Exception codes. */
  const INSTRUCTION_MISALIGNED: bv64 := 0
  const ILLEGAL_INSTRUCTION: bv64 := 2
  const LOAD_MISALIGNED: bv64 := 4
  const LOAD_ACCESS_FAULT: bv64 := 5
  const STORE_MISALIGNED: bv64 := 6
  const STORE_ACCESS_FAULT: bv64 := 7
  const USER_ENV_CALL: bv64 := 8
  const INSTRUCTION_PAGE_FAULT: bv64 := 12
  const LOAD_PAGE_FAULT: bv64 := 13
  const STORE_PAGE_FAULT: bv64 := 15

  /** `sstatus.SPP` (bit 8, the privilege the trap came from) and `sstatus.SPIE` (bit 5). */
  const SSTATUS_SPP: bv64 := 1 << 8
  const SSTATUS_SPIE: bv64 := 1 << 5

  /** What `usertrap` does about a trap. */
  datatype Action =
    | TimerYield       // rearm the timer and yield
    | EnvCall          // step over `ecall` and run the system call
    | AccessFault      // try to back a lazily reserved page
    | Kill(code: int)  // `exit(code)`; -1 is `unknown_trap`

  /** The case split of `usertrap` on `scause`. */
  function Classify(scause: bv64): (a: Action)
    ensures a == TimerYield <==> scause == INTERRUPT | SUPERVISOR_TIMER
    ensures a == EnvCall <==> scause == USER_ENV_CALL
    ensures a == AccessFault <==> scause == LOAD_ACCESS_FAULT || scause == STORE_ACCESS_FAULT
    ensures a == Kill(-2) <==> scause in {LOAD_PAGE_FAULT, STORE_PAGE_FAULT, INSTRUCTION_PAGE_FAULT,
                                          STORE_MISALIGNED, INSTRUCTION_MISALIGNED, LOAD_MISALIGNED}
    ensures a == Kill(-3) <==> scause == ILLEGAL_INSTRUCTION
    ensures a.Kill? ==> a.code == -1 || a.code == -2 || a.code == -3
    ensures scause & INTERRUPT != 0 && scause != INTERRUPT | SUPERVISOR_TIMER ==> a == Kill(-1)
  {
    if scause & INTERRUPT != 0 then
      var cause := scause & !INTERRUPT;
      if cause == SUPERVISOR_TIMER then TimerYield else Kill(-1)
    else if scause == USER_ENV_CALL then EnvCall
    else if scause == LOAD_ACCESS_FAULT || scause == STORE_ACCESS_FAULT then AccessFault
    else if scause == LOAD_PAGE_FAULT || scause == STORE_PAGE_FAULT || scause == INSTRUCTION_PAGE_FAULT
         || scause == STORE_MISALIGNED || scause == INSTRUCTION_MISALIGNED || scause == LOAD_MISALIGNED then Kill(-2)
    else if scause == ILLEGAL_INSTRUCTION then Kill(-3)
    else Kill(-1)
  }

  /** `stval & ~0xfff`: the page holding the faulting address. */
  function FaultPage(stval: u64): (p: u64)
    ensures p % PAGE_SIZE == 0 && p <= stval < p + PAGE_SIZE
  {
    stval - stval % PAGE_SIZE
  }

  /** `(x & ~SSTATUS_SPP) | SSTATUS_SPIE`: the `sstatus` `usertrapret` writes. SPP is clear
      (`sret` goes to user mode), SPIE is set (interrupts are enabled there) and every
      other bit is as it was. */
  function UserSstatus(x: bv64): (y: bv64)
    ensures y & SSTATUS_SPP == 0 && y & SSTATUS_SPIE == SSTATUS_SPIE
    ensures y & !(SSTATUS_SPP | SSTATUS_SPIE) == x & !(SSTATUS_SPP | SSTATUS_SPIE)
  {
    (x & !SSTATUS_SPP) | SSTATUS_SPIE
  }

  /** Where `stvec` sends the next trap: `kerneltrap` or the trampoline's `uservec`. */
  datatype TrapVector = KernelVector | UserVector

  /** The registers `usertrap` and `usertrapret` read or write; `satp` and `tp` are the
      kernel's values at the time of the trap. */
  datatype Hart = Hart(stvec: TrapVector, sstatus: bv64, sepc: u64, satp: u64, tp: u64)

  /** How a trap ends: back to user mode, or with the process exited. */
  datatype Outcome = Resumed | Terminated(code: int)

  /** The trap frame `usertrapret` leaves for a process whose kernel stack is at `kstack`:
      the kernel's page table, the top of that stack, the address of `usertrap` and the hart
      id; the saved user registers are kept. */
  function ReturnFrame(tf: TrapFrame, kstack: u64, trapAddr: u64, h: Hart): (tf': TrapFrame)
    ensures tf'.kernelSp == U64(kstack + KSTACK_SIZE) && tf'.kernelTrap == trapAddr
    ensures tf'.kernelSatp == h.satp && tf'.kernelHartid == h.tp
    ensures tf'.(kernelSatp := tf.kernelSatp, kernelSp := tf.kernelSp, kernelTrap := tf.kernelTrap,
                 kernelHartid := tf.kernelHartid) == tf
  {
    tf.(kernelSatp := h.satp, kernelSp := U64(kstack + KSTACK_SIZE), kernelTrap := trapAddr, kernelHartid := h.tp)
  }

  /** `usertrapret` up to the jump into the trampoline: traps go to `uservec` again, the
      trap frame is the `ReturnFrame` of the current process, `sepc` is the saved user pc,
      and `sstatus` is prepared for the return to user mode. Nothing else changes. */
  method UserTrapRet(k: ProcTable, h: Hart) returns (h': Hart)
    requires k.Valid() && k.current.InPool?
    modifies k.pool
    ensures k.Valid()
    ensures var c := k.current.index;
            var p := old(k.pool[c]);
            && k.pool[..] == WithTrapFrame(old(k.pool[..]), c, ReturnFrame(p.tf, p.kstack, k.usertrapAddr, h))
            && h' == h.(stvec := UserVector, sepc := p.tf.epc, sstatus := UserSstatus(h.sstatus))
  {
    var c := k.current.index;
    var tf := ReturnFrame(k.pool[c].tf, k.pool[c].kstack, k.usertrapAddr, h);
    k.SetTrapFrame(c, tf);
    h' := h.(stvec := UserVector, sepc := tf.epc, sstatus := UserSstatus(h.sstatus));
  }

  /** The supervisor-timer case: after the timer is rearmed (not modelled) the process
      yields, so it is RUNNABLE and does not exit; nothing else changes. */
  method OnTimer(k: ProcTable)
    requires k.InUserProcess()
    modifies k.pool
    ensures k.Valid()
    ensures k.pool[..] == old(k.pool[..])[k.current.index := old(k.pool[k.current.index]).(state := Runnable)]
  {
    k.Yield();
  }

  /** The `UserEnvCall` case: the saved pc moves past the 4-byte `ecall`, then `syscall`
      runs on that trap frame. The process resumes after the `ecall` with the `int` result
      sign-extended in `a0` and, unless the call was `fork`, `exec` or `wait`, the rest of
      its frame as it was; or `exit` ends it with the code in `a0`. Either way the state is
      the `SyscallEffect` of the call, taken from the state with the advanced pc. */
  method OnEnvCall(k: ProcTable, pt: PageTable, w: World) returns (out: Outcome)
    requires k.InUserProcess() && pt.Valid()
    modifies k, k.pool, k.info, pt
    ensures k.Valid() && pt.Valid() && k.current == old(k.current) && k.idle == old(k.idle)
    ensures var c := k.current.index;
            var tf := old(k.pool[c].tf).(epc := U64(old(k.pool[c].tf.epc) + 4));
            var id := HandlerOf(I32(tf.a7));
            && (out.Terminated? <==> id == Some(Exit))
            && (out.Terminated? ==> out.code == I32(tf.a0) && k.pool[c].tf == tf
                                    && k.pool[c].state == Unused && k.info[c].status == Exited)
            && (out.Resumed? ==> k.pool[c].tf.a0 == U64(I32(k.pool[c].tf.a0)))
            && (out.Resumed? && !External(id) ==> k.pool[c].tf == tf.(a0 := U64(I32(k.pool[c].tf.a0))))
            && SyscallEffect(k, id, c, tf, w, old(StateOf(k, pt)).(pool := WithTrapFrame(old(k.pool[..]), c, tf)),
                             StateOf(k, pt).(pool := WithTrapFrame(k.pool[..], c, tf)),
                             if out.Terminated? then None else Some(I32(k.pool[c].tf.a0)))
  {
    var c := k.current.index;
    var tf := k.pool[c].tf.(epc := U64(k.pool[c].tf.epc + 4));
    k.SetTrapFrame(c, tf);
    var r := Dispatch(k, pt, w);
    if r.None? {
      out := Terminated(I32(tf.a0));
    } else {
      out := Resumed;
    }
  }

  /** The access-fault case: a fault on a lazily reserved page is resolved by backing the
      page with the frame `mem` that `kalloc` returned; when `user_pagefault` fails the
      frame is freed (not modelled), the address space is unchanged and the process exits
      with -4, as `exit` leaves it. */
  method OnAccessFault(k: ProcTable, pt: PageTable, stval: u64, mem: u64) returns (out: Outcome)
    requires k.InUserProcess() && pt.Valid()
    modifies k.pool, k.info, pt
    ensures k.Valid() && pt.Valid()
    ensures out == Resumed || out == Terminated(-4)
    ensures var fpage := FaultPage(stval);
            var s0 := old(StateOf(k, pt));
            && (out == Resumed ==>
                  && fpage in s0.entries && s0.entries[fpage].Reserved?
                  && StateOf(k, pt) == s0.(entries := s0.entries[fpage := Backed(mem, s0.entries[fpage].perm)]))
            && (out == Terminated(-4) ==> StateOf(k, pt) == ExitState(s0, k.current.index))
  {
    var res := pt.UserPageFault(FaultPage(stval), mem);
    if res != 0 {
      k.Exit(-4);
      out := Terminated(-4);
    } else {
      out := Resumed;
    }
  }

  /** What the `switch` of `usertrap` does for the action `a` taken on the process in slot
      `c`, from state `s0` to state `s1`, before `usertrapret`:
      - `Kill(code)`: the process exits as `exit` leaves it;
      - the timer: the process is RUNNABLE and nothing else changes;
      - an access fault: the reserved page at `stval`'s page is backed by `mem`, or the
        process exits with -4 and the address space is unchanged;
      - `ecall`: the saved pc moves past the 4-byte instruction and the state is the
        `SyscallEffect` of the call made from that frame, with the caller's frame set
        aside; a process that resumes has the result sign-extended in `a0` (and otherwise
        the advanced frame, unless `fork`, `exec` or `wait` ran), and `exit` ends it with
        the code from `a0`. */
  ghost predicate CaseEffect(k: ProcTable, a: Action, c: nat, stval: u64, mem: u64, w: World,
                             s0: KernelState, s1: KernelState, out: Outcome)
    requires CallerOk(s0, c) && |s1.pool| == |s0.pool|
  {
    match a
    case Kill(code) => out == Terminated(code) && s1 == ExitState(s0, c)
    case TimerYield => out == Resumed && s1 == s0.(pool := s0.pool[c := s0.pool[c].(state := Runnable)])
    case AccessFault =>
      var fpage := FaultPage(stval);
      && (out == Resumed || out == Terminated(-4))
      && (out == Resumed ==>
            && fpage in s0.entries && s0.entries[fpage].Reserved?
            && s1 == s0.(entries := s0.entries[fpage := Backed(mem, s0.entries[fpage].perm)]))
      && (out == Terminated(-4) ==> s1 == ExitState(s0, c))
    case EnvCall =>
      var p := s0.pool[c];
      var tf := p.tf.(epc := U64(p.tf.epc + 4));
      var id := HandlerOf(I32(tf.a7));
      && (out.Terminated? <==> id == Some(Exit))
      && (out.Terminated? ==> out.code == I32(tf.a0) && s1.pool[c].tf == tf)
      && (out.Resumed? ==> s1.pool[c].tf.a0 == U64(I32(s1.pool[c].tf.a0)))
      && (out.Resumed? && !External(id) ==> s1.pool[c].tf == tf.(a0 := U64(I32(s1.pool[c].tf.a0))))
      && SyscallEffect(k, id, c, tf, w, s0.(pool := WithTrapFrame(s0.pool, c, tf)),
                       s1.(pool := WithTrapFrame(s1.pool, c, tf)),
                       if out.Terminated? then None else Some(I32(s1.pool[c].tf.a0)))
  }

  /** The `switch` of `usertrap` on the action `Classify` chose. */
  method HandleCause(k: ProcTable, pt: PageTable, a: Action, stval: u64, mem: u64, w: World) returns (out: Outcome)
    requires k.InUserProcess() && pt.Valid()
    modifies k, k.pool, k.info, pt
    ensures k.Valid() && pt.Valid() && k.current == old(k.current) && k.idle == old(k.idle)
    ensures out.Terminated? ==> k.pool[k.current.index].state == Unused && k.info[k.current.index].status == Exited
    ensures CaseEffect(k, a, k.current.index, stval, mem, w, old(StateOf(k, pt)), StateOf(k, pt), out)
  {
    match a {
      case TimerYield =>
        OnTimer(k);
        out := Resumed;
      case EnvCall =>
        out := OnEnvCall(k, pt, w);
      case AccessFault =>
        out := OnAccessFault(k, pt, stval, mem);
      case Kill(code) =>
        k.Exit(code);
        out := Terminated(code);
    }
  }

  /** `usertrap` for a trap taken in user mode (SPP clear; the source panics otherwise):
      `stvec` is pointed at `kerneltrap`, the `switch` on the cause takes the state to
      `mid` as `CaseEffect` says, and a process that survives leaves through `usertrapret`,
      which sets its `ReturnFrame` and the registers for `sret`; one that exits keeps `stvec`
      at `kerneltrap`. `mem` is what `kalloc` returns, only used for an access fault. */
  method UserTrap(k: ProcTable, pt: PageTable, h: Hart, scause: bv64, stval: u64, mem: u64, w: World)
    returns (h': Hart, out: Outcome, ghost mid: KernelState)
    requires k.InUserProcess() && pt.Valid() && h.sstatus & SSTATUS_SPP == 0
    modifies k, k.pool, k.info, pt
    ensures k.Valid() && pt.Valid() && k.current == old(k.current) && k.idle == old(k.idle)
    ensures var c := k.current.index;
            && |mid.pool| == k.nproc
            && CaseEffect(k, Classify(scause), c, stval, mem, w, old(StateOf(k, pt)), mid, out)
            && (out.Terminated? ==>
                  && h' == h.(stvec := KernelVector) && StateOf(k, pt) == mid
                  && k.pool[c].state == Unused && k.info[c].status == Exited)
            && (out.Resumed? ==>
                  && StateOf(k, pt) == mid.(pool := WithTrapFrame(mid.pool, c, ReturnFrame(mid.pool[c].tf, mid.pool[c].kstack, k.usertrapAddr, h)))
                  && h' == h.(stvec := UserVector, sepc := k.pool[c].tf.epc, sstatus := UserSstatus(h.sstatus)))
  {
    var h1 := h.(stvec := KernelVector);
    out := HandleCause(k, pt, Classify(scause), stval, mem, w);
    mid := StateOf(k, pt);
    if out.Terminated? {
      h' := h1;
    } else {
      h' := UserTrapRet(k, h1);
      assert StateOf(k, pt) == mid.(pool := k.pool[..]);
    }
  }
}
