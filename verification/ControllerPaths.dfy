/** The ways through the controller's state machine: boot, flushes with their exceptions and
    returns, interrupts, event loads and sleep, each over whole runs. */
module ControllerPaths {
  import opened Controller

  lemma Steps(r: Regs, i: Cycle, rest: seq<Cycle>)
    ensures Run(r, [i] + rest) == Run(Next(r, i.p, i.d), rest)
    ensures PcMoves(r, [i] + rest) == (if PcSet(r, i.p, i.d) then 1 else 0) + PcMoves(Next(r, i.p, i.d), rest)
  {
    assert ([i] + rest)[1..] == rest;
  }

  // ----- boot -----

  /** The PC is moved to the boot address. */
  predicate BootsIn(r: Regs, i: Cycle) {
    PcSet(r, i.p, i.d) && PcSource(r, i.p, i.d) == PC_BOOT
  }

  function Boots(r: Regs, ins: seq<Cycle>): nat
    decreases |ins|
  {
    if ins == [] then 0 else (if BootsIn(r, ins[0]) then 1 else 0) + Boots(Next(r, ins[0].p, ins[0].d), ins[1..])
  }

  /** Before the boot the machine is in reset or with the debugger; afterwards it never returns
      to reset. */
  predicate BootInv(r: Regs) {
    if r.bootDone then !r.fsm.RESET? && !r.fsm.BOOT_SET?
    else r.fsm.RESET? || r.fsm.BOOT_SET? || r.fsm.DBG_SIGNAL? || r.fsm.DBG_WAIT?
  }

  lemma {:induction false} BootsOnceFrom(r: Regs, ins: seq<Cycle>)
    requires BootInv(r)
    ensures BootInv(Run(r, ins))
    ensures Boots(r, ins) == if Run(r, ins).bootDone && !r.bootDone then 1 else 0
    ensures r.bootDone ==> Run(r, ins).bootDone
    decreases |ins|
  {
    if ins != [] {
      BootsOnceFrom(Next(r, ins[0].p, ins[0].d), ins[1..]);
    }
  }

  /** In every run from reset the PC is moved to the boot address once, as soon as the boot is
      done, and nothing is decoded, no trap is taken and no flush is begun before that. */
  lemma BootsOnce(ins: seq<Cycle>, p: Pipeline)
    ensures var e := Run(RESET_REGS, ins);
            && Boots(RESET_REGS, ins) == (if e.bootDone then 1 else 0)
            && (!e.bootDone ==> !IsDecoding(e, p) && !CsrSaveCause(e, p) && !HaltId(e, p))
  {
    BootsOnceFrom(RESET_REGS, ins);
  }

  /** It boots two cycles after fetching is enabled, and asks for no instruction until then. */
  lemma FetchEnableBoots(r: Regs, i: Cycle, j: Cycle)
    requires r.fsm.RESET?
    ensures !InstrReq(r) && !PcSet(r, i.p, i.d) && !HaltIf(r, i.p, i.d) && !HaltId(r, i.p)
    ensures i.p.fetchEnable <==> BootsIn(Next(r, i.p, i.d), j)
    ensures i.p.fetchEnable ==> !HaltIf(Next(r, i.p, i.d), j.p, j.d) && !HaltId(Next(r, i.p, i.d), j.p)
    ensures i.p.fetchEnable ==>
              var r2 := Next(Next(r, i.p, i.d), j.p, j.d); r2.fsm.FIRST_FETCH? && r2.bootDone && InstrReq(r2)
  {
  }

  /** The first fetch lasts until the decode stage is ready and no debugger holds the core, for
      any number of cycles without an interrupt. */
  lemma {:induction false} FirstFetchWaits(r: Regs, ins: seq<Cycle>, i: Cycle)
    requires r.fsm.FIRST_FETCH? && !IrqTaken(i.p)
    requires forall k :: 0 <= k < |ins| ==> !IrqTaken(ins[k].p) && !(ins[k].p.idReady && !ins[k].d.stall)
    ensures Run(r, ins).fsm.FIRST_FETCH? && PcMoves(r, ins) == 0
    ensures Next(Run(r, ins), i.p, i.d).fsm == if i.p.idReady && !i.d.stall then DECODE else FIRST_FETCH
    decreases |ins|
  {
    if ins != [] {
      FirstFetchWaits(Next(r, ins[0].p, ins[0].d), ins[1..], i);
    }
  }

  /** Where the PC moves to tells why it moves. */
  lemma SourceOfMove(r: Regs, p: Pipeline, d: Debug)
    requires PcSet(r, p, d)
    ensures PcSource(r, p, d) == PC_BOOT <==> r.fsm.BOOT_SET?
    ensures PcSource(r, p, d) == PC_JUMP <==> Jumps(r, p)
    ensures PcSource(r, p, d) == PC_BRANCH <==> p.branchTakenEx && (r.fsm.DECODE? || r.fsm.DBG_WAIT_BRANCH?)
    ensures PcSource(r, p, d) == PC_DBG_NPC <==> d.jumpReq && (r.fsm.DBG_WAIT? || r.fsm.DBG_WAIT_ELW?)
    ensures PcSource(r, p, d) == PC_EXCEPTION <==> CsrSaveCause(r, p)
    ensures PcSource(r, p, d) == PC_ERET <==> CsrRestoreMret(r, p) || CsrRestoreUret(r, p)
  {
  }

  // ----- flushes -----

  /** An instruction that flushes the pipeline, or a status write, leaves the decode stage. */
  predicate BeginsFlush(r: Regs, i: Cycle) {
    && r.fsm.DECODE? && Decodes(i.p) && !i.p.jumpInDec
    && (Flushes(i.p) || (i.p.csrStatus && i.p.idReady))
    && !(i.d.req && i.p.idReady)
  }

  predicate Stalls(ins: seq<Cycle>) {
    forall k :: 0 <= k < |ins| ==> !ins[k].p.exValid
  }

  lemma {:induction false} FlushStalls(r: Regs, ins: seq<Cycle>)
    requires r.fsm.FLUSH_EX? && Stalls(ins)
    ensures Run(r, ins).fsm.FLUSH_EX? && PcMoves(r, ins) == 0
    decreases |ins|
  {
    if ins != [] {
      FlushStalls(Next(r, ins[0].p, ins[0].d), ins[1..]);
    }
  }

  /** What the last flush cycle of an instruction does: exceptions before returns, and each of
      them to its own handler, with its own cause, from its own stage. */
  ghost predicate FlushEnds(r: Regs, w: Cycle, p: Pipeline) {
    && (PcSet(r, w.p, w.d) <==> p.ecall || p.illegal || p.mret || p.uret)
    && (CsrSaveCause(r, w.p) <==> p.ecall || p.illegal) && !CsrSaveIf(r)
    && (p.ecall || p.illegal ==>
          && PcSource(r, w.p, w.d) == PC_EXCEPTION && CsrSaveId(r, w.p) && TrapAddrMux(r, w.p) == TRAP_MACHINE
          && ExcPcMux(r, w.p) == (if p.ecall then EXC_PC_ECALL else EXC_PC_ILLINSN)
          && CsrCause(r, w.p) == if !p.ecall then CAUSE_ILLEGAL_INSN
                                 else if w.p.priv == PRIV_U then CAUSE_ECALL_UMODE else CAUSE_ECALL_MMODE)
    && (CsrRestoreMret(r, w.p) <==> !p.ecall && !p.illegal && p.mret)
    && (CsrRestoreUret(r, w.p) <==> !p.ecall && !p.illegal && !p.mret && p.uret)
    && (PcSource(r, w.p, w.d) == PC_ERET <==> CsrRestoreMret(r, w.p) || CsrRestoreUret(r, w.p))
    && NextFsm(r, w.p, w.d) == if p.pipeFlush then if w.d.req then DBG_SIGNAL_SLEEP else WAIT_SLEEP
                               else if w.d.req then DBG_SIGNAL else DECODE
  }

  /** A flush, however long the execute stage stalls: nothing moves the PC before its last
      cycle, which does what the flushed instruction calls for. */
  lemma {:induction false} FlushPath(r: Regs, i: Cycle, stalls: seq<Cycle>, x: Cycle, w: Cycle)
    requires BeginsFlush(r, i) && Stalls(stalls) && x.p.exValid && SameInstr(i.p, w.p)
    ensures var r1 := Next(r, i.p, i.d); var r2 := Run(r1, stalls); var r3 := Next(r2, x.p, x.d);
            && !PcSet(r, i.p, i.d) && PcMoves(r1, stalls) == 0 && !PcSet(r2, x.p, x.d)
            && HaltIf(r, i.p, i.d) && (HaltId(r, i.p) <==> Flushes(i.p))
            && HaltIf(r2, x.p, x.d) && HaltId(r2, x.p) && HaltIf(r3, w.p, w.d) && HaltId(r3, w.p)
            && FlushEnds(r3, w, i.p)
  {
    FlushStalls(Next(r, i.p, i.d), stalls);
  }

  // ----- interrupts -----

  /** When an interrupt is acknowledged next: it is taken in its flush or in the first fetch. */
  lemma TakenExactly(r: Regs, p: Pipeline, d: Debug)
    ensures NextFsm(r, p, d).IRQ_TAKEN_ID? <==> IrqTaken(p) && r.fsm.IRQ_FLUSH?
    ensures NextFsm(r, p, d).IRQ_TAKEN_IF? <==> IrqTaken(p) && r.fsm.FIRST_FETCH?
  {
    if !r.fsm.DECODE? {
      assert !r.fsm.IRQ_FLUSH? ==> !NextFsm(r, p, d).IRQ_TAKEN_ID?;
    }
  }

  /** What the cycle that takes an interrupt does. */
  ghost predicate TakesIrq(r: Regs, i: Cycle) {
    && PcSet(r, i.p, i.d) && PcSource(r, i.p, i.d) == PC_EXCEPTION && ExcPcMux(r, i.p) == EXC_PC_IRQ
    && IrqAck(r) && CsrSaveCause(r, i.p) && CsrCause(r, i.p) == IRQ_FLAG + i.p.irqId && ExcCause(r, i.p) == i.p.irqId
    && (CsrIrqSec(r, i.p) <==> i.p.irqSec)
    && (TrapAddrMux(r, i.p) == TRAP_USER <==> i.p.priv == PRIV_U && !i.p.irqSec)
    && !HaltIf(r, i.p, i.d) && !HaltId(r, i.p)
    && Next(r, i.p, i.d).fsm.DECODE?
  }

  /** An interrupt in the decode stage: the stage is halted, and if the interrupt is still there
      in the next cycle, the PC of the decode stage is saved and the PC moves to its handler;
      otherwise the stage goes on as if nothing had been. */
  lemma DecodeInterrupt(r: Regs, i: Cycle, j: Cycle, k: Cycle)
    requires r.fsm.DECODE? && !i.p.branchTakenEx && i.p.instrValid && IrqTaken(i.p)
    ensures var r1 := Next(r, i.p, i.d); var r2 := Next(r1, j.p, j.d);
            && HaltIf(r, i.p, i.d) && HaltId(r, i.p) && !PcSet(r, i.p, i.d) && !IrqAck(r)
            && HaltIf(r1, j.p, j.d) && HaltId(r1, j.p) && !PcSet(r1, j.p, j.d) && !IrqAck(r1)
            && if IrqTaken(j.p) then TakesIrq(r2, k) && CsrSaveId(r2, k.p) && !CsrSaveIf(r2) else r2.fsm.DECODE?
  {
  }

  /** An interrupt in the first fetch saves the PC of the fetch stage, in the next cycle. */
  lemma FetchInterrupt(r: Regs, i: Cycle, j: Cycle)
    requires r.fsm.FIRST_FETCH? && IrqTaken(i.p)
    ensures var r1 := Next(r, i.p, i.d);
            && HaltIf(r, i.p, i.d) && HaltId(r, i.p) && !PcSet(r, i.p, i.d)
            && TakesIrq(r1, j) && CsrSaveIf(r1) && !CsrSaveId(r1, j.p)
  {
  }

  /** Interrupts masked at the privilege level of the core: the machine level asks for mIE, the
      user level for uIE or a secure interrupt, and there is no other. */
  predicate Masked(p: Pipeline) {
    match p.priv
    case PRIV_M => !p.mIE
    case PRIV_U => !p.uIE && !p.irqSec
    case _ => true
  }

  /** A masked interrupt waits for ever; in the decode stage it is dropped instead. */
  lemma {:induction false} MaskedWaits(r: Regs, ins: seq<Cycle>)
    requires !IrqAck(r) && forall k :: 0 <= k < |ins| ==> Masked(ins[k].p)
    ensures !IrqAck(Run(r, ins))
    decreases |ins|
  {
    if ins != [] {
      MaskedWaits(Next(r, ins[0].p, ins[0].d), ins[1..]);
    }
  }

  /** A request in the decode stage is either taken or dropped, and nothing else is dropped. */
  lemma TakenOrDropped(r: Regs, p: Pipeline, d: Debug)
    ensures IsDecoding(r, p) && p.irqReq ==>
              (ExcKill(r, p) <==> Masked(p)) && (ExcKill(r, p) <==> !NextFsm(r, p, d).IRQ_FLUSH?)
    ensures ExcKill(r, p) ==> IsDecoding(r, p) && p.irqReq
  {
  }

  // ----- decoding goes on -----

  /** Without a debug request and with a decode stage that is ready, instructions are kept out
      exactly if the machine leaves DECODE; whether it is ready makes no difference to that. */
  lemma KeptOutExactly(r: Regs, p: Pipeline, d: Debug)
    requires r.fsm.DECODE? && !d.req && p.idReady
    ensures HaltIf(r, p, d) <==> !NextFsm(r, p, d).DECODE?
    ensures HaltIf(r, p.(idReady := false), d) == HaltIf(r, p, d)
  {
  }

  /** The instruction inside is held exactly if it is flushed or interrupted; a write of a status
      register goes on and flushes behind itself. */
  lemma HeldExactly(r: Regs, p: Pipeline, d: Debug)
    requires r.fsm.DECODE? && !d.req
    ensures HaltId(r, p) <==> NextFsm(r, p, d).IRQ_FLUSH? || (NextFsm(r, p, d).FLUSH_EX? && Flushes(p))
  {
  }

  lemma HeldMeansKeptOut(r: Regs, p: Pipeline, d: Debug)
    ensures HaltId(r, p) ==> HaltIf(r, p, d)
    ensures !HaltIf(r, p, d) ==> r.fsm.RESET? || NextFsm(r, p, d) in {FIRST_FETCH, DECODE, DBG_SIGNAL}
  {
  }

  /** A taken branch moves the PC, and what is being decoded then has no effect. */
  lemma BranchSquashes(r: Regs, p: Pipeline, d: Debug)
    requires r.fsm.DECODE? && p.branchTakenEx
    ensures PcSet(r, p, d) && PcSource(r, p, d) == PC_BRANCH && !IsDecoding(r, p)
    ensures NextFsm(r, p, d) == (if d.req then DBG_SIGNAL else DECODE)
    ensures !HaltIf(r, p, d) && !HaltId(r, p) && !ExcKill(r, p) && !Jumps(r, p)
  {
  }

  /** Outside the end of a flush only stepping traps: in sleep, on a taken branch, and on every
      instruction in decode but those that are flushed, whose turn comes at the end of the flush. */
  lemma StepTrapsExactly(r: Regs, p: Pipeline, s: Settings)
    requires !r.fsm.FLUSH_WB?
    ensures DbgTrap(r, p, s) <==>
              && s.sste
              && match r.fsm
                 case SLEEP => true
                 case DECODE =>
                   p.branchTakenEx
                   || (Decodes(p) && !NextFsm(r, p.(idReady := true), Debug(false, false, false)).FLUSH_EX?)
                 case _ => false
  {
  }

  // ----- event loads -----

  predicate EventWaits(ins: seq<Cycle>) {
    forall k :: 0 <= k < |ins| ==> !ins[k].p.idReady && !ins[k].d.req
  }

  lemma {:induction false} EventStalls(r: Regs, ins: seq<Cycle>)
    requires r.fsm.ELW_EXE? && EventWaits(ins)
    ensures Run(r, ins).fsm.ELW_EXE? && PcMoves(r, ins) == 0
    decreases |ins|
  {
    if ins != [] {
      EventStalls(Next(r, ins[0].p, ins[0].d), ins[1..]);
    }
  }

  /** An event load waits with both stages halted, as long as its event takes, and then gives an
      interrupt the chance to be taken before the next instruction. */
  lemma {:induction false} EventLoadPath(r: Regs, i: Cycle, waits: seq<Cycle>, x: Cycle, w: Cycle)
    requires r.fsm.DECODE? && Decodes(i.p) && !i.p.jumpInDec && !Flushes(i.p) && !i.p.csrStatus && i.p.dataLoadEvent
    requires i.p.idReady && !i.d.req && EventWaits(waits) && x.p.idReady
    ensures var r1 := Next(r, i.p, i.d); var r2 := Run(r1, waits); var r3 := Next(r2, x.p, x.d);
            && HaltIf(r, i.p, i.d) && !HaltId(r, i.p)
            && r2.fsm.ELW_EXE? && HaltIf(r2, x.p, x.d) && HaltId(r2, x.p) && PcMoves(r1, waits) == 0
            && r3.fsm.IRQ_FLUSH?
            && Next(r3, w.p, w.d).fsm == if IrqTaken(w.p) then IRQ_TAKEN_ID else DECODE
  {
    EventStalls(Next(r, i.p, i.d), waits);
  }

  /** A debugger that halts the core during an event load lets it wait again when it resumes,
      unless it has moved the PC. */
  lemma EventLoadResumed(r: Regs, i: Cycle, j: Cycle, k: Cycle, l: Cycle)
    requires r.fsm.ELW_EXE? && !i.p.idReady && i.d.req
    requires k.d.stall && !l.d.stall
    ensures var r2 := Next(Next(r, i.p, i.d), j.p, j.d); var r3 := Next(r2, k.p, k.d);
            && DbgAck(Next(r, i.p, i.d)) && r2.fsm.DBG_WAIT_ELW?
            && (PcSet(r2, k.p, k.d) <==> k.d.jumpReq)
            && Next(r3, l.p, l.d).fsm == if !k.d.jumpReq then ELW_EXE else if r.bootDone then DECODE else RESET
  {
  }

  // ----- sleep -----

  predicate Asleep(r: Regs) {
    r.fsm.WAIT_SLEEP? || r.fsm.SLEEP?
  }

  /** A sleeping core is the only one that is not busy; it fetches, decodes and traps nothing
      and holds both stages. */
  lemma SleepIsQuiet(r: Regs, p: Pipeline, d: Debug)
    ensures CtrlBusy(r) <==> !Asleep(r)
    ensures InstrReq(r) <==> !Asleep(r) && !r.fsm.RESET?
    ensures Asleep(r) ==> HaltIf(r, p, d) && HaltId(r, p) && !PcSet(r, p, d) && !IsDecoding(r, p) && !CsrSaveCause(r, p)
  {
  }

  /** From the end of a flush into sleep, which lasts for any number of cycles, exactly until an
      interrupt is pending, masked or not, or the debugger asks; the core then goes on with a
      first fetch, or with the debugger, who comes first. */
  lemma {:induction false} SleepsUntilWoken(r: Regs, ins: seq<Cycle>, i: Cycle)
    requires r.fsm.SLEEP? && forall k :: 0 <= k < |ins| ==> !ins[k].p.irq && !ins[k].d.req
    ensures Run(r, ins).fsm.SLEEP?
    ensures Next(Run(r, ins), i.p, i.d).fsm
            == if i.d.req then DBG_SIGNAL_SLEEP else if i.p.irq then FIRST_FETCH else SLEEP
    decreases |ins|
  {
    if ins != [] {
      SleepsUntilWoken(Next(r, ins[0].p, ins[0].d), ins[1..], i);
    }
  }
}
