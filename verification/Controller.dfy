/** The main controller of the core, riscv_controller: its state machine with the debug
    states, and the outputs that decode, take traps and move the program counter. */
module Controller {

  datatype Fsm =
    | RESET | BOOT_SET | SLEEP | WAIT_SLEEP | FIRST_FETCH
    | DECODE
    | IRQ_TAKEN_ID | IRQ_TAKEN_IF | IRQ_FLUSH | ELW_EXE
    | FLUSH_EX | FLUSH_WB
    | DBG_SIGNAL | DBG_SIGNAL_SLEEP | DBG_SIGNAL_ELW
    | DBG_WAIT | DBG_WAIT_BRANCH | DBG_WAIT_ELW

  datatype PcMux = PC_BOOT | PC_JUMP | PC_BRANCH | PC_EXCEPTION | PC_ERET | PC_DBG_NPC

  datatype Priv = PRIV_U | PRIV_S | PRIV_H | PRIV_M

  datatype ExcPc = EXC_PC_ILLINSN | EXC_PC_ECALL | EXC_PC_IRQ

  datatype TrapAddr = TRAP_MACHINE | TRAP_USER

  const CAUSE_ILLEGAL_INSN := 0x02
  const CAUSE_BREAKPOINT := 0x03
  const CAUSE_ECALL_UMODE := 0x08
  const CAUSE_ECALL_MMODE := 0x0B

  /** The number of an interrupt; bit 5 of a cause marks an interrupt. */
  type Id = n: nat | n < 32

  const IRQ_FLAG := 32

  /** The debug settings the core looks at. */
  datatype Settings = Settings(ecall: bool, eill: bool, elsu: bool, ebrk: bool, sste: bool)

  /** What the decoder, the pipeline and the interrupt controller say in a cycle. */
  datatype Pipeline = Pipeline(
    fetchEnable: bool, instrValid: bool, idReady: bool, exValid: bool, branchTakenEx: bool,
    branchInId: bool, jumpInDec: bool, jrStall: bool,
    illegal: bool, ecall: bool, mret: bool, uret: bool, pipeFlush: bool, ebrk: bool, csrStatus: bool,
    dataLoadEvent: bool,
    irq: bool, irqReq: bool, irqSec: bool, irqId: Id, mIE: bool, uIE: bool, priv: Priv)

  /** What the debug unit says in a cycle. */
  datatype Debug = Debug(req: bool, stall: bool, jumpReq: bool)

  datatype Regs = Regs(fsm: Fsm, jumpDone: bool, bootDone: bool)

  const RESET_REGS := Regs(RESET, false, false)

  predicate IrqTaken(p: Pipeline) {
    p.irqReq && (((p.uIE || p.irqSec) && p.priv == PRIV_U) || (p.mIE && p.priv == PRIV_M))
  }

  predicate Flushes(p: Pipeline) {
    p.mret || p.uret || p.ecall || p.pipeFlush || p.ebrk || p.illegal
  }

  /** An instruction is being decoded, and no interrupt cuts in. */
  predicate Decodes(p: Pipeline) {
    !p.branchTakenEx && p.instrValid && !IrqTaken(p)
  }

  function NextDecode(p: Pipeline, d: Debug): Fsm {
    if p.branchTakenEx then
      if d.req then DBG_SIGNAL else DECODE
    else if !p.instrValid then DECODE
    else if IrqTaken(p) then IRQ_FLUSH
    else if d.req && p.idReady then
      if p.branchInId then DBG_WAIT_BRANCH else DBG_SIGNAL
    else if p.jumpInDec then DECODE
    else if Flushes(p) then FLUSH_EX
    else if p.csrStatus then if p.idReady then FLUSH_EX else DECODE
    else if p.dataLoadEvent then if p.idReady then ELW_EXE else DECODE
    else DECODE
  }

  function NextFsm(r: Regs, p: Pipeline, d: Debug): Fsm {
    match r.fsm
    case RESET => if p.fetchEnable then BOOT_SET else if d.req then DBG_SIGNAL else RESET
    case BOOT_SET => FIRST_FETCH
    case WAIT_SLEEP => SLEEP
    case SLEEP => if d.req then DBG_SIGNAL_SLEEP else if p.irq then FIRST_FETCH else SLEEP
    case FIRST_FETCH => if IrqTaken(p) then IRQ_TAKEN_IF else if p.idReady && !d.stall then DECODE else FIRST_FETCH
    case DECODE => NextDecode(p, d)
    case DBG_WAIT_BRANCH => DBG_SIGNAL
    case DBG_SIGNAL => DBG_WAIT
    case DBG_SIGNAL_SLEEP => DBG_WAIT
    case DBG_SIGNAL_ELW => DBG_WAIT_ELW
    case DBG_WAIT_ELW => if !d.stall then ELW_EXE else if d.jumpReq then DBG_WAIT else DBG_WAIT_ELW
    case DBG_WAIT => if !d.stall then (if r.bootDone then DECODE else RESET) else DBG_WAIT
    case FLUSH_EX => if p.exValid then FLUSH_WB else FLUSH_EX
    case IRQ_FLUSH => if IrqTaken(p) then IRQ_TAKEN_ID else DECODE
    case ELW_EXE => if p.idReady then IRQ_FLUSH else if d.req then DBG_SIGNAL_ELW else ELW_EXE
    case IRQ_TAKEN_ID => DECODE
    case IRQ_TAKEN_IF => DECODE
    case FLUSH_WB =>
      if !p.pipeFlush then (if d.req then DBG_SIGNAL else DECODE)
      else (if d.req then DBG_SIGNAL_SLEEP else WAIT_SLEEP)
  }

  // ----- outputs -----

  predicate IsDecoding(r: Regs, p: Pipeline) {
    r.fsm.DECODE? && !p.branchTakenEx && p.instrValid
  }

  predicate DbgAck(r: Regs) {
    r.fsm.DBG_SIGNAL? || r.fsm.DBG_SIGNAL_SLEEP? || r.fsm.DBG_SIGNAL_ELW?
  }

  /** irq_ack_o, and exc_ack_o with it. */
  predicate IrqAck(r: Regs) {
    r.fsm.IRQ_TAKEN_ID? || r.fsm.IRQ_TAKEN_IF?
  }

  /** csr_save_if_o. */
  predicate CsrSaveIf(r: Regs) {
    r.fsm.IRQ_TAKEN_IF?
  }

  /** csr_save_id_o. */
  predicate CsrSaveId(r: Regs, p: Pipeline) {
    r.fsm.IRQ_TAKEN_ID? || (r.fsm.FLUSH_WB? && (p.ecall || p.illegal))
  }

  /** csr_save_cause_o. */
  predicate CsrSaveCause(r: Regs, p: Pipeline) {
    IrqAck(r) || (r.fsm.FLUSH_WB? && (p.ecall || p.illegal))
  }

  /** csr_restore_mret_id_o. */
  predicate CsrRestoreMret(r: Regs, p: Pipeline) {
    r.fsm.FLUSH_WB? && !p.ecall && !p.illegal && p.mret
  }

  /** csr_restore_uret_id_o. */
  predicate CsrRestoreUret(r: Regs, p: Pipeline) {
    r.fsm.FLUSH_WB? && !p.ecall && !p.illegal && !p.mret && p.uret
  }

  predicate Jumps(r: Regs, p: Pipeline) {
    r.fsm.DECODE? && Decodes(p) && p.jumpInDec && !p.jrStall && !r.jumpDone
  }

  /** pc_set_o. */
  predicate PcSet(r: Regs, p: Pipeline, d: Debug) {
    match r.fsm
    case BOOT_SET => true
    case DECODE => p.branchTakenEx || Jumps(r, p)
    case DBG_WAIT_BRANCH => p.branchTakenEx
    case DBG_WAIT => d.jumpReq
    case DBG_WAIT_ELW => d.jumpReq
    case IRQ_TAKEN_ID => true
    case IRQ_TAKEN_IF => true
    case FLUSH_WB => p.ecall || p.illegal || p.mret || p.uret
    case _ => false
  }

  /** pc_mux_o where pc_set_o is raised. */
  function PcSource(r: Regs, p: Pipeline, d: Debug): PcMux {
    match r.fsm
    case DECODE => if p.branchTakenEx then PC_BRANCH else if Decodes(p) && p.jumpInDec then PC_JUMP else PC_BOOT
    case DBG_WAIT_BRANCH => if p.branchTakenEx then PC_BRANCH else PC_BOOT
    case DBG_WAIT => if d.jumpReq then PC_DBG_NPC else PC_BOOT
    case DBG_WAIT_ELW => if d.jumpReq then PC_DBG_NPC else PC_BOOT
    case IRQ_TAKEN_ID => PC_EXCEPTION
    case IRQ_TAKEN_IF => PC_EXCEPTION
    case FLUSH_WB => if p.ecall || p.illegal then PC_EXCEPTION else if p.mret || p.uret then PC_ERET else PC_BOOT
    case _ => PC_BOOT
  }

  /** dbg_trap_o: it does not depend on what the debug unit asks for in the same cycle. */
  predicate DbgTrap(r: Regs, p: Pipeline, s: Settings) {
    match r.fsm
    case SLEEP => s.sste
    case DECODE =>
      s.sste && (p.branchTakenEx
                 || (Decodes(p) && (p.jumpInDec || (!Flushes(p) && !p.csrStatus))))
    case FLUSH_WB =>
      if p.ecall then s.ecall || s.sste
      else if p.illegal then s.eill || s.sste
      else if p.mret || p.uret then s.sste
      else if p.ebrk then s.ebrk || s.sste
      else s.sste && (p.csrStatus || p.pipeFlush)
    case _ => false
  }

  /** halt_if_o: no instruction enters the decode stage. */
  predicate HaltIf(r: Regs, p: Pipeline, d: Debug) {
    match r.fsm
    case RESET => false
    case BOOT_SET => false
    case IRQ_TAKEN_ID => false
    case IRQ_TAKEN_IF => false
    case FIRST_FETCH => IrqTaken(p)
    case DECODE =>
      IsDecoding(r, p)
      && (IrqTaken(p) || d.req || (!p.jumpInDec && (Flushes(p) || p.csrStatus || p.dataLoadEvent)))
    case _ => true
  }

  /** halt_id_o: no instruction leaves it. */
  predicate HaltId(r: Regs, p: Pipeline) {
    match r.fsm
    case WAIT_SLEEP => true
    case SLEEP => true
    case FIRST_FETCH => IrqTaken(p)
    case DECODE => IsDecoding(r, p) && (IrqTaken(p) || (!p.jumpInDec && Flushes(p)))
    case FLUSH_EX => true
    case FLUSH_WB => true
    case IRQ_FLUSH => true
    case ELW_EXE => true
    case _ => false
  }

  predicate InstrReq(r: Regs) {
    !r.fsm.RESET? && CtrlBusy(r)
  }

  predicate CtrlBusy(r: Regs) {
    !r.fsm.WAIT_SLEEP? && !r.fsm.SLEEP?
  }

  /** exc_kill_o: a masked interrupt request is dropped. */
  predicate ExcKill(r: Regs, p: Pipeline) {
    r.fsm.DECODE? && Decodes(p) && p.irqReq
  }

  /** exc_cause_o, which also tells the debug unit why the core traps. */
  function ExcCause(r: Regs, p: Pipeline): nat {
    if IrqAck(r) then p.irqId
    else if !r.fsm.FLUSH_WB? then 0
    else if p.ecall then CAUSE_ECALL_MMODE
    else if p.illegal then CAUSE_ILLEGAL_INSN
    else if !p.mret && !p.uret && p.ebrk then CAUSE_BREAKPOINT
    else 0
  }

  /** csr_cause_o. */
  function CsrCause(r: Regs, p: Pipeline): nat {
    if IrqAck(r) then IRQ_FLAG + p.irqId
    else if !r.fsm.FLUSH_WB? then 0
    else if p.ecall then if p.priv == PRIV_U then CAUSE_ECALL_UMODE else CAUSE_ECALL_MMODE
    else if p.illegal then CAUSE_ILLEGAL_INSN
    else 0
  }

  /** exc_pc_mux_o. */
  function ExcPcMux(r: Regs, p: Pipeline): ExcPc {
    if !r.fsm.FLUSH_WB? then EXC_PC_IRQ
    else if p.ecall then EXC_PC_ECALL
    else if p.illegal then EXC_PC_ILLINSN
    else EXC_PC_IRQ
  }

  /** trap_addr_mux_o. */
  function TrapAddrMux(r: Regs, p: Pipeline): TrapAddr {
    if IrqAck(r) && !p.irqSec && p.priv == PRIV_U then TRAP_USER else TRAP_MACHINE
  }

  /** csr_irq_sec_o. */
  predicate CsrIrqSec(r: Regs, p: Pipeline) {
    IrqAck(r) && p.irqSec
  }

  function Next(r: Regs, p: Pipeline, d: Debug): Regs {
    Regs(NextFsm(r, p, d),
         (Jumps(r, p) || r.jumpDone) && !p.idReady,
         r.fsm.BOOT_SET? || r.bootDone)
  }

  /** What the pipeline is told to do. */
  datatype Halts = Halts(instrReq: bool, busy: bool, firstFetch: bool, haltIf: bool, haltId: bool)

  /** The kind of a trap. */
  datatype TrapInfo = TrapInfo(excCause: nat, csrCause: nat, excPc: ExcPc, addr: TrapAddr, irqSec: bool)

  datatype Outputs = Outputs(
    halts: Halts, trap: TrapInfo,
    isDecoding: bool, dbgAck: bool, irqAck: bool, excKill: bool,
    saveIf: bool, saveId: bool, saveCause: bool, restoreMret: bool, restoreUret: bool,
    pcSet: bool, pcMux: PcMux, dbgTrap: bool)

  function OutputsOf(r: Regs, p: Pipeline, d: Debug, s: Settings): Outputs {
    Outputs(Halts(InstrReq(r), CtrlBusy(r), r.fsm.FIRST_FETCH?, HaltIf(r, p, d), HaltId(r, p)),
            TrapInfo(ExcCause(r, p), CsrCause(r, p), ExcPcMux(r, p), TrapAddrMux(r, p), CsrIrqSec(r, p)),
            IsDecoding(r, p), DbgAck(r), IrqAck(r), ExcKill(r, p),
            CsrSaveIf(r), CsrSaveId(r, p), CsrSaveCause(r, p), CsrRestoreMret(r, p), CsrRestoreUret(r, p),
            PcSet(r, p, d), PcSource(r, p, d), DbgTrap(r, p, s))
  }

  const RUNNING_ON := Halts(true, true, false, false, false)

  const NO_FETCH := RUNNING_ON.(haltIf := true)

  const ALL_HALTED := RUNNING_ON.(haltIf := true, haltId := true)

  /** The outputs before the cases of the state machine. */
  const DEFAULTS := Outputs(RUNNING_ON, TrapInfo(0, 0, EXC_PC_IRQ, TRAP_MACHINE, false), false, false, false, false,
                            false, false, false, false, false, false, PC_BOOT, false)

  class RiscvController {
    var ctrlFsmCs: Fsm
    var jumpDoneQ: bool
    var bootDoneQ: bool

    ghost function State(): Regs
      reads this
    {
      Regs(ctrlFsmCs, jumpDoneQ, bootDoneQ)
    }

    constructor ()
      ensures State() == RESET_REGS
    {
      ctrlFsmCs, jumpDoneQ, bootDoneQ := RESET, false, false;
    }

    /** The cases of one instruction, as long as no debug request interferes. */
    method InstrCases(p: Pipeline, d: Debug, s: Settings) returns (ns: Fsm, jumpDone: bool, o: Outputs)
      requires ctrlFsmCs == DECODE && Decodes(p) && !d.req
      ensures ns == NextFsm(State(), p, d) && o == OutputsOf(State(), p, d, s)
      ensures jumpDone == (jumpDoneQ || Jumps(State(), p))
    {
      ns, jumpDone, o := DECODE, jumpDoneQ, DEFAULTS.(isDecoding := true, excKill := p.irqReq);
      if p.jumpInDec {
        o := o.(pcMux := PC_JUMP, dbgTrap := s.sste);
        if !p.jrStall && !jumpDoneQ {
          o, jumpDone := o.(pcSet := true), true;
        }
      } else if p.mret || p.uret || p.ecall || p.pipeFlush || p.ebrk || p.illegal {
        ns, o := FLUSH_EX, o.(halts := ALL_HALTED);
      } else if p.csrStatus {
        ns, o := if p.idReady then FLUSH_EX else DECODE, o.(halts := NO_FETCH);
      } else if p.dataLoadEvent {
        ns, o := if p.idReady then ELW_EXE else DECODE, o.(halts := NO_FETCH, dbgTrap := s.sste);
      } else {
        o := o.(dbgTrap := s.sste);
      }
    }

    /** The block that decodes one instruction; a debug request has the last word. */
    method DecodeInstr(p: Pipeline, d: Debug, s: Settings) returns (ns: Fsm, jumpDone: bool, o: Outputs)
      requires ctrlFsmCs == DECODE && Decodes(p)
      ensures ns == NextFsm(State(), p, d) && o == OutputsOf(State(), p, d, s)
      ensures jumpDone == (jumpDoneQ || Jumps(State(), p))
    {
      ns, jumpDone, o := InstrCases(p, d.(req := false), s);
      if d.req {
        o := o.(halts := o.halts.(haltIf := true));
        if p.idReady {
          ns := if p.branchInId then DBG_WAIT_BRANCH else DBG_SIGNAL;
        }
      }
    }

    /** A branch in the execute stage is taken: what is in decode is not looked at. */
    method TakenBranch(p: Pipeline, d: Debug, s: Settings) returns (ns: Fsm, o: Outputs)
      requires ctrlFsmCs == DECODE && p.branchTakenEx
      ensures ns == NextFsm(State(), p, d) && o == OutputsOf(State(), p, d, s)
    {
      ns, o := DECODE, DEFAULTS.(pcMux := PC_BRANCH, pcSet := true, dbgTrap := s.sste);
      if d.req {
        ns := DBG_SIGNAL;
      }
    }

    method DecodeState(p: Pipeline, d: Debug, s: Settings) returns (ns: Fsm, jumpDone: bool, o: Outputs)
      requires ctrlFsmCs == DECODE
      ensures ns == NextFsm(State(), p, d) && o == OutputsOf(State(), p, d, s)
      ensures jumpDone == (jumpDoneQ || Jumps(State(), p))
    {
      ns, jumpDone, o := DECODE, jumpDoneQ, DEFAULTS;
      if p.branchTakenEx {
        ns, o := TakenBranch(p, d, s);
      } else if p.instrValid {
        if IrqTaken(p) {
          ns, o := IRQ_FLUSH, o.(isDecoding := true, halts := ALL_HALTED);
        } else {
          ns, jumpDone, o := DecodeInstr(p, d, s);
        }
      }
    }

    method FlushWbState(p: Pipeline, d: Debug, s: Settings) returns (ns: Fsm, o: Outputs)
      requires ctrlFsmCs == FLUSH_WB
      ensures ns == NextFsm(State(), p, d) && o == OutputsOf(State(), p, d, s)
    {
      o := DEFAULTS.(halts := ALL_HALTED);
      if p.ecall {
        o := o.(pcMux := PC_EXCEPTION, pcSet := true, saveId := true, saveCause := true, dbgTrap := s.ecall || s.sste);
        var csrCause := if p.priv == PRIV_U then CAUSE_ECALL_UMODE else CAUSE_ECALL_MMODE;
        o := o.(trap := TrapInfo(CAUSE_ECALL_MMODE, csrCause, EXC_PC_ECALL, TRAP_MACHINE, false));
      } else if p.illegal {
        o := o.(pcMux := PC_EXCEPTION, pcSet := true, saveId := true, saveCause := true, dbgTrap := s.eill || s.sste);
        o := o.(trap := TrapInfo(CAUSE_ILLEGAL_INSN, CAUSE_ILLEGAL_INSN, EXC_PC_ILLINSN, TRAP_MACHINE, false));
      } else if p.mret {
        o := o.(pcMux := PC_ERET, pcSet := true, restoreMret := true, dbgTrap := s.sste);
      } else if p.uret {
        o := o.(pcMux := PC_ERET, pcSet := true, restoreUret := true, dbgTrap := s.sste);
      } else if p.ebrk {
        o := o.(dbgTrap := s.ebrk || s.sste, trap := o.trap.(excCause := CAUSE_BREAKPOINT));
      } else if p.csrStatus || p.pipeFlush {
        o := o.(dbgTrap := s.sste);
      }
      if !p.pipeFlush {
        ns := if d.req then DBG_SIGNAL else DECODE;
      } else {
        ns := if d.req then DBG_SIGNAL_SLEEP else WAIT_SLEEP;
      }
    }

    /** A branch was in the decode stage when a debug trap was hit. */
    method BranchState(p: Pipeline, d: Debug, s: Settings) returns (ns: Fsm, o: Outputs)
      requires ctrlFsmCs == DBG_WAIT_BRANCH
      ensures ns == NextFsm(State(), p, d) && o == OutputsOf(State(), p, d, s)
    {
      ns, o := DBG_SIGNAL, DEFAULTS.(halts := NO_FETCH);
      if p.branchTakenEx {
        o := o.(pcMux := PC_BRANCH, pcSet := true);
      }
    }

    /** The pipeline is empty: the halt is acknowledged. */
    method SignalState(p: Pipeline, d: Debug, s: Settings) returns (ns: Fsm, o: Outputs)
      requires ctrlFsmCs in {DBG_SIGNAL, DBG_SIGNAL_SLEEP, DBG_SIGNAL_ELW}
      ensures ns == NextFsm(State(), p, d) && o == OutputsOf(State(), p, d, s)
    {
      ns, o := DBG_WAIT, DEFAULTS.(halts := NO_FETCH, dbgAck := true);
      if ctrlFsmCs == DBG_SIGNAL_ELW {
        ns := DBG_WAIT_ELW;
      }
    }

    /** The states in which the debugger is active. */
    method WaitState(p: Pipeline, d: Debug, s: Settings) returns (ns: Fsm, o: Outputs)
      requires ctrlFsmCs in {DBG_WAIT_ELW, DBG_WAIT}
      ensures ns == NextFsm(State(), p, d) && o == OutputsOf(State(), p, d, s)
    {
      ns, o := ctrlFsmCs, DEFAULTS.(halts := NO_FETCH);
      match ctrlFsmCs {
        case DBG_WAIT_ELW =>
          if d.jumpReq {
            ns, o := DBG_WAIT, o.(pcMux := PC_DBG_NPC, pcSet := true);
          }
          if !d.stall {
            ns := ELW_EXE;
          }
        case DBG_WAIT =>
          if d.jumpReq {
            ns, o := DBG_WAIT, o.(pcMux := PC_DBG_NPC, pcSet := true);
          }
          if !d.stall {
            ns := if bootDoneQ then DECODE else RESET;
          }
      }
    }

    /** Reset and boot. */
    method BootState(p: Pipeline, d: Debug, s: Settings) returns (ns: Fsm, bootDone: bool, o: Outputs)
      requires ctrlFsmCs in {RESET, BOOT_SET}
      ensures ns == NextFsm(State(), p, d) && o == OutputsOf(State(), p, d, s) && bootDone == ctrlFsmCs.BOOT_SET?
    {
      ns, bootDone, o := ctrlFsmCs, false, DEFAULTS;
      if ctrlFsmCs == BOOT_SET {
        ns, bootDone, o := FIRST_FETCH, true, o.(pcSet := true);
      } else {
        o := o.(halts := RUNNING_ON.(instrReq := false));
        if p.fetchEnable {
          ns := BOOT_SET;
        } else if d.req {
          ns := DBG_SIGNAL;
        }
      }
    }

    method SleepState(p: Pipeline, d: Debug, s: Settings) returns (ns: Fsm, o: Outputs)
      requires ctrlFsmCs in {WAIT_SLEEP, SLEEP}
      ensures ns == NextFsm(State(), p, d) && o == OutputsOf(State(), p, d, s)
    {
      ns, o := SLEEP, DEFAULTS.(halts := Halts(false, false, false, true, true));
      if ctrlFsmCs == SLEEP {
        o := o.(dbgTrap := s.sste);
        if d.req {
          ns := DBG_SIGNAL_SLEEP;
        } else if p.irq {
          ns := FIRST_FETCH;
        }
      }
    }

    method FirstFetchState(p: Pipeline, d: Debug, s: Settings) returns (ns: Fsm, o: Outputs)
      requires ctrlFsmCs == FIRST_FETCH
      ensures ns == NextFsm(State(), p, d) && o == OutputsOf(State(), p, d, s)
    {
      ns, o := FIRST_FETCH, DEFAULTS.(halts := RUNNING_ON.(firstFetch := true));
      if p.idReady && !d.stall {
        ns := DECODE;
      }
      if IrqTaken(p) {
        ns, o := IRQ_TAKEN_IF, o.(halts := ALL_HALTED.(firstFetch := true));
      }
    }

    /** The first flush, and the states that wait for an interrupt. */
    method FlushState(p: Pipeline, d: Debug, s: Settings) returns (ns: Fsm, o: Outputs)
      requires ctrlFsmCs in {FLUSH_EX, IRQ_FLUSH, ELW_EXE}
      ensures ns == NextFsm(State(), p, d) && o == OutputsOf(State(), p, d, s)
    {
      ns, o := ctrlFsmCs, DEFAULTS.(halts := ALL_HALTED);
      if ctrlFsmCs == FLUSH_EX {
        if p.exValid {
          ns := FLUSH_WB;
        }
      } else if ctrlFsmCs == IRQ_FLUSH {
        ns := if IrqTaken(p) then IRQ_TAKEN_ID else DECODE;
      } else if p.idReady {
        ns := IRQ_FLUSH;
      } else if d.req {
        ns := DBG_SIGNAL_ELW;
      }
    }

    /** An interrupt is taken, from the decode or from the fetch stage. */
    method IrqState(p: Pipeline, d: Debug, s: Settings) returns (ns: Fsm, o: Outputs)
      requires ctrlFsmCs in {IRQ_TAKEN_ID, IRQ_TAKEN_IF}
      ensures ns == NextFsm(State(), p, d) && o == OutputsOf(State(), p, d, s)
    {
      var addr := if p.irqSec then TRAP_MACHINE else if p.priv == PRIV_U then TRAP_USER else TRAP_MACHINE;
      ns, o := DECODE, DEFAULTS.(pcSet := true, pcMux := PC_EXCEPTION, saveCause := true, irqAck := true);
      o := o.(trap := TrapInfo(p.irqId, IRQ_FLAG + p.irqId, EXC_PC_IRQ, addr, p.irqSec));
      if ctrlFsmCs == IRQ_TAKEN_ID {
        o := o.(saveId := true);
      } else {
        o := o.(saveIf := true);
      }
    }

    /** The cases of the state machine. */
    method Cases(p: Pipeline, d: Debug, s: Settings) returns (ns: Fsm, jumpDone: bool, bootDone: bool, o: Outputs)
      ensures ns == NextFsm(State(), p, d) && o == OutputsOf(State(), p, d, s)
      ensures jumpDone == (jumpDoneQ || Jumps(State(), p)) && bootDone == ctrlFsmCs.BOOT_SET?
    {
      jumpDone, bootDone := jumpDoneQ, false;
      if ctrlFsmCs == DECODE {
        ns, jumpDone, o := DecodeState(p, d, s);
      } else if ctrlFsmCs == FLUSH_WB {
        ns, o := FlushWbState(p, d, s);
      } else if ctrlFsmCs in {FLUSH_EX, IRQ_FLUSH, ELW_EXE} {
        ns, o := FlushState(p, d, s);
      } else if ctrlFsmCs in {IRQ_TAKEN_ID, IRQ_TAKEN_IF} {
        ns, o := IrqState(p, d, s);
      } else if ctrlFsmCs in {DBG_WAIT_ELW, DBG_WAIT} {
        ns, o := WaitState(p, d, s);
      } else if ctrlFsmCs in {DBG_SIGNAL, DBG_SIGNAL_SLEEP, DBG_SIGNAL_ELW} {
        ns, o := SignalState(p, d, s);
      } else if ctrlFsmCs == DBG_WAIT_BRANCH {
        ns, o := BranchState(p, d, s);
      } else if ctrlFsmCs in {WAIT_SLEEP, SLEEP} {
        ns, o := SleepState(p, d, s);
      } else if ctrlFsmCs == FIRST_FETCH {
        ns, o := FirstFetchState(p, d, s);
      } else {
        ns, bootDone, o := BootState(p, d, s);
      }
    }

    /** One clock cycle: the outputs before the edge, and the registers after it. */
    method Tick(p: Pipeline, d: Debug, s: Settings) returns (o: Outputs)
      modifies this
      ensures State() == Next(old(State()), p, d)
      ensures o == OutputsOf(old(State()), p, d, s)
    {
      var ns, jumpDone, bootDone;
      ns, jumpDone, bootDone, o := Cases(p, d, s);
      ctrlFsmCs := ns;
      bootDoneQ := bootDone || (!bootDone && bootDoneQ);
      jumpDoneQ := jumpDone && !p.idReady;
    }
  }

  // ----- what the outputs mean -----

  /** Trap state is saved exactly when the program counter moves to the handler, from the
      fetch or from the decode stage but not both; it is restored exactly when the program
      counter returns from it; an interrupt is acknowledged only together with its save. */
  lemma TrapsAreConsistent(r: Regs, p: Pipeline, d: Debug)
    ensures CsrSaveCause(r, p) <==> PcSet(r, p, d) && PcSource(r, p, d) == PC_EXCEPTION
    ensures CsrSaveCause(r, p) <==> CsrSaveIf(r) != CsrSaveId(r, p)
    ensures CsrRestoreMret(r, p) || CsrRestoreUret(r, p) <==> PcSet(r, p, d) && PcSource(r, p, d) == PC_ERET
    ensures !(CsrRestoreMret(r, p) && CsrRestoreUret(r, p))
    ensures IrqAck(r) ==> CsrSaveCause(r, p)
    ensures CsrSaveCause(r, p) ==> (IrqAck(r) <==> !r.fsm.FLUSH_WB?)
    ensures CsrSaveCause(r, p)
            ==> (IrqAck(r) <==> CsrCause(r, p) >= IRQ_FLAG) && (IrqAck(r) <==> ExcPcMux(r, p) == EXC_PC_IRQ)
    ensures TrapAddrMux(r, p) == TRAP_USER ==> IrqAck(r) && p.priv == PRIV_U
  {
  }

  /** The handler is that of the saved cause: each of them has one of its own, and an ecall
      tells the privilege level it comes from. */
  lemma HandlerOfCause(r: Regs, p: Pipeline)
    requires CsrSaveCause(r, p)
    ensures ExcPcMux(r, p) == EXC_PC_ILLINSN <==> CsrCause(r, p) == CAUSE_ILLEGAL_INSN
    ensures ExcPcMux(r, p) == EXC_PC_ECALL
            <==> CsrCause(r, p) == CAUSE_ECALL_UMODE || CsrCause(r, p) == CAUSE_ECALL_MMODE
    ensures ExcPcMux(r, p) == EXC_PC_IRQ <==> CsrCause(r, p) == IRQ_FLAG + p.irqId
    ensures ExcPcMux(r, p) == EXC_PC_ECALL ==> (CsrCause(r, p) == CAUSE_ECALL_UMODE <==> p.priv == PRIV_U)
    ensures !IrqAck(r) ==>
              (ExcCause(r, p) == CAUSE_ILLEGAL_INSN <==> ExcPcMux(r, p) == EXC_PC_ILLINSN)
              && (ExcCause(r, p) == CAUSE_ECALL_MMODE <==> ExcPcMux(r, p) == EXC_PC_ECALL)
    ensures IrqAck(r) ==> ExcCause(r, p) == p.irqId
  {
  }

  datatype Cycle = Cycle(p: Pipeline, d: Debug)

  /** A jump that stays in the decode stage. */
  predicate JumpWaits(i: Cycle) {
    Decodes(i.p) && i.p.jumpInDec && !i.p.idReady
  }

  function Run(r: Regs, ins: seq<Cycle>): Regs
    decreases |ins|
  {
    if ins == [] then r else Run(Next(r, ins[0].p, ins[0].d), ins[1..])
  }

  /** How often the program counter is moved. */
  function PcMoves(r: Regs, ins: seq<Cycle>): nat
    decreases |ins|
  {
    if ins == [] then 0
    else (if PcSet(r, ins[0].p, ins[0].d) then 1 else 0) + PcMoves(Next(r, ins[0].p, ins[0].d), ins[1..])
  }

  /** The halted decode stage still shows the same instruction. */
  predicate SameInstr(p: Pipeline, p': Pipeline) {
    && p'.mret == p.mret && p'.uret == p.uret && p'.ecall == p.ecall && p'.pipeFlush == p.pipeFlush
    && p'.ebrk == p.ebrk && p'.illegal == p.illegal && p'.csrStatus == p.csrStatus
  }

  /** However long a jump waits in the decode stage, and whatever interferes there, it moves
      the program counter once: as soon as its target register is not stalled, unless it has
      done so before. */
  lemma {:induction false} JumpMovesPcOnce(r: Regs, ins: seq<Cycle>)
    requires r.fsm.DECODE? && forall k :: 0 <= k < |ins| ==> JumpWaits(ins[k])
    ensures Run(r, ins).fsm.DECODE?
    ensures PcMoves(r, ins) == if !r.jumpDone && exists k :: 0 <= k < |ins| && !ins[k].p.jrStall then 1 else 0
    ensures Run(r, ins).jumpDone <==> r.jumpDone || exists k :: 0 <= k < |ins| && !ins[k].p.jrStall
    decreases |ins|
  {
    if ins != [] {
      assert JumpWaits(ins[0]);
      var r' := Next(r, ins[0].p, ins[0].d);
      JumpMovesPcOnce(r', ins[1..]);
      assert forall k :: 0 < k < |ins| ==> ins[k] == ins[1..][k - 1];
    }
  }
}
