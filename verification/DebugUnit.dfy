/** The debug unit riscv_debug_unit: the decoder of debug accesses and the machine that
    halts the core and lets it go again. */
module DebugUnit {
  import opened Controller

  datatype Stall = RUNNING | HALT_REQ | HALT

  /** One cycle of the debug interface: an access, and the external halt and resume lines.
      csr is address bit 14, page bits 13 to 8, register bits 6 to 2. */
  datatype Access = Access(req: bool, we: bool, csr: bool, page: nat, register: nat, wdata: seq<bool>,
                           halt: bool, resume: bool)

  /** What the controller says in a cycle: a trap, its cause, and the acknowledgement. */
  datatype CoreSignals = CoreSignals(trap: bool, excCause: nat, ack: bool)

  /** DBG_CAUSE_HALT. */
  const CAUSE_HALT := 0x1F

  datatype DbgRegs = DbgRegs(stall: Stall, settings: Settings, second: bool, rvalid: bool, jumpReq: bool,
                             cause: nat, ssth: bool, csrReq: bool, regRead: bool)

  const RESET_DBG := DbgRegs(RUNNING, Settings(false, false, false, false, false), false, false, false, CAUSE_HALT,
                             false, false, false)

  predicate Bit(a: Access, k: nat) {
    k < |a.wdata| && a.wdata[k]
  }

  /** A write to a register of a page. */
  predicate Writes(a: Access, page: nat, register: nat) {
    a.req && a.we && !a.csr && a.page == page && a.register == register
  }

  /** dbg_halt: DBG_CTRL is written with HALT set while the core is not halted. */
  predicate HaltWritten(s: DbgRegs, a: Access) {
    Writes(a, 0, 0) && Bit(a, 16) && s.stall != HALT
  }

  /** dbg_resume or the external line. */
  predicate Resumes(s: DbgRegs, a: Access) {
    a.resume || (Writes(a, 0, 0) && !Bit(a, 16) && s.stall == HALT)
  }

  predicate HaltAsked(s: DbgRegs, a: Access, trap: bool) {
    HaltWritten(s, a) || a.halt || trap
  }

  /** jump_req_n: DNPC is written while the core is halted. */
  predicate JumpWritten(s: DbgRegs, a: Access) {
    Writes(a, 32, 0) && s.stall == HALT
  }

  /** debug_gnt_o: at once, except for CSR writes, which take two cycles. */
  predicate Grants(s: DbgRegs, a: Access) {
    a.req && !(a.we && a.csr && !s.second)
  }

  function NextSettings(s: DbgRegs, a: Access): Settings {
    if Writes(a, 0, 0) then s.settings.(sste := Bit(a, 0))
    else if Writes(a, 0, 2) then
      s.settings.(ecall := Bit(a, 11), elsu := Bit(a, 7) || Bit(a, 5), ebrk := Bit(a, 3), eill := Bit(a, 2))
    else s.settings
  }

  // ----- outputs to the core -----

  predicate DbgReq(s: DbgRegs, a: Access, trap: bool) {
    match s.stall
    case RUNNING => HaltAsked(s, a, trap)
    case HALT_REQ => true
    case HALT => false
  }

  predicate StallOut(s: DbgRegs, a: Access) {
    s.stall == HALT && !Resumes(s, a)
  }

  function NextStall(s: DbgRegs, a: Access, trap: bool, ack: bool): Stall {
    match s.stall
    case RUNNING => if HaltAsked(s, a, trap) then HALT_REQ else RUNNING
    case HALT_REQ => if Resumes(s, a) then RUNNING else if ack then HALT else HALT_REQ
    case HALT => if Resumes(s, a) then RUNNING else HALT
  }

  /** dbg_cause: why the core is asked to halt. */
  function NextCause(s: DbgRegs, a: Access, k: CoreSignals): nat {
    if s.stall == RUNNING && HaltAsked(s, a, k.trap) then if k.trap then k.excCause else CAUSE_HALT else s.cause
  }

  /** dbg_ssth: a single step has been made; DBG_HIT is written to clear it. */
  predicate NextStepHit(s: DbgRegs, a: Access, trap: bool) {
    if Writes(a, 0, 1) && Bit(a, 0) then false
    else if s.stall == RUNNING then trap && s.settings.sste
    else s.ssth
  }

  /** csr_req_n: CSRs are accessed only while the core is halted, in the first cycle of a write. */
  predicate CsrAsked(s: DbgRegs, a: Access) {
    a.req && a.csr && s.stall == HALT && !(a.we && s.second)
  }

  /** csr_we_o: the second cycle of a CSR write. */
  predicate CsrWrite(s: DbgRegs, a: Access) {
    a.req && a.we && a.csr && s.second
  }

  /** The two pages of general-purpose registers. */
  predicate RegisterPage(a: Access) {
    a.req && !a.csr && (a.page == 4 || a.page == 5)
  }

  /** regfile_wreq. */
  predicate RegWrite(s: DbgRegs, a: Access) {
    RegisterPage(a) && a.we && s.stall == HALT
  }

  /** regfile_rreq_n. */
  predicate RegReadAsked(s: DbgRegs, a: Access) {
    RegisterPage(a) && !a.we && s.stall == HALT
  }

  function NextDbg(s: DbgRegs, a: Access, k: CoreSignals): DbgRegs {
    var latch := a.req || s.rvalid;
    DbgRegs(NextStall(s, a, k.trap, k.ack),
            NextSettings(s, a),
            if a.req then a.we && a.csr && !s.second else s.second,
            Grants(s, a),
            if latch then JumpWritten(s, a) else s.jumpReq,
            NextCause(s, a, k),
            NextStepHit(s, a, k.trap),
            if latch then CsrAsked(s, a) else s.csrReq,
            if latch then RegReadAsked(s, a) else s.regRead)
  }

  /** What the decoder makes of an access. */
  datatype Decoded = Decoded(gnt: bool, second: bool, halt: bool, resume: bool, jumpReq: bool, ssthClear: bool,
                             settings: Settings, csrReq: bool, csrWe: bool, regWrite: bool, regRead: bool)

  function DecodedOf(s: DbgRegs, a: Access): Decoded {
    Decoded(Grants(s, a), a.req && a.we && a.csr && !s.second,
            HaltWritten(s, a), Writes(a, 0, 0) && !Bit(a, 16) && s.stall == HALT, JumpWritten(s, a),
            Writes(a, 0, 1) && Bit(a, 0), NextSettings(s, a),
            CsrAsked(s, a), CsrWrite(s, a), RegWrite(s, a), RegReadAsked(s, a))
  }

  class RiscvDebugUnit {
    var stallCs: Stall
    var settingsQ: Settings
    var stateQ: bool
    var debugRvalid: bool
    var jumpReqQ: bool
    var dbgCauseQ: nat
    var dbgSsthQ: bool
    var csrReqQ: bool
    var regfileRreqQ: bool

    ghost function State(): DbgRegs
      reads this
    {
      DbgRegs(stallCs, settingsQ, stateQ, debugRvalid, jumpReqQ, dbgCauseQ, dbgSsthQ, csrReqQ, regfileRreqQ)
    }

    constructor ()
      ensures State() == RESET_DBG
    {
      stallCs, settingsQ, stateQ := RUNNING, Settings(false, false, false, false, false), false;
      debugRvalid, jumpReqQ, dbgCauseQ, dbgSsthQ := false, false, CAUSE_HALT, false;
      csrReqQ, regfileRreqQ := false, false;
    }

    /** The decoder's outputs before its cases. */
    function NoAccess(): Decoded
      reads this
    {
      Decoded(false, false, false, false, false, false, settingsQ, false, false, false, false)
    }

    /** Address decoding. */
    method Decode(a: Access) returns (d: Decoded)
      ensures d == DecodedOf(State(), a)
    {
      d := NoAccess();
      if a.req {
        if a.we {
          d := DecodeWrite(a);
        } else {
          d := DecodeRead(a);
        }
      }
    }

    method DecodeRead(a: Access) returns (d: Decoded)
      requires a.req && !a.we
      ensures d == DecodedOf(State(), a)
    {
      d := NoAccess().(gnt := true);
      if a.csr {
        if stallCs == HALT {
          d := d.(csrReq := true);
        }
      } else if a.page == 4 || a.page == 5 {
        if stallCs == HALT {
          d := d.(regRead := true);
        }
      }
    }

    method DecodeWrite(a: Access) returns (d: Decoded)
      requires a.req && a.we
      ensures d == DecodedOf(State(), a)
    {
      d := NoAccess();
      if a.csr {
        if !stateQ {
          d := d.(second := true);
          if stallCs == HALT {
            d := d.(csrReq := true);
          }
        } else {
          d := d.(gnt := true, csrWe := true);
        }
      } else {
        d := d.(gnt := true);
        if a.page == 0 {
          d := DecodeDebugRegister(a);
        } else if stallCs == HALT {
          if a.page == 32 {
            d := d.(jumpReq := a.register == 0);
          } else if a.page == 4 || a.page == 5 {
            d := d.(regWrite := true);
          }
        }
      }
    }

    /** A write to one of the debug registers that are always accessible. */
    method DecodeDebugRegister(a: Access) returns (d: Decoded)
      requires a.req && a.we && !a.csr && a.page == 0
      ensures d == DecodedOf(State(), a)
    {
      d := NoAccess().(gnt := true);
      if a.register == 0 {
        if Bit(a, 16) {
          if stallCs != HALT {
            d := d.(halt := true);
          }
        } else if stallCs == HALT {
          d := d.(resume := true);
        }
        d := d.(settings := d.settings.(sste := Bit(a, 0)));
      } else if a.register == 1 {
        d := d.(ssthClear := Bit(a, 0));
      } else if a.register == 2 {
        d := d.(settings := d.settings.(ecall := Bit(a, 11), elsu := Bit(a, 7) || Bit(a, 5),
                                        ebrk := Bit(a, 3), eill := Bit(a, 2)));
      }
    }

    /** The stall machine. */
    method TickStall(resume: bool, asked: bool, k: CoreSignals, ssthClear: bool) returns (dbgReq: bool, stall: bool)
      modifies this`stallCs, this`dbgCauseQ, this`dbgSsthQ
      ensures stallCs == match old(stallCs)
                         case RUNNING => if asked || k.trap then HALT_REQ else RUNNING
                         case HALT_REQ => if resume then RUNNING else if k.ack then HALT else HALT_REQ
                         case HALT => if resume then RUNNING else HALT
      ensures dbgReq == (old(stallCs) == HALT_REQ || (old(stallCs) == RUNNING && (asked || k.trap)))
      ensures stall == (old(stallCs) == HALT && !resume)
      ensures dbgCauseQ == if old(stallCs) == RUNNING && (asked || k.trap)
                           then if k.trap then k.excCause else CAUSE_HALT
                           else old(dbgCauseQ)
      ensures dbgSsthQ == (!ssthClear && if old(stallCs) == RUNNING then k.trap && settingsQ.sste else old(dbgSsthQ))
    {
      dbgReq, stall := false, false;
      match stallCs {
        case RUNNING =>
          dbgSsthQ := false;
          if asked || k.trap {
            dbgReq, stallCs := true, HALT_REQ;
            if k.trap {
              if settingsQ.sste {
                dbgSsthQ := true;
              }
              dbgCauseQ := k.excCause;
            } else {
              dbgCauseQ := CAUSE_HALT;
            }
          }
        case HALT_REQ =>
          dbgReq := true;
          if k.ack {
            stallCs := HALT;
          }
          if resume {
            stallCs := RUNNING;
          }
        case HALT =>
          stall := true;
          if resume {
            stallCs, stall := RUNNING, false;
          }
      }
      if ssthClear {
        dbgSsthQ := false;
      }
    }

    /** The registers that are enabled by an access or by the cycle after a grant. */
    method LatchRequests(a: Access, d: Decoded)
      modifies this`jumpReqQ, this`csrReqQ, this`regfileRreqQ, this`stateQ
      ensures jumpReqQ == if a.req || debugRvalid then d.jumpReq else old(jumpReqQ)
      ensures csrReqQ == if a.req || debugRvalid then d.csrReq else old(csrReqQ)
      ensures regfileRreqQ == if a.req || debugRvalid then d.regRead else old(regfileRreqQ)
      ensures stateQ == if a.req then d.second else old(stateQ)
    {
      if a.req || debugRvalid {
        jumpReqQ, csrReqQ, regfileRreqQ := d.jumpReq, d.csrReq, d.regRead;
      }
      if a.req {
        stateQ := d.second;
      }
    }

    /** One clock cycle: outputs before the edge, registers after it. */
    method Tick(a: Access, k: CoreSignals) returns (d: Decoded, dbgReq: bool, stall: bool, halted: bool, jumpReq: bool)
      modifies this
      ensures State() == NextDbg(old(State()), a, k) && d == DecodedOf(old(State()), a)
      ensures dbgReq == DbgReq(old(State()), a, k.trap) && stall == StallOut(old(State()), a)
      ensures halted == (old(stallCs) == HALT) && jumpReq == old(jumpReqQ)
    {
      halted, jumpReq := stallCs == HALT, jumpReqQ;
      d := Decode(a);
      dbgReq, stall := TickStall(d.resume || a.resume, d.halt || a.halt, k, d.ssthClear);
      LatchRequests(a, d);
      settingsQ, debugRvalid := d.settings, d.gnt;
    }
  }
}
