/** What a debugger sees of the pair: its settings and which traps they let through, the step
    hit, its accesses, and how it halts the core, moves its PC and lets it go. */
module DebugSession {
  import C = Controller
  import opened DebugUnit
  import opened HaltHandshake
  import opened Wrappers

  // ----- the settings -----

  /** The data last written to a debug register, if any was. */
  function LastWrite(ins: seq<Cycle>, register: nat): Option<seq<bool>> {
    if ins == [] then None
    else
      var a := ins[|ins| - 1].access;
      if a.req && a.we && !a.csr && a.page == 0 && a.register == register then Some(a.wdata)
      else LastWrite(ins[..|ins| - 1], register)
  }

  /** Bit k of it, or what was there before. */
  predicate BitOf(written: Option<seq<bool>>, k: nat, before: bool) {
    match written
    case Some(data) => k < |data| && data[k]
    case None => before
  }

  lemma {:induction false} RunLast(c: Core, ins: seq<Cycle>)
    requires ins != []
    ensures Run(c, ins) == Step(Run(c, ins[..|ins| - 1]), ins[|ins| - 1])
    decreases |ins|
  {
    if |ins| == 1 {
      assert ins[1..] == [] && ins[..0] == [];
    } else {
      RunLast(Step(c, ins[0]), ins[1..]);
      assert ins[1..][..|ins| - 2] == ins[..|ins| - 1][1..];
    }
  }

  /** DBG_CTRL is register 0 and DBG_IE register 2. */
  predicate AsWritten(s: C.Settings, t: C.Settings, ctrl: Option<seq<bool>>, ie: Option<seq<bool>>) {
    && s.sste == BitOf(ctrl, 0, t.sste)
    && s.ecall == BitOf(ie, 11, t.ecall)
    && s.ebrk == BitOf(ie, 3, t.ebrk)
    && s.eill == BitOf(ie, 2, t.eill)
    && s.elsu == (BitOf(ie, 7, t.elsu) || BitOf(ie, 5, t.elsu))
  }

  lemma {:induction false} WriteOfLast(front: seq<Cycle>, i: Cycle, register: nat)
    ensures LastWrite(front + [i], register)
            == if Writes(i.access, 0, register) then Some(i.access.wdata) else LastWrite(front, register)
  {
    assert (front + [i])[..|front|] == front;
  }

  lemma AccessAsWritten(s: DbgRegs, t: C.Settings, a: Access, ctrl: Option<seq<bool>>, ie: Option<seq<bool>>)
    requires AsWritten(s.settings, t, ctrl, ie)
    ensures AsWritten(NextSettings(s, a), t, if Writes(a, 0, 0) then Some(a.wdata) else ctrl,
                      if Writes(a, 0, 2) then Some(a.wdata) else ie)
  {
  }

  /** In every run the settings are the bits last written to DBG_CTRL and DBG_IE. */
  lemma {:induction false} SettingsAsWritten(c: Core, ins: seq<Cycle>)
    ensures AsWritten(Run(c, ins).dbg.settings, c.dbg.settings, LastWrite(ins, 0), LastWrite(ins, 2))
    decreases |ins|
  {
    if ins != [] {
      var front, i := ins[..|ins| - 1], ins[|ins| - 1];
      SettingsAsWritten(c, front);
      AccessAsWritten(Run(c, front).dbg, c.dbg.settings, i.access, LastWrite(front, 0), LastWrite(front, 2));
      assert ins == front + [i];
      WriteOfLast(front, i, 0);
      WriteOfLast(front, i, 2);
      assert Run(c, ins).dbg.settings == NextSettings(Run(c, front).dbg, i.access) by {
        RunLast(c, ins);
      }
    }
  }

  lemma TrapHalts(c: Core, w: Cycle)
    requires c.ctrl.fsm.FLUSH_WB? && c.dbg.stall == RUNNING && !HaltWritten(c.dbg, w.access) && !w.access.halt
    ensures var p, s := w.pipe, c.dbg.settings;
            Step(c, w).dbg.stall == HALT_REQ
            <==> || (s.sste && (C.Flushes(p) || p.csrStatus))
                 || (if p.ecall then s.ecall else if p.illegal then s.eill else !p.mret && !p.uret && p.ebrk && s.ebrk)
  {
  }

  /** Which traps halt the core: in every run from reset, at the end of a flush and without a
      request from outside, a halt is requested exactly if the step setting is on and there is
      an instruction to be stepped over, or if the instruction that is flushed is an ecall, an
      illegal one, or a breakpoint whose own bit was last written as one. */
  lemma {:induction false} TrapHaltsExactly(ins: seq<Cycle>, w: Cycle)
    requires var c := Run(RESET_CORE, ins);
             && c.ctrl.fsm.FLUSH_WB? && c.dbg.stall == RUNNING
             && !HaltWritten(c.dbg, w.access) && !w.access.halt
    ensures var p := w.pipe;
            Step(Run(RESET_CORE, ins), w).dbg.stall == HALT_REQ
            <==> || (BitOf(LastWrite(ins, 0), 0, false) && (C.Flushes(p) || p.csrStatus))
                 || (if p.ecall then BitOf(LastWrite(ins, 2), 11, false)
                     else if p.illegal then BitOf(LastWrite(ins, 2), 2, false)
                     else !p.mret && !p.uret && p.ebrk && BitOf(LastWrite(ins, 2), 3, false))
  {
    TrapHalts(Run(RESET_CORE, ins), w);
    SettingsAsWritten(RESET_CORE, ins);
  }

  // ----- the step hit -----

  /** DBG_HIT is written with its bit set. */
  predicate ClearsHit(a: Access) {
    a.req && a.we && !a.csr && a.page == 0 && a.register == 1 && |a.wdata| > 0 && a.wdata[0]
  }

  ghost predicate NeverClears(ins: seq<Cycle>) {
    forall k :: 0 <= k < |ins| ==> !ClearsHit(ins[k].access)
  }

  lemma {:induction false} HitStays(c: Core, ins: seq<Cycle>)
    requires StaysAsked(c, ins) && NeverClears(ins)
    ensures Run(c, ins).dbg.ssth == c.dbg.ssth
    decreases |ins|
  {
    if ins != [] {
      assert !ClearsHit(ins[0].access);
      assert Step(c, ins[0]).dbg.ssth == c.dbg.ssth;
      HitStays(Step(c, ins[0]), ins[1..]);
    }
  }

  /** From the cycle that begins a halt the step hit tells whether it was a trap with the step
      setting on, until the debugger clears it. */
  lemma StepHitOfTheHalt(c: Core, i: Cycle, ins: seq<Cycle>, j: Cycle)
    requires c.dbg.stall == RUNNING && StaysAsked(Step(c, i), ins)
    requires !ClearsHit(i.access) && NeverClears(ins)
    ensures var e := Run(c, [i] + ins);
            && (e.dbg.ssth <==> Trap(c, i) && c.dbg.settings.sste)
            && (ClearsHit(j.access) ==> !Step(e, j).dbg.ssth)
  {
    HitStays(Step(c, i), ins);
    OneCycle(c, i, ins);
  }

  // ----- debug accesses -----

  function Granted(c: Core, ins: seq<Cycle>): nat
    decreases |ins|
  {
    if ins == [] then 0 else (if Grants(c.dbg, ins[0].access) then 1 else 0) + Granted(Step(c, ins[0]), ins[1..])
  }

  function Answered(c: Core, ins: seq<Cycle>): nat
    decreases |ins|
  {
    if ins == [] then 0 else (if c.dbg.rvalid then 1 else 0) + Answered(Step(c, ins[0]), ins[1..])
  }

  /** Every granted access is answered once, up to the one granted last. */
  lemma {:induction false} EveryGrantAnswered(c: Core, ins: seq<Cycle>)
    ensures Answered(c, ins) + (if Run(c, ins).dbg.rvalid then 1 else 0)
            == Granted(c, ins) + if c.dbg.rvalid then 1 else 0
    decreases |ins|
  {
    if ins != [] {
      EveryGrantAnswered(Step(c, ins[0]), ins[1..]);
    }
  }

  /** An access that is held is granted at once, but a CSR write in its second cycle; the CSR is
      asked for in the first of them, if the core is halted, and written in the second. */
  lemma CsrWriteTakesTwo(s: DbgRegs, a: Access, k: CoreSignals)
    requires a.req && !s.second
    ensures var s' := NextDbg(s, a, k); var twice := a.we && a.csr;
            && (Grants(s, a) <==> !twice) && (twice ==> Grants(s', a) && !NextDbg(s', a, k).second)
            && !CsrWrite(s, a) && (CsrWrite(s', a) <==> twice)
            && (s'.csrReq <==> a.csr && s.stall == HALT) && (twice ==> !NextDbg(s', a, k).csrReq)
            && (s'.second <==> twice)
  {
  }

  /** General registers are accessed through two pages, and only while the core is halted. */
  lemma RegisterAccess(s: DbgRegs, a: Access, k: CoreSignals)
    ensures RegWrite(s, a) <==> (Writes(a, 4, a.register) || Writes(a, 5, a.register)) && s.stall == HALT
    ensures a.req ==> (NextDbg(s, a, k).regRead
                       <==> !a.we && !a.csr && (a.page == 4 || a.page == 5) && s.stall == HALT)
    ensures a.csr ==>
              !RegWrite(s, a) && !HaltWritten(s, a) && !JumpWritten(s, a) && NextSettings(s, a) == s.settings
  {
  }

  /** Without a request nothing is granted, written, halted or moved, and a CSR write under way
      waits; what an access has begun lasts for one cycle only. */
  lemma NoRequestNoAccess(s: DbgRegs, a: Access, k: CoreSignals, b: Access, k': CoreSignals)
    requires !b.req
    ensures !Grants(s, b) && !CsrWrite(s, b) && !RegWrite(s, b) && !HaltWritten(s, b) && !JumpWritten(s, b)
    ensures NextSettings(s, b) == s.settings && NextDbg(s, b, k').second == s.second
    ensures var s' := NextDbg(NextDbg(s, a, k), b, k');
            a.req && Grants(s, a) ==> !s'.csrReq && !s'.regRead && !s'.jumpReq
  {
  }

  // ----- the debugger's own words -----

  /** DBG_CTRL is written with its HALT bit as given. */
  predicate WritesCtrl(a: Access, halt: bool) {
    a.req && a.we && !a.csr && a.page == 0 && a.register == 0 && (halt <==> 16 < |a.wdata| && a.wdata[16])
  }

  /** DNPC is written. */
  predicate WritesNpc(a: Access) {
    a.req && a.we && !a.csr && a.page == 32 && a.register == 0
  }

  /** The debugger lets a halted core go: by its line or by clearing HALT. */
  predicate LetsGo(a: Access) {
    a.resume || WritesCtrl(a, false)
  }

  /** When a running core is asked to halt, when a request is withdrawn or honoured, and when a
      halted core runs again. */
  lemma StallExactly(c: Core, i: Cycle)
    ensures var s, a := Step(c, i).dbg.stall, i.access;
            match c.dbg.stall
            case RUNNING => s == if WritesCtrl(a, true) || a.halt || Trap(c, i) then HALT_REQ else RUNNING
            case HALT_REQ => s == if a.resume then RUNNING else if C.DbgAck(c.ctrl) then HALT else HALT_REQ
            case HALT => s == if LetsGo(a) then RUNNING else HALT
  {
  }

  /** The request line is not lowered before the core is halted. */
  ghost predicate LineKept(ins: seq<Cycle>) {
    forall k :: 0 <= k < |ins| ==> !ins[k].access.resume
  }

  lemma {:induction false} LineKeeps(c: Core, ins: seq<Cycle>)
    requires c.dbg.stall == HALT_REQ && LineKept(ins)
    ensures Kept(c, ins)
    decreases |ins|
  {
    if ins != [] {
      assert !ins[0].access.resume;
      StallExactly(c, ins[0]);
      if !Halted(Step(c, ins[0])) {
        LineKeeps(Step(c, ins[0]), ins[1..]);
      }
    }
  }

  lemma {:induction false} HaltedStays(c: Core, ins: seq<Cycle>)
    requires Halted(c) && forall k :: 0 <= k < |ins| ==> !LetsGo(ins[k].access)
    ensures Halted(Run(c, ins))
    decreases |ins|
  {
    if ins != [] {
      assert !LetsGo(ins[0].access);
      StallExactly(c, ins[0]);
      HaltedStays(Step(c, ins[0]), ins[1..]);
    }
  }

  /** Halt and resume: a running core on which the debugger sets HALT is halted within the bound
      of RequestIsHonoured, stays halted until the debugger lets it go, whatever else it does, and
      runs again from the next cycle. */
  lemma {:induction false} HaltAndResume(c: Core, i: Cycle, ins: seq<Cycle>, stay: seq<Cycle>, go: Cycle)
    returns (j: nat)
    requires c.dbg.stall == RUNNING && Inv(c) && WritesCtrl(i.access, true) && LineKept(ins)
    requires ReadyCycles(ins) >= Rank(Step(c, i).ctrl.fsm) + 3 * Interrupts(Step(c, i), ins)
    requires (forall k :: 0 <= k < |stay| ==> !LetsGo(stay[k].access)) && LetsGo(go.access)
    ensures j <= |ins| && Halted(Run(Step(c, i), ins[..j]))
    ensures var e := Run(Run(Step(c, i), ins[..j]), stay);
            && Halted(e) && Waits(e)
            && Step(e, go).dbg.stall == RUNNING && !Waits(Step(e, go))
  {
    var c1 := Step(c, i);
    StallExactly(c, i);
    LineKeeps(c1, ins);
    j := RequestIsHonoured(c1, ins);
    var h := Run(c1, ins[..j]);
    HaltedStays(h, stay);
    ReachableInv(c, [i]);
    OneCycle(c, i, []);
    ReachableInv(c1, ins[..j]);
    ReachableInv(h, stay);
    StallExactly(Run(h, stay), go);
    WaitLeft(Run(h, stay), go);
  }

  /** The debugger moves the PC exactly in the cycle after it has written DNPC of a core that was
      halted and was not let go in that cycle. */
  lemma DebuggerMovesPcExactly(ins: seq<Cycle>, i: Cycle, j: Cycle)
    ensures var c := Run(RESET_CORE, ins); var c1 := Step(c, i); var d := Signals(c1, j);
            C.PcSet(c1.ctrl, j.pipe, d) && C.PcSource(c1.ctrl, j.pipe, d) == C.PC_DBG_NPC
            <==> WritesNpc(i.access) && Halted(c) && !LetsGo(i.access)
  {
    var c := Run(RESET_CORE, ins);
    ReachableInv(RESET_CORE, ins);
    ReachableInv(c, [i]);
    OneCycle(c, i, []);
    JumpPending(c, i);
    StallExactly(c, i);
    WaitLeft(c, i);
    JumpNeedsWait(Step(c, i), j);
  }

  lemma JumpPending(c: Core, i: Cycle)
    requires Inv(c)
    ensures Step(c, i).dbg.jumpReq <==> WritesNpc(i.access) && Halted(c)
  {
  }
}
