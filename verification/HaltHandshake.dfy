/** Controller and debug unit on one clock: halting is safe in every run of the pair, and
    every halt request is honoured. */
module HaltHandshake {
  import opened Controller
  import opened DebugUnit

  datatype Core = Core(ctrl: Regs, dbg: DbgRegs)

  /** One cycle's inputs of the pair. */
  datatype Cycle = Cycle(pipe: Pipeline, access: Access)

  const RESET_CORE := Core(RESET_REGS, RESET_DBG)

  predicate Trap(c: Core, i: Cycle) {
    DbgTrap(c.ctrl, i.pipe, c.dbg.settings)
  }

  /** The signals from the debug unit to the controller. */
  function Signals(c: Core, i: Cycle): Debug {
    Debug(DbgReq(c.dbg, i.access, Trap(c, i)), StallOut(c.dbg, i.access), c.dbg.jumpReq)
  }

  /** The signals from the controller to the debug unit. */
  function Reports(c: Core, i: Cycle): CoreSignals {
    CoreSignals(Trap(c, i), ExcCause(c.ctrl, i.pipe), DbgAck(c.ctrl))
  }

  function Step(c: Core, i: Cycle): Core {
    Core(Next(c.ctrl, i.pipe, Signals(c, i)), NextDbg(c.dbg, i.access, Reports(c, i)))
  }

  function Run(c: Core, ins: seq<Cycle>): Core
    decreases |ins|
  {
    if ins == [] then c else Run(Step(c, ins[0]), ins[1..])
  }

  lemma OneCycle(c: Core, i: Cycle, rest: seq<Cycle>)
    ensures Run(c, [i] + rest) == Run(Step(c, i), rest)
  {
    assert ([i] + rest)[1..] == rest;
  }

  predicate Halted(c: Core) {
    c.dbg.stall == HALT
  }

  predicate Waits(c: Core) {
    c.ctrl.fsm.DBG_WAIT? || c.ctrl.fsm.DBG_WAIT_ELW?
  }

  // ----- safety -----

  /** What every reachable state keeps: a halted core waits, and a pending debug jump is
      one whose access was granted in the cycle before. */
  ghost predicate Inv(c: Core) {
    (Halted(c) ==> Waits(c)) && (c.dbg.jumpReq ==> c.dbg.rvalid)
  }

  lemma {:induction false} ReachableInv(c: Core, ins: seq<Cycle>)
    requires Inv(c)
    ensures Inv(Run(c, ins))
    decreases |ins|
  {
    if ins != [] {
      ReachableInv(Step(c, ins[0]), ins[1..]);
    }
  }

  /** Halt safety: in every run from reset, while the debug unit claims the core is halted
      the controller waits; it lets no instruction in, does not decode, acknowledge an interrupt,
      or save or restore trap state, and it moves the program counter only for a debug jump. */
  lemma HaltIsSafe(ins: seq<Cycle>, i: Cycle)
    requires Halted(Run(RESET_CORE, ins))
    ensures var c := Run(RESET_CORE, ins); var r, p, d := c.ctrl, i.pipe, Signals(c, i);
            && Waits(c)
            && !IsDecoding(r, p) && !IrqAck(r) && !CsrSaveIf(r) && !CsrSaveId(r, p) && !CsrSaveCause(r, p)
            && !CsrRestoreMret(r, p) && !CsrRestoreUret(r, p)
            && HaltIf(r, p, d)
            && (PcSet(r, p, d) <==> c.dbg.jumpReq)
            && (PcSet(r, p, d) ==> PcSource(r, p, d) == PC_DBG_NPC)
  {
    ReachableInv(RESET_CORE, ins);
  }

  lemma WaitLeft(c: Core, i: Cycle)
    requires Inv(c)
    ensures Halted(Step(c, i))
            <==> !Resumes(c.dbg, i.access) && (Halted(c) || (c.dbg.stall == HALT_REQ && DbgAck(c.ctrl)))
    ensures Waits(c) ==> (Waits(Step(c, i)) <==> StallOut(c.dbg, i.access))
  {
  }

  /** Exactly when the core is halted next: it is now, or it acknowledges a pending request,
      and in neither case is it resumed. A waiting controller leaves its waiting states in
      the very cycle of the resume; it also leaves them whenever the debug unit is not in HALT. */
  lemma HaltedExactly(ins: seq<Cycle>, i: Cycle)
    ensures var c := Run(RESET_CORE, ins);
            && (Halted(Step(c, i)) <==>
            !Resumes(c.dbg, i.access) && (Halted(c) || (c.dbg.stall == HALT_REQ && DbgAck(c.ctrl))))
            && (Waits(c) ==> (Waits(Step(c, i)) <==> Halted(c) && !Resumes(c.dbg, i.access)))
  {
    ReachableInv(RESET_CORE, ins);
    WaitLeft(Run(RESET_CORE, ins), i);
  }

  /** The debug unit does not return to RUNNING. */
  ghost predicate StaysAsked(c: Core, ins: seq<Cycle>)
    decreases |ins|
  {
    c.dbg.stall != RUNNING && (ins != [] ==> StaysAsked(Step(c, ins[0]), ins[1..]))
  }

  lemma {:induction false} CauseStays(c: Core, ins: seq<Cycle>)
    requires StaysAsked(c, ins)
    ensures Run(c, ins).dbg.cause == c.dbg.cause
    decreases |ins|
  {
    if ins != [] {
      assert Step(c, ins[0]).dbg.cause == c.dbg.cause;
      CauseStays(Step(c, ins[0]), ins[1..]);
    }
  }

  /** The reported cause is that of the request that began the halt: the core's if it
      trapped, a halt from outside otherwise; later requests and traps do not change it. */
  lemma CauseOfTheHalt(c: Core, i: Cycle, ins: seq<Cycle>)
    requires c.dbg.stall == RUNNING && StaysAsked(Step(c, i), ins)
    ensures Run(c, [i] + ins).dbg.cause == if Trap(c, i) then ExcCause(c.ctrl, i.pipe) else CAUSE_HALT
  {
    CauseStays(Step(c, i), ins);
    OneCycle(c, i, ins);
  }

  /** The registers of the core are written, and accesses to them begin, only while it is halted. */
  lemma AccessesNeedHalt(ins: seq<Cycle>, i: Cycle)
    ensures var c := Run(RESET_CORE, ins);
            && (RegWrite(c.dbg, i.access) ==> Halted(c) && Waits(c))
            && (!c.dbg.csrReq && Step(c, i).dbg.csrReq ==> Halted(c) && Waits(c))
            && (!c.dbg.regRead && Step(c, i).dbg.regRead ==> Halted(c) && Waits(c))
  {
    ReachableInv(RESET_CORE, ins);
  }

  /** After a write of DNPC, the jump is requested in the next cycle and in no further one. */
  lemma JumpRequested(s: DbgRegs, a: Access, k: CoreSignals, a': Access, k': CoreSignals)
    requires JumpWritten(s, a) && !JumpWritten(NextDbg(s, a, k), a')
    ensures NextDbg(s, a, k).jumpReq && !NextDbg(NextDbg(s, a, k), a', k').jumpReq
  {
    assert Grants(s, a);
  }

  /** Writing the next program counter of a halted core makes it jump in the next cycle,
      and once only, exactly if the core is not resumed in the cycle of the write. */
  lemma DebugJumpOnce(ins: seq<Cycle>, i: Cycle, j: Cycle)
    requires JumpWritten(Run(RESET_CORE, ins).dbg, i.access)
    requires !JumpWritten(Step(Run(RESET_CORE, ins), i).dbg, j.access)
    ensures var c := Run(RESET_CORE, ins); var c1 := Step(c, i); var d1 := Signals(c1, j);
            && (PcSet(c1.ctrl, j.pipe, d1) && PcSource(c1.ctrl, j.pipe, d1) == PC_DBG_NPC
                <==> !Resumes(c.dbg, i.access))
            && !Step(c1, j).dbg.jumpReq
  {
    var c := Run(RESET_CORE, ins);
    JumpRequested(c.dbg, i.access, Reports(c, i), j.access, Reports(Step(c, i), j));
    HaltedExactly(ins, i);
    ReachableInv(RESET_CORE, ins);
    JumpNeedsWait(Step(c, i), j);
  }

  lemma JumpNeedsWait(c: Core, j: Cycle)
    ensures var d := Signals(c, j);
            PcSet(c.ctrl, j.pipe, d) && PcSource(c.ctrl, j.pipe, d) == PC_DBG_NPC <==> Waits(c) && c.dbg.jumpReq
  {
  }

  // ----- liveness -----

  /** How many more cycles of a ready pipeline the controller may need to acknowledge, if no
      interrupt cuts in. */
  function Rank(f: Fsm): nat {
    match f
    case DBG_SIGNAL => 1
    case DBG_SIGNAL_SLEEP => 1
    case DBG_SIGNAL_ELW => 1
    case DBG_WAIT_BRANCH => 2
    case FLUSH_WB => 2
    case SLEEP => 2
    case FLUSH_EX => 3
    case WAIT_SLEEP => 3
    case DECODE => 4
    case IRQ_TAKEN_ID => 5
    case IRQ_TAKEN_IF => 5
    case FIRST_FETCH => 6
    case IRQ_FLUSH => 6
    case ELW_EXE => 7
    case BOOT_SET => 7
    case RESET => 8
    case DBG_WAIT => 9
    case DBG_WAIT_ELW => 9
  }

  /** Pipeline and decoder let the controller go on. */
  predicate Ready(i: Cycle) {
    i.pipe.idReady && i.pipe.exValid && (i.pipe.instrValid || i.pipe.branchTakenEx)
  }

  /** An interrupt is taken in the decode stage, where it outranks the debug request. */
  predicate Interrupted(c: Core, i: Cycle) {
    c.ctrl.fsm.DECODE? && !i.pipe.branchTakenEx && i.pipe.instrValid && IrqTaken(i.pipe)
  }

  lemma RequestProgresses(c: Core, i: Cycle)
    requires c.dbg.stall == HALT_REQ && !Resumes(c.dbg, i.access)
    ensures DbgAck(c.ctrl) ==> Halted(Step(c, i))
    ensures !DbgAck(c.ctrl) ==>
              && Step(c, i).dbg.stall == HALT_REQ
              && Rank(Step(c, i).ctrl.fsm) + (if Ready(i) then 1 else 0)
                 <= Rank(c.ctrl.fsm) + if Interrupted(c, i) then 3 else 0
  {
  }

  function ReadyCycles(ins: seq<Cycle>): nat {
    if ins == [] then 0 else (if Ready(ins[0]) then 1 else 0) + ReadyCycles(ins[1..])
  }

  /** How many interrupts are taken in the decode stage. */
  function Interrupts(c: Core, ins: seq<Cycle>): nat
    decreases |ins|
  {
    if ins == [] then 0 else (if Interrupted(c, ins[0]) then 1 else 0) + Interrupts(Step(c, ins[0]), ins[1..])
  }

  /** The request is not withdrawn before it is honoured. */
  ghost predicate Kept(c: Core, ins: seq<Cycle>)
    decreases |ins|
  {
    ins != [] ==> !Resumes(c.dbg, ins[0].access) && (!Halted(Step(c, ins[0])) ==> Kept(Step(c, ins[0]), ins[1..]))
  }

  /** Every halt request is honoured: whatever the controller is doing, a request that is not
      withdrawn halts the core after at most nine cycles with a ready pipeline, plus three for
      each interrupt that cuts in, however many other cycles there are. */
  lemma {:induction false} RequestIsHonoured(c: Core, ins: seq<Cycle>) returns (j: nat)
    requires c.dbg.stall == HALT_REQ && Kept(c, ins)
    requires ReadyCycles(ins) >= Rank(c.ctrl.fsm) + 3 * Interrupts(c, ins)
    ensures 0 < j <= |ins| && Halted(Run(c, ins[..j]))
    decreases |ins|
  {
    RankPositive(c.ctrl.fsm);
    var i, c' := ins[0], Step(c, ins[0]);
    RequestProgresses(c, i);
    if DbgAck(c.ctrl) {
      j := 1;
      assert Run(c', ins[..1][1..]) == c';
    } else {
      var k := RequestIsHonoured(c', ins[1..]);
      j := k + 1;
      assert ins[..j][1..] == ins[1..][..k];
    }
  }

  lemma RankPositive(f: Fsm)
    ensures 1 <= Rank(f) <= 9
  {
  }

  lemma OneCount(c: Core, i: Cycle, rest: seq<Cycle>)
    ensures ReadyCycles([i] + rest) == (if Ready(i) then 1 else 0) + ReadyCycles(rest)
    ensures Interrupts(c, [i] + rest) == (if Interrupted(c, i) then 1 else 0) + Interrupts(Step(c, i), rest)
  {
    assert ([i] + rest)[1..] == rest;
  }

  /** n interrupts, one after the other, each taken as soon as the last one is being served. */
  function Storm(i: Cycle, n: nat): seq<Cycle> {
    if n == 0 then [] else [i] + ([i] + ([i] + Storm(i, n - 1)))
  }

  predicate Stormy(i: Cycle) {
    && Ready(i) && i.pipe.instrValid && !i.pipe.branchTakenEx && IrqTaken(i.pipe)
    && !i.access.req && !i.access.resume && !i.access.halt
  }

  /** The three cycles for each interrupt are needed: n interrupts can keep a request waiting
      in the decode stage for 3 n cycles of a ready pipeline, for every n. */
  lemma {:induction false} InterruptsDelay(c: Core, i: Cycle, n: nat)
    requires c.ctrl.fsm.DECODE? && c.dbg.stall == HALT_REQ && Stormy(i)
    ensures var e := Run(c, Storm(i, n));
            e.ctrl.fsm.DECODE? && e.dbg.stall == HALT_REQ && !Halted(e)
    ensures ReadyCycles(Storm(i, n)) == 3 * n && Interrupts(c, Storm(i, n)) == n
    decreases n
  {
    if n > 0 {
      var c1 := Step(c, i);
      var c2 := Step(c1, i);
      var c3 := Step(c2, i);
      assert c1.ctrl.fsm.IRQ_FLUSH? && c2.ctrl.fsm.IRQ_TAKEN_ID? && c3.ctrl.fsm.DECODE?;
      InterruptsDelay(c3, i, n - 1);
      var rest := Storm(i, n - 1);
      OneCycle(c, i, [i] + ([i] + rest));
      OneCycle(c1, i, [i] + rest);
      OneCycle(c2, i, rest);
      OneCount(c, i, [i] + ([i] + rest));
      OneCount(c1, i, [i] + rest);
      OneCount(c2, i, rest);
    }
  }

  // ----- single step -----

  /** An instruction other than one that flushes the pipeline leaves the decode stage. */
  predicate Retires(c: Core, i: Cycle) {
    c.ctrl.fsm.DECODE? && Decodes(i.pipe) && i.pipe.idReady
    && (i.pipe.jumpInDec || (!Flushes(i.pipe) && !i.pipe.csrStatus))
  }

  lemma RetireStops(c: Core, i: Cycle)
    requires Retires(c, i) && c.dbg.settings.sste && !Halted(c) && !Resumes(c.dbg, i.access)
    ensures Step(c, i).ctrl.fsm == if i.pipe.branchInId then DBG_WAIT_BRANCH else DBG_SIGNAL
    ensures Step(c, i).dbg.stall == HALT_REQ
  {
    assert Trap(c, i);
  }

  lemma SignalHalts(c: Core, j: Cycle)
    requires c.dbg.stall == HALT_REQ && !Resumes(c.dbg, j.access)
    ensures c.ctrl.fsm.DBG_SIGNAL? ==> Halted(Step(c, j)) && Step(c, j).ctrl.fsm.DBG_WAIT?
    ensures c.ctrl.fsm.DBG_WAIT_BRANCH? ==> Step(c, j).dbg.stall == HALT_REQ && Step(c, j).ctrl.fsm.DBG_SIGNAL?
    ensures c.ctrl.fsm.DBG_SIGNAL? || c.ctrl.fsm.DBG_WAIT_BRANCH? ==> !IsDecoding(c.ctrl, j.pipe)
  {
  }

  /** Single step: with the step setting on, such an instruction is the last one decoded:
      the core is halted two cycles after it, or three if it is a conditional branch,
      unless it is resumed meanwhile. */
  lemma SingleStep(c: Core, i: Cycle, j: Cycle, k: Cycle)
    requires Retires(c, i) && c.dbg.settings.sste && !Halted(c) && !Resumes(c.dbg, i.access)
    requires !Resumes(Step(c, i).dbg, j.access)
    requires i.pipe.branchInId ==> !Resumes(Step(Step(c, i), j).dbg, k.access)
    ensures var c1 := Step(c, i); var c2 := Step(c1, j);
            && !IsDecoding(c1.ctrl, j.pipe) && !IsDecoding(c2.ctrl, k.pipe)
            && (Halted(c2) <==> !i.pipe.branchInId)
            && (i.pipe.branchInId ==> Halted(Step(c2, k)))
  {
    RetireStops(c, i);
    SignalHalts(Step(c, i), j);
    if i.pipe.branchInId {
      SignalHalts(Step(Step(c, i), j), k);
    }
  }

  /** An instruction that flushes the pipeline, or writes a status register, leaves the
      decode stage to be flushed. */
  predicate StartsFlush(c: Core, i: Cycle) {
    && c.ctrl.fsm.DECODE? && Decodes(i.pipe) && !i.pipe.jumpInDec
    && (Flushes(i.pipe) || (i.pipe.csrStatus && i.pipe.idReady))
    && !(DbgReq(c.dbg, i.access, Trap(c, i)) && i.pipe.idReady)
  }

  predicate ExStalls(ins: seq<Cycle>) {
    forall k :: 0 <= k < |ins| ==> !ins[k].pipe.exValid
  }

  /** The cycles of a flush, none of which decodes anything. */
  ghost predicate NeverDecodes(c: Core, ins: seq<Cycle>)
    decreases |ins|
  {
    ins != [] ==> !IsDecoding(c.ctrl, ins[0].pipe) && NeverDecodes(Step(c, ins[0]), ins[1..])
  }

  lemma {:induction false} FlushWaits(c: Core, ins: seq<Cycle>)
    requires c.ctrl.fsm.FLUSH_EX? && ExStalls(ins)
    ensures Run(c, ins).ctrl.fsm.FLUSH_EX? && NeverDecodes(c, ins)
    decreases |ins|
  {
    if ins != [] {
      FlushWaits(Step(c, ins[0]), ins[1..]);
    }
  }

  lemma FlushEnters(c: Core, i: Cycle)
    requires Inv(c) && StartsFlush(c, i)
    ensures Inv(Step(c, i)) && Step(c, i).ctrl.fsm.FLUSH_EX? && (Flushes(i.pipe) || i.pipe.csrStatus)
  {
    ReachableInv(c, [i]);
    OneCycle(c, i, []);
  }

  lemma FlushDrains(c: Core, x: Cycle)
    requires Inv(c) && c.ctrl.fsm.FLUSH_EX? && x.pipe.exValid
    ensures Inv(Step(c, x)) && Step(c, x).ctrl.fsm.FLUSH_WB? && !IsDecoding(c.ctrl, x.pipe)
  {
    ReachableInv(c, [x]);
    OneCycle(c, x, []);
  }

  /** The last flush cycle traps, and the debug request it causes is served at once. */
  lemma FlushTraps(c: Core, w: Cycle, j: Cycle)
    requires Inv(c) && c.ctrl.fsm.FLUSH_WB? && c.dbg.settings.sste && (Flushes(w.pipe) || w.pipe.csrStatus)
    requires !Resumes(c.dbg, w.access) && !Resumes(Step(c, w).dbg, j.access)
    ensures !IsDecoding(c.ctrl, w.pipe) && !IsDecoding(Step(c, w).ctrl, j.pipe)
    ensures Halted(Step(Step(c, w), j)) && Step(Step(c, w), j).ctrl.fsm.DBG_WAIT?
  {
    assert Trap(c, w);
    assert Step(c, w).dbg.stall == HALT_REQ && DbgAck(Step(c, w).ctrl);
  }

  /** Single step over a flush: however long the execute stage stalls, with the step setting
      on at its end and no resume meanwhile, the instruction being flushed is the last one
      decoded: the core is halted two cycles after the flush has drained the execute stage. */
  lemma StepOverFlush(c: Core, i: Cycle, stalls: seq<Cycle>, x: Cycle, w: Cycle, j: Cycle)
    requires Inv(c) && StartsFlush(c, i) && ExStalls(stalls) && x.pipe.exValid && SameInstr(i.pipe, w.pipe)
    requires var c3 := Step(Run(Step(c, i), stalls), x);
             && c3.dbg.settings.sste
             && !Resumes(c3.dbg, w.access) && !Resumes(Step(c3, w).dbg, j.access)
    ensures var c1 := Step(c, i); var c2 := Run(c1, stalls); var c3 := Step(c2, x); var c4 := Step(c3, w);
            && NeverDecodes(c1, stalls) && !IsDecoding(c2.ctrl, x.pipe)
            && !IsDecoding(c3.ctrl, w.pipe) && !IsDecoding(c4.ctrl, j.pipe)
            && Halted(Step(c4, j))
  {
    var c1 := Step(c, i);
    FlushEnters(c, i);
    FlushWaits(c1, stalls);
    ReachableInv(c1, stalls);
    FlushDrains(Run(c1, stalls), x);
    FlushTraps(Step(Run(c1, stalls), x), w, j);
  }

  /** A breakpoint, with its setting or the step setting on, halts the core in two cycles and
      is reported as the cause. */
  lemma BreakpointHalts(c: Core, w: Cycle, j: Cycle)
    requires Inv(c) && c.ctrl.fsm.FLUSH_WB? && c.dbg.stall == RUNNING
    requires w.pipe.ebrk && !w.pipe.ecall && !w.pipe.illegal && !w.pipe.mret && !w.pipe.uret
    requires c.dbg.settings.ebrk || c.dbg.settings.sste
    requires !Resumes(Step(c, w).dbg, j.access)
    ensures Halted(Step(Step(c, w), j)) && Step(Step(c, w), j).dbg.cause == CAUSE_BREAKPOINT
  {
    assert Trap(c, w);
    assert Step(c, w).dbg.stall == HALT_REQ && DbgAck(Step(c, w).ctrl);
  }
}
