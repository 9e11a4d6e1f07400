/** The microcode loop engine of ucode_common.py: the state machine that walks a nest of
    loops, and the plain nested for loops it stands for. */
module Ucode {

  const NB_LOOPS := 6

  datatype Loop = Loop(range: nat, nbOps: nat, ucodeAddr: nat)

  datatype State = State(addr: nat, loop: nat, op: nat, idx: seq<nat>)

  datatype Outcome = Outcome(execute: bool, end: bool, busy: bool, next: State)

  /** Ranges and blocks are not empty. */
  predicate WellFormed(loops: seq<Loop>) {
    |loops| > 0 && forall j :: 0 <= j < |loops| ==> loops[j].range >= 1 && loops[j].nbOps >= 1
  }

  predicate InNest(loops: seq<Loop>, s: State) {
    s.loop < |loops| == |s.idx|
  }

  function ZeroIdx(n: nat): (z: seq<nat>)
    ensures |z| == n
  {
    seq(n, j => 0)
  }

  function ResetBelow(idx: seq<nat>, k: nat): (r: seq<nat>)
    ensures |r| == |idx|
  {
    seq(|idx|, j requires 0 <= j < |idx| => if j < k then 0 else idx[j])
  }

  /** Lower indices restart, index k goes on. */
  function Iterated(idx: seq<nat>, k: nat): seq<nat>
    requires k < |idx|
  {
    ResetBelow(idx, k)[k := idx[k] + 1]
  }

  function Step(loops: seq<Loop>, s: State): Outcome
    requires InNest(loops, s)
  {
    var l := loops[s.loop];
    var more := s.idx[s.loop] < l.range - 1;
    if more && s.op < l.nbOps - 1 then
      Outcome(true, false, true, s.(addr := s.addr + 1, op := s.op + 1))
    else if more && s.loop > 0 then
      Outcome(true, false, false, State(loops[0].ucodeAddr, 0, 0, Iterated(s.idx, s.loop)))
    else if more then
      Outcome(true, false, false, State(l.ucodeAddr, s.loop, 0, s.idx[s.loop := s.idx[s.loop] + 1]))
    else if s.loop < |loops| - 1 then
      Outcome(false, false, true, State(loops[s.loop + 1].ucodeAddr, s.loop + 1, 0, s.idx))
    else
      Outcome(false, true, false, State(0, 0, 0, ZeroIdx(|loops|)))
  }

  /** The state machine as written: unless the nest ends, the list it returns is the list
      it was given, changed in place. */
  method UcodeStateMachine(loops: seq<Loop>, currAddr: nat, currLoop: nat, currOp: nat, currIdx: array<nat>)
    returns (execute: bool, end: bool, busy: bool, nextAddr: nat, nextLoop: nat, nextOp: nat, nextIdx: array<nat>)
    requires |loops| >= NB_LOOPS && currLoop < NB_LOOPS == currIdx.Length
    modifies currIdx
    ensures Outcome(execute, end, busy, State(nextAddr, nextLoop, nextOp, nextIdx[..]))
            == Step(loops[..NB_LOOPS], State(currAddr, currLoop, currOp, old(currIdx[..])))
    ensures if end then fresh(nextIdx) && currIdx[..] == old(currIdx[..]) else nextIdx == currIdx
  {
    nextAddr, nextLoop, nextOp, nextIdx := currAddr, currLoop, currOp, currIdx;
    end, busy, execute := false, false, false;
    var l := loops[currLoop];
    if currIdx[currLoop] < l.range - 1 && currOp < l.nbOps - 1 {
      nextAddr, nextOp := currAddr + 1, currOp + 1;
      busy, execute := true, true;
    } else if currIdx[currLoop] < l.range - 1 && currLoop > 0 {
      nextLoop := 0;
      for j := 0 to currLoop
        invariant forall k :: 0 <= k < NB_LOOPS ==> currIdx[k] == if k < j then 0 else old(currIdx[k])
      {
        nextIdx[j] := 0;
      }
      nextIdx[currLoop] := currIdx[currLoop] + 1;
      nextAddr, nextOp := loops[0].ucodeAddr, 0;
      execute := true;
      assert nextIdx[..] == Iterated(old(currIdx[..]), currLoop);
    } else if currIdx[currLoop] < l.range - 1 {
      nextAddr, nextOp := l.ucodeAddr, 0;
      nextIdx[currLoop] := currIdx[currLoop] + 1;
      execute := true;
    } else if currLoop < NB_LOOPS - 1 {
      nextLoop := currLoop + 1;
      nextAddr, nextOp := loops[currLoop + 1].ucodeAddr, 0;
      busy := true;
    } else {
      end := true;
      nextLoop, nextAddr, nextOp := 0, 0, 0;
      nextIdx := new nat[NB_LOOPS](j => 0);
      assert nextIdx[..] == ZeroIdx(NB_LOOPS);
    }
  }

  // ----- runs of the machine -----

  /** What a run does: it reaches an index tuple, executes an op, or ends. */
  datatype Event = Visit(idx: seq<nat>) | Op(addr: nat) | End

  /** A tuple is visited when the machine is about to start loop 0. */
  function VisitOf(s: State): seq<Event> {
    if s.loop == 0 && s.op == 0 then [Visit(s.idx)] else []
  }

  function StepEvents(loops: seq<Loop>, s: State): seq<Event>
    requires InNest(loops, s)
  {
    var o := Step(loops, s);
    VisitOf(s) + (if o.execute then [Op(s.addr)] else []) + (if o.end then [End] else [])
  }

  function Trace(loops: seq<Loop>, s: State, k: nat): seq<Event>
    requires loops != [] && InNest(loops, s)
    decreases k
  {
    if k == 0 then [] else StepEvents(loops, s) + Trace(loops, Step(loops, s).next, k - 1)
  }

  function After(loops: seq<Loop>, s: State, k: nat): (r: State)
    requires loops != [] && InNest(loops, s)
    ensures InNest(loops, r)
    decreases k
  {
    if k == 0 then s else After(loops, Step(loops, s).next, k - 1)
  }

  lemma {:induction false} RunSplit(loops: seq<Loop>, s: State, j: nat, k: nat)
    requires loops != [] && InNest(loops, s)
    ensures After(loops, s, j + k) == After(loops, After(loops, s, j), k)
    ensures Trace(loops, s, j + k) == Trace(loops, s, j) + Trace(loops, After(loops, s, j), k)
    decreases j
  {
    if j > 0 {
      var next := Step(loops, s).next;
      RunSplit(loops, next, j - 1, k);
      assert After(loops, s, j + k) == After(loops, next, j - 1 + k);
      assert Trace(loops, s, j + k) == StepEvents(loops, s) + Trace(loops, next, j - 1 + k);
      assert Trace(loops, s, j) == StepEvents(loops, s) + Trace(loops, next, j - 1);
    }
  }

  /** From s the machine comes to e in k steps, doing what t says. */
  ghost predicate Reaches(loops: seq<Loop>, s: State, k: nat, e: State, t: seq<Event>)
    requires loops != [] && InNest(loops, s)
  {
    After(loops, s, k) == e && Trace(loops, s, k) == t
  }

  lemma Compose(loops: seq<Loop>, s: State, k1: nat, e: State, t1: seq<Event>, k2: nat, f: State, t2: seq<Event>)
    requires loops != [] && InNest(loops, s) && InNest(loops, e)
    requires Reaches(loops, s, k1, e, t1) && Reaches(loops, e, k2, f, t2)
    ensures Reaches(loops, s, k1 + k2, f, t1 + t2)
  {
    RunSplit(loops, s, k1, k2);
  }

  lemma OneStep(loops: seq<Loop>, s: State)
    requires loops != [] && InNest(loops, s)
    ensures Reaches(loops, s, 1, Step(loops, s).next, StepEvents(loops, s))
  {
    assert After(loops, Step(loops, s).next, 0) == Step(loops, s).next;
    assert Trace(loops, Step(loops, s).next, 0) == [];
  }

  /** The machine is not busy exactly when it has come to the next tuple, or to its end, where
      it starts again. */
  lemma BusyUntilNextTuple(loops: seq<Loop>, s: State)
    requires loops != [] && InNest(loops, s)
    ensures Step(loops, s).busy <==> VisitOf(Step(loops, s).next) == []
    ensures Step(loops, s).end ==> !Step(loops, s).busy && !Step(loops, s).execute
  {
  }

  // ----- the nested for loops -----

  function Block(l: Loop): seq<Event> {
    seq(l.nbOps, k requires 0 <= k => Op(l.ucodeAddr + k))
  }

  /** Loops 0 to j - 1 of the nest, run for fixed indices `upper` of the loops around them. */
  function NestEvents(loops: seq<Loop>, j: nat, upper: seq<nat>): seq<Event>
    requires j <= |loops|
    decreases j, 0
  {
    if j == 0 then [Visit(upper)] else LoopEvents(loops, j - 1, 0, upper)
  }

  /** Loop j from index i on; between two iterations its block is executed. */
  function LoopEvents(loops: seq<Loop>, j: nat, i: nat, upper: seq<nat>): seq<Event>
    requires j < |loops|
    decreases j, 1, loops[j].range - i
  {
    NestEvents(loops, j, [i] + upper)
    + if i + 1 < loops[j].range then Block(loops[j]) + LoopEvents(loops, j, i + 1, upper) else []
  }

  /** The machine at the start of loop j. */
  function At(loops: seq<Loop>, j: nat, idx: seq<nat>): State
    requires j < |loops|
  {
    State(loops[j].ucodeAddr, j, 0, idx)
  }

  function MaxIdx(loops: seq<Loop>, j: nat): (m: seq<nat>)
    requires WellFormed(loops) && j <= |loops|
    ensures |m| == j
  {
    seq(j, k requires 0 <= k < j <= |loops| && WellFormed(loops) => loops[k].range - 1)
  }

  function OpsFrom(l: Loop, op: nat): seq<Event>
    requires op <= l.nbOps
  {
    Block(l)[op..]
  }

  /** An iteration of loop j executes its whole block in order and restarts the loops inside it. */
  lemma {:induction false} BlockRun(loops: seq<Loop>, j: nat, op: nat, idx: seq<nat>)
    requires WellFormed(loops) && j < |loops| == |idx| && op < loops[j].nbOps
    requires idx[j] < loops[j].range - 1
    ensures var s, k := State(loops[j].ucodeAddr + op, j, op, idx), loops[j].nbOps - op;
            && After(loops, s, k) == At(loops, 0, Iterated(idx, j))
            && Trace(loops, s, k) == VisitOf(s) + OpsFrom(loops[j], op)
    decreases loops[j].nbOps - op
  {
    var l := loops[j];
    var s, k := State(l.ucodeAddr + op, j, op, idx), l.nbOps - op;
    assert OpsFrom(l, op)[0] == Op(s.addr);
    var next := Step(loops, s).next;
    if op + 1 < l.nbOps {
      BlockRun(loops, j, op + 1, idx);
      assert OpsFrom(l, op) == [Op(s.addr)] + OpsFrom(l, op + 1);
    } else {
      assert OpsFrom(l, op) == [Op(s.addr)];
      assert Iterated(idx, 0) == idx[0 := idx[0] + 1];
      assert After(loops, next, 0) == next;
      assert Trace(loops, next, 0) == [];
    }
  }

  /** A loop at its last index hands over to the loop around it. */
  lemma HandOver(loops: seq<Loop>, j: nat, idx: seq<nat>)
    requires WellFormed(loops) && j + 1 < |loops| == |idx| && idx[j] == loops[j].range - 1
    ensures var e := At(loops, j, idx); Reaches(loops, e, 1, At(loops, j + 1, idx), VisitOf(e))
  {
    OneStep(loops, At(loops, j, idx));
  }

  lemma Tuples(loops: seq<Loop>, j: nat, upper: seq<nat>)
    requires WellFormed(loops) && j < |loops|
    ensures ZeroIdx(j + 1) + upper == ZeroIdx(j) + ([0] + upper)
    ensures MaxIdx(loops, j + 1) + upper == MaxIdx(loops, j) + ([loops[j].range - 1] + upper)
  {
  }

  /** The inner nest runs from all zeros to all maxima. */
  lemma {:induction false} NestRun(loops: seq<Loop>, j: nat, upper: seq<nat>) returns (k: nat, t: seq<Event>)
    requires WellFormed(loops) && j < |loops| == j + |upper|
    ensures var e := At(loops, j, MaxIdx(loops, j) + upper);
            && Reaches(loops, At(loops, 0, ZeroIdx(j) + upper), k, e, t)
            && t + VisitOf(e) == NestEvents(loops, j, upper)
    decreases j, 0
  {
    if j == 0 {
      k, t := 0, [];
      assert ZeroIdx(0) + upper == upper == MaxIdx(loops, 0) + upper;
    } else {
      k, t := LoopRun(loops, j - 1, 0, upper);
      Tuples(loops, j - 1, upper);
      k, t := LeaveLoop(loops, j - 1, MaxIdx(loops, j) + upper, At(loops, 0, ZeroIdx(j) + upper), k, t);
    }
  }

  lemma LeaveLoop(loops: seq<Loop>, j: nat, idx: seq<nat>, s: State, k: nat, t: seq<Event>)
    returns (k': nat, t': seq<Event>)
    requires WellFormed(loops) && j + 1 < |loops| == |idx| && idx[j] == loops[j].range - 1
    requires InNest(loops, s) && Reaches(loops, s, k, At(loops, j, idx), t)
    ensures Reaches(loops, s, k', At(loops, j + 1, idx), t')
    ensures t' + VisitOf(At(loops, j + 1, idx)) == t' == t + VisitOf(At(loops, j, idx))
  {
    var e := At(loops, j, idx);
    HandOver(loops, j, idx);
    Compose(loops, s, k, e, t, 1, At(loops, j + 1, idx), VisitOf(e));
    k', t' := k + 1, t + VisitOf(e);
  }

  /** Loop j runs from index i to its last index. */
  lemma {:induction false} LoopRun(loops: seq<Loop>, j: nat, i: nat, upper: seq<nat>) returns (k: nat, t: seq<Event>)
    requires WellFormed(loops) && j < |loops| == j + 1 + |upper| && i < loops[j].range
    ensures var e := At(loops, j, MaxIdx(loops, j) + ([loops[j].range - 1] + upper));
            && Reaches(loops, At(loops, 0, ZeroIdx(j) + ([i] + upper)), k, e, t)
            && t + VisitOf(e) == LoopEvents(loops, j, i, upper)
    decreases j, 1, loops[j].range - i
  {
    k, t := NestRun(loops, j, [i] + upper);
    if i + 1 < loops[j].range {
      var start, mid := At(loops, 0, ZeroIdx(j) + ([i] + upper)), At(loops, j, MaxIdx(loops, j) + ([i] + upper));
      var again, block := At(loops, 0, ZeroIdx(j) + ([i + 1] + upper)), VisitOf(mid) + Block(loops[j]);
      IterationRun(loops, j, i, upper);
      var k', t' := LoopRun(loops, j, i + 1, upper);
      var e := At(loops, j, MaxIdx(loops, j) + ([loops[j].range - 1] + upper));
      Compose(loops, start, k, mid, t, loops[j].nbOps, again, block);
      Compose(loops, start, k + loops[j].nbOps, again, t + block, k', e, t');
      Reassociate(t, VisitOf(mid), Block(loops[j]), t', VisitOf(e));
      k, t := k + loops[j].nbOps + k', t + block + t';
    }
  }

  lemma IterationRun(loops: seq<Loop>, j: nat, i: nat, upper: seq<nat>)
    requires WellFormed(loops) && j < |loops| == j + 1 + |upper| && i + 1 < loops[j].range
    ensures var mid := At(loops, j, MaxIdx(loops, j) + ([i] + upper));
            Reaches(loops, mid, loops[j].nbOps, At(loops, 0, ZeroIdx(j) + ([i + 1] + upper)),
                    VisitOf(mid) + Block(loops[j]))
  {
    var idx := MaxIdx(loops, j) + ([i] + upper);
    BlockRun(loops, j, 0, idx);
    assert Iterated(idx, j) == ZeroIdx(j) + ([i + 1] + upper);
    assert OpsFrom(loops[j], 0) == Block(loops[j]);
  }

  lemma Reassociate(t: seq<Event>, v: seq<Event>, b: seq<Event>, t': seq<Event>, w: seq<Event>)
    ensures (t + (v + b) + t') + w == (t + v) + (b + (t' + w))
  {
  }

  lemma EndNest(loops: seq<Loop>, idx: seq<nat>, s: State, k: nat, t: seq<Event>)
    requires WellFormed(loops) && |loops| == |idx| && idx[|loops| - 1] == loops[|loops| - 1].range - 1
    requires InNest(loops, s) && Reaches(loops, s, k, At(loops, |loops| - 1, idx), t)
    ensures Reaches(loops, s, k + 1, State(0, 0, 0, ZeroIdx(|loops|)),
                    (t + VisitOf(At(loops, |loops| - 1, idx))) + [End])
  {
    var e := At(loops, |loops| - 1, idx);
    OneStep(loops, e);
    assert StepEvents(loops, e) == VisitOf(e) + [End];
    Compose(loops, s, k, e, t, 1, State(0, 0, 0, ZeroIdx(|loops|)), VisitOf(e) + [End]);
    assert t + (VisitOf(e) + [End]) == (t + VisitOf(e)) + [End];
  }

  /** The loop-nest refinement: from the zero state the machine terminates, having visited
      the tuples and executed the blocks of the plain nested loops, in their order. */
  lemma MachineRunsNest(loops: seq<Loop>) returns (k: nat)
    requires WellFormed(loops)
    ensures Trace(loops, At(loops, 0, ZeroIdx(|loops|)), k) == NestEvents(loops, |loops|, []) + [End]
    ensures After(loops, At(loops, 0, ZeroIdx(|loops|)), k) == State(0, 0, 0, ZeroIdx(|loops|))
  {
    var n := |loops|;
    Tuples(loops, n - 1, []);
    assert ZeroIdx(n) + [] == ZeroIdx(n);
    var k', t := LoopRun(loops, n - 1, 0, []);
    EndNest(loops, MaxIdx(loops, n) + [], At(loops, 0, ZeroIdx(n)), k', t);
    k := k' + 1;
  }
}
