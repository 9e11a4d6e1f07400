/** One division after another: a whole session of requests to the divider, each answered with
    the result of its own operands. */
module DivisionRuns {
  import opened Bits
  import opened Divider
  import opened Division

  /** A request: idle cycles before it, the cycles in which it is computed, those in which its
      result waits to be taken, and the one that takes it. */
  datatype Job = Job(gap: seq<In>, op: Op, a: Bits32, b: Bits32, ins: seq<In>, held: seq<In>, take: In)

  ghost predicate Idle(gap: seq<In>) {
    forall i :: i in gap ==> !i.inVld
  }

  ghost predicate NotTaken(held: seq<In>) {
    forall i :: i in held ==> !i.outRdy
  }

  ghost predicate Proper(j: Job) {
    Idle(j.gap) && Drives(j.op, j.a, j.b, j.ins) && NotTaken(j.held) && j.take.outRdy
  }

  ghost predicate AllProper(jobs: seq<Job>) {
    jobs == [] || (Proper(jobs[0]) && AllProper(jobs[1..]))
  }

  /** The inputs of one request after the other. */
  function Session(jobs: seq<Job>): seq<In> {
    if jobs == [] then [] else JobInputs(jobs[0], Session(jobs[1..]))
  }

  function JobInputs(j: Job, after: seq<In>): seq<In> {
    j.gap + (j.ins + (j.held + ([j.take] + after)))
  }

  /** The results taken in a run, each in the cycle that finishes its division. */
  function Taken(s: Regs, ins: seq<In>): seq<Word>
    decreases |ins|
  {
    if ins == [] then []
    else (if s.fsm.FINISH? && ins[0].outRdy then [Output(s, Quotient(s))] else []) + Taken(Next(s, ins[0]), ins[1..])
  }

  /** The cycles without a valid output. */
  function BusyCycles(s: Regs, ins: seq<In>): nat
    decreases |ins|
  {
    if ins == [] then 0 else (if OutVld(s, ins[0]) then 0 else 1) + BusyCycles(Next(s, ins[0]), ins[1..])
  }

  function Results(jobs: seq<Job>): seq<Word> {
    if jobs == [] then [] else [RiscvM(jobs[0].op, Val32(jobs[0].b), Val32(jobs[0].a))] + Results(jobs[1..])
  }

  /** The cycles of the divisions themselves: for each of them its shift + 2. */
  function RequestCycles(jobs: seq<Job>): nat {
    if jobs == [] then 0 else |jobs[0].ins| + RequestCycles(jobs[1..])
  }

  // ----- the phases of a request -----

  /** A run from s comes to e with the inputs rest to go, some results and busy cycles later. */
  ghost predicate Comes(s: Regs, ins: seq<In>, e: Regs, rest: seq<In>, taken: seq<Word>, busy: nat) {
    && Run(s, ins) == Run(e, rest)
    && Taken(s, ins) == taken + Taken(e, rest)
    && BusyCycles(s, ins) == busy + BusyCycles(e, rest)
  }

  lemma {:induction false} Goes(s: Regs, a: seq<In>, e: Regs, b: seq<In>, f: Regs, c: seq<In>, t: seq<Word>, n: nat,
          t': seq<Word>, n': nat)
    requires Comes(s, a, e, b, t, n) && Comes(e, b, f, c, t', n')
    ensures Comes(s, a, f, c, t + t', n + n')
  {
  }

  lemma {:induction false} Stays(s: Regs, ins: seq<In>)
    ensures Comes(s, ins, s, ins, [], 0)
  {
  }

  lemma {:induction false} FirstCycle(s: Regs, i: In, rest: seq<In>)
    ensures Comes(s, [i] + rest, Next(s, i), rest, if s.fsm.FINISH? && i.outRdy then [Output(s, Quotient(s))] else [],
                  if OutVld(s, i) then 0 else 1)
  {
    assert ([i] + rest)[1..] == rest;
  }

  lemma {:induction false} Idles(s: Regs, gap: seq<In>, rest: seq<In>) returns (e: Regs)
    requires s.fsm.IDLE? && Idle(gap)
    ensures e.fsm.IDLE? && Comes(s, gap + rest, e, rest, [], 0)
    decreases |gap|
  {
    if gap == [] {
      e := s;
      assert gap + rest == rest;
      Stays(s, rest);
    } else {
      assert gap[0] in gap;
      assert gap + rest == [gap[0]] + (gap[1..] + rest);
      FirstCycle(s, gap[0], gap[1..] + rest);
      e := Idles(Next(s, gap[0]), gap[1..], rest);
      Goes(s, gap + rest, Next(s, gap[0]), gap[1..] + rest, e, rest, [], 0, [], 0);
    }
  }

  /** While it divides nothing is taken, and every cycle is busy. */
  lemma {:induction false} Divides(s: Regs, ins: seq<In>, rest: seq<In>)
    requires s.fsm.DIVIDE? && |ins| == s.cnt + 1
    ensures Comes(s, ins + rest, Run(s, ins), rest, [], |ins|)
    decreases s.cnt
  {
    var s' := Next(s, ins[0]);
    assert ins + rest == [ins[0]] + (ins[1..] + rest);
    FirstCycle(s, ins[0], ins[1..] + rest);
    if s.cnt == 0 {
      assert ins[1..] == [] && ins[1..] + rest == rest;
    } else {
      Divides(s', ins[1..], rest);
      Goes(s, ins + rest, s', ins[1..] + rest, Run(s', ins[1..]), rest, [], 1, [], |ins| - 1);
    }
  }

  lemma {:induction false} Holds(s: Regs, held: seq<In>, rest: seq<In>) returns (e: Regs)
    requires s.fsm.FINISH? && NotTaken(held)
    ensures e.fsm.FINISH? && Output(e, Quotient(e)) == Output(s, Quotient(s)) && Comes(s, held + rest, e, rest, [], 0)
    decreases |held|
  {
    if held == [] {
      e := s;
      assert held + rest == rest;
      Stays(s, rest);
    } else {
      assert held[0] in held;
      assert held + rest == [held[0]] + (held[1..] + rest);
      FirstCycle(s, held[0], held[1..] + rest);
      e := Holds(Next(s, held[0]), held[1..], rest);
      Goes(s, held + rest, Next(s, held[0]), held[1..] + rest, e, rest, [], 0, [], 0);
    }
  }

  /** From the request to the result. */
  lemma {:induction false} Computes(s: Regs, ins: seq<In>, shift: nat, rest: seq<In>)
    requires s.fsm.IDLE? && ins != [] && ins[0].inVld && ins[0].opBShift == shift && |ins| == shift + 2
    ensures Comes(s, ins + rest, Run(s, ins), rest, [], shift + 2)
  {
    var s' := Next(s, ins[0]);
    assert ins + rest == [ins[0]] + (ins[1..] + rest);
    FirstCycle(s, ins[0], ins[1..] + rest);
    Divides(s', ins[1..], rest);
    Goes(s, ins + rest, s', ins[1..] + rest, Run(s', ins[1..]), rest, [], 1, [], shift + 1);
  }

  lemma {:induction false} Takes(s: Regs, held: seq<In>, take: In, after: seq<In>) returns (e: Regs)
    requires s.fsm.FINISH? && NotTaken(held) && take.outRdy
    ensures e.fsm.IDLE? && Comes(s, held + ([take] + after), e, after, [Output(s, Quotient(s))], 0)
  {
    var h := Holds(s, held, [take] + after);
    e := Next(h, take);
    FirstCycle(h, take, after);
    Goes(s, held + ([take] + after), h, [take] + after, e, after, [], 0, [Output(s, Quotient(s))], 0);
    assert [] + [Output(s, Quotient(s))] == [Output(s, Quotient(s))];
  }

  /** One request, and the session behind it; the division starts in s1. */
  lemma {:induction false} OneJob(s: Regs, gap: seq<In>, ins: seq<In>, shift: nat, held: seq<In>, take: In,
          after: seq<In>) returns (s1: Regs, e: Regs)
    requires s.fsm.IDLE? && Idle(gap) && NotTaken(held) && take.outRdy
    requires ins != [] && ins[0].inVld && ins[0].opBShift == shift && |ins| == shift + 2
    ensures s1.fsm.IDLE? && e.fsm.IDLE?
    ensures Comes(s, gap + (ins + (held + ([take] + after))), e, after,
                  [Output(Run(s1, ins), Quotient(Run(s1, ins)))], shift + 2)
  {
    var r2 := held + ([take] + after);
    var r1 := ins + r2;
    s1 := Idles(s, gap, r1);
    Computes(s1, ins, shift, r2);
    var s2 := Run(s1, ins);
    StaysInDivide(Next(s1, ins[0]), ins[1..]);
    e := Takes(s2, held, take, after);
    Goes(s, gap + r1, s1, r1, s2, r2, [], 0, [], shift + 2);
    Goes(s, gap + r1, s2, r2, e, after, [] + [], 0 + (shift + 2), [Output(s2, Quotient(s2))], 0);
    assert [] + [] + [Output(s2, Quotient(s2))] == [Output(s2, Quotient(s2))];
  }

  /** What the result port shows at the end of each request, started in the given states. */
  function Ports(starts: seq<Regs>, jobs: seq<Job>): seq<Word>
    requires |starts| == |jobs|
    decreases |jobs|
  {
    if jobs == [] then []
    else
      var e := Run(starts[0], jobs[0].ins);
      [Output(e, Quotient(e))] + Ports(starts[1..], jobs[1..])
  }

  ghost predicate AllIdle(starts: seq<Regs>) {
    starts == [] || (starts[0].fsm.IDLE? && AllIdle(starts[1..]))
  }

  /** A job as far as its handshakes go. */
  ghost predicate Shaped(j: Job) {
    && Idle(j.gap) && NotTaken(j.held) && j.take.outRdy
    && j.ins != [] && j.ins[0].inVld && |j.ins| == j.ins[0].opBShift + 2
  }

  ghost predicate AllShaped(jobs: seq<Job>) {
    jobs == [] || (Shaped(jobs[0]) && AllShaped(jobs[1..]))
  }

  lemma ShapeOf(j: Job)
    requires Proper(j)
    ensures Shaped(j)
  {
  }

  lemma {:induction false} ProperIsShaped(jobs: seq<Job>)
    requires AllProper(jobs)
    ensures AllShaped(jobs)
  {
    if jobs != [] {
      ShapeOf(jobs[0]);
      ProperIsShaped(jobs[1..]);
    }
  }

  lemma {:induction false} PortsAreTaken(s: Regs, jobs: seq<Job>) returns (starts: seq<Regs>)
    requires s.fsm.IDLE? && AllShaped(jobs)
    ensures |starts| == |jobs| && AllIdle(starts) && Taken(s, Session(jobs)) == Ports(starts, jobs)
    ensures BusyCycles(s, Session(jobs)) == RequestCycles(jobs)
    ensures Run(s, Session(jobs)).fsm.IDLE?
    decreases |jobs|
  {
    starts := [];
    if jobs != [] {
      var j := jobs[0];
      var s1, e := OneJob(s, j.gap, j.ins, j.ins[0].opBShift, j.held, j.take, Session(jobs[1..]));
      var rest := PortsAreTaken(e, jobs[1..]);
      starts := [s1] + rest;
      assert starts[1..] == rest;
    }
  }

  lemma {:induction false} PortsAreResults(starts: seq<Regs>, jobs: seq<Job>)
    requires |starts| == |jobs| && AllIdle(starts) && AllProper(jobs)
    ensures Ports(starts, jobs) == Results(jobs)
    decreases |jobs|
  {
    if jobs != [] {
      DrivenDivision(jobs[0].op, jobs[0].a, jobs[0].b, starts[0], jobs[0].ins);
      PortsAreResults(starts[1..], jobs[1..]);
    }
  }

  /** Back to back: in every sequence of requests, with any idle cycles before them and however
      long their results wait, each result taken is that of section 7.2 for its own operands,
      the output is invalid exactly for the shift + 2 cycles of each request, and the unit ends up
      idle, ready for the next one. */
  lemma {:induction false} EveryRequestAnswered(s: Regs, jobs: seq<Job>)
    requires s.fsm.IDLE? && AllProper(jobs)
    ensures Taken(s, Session(jobs)) == Results(jobs)
    ensures BusyCycles(s, Session(jobs)) == RequestCycles(jobs)
    ensures Run(s, Session(jobs)).fsm.IDLE?
  {
    ProperIsShaped(jobs);
    var starts := PortsAreTaken(s, jobs);
    PortsAreResults(starts, jobs);
  }
}
