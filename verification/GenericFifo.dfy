/** The FIFOs generic_fifo and generic_fifo_adv (which adds a synchronous clear): a three-state
    machine, two pointers and a clock-gated storage; and the bounded queue they implement
    exactly when the depth is a power of two. */
module GenericFifo {
  import opened Bits

  datatype Fsm = EMPTY | MIDDLE | FULL

  datatype In = In(clear: bool, valid: bool, data: int, grant: bool)

  /** The output ports; the data counts only while valid is raised. */
  datatype Out = Out(grant: bool, valid: bool, data: int)

  datatype Regs = Regs(cs: Fsm, pop: nat, push: nat, storage: seq<int>)

  /** DATA_DEPTH and the number of values a pointer of $clog2(DATA_DEPTH) bits has. */
  function Wrap(depth: nat): nat
    requires depth >= 2
  {
    Pow2(Clog2(depth))
  }

  ghost predicate WellFormed(depth: nat, s: Regs) {
    depth >= 2 && |s.storage| == depth && s.pop < depth && s.push < Wrap(depth)
  }

  function Reset(depth: nat): Regs {
    Regs(EMPTY, 0, 0, seq(depth, i => 0))
  }

  /** One more, in the width of a pointer. */
  function Increment(depth: nat, p: nat): nat
    requires depth >= 2
  {
    if p + 1 == Wrap(depth) then 0 else p + 1
  }

  /** A pointer increment outside the EMPTY state. */
  function Advance(depth: nat, p: nat): nat
    requires depth >= 2
  {
    if p == depth - 1 then 0 else Increment(depth, p)
  }

  predicate Grant(s: Regs) {
    s.cs != FULL
  }

  predicate Valid(s: Regs) {
    s.cs != EMPTY
  }

  predicate GateClock(s: Regs, i: In) {
    s.cs == FULL || !i.valid
  }

  /** The pop pointer is one behind the push pointer. */
  predicate LastOne(depth: nat, s: Regs) {
    s.pop == s.push - 1 || (s.pop == depth - 1 && s.push == 0)
  }

  /** The push pointer is one behind the pop pointer. */
  predicate LastPlace(depth: nat, s: Regs) {
    s.push == s.pop - 1 || (s.push == depth - 1 && s.pop == 0)
  }

  function NextPointers(depth: nat, s: Regs, i: In): Regs
    requires depth >= 2
  {
    match s.cs
    case EMPTY =>
      if i.valid then s.(cs := MIDDLE, push := Increment(depth, s.push)) else s
    case MIDDLE =>
      if i.valid && i.grant then s.(push := Advance(depth, s.push), pop := Advance(depth, s.pop))
      else if i.valid then s.(cs := if LastPlace(depth, s) then FULL else MIDDLE, push := Advance(depth, s.push))
      else if i.grant then s.(cs := if LastOne(depth, s) then EMPTY else MIDDLE, pop := Advance(depth, s.pop))
      else s
    case FULL =>
      if i.grant then s.(cs := MIDDLE, pop := Advance(depth, s.pop)) else s
  }

  /** A write beyond the storage is lost. */
  function NextStorage(s: Regs, i: In): seq<int> {
    if !GateClock(s, i) && Grant(s) && i.valid && s.push < |s.storage| then s.storage[s.push := i.data] else s.storage
  }

  function Next(depth: nat, s: Regs, i: In): Regs
    requires depth >= 2
  {
    var n := NextPointers(depth, s, i).(storage := NextStorage(s, i));
    if i.clear then n.(cs := EMPTY, pop := 0, push := 0) else n
  }

  function Output(s: Regs): Out
    requires s.pop < |s.storage|
  {
    Out(Grant(s), Valid(s), s.storage[s.pop])
  }

  class GenericFifo {
    const depth: nat
    const storage: array<int>
    var cs: Fsm
    var popPointer: nat
    var pushPointer: nat

    ghost predicate Consistent()
      reads this, storage
    {
      WellFormed(depth, State())
    }

    ghost function State(): Regs
      reads this, storage
    {
      Regs(cs, popPointer, pushPointer, storage[..])
    }

    constructor (depth: nat)
      requires depth >= 2
      ensures Consistent() && this.depth == depth && State() == Reset(depth) && fresh(storage)
    {
      this.depth := depth;
      storage := new int[depth](i => 0);
      cs, popPointer, pushPointer := EMPTY, 0, 0;
    }

    method AdvancePush()
      requires depth >= 2
      modifies this`pushPointer
      ensures pushPointer == Advance(depth, old(pushPointer))
    {
      if pushPointer == depth - 1 {
        pushPointer := 0;
      } else {
        pushPointer := Increment(depth, pushPointer);
      }
    }

    method AdvancePop()
      requires depth >= 2
      modifies this`popPointer
      ensures popPointer == Advance(depth, old(popPointer))
    {
      if popPointer == depth - 1 {
        popPointer := 0;
      } else {
        popPointer := Increment(depth, popPointer);
      }
    }

    method MiddleState(i: In)
      requires depth >= 2 && cs == MIDDLE
      modifies this
      ensures State() == NextPointers(depth, old(State()), i)
    {
      if i.valid && i.grant {
        AdvancePush();
        AdvancePop();
      } else if i.valid {
        if pushPointer == popPointer - 1 || (pushPointer == depth - 1 && popPointer == 0) {
          cs := FULL;
        }
        AdvancePush();
      } else if i.grant {
        if popPointer == pushPointer - 1 || (popPointer == depth - 1 && pushPointer == 0) {
          cs := EMPTY;
        }
        AdvancePop();
      }
    }

    /** The flip-flops of the machine and the pointers. */
    method TickPointers(i: In)
      requires Consistent()
      modifies this
      ensures State() == (var n := NextPointers(depth, old(State()), i);
                          if i.clear then n.(cs := EMPTY, pop := 0, push := 0) else n)
    {
      if i.clear {
        cs, popPointer, pushPointer := EMPTY, 0, 0;
      } else {
        match cs {
          case EMPTY =>
            if i.valid {
              cs, pushPointer := MIDDLE, Increment(depth, pushPointer);
            }
          case MIDDLE => MiddleState(i);
          case FULL =>
            if i.grant {
              cs := MIDDLE;
              AdvancePop();
            }
        }
      }
    }

    /** One clock cycle; the storage is clocked only while the gate is open. */
    method Tick(i: In) returns (o: Out)
      requires Consistent()
      modifies this, storage
      ensures Consistent()
      ensures o == Output(old(State()))
      ensures State() == Next(depth, old(State()), i)
    {
      var grant, gateClock := cs != FULL, cs == FULL || !i.valid;
      o := Out(grant, cs != EMPTY, storage[popPointer]);
      var place := pushPointer;
      PointersStay(depth, State(), i);
      TickPointers(i);
      if !gateClock {
        if grant && i.valid && place < storage.Length {
          storage[place] := i.data;
        }
      }
    }
  }

  /** The pop pointer never leaves the storage; the push pointer never leaves its width. */
  lemma PointersStay(depth: nat, s: Regs, i: In)
    requires WellFormed(depth, s)
    ensures WellFormed(depth, Next(depth, s, i))
  {
    assert depth <= Wrap(depth);
  }

  // ----- the bounded queue -----

  /** A queue of at most depth entries: it grants while there is room, and offers its head. */
  function QueueNext(depth: nat, q: seq<int>, i: In): seq<int> {
    if i.clear then []
    else (if q != [] && i.grant then q[1..] else q) + if i.valid && |q| < depth then [i.data] else []
  }

  predicate QueueShows(depth: nat, q: seq<int>, o: Out) {
    && (o.grant <==> |q| < depth)
    && (o.valid <==> q != [])
    && (q != [] ==> o.data == q[0])
  }

  /** The k-th entry from the pop pointer on. */
  function Place(depth: nat, pop: nat, k: nat): nat {
    if pop + k < depth then pop + k else pop + k - depth
  }

  function Count(depth: nat, s: Regs): int {
    match s.cs
    case EMPTY => 0
    case FULL => depth
    case MIDDLE => if s.push > s.pop then s.push - s.pop else s.push - s.pop + depth
  }

  ghost predicate Proper(depth: nat, s: Regs) {
    && WellFormed(depth, s) && s.push < depth
    && (s.cs == MIDDLE <==> s.push != s.pop)
  }

  ghost predicate Represents(depth: nat, s: Regs, q: seq<int>) {
    && Proper(depth, s) && |q| == Count(depth, s)
    && forall k :: 0 <= k < |q| ==> q[k] == s.storage[Place(depth, s.pop, k)]
  }

  predicate PowerOfTwo(depth: nat)
    requires depth >= 2
  {
    Wrap(depth) == depth
  }

  /** The pointer width fits the depth exactly for the powers of two. */
  lemma PowersOfTwo(depth: nat)
    requires depth >= 2
    ensures PowerOfTwo(depth) <==> exists k: nat :: depth == Pow2(k)
  {
    if exists k: nat :: depth == Pow2(k) {
      var k: nat :| depth == Pow2(k);
      var r := Clog2(depth);
      if k < r {
        Pow2Monotone(k, r - 1);
      } else {
        Pow2Monotone(r, k);
      }
    }
  }

  lemma ShowsHead(depth: nat, s: Regs, q: seq<int>)
    requires Represents(depth, s, q)
    ensures QueueShows(depth, q, Output(s))
  {
    if q != [] {
      assert q[0] == s.storage[Place(depth, s.pop, 0)];
    }
  }

  /** Pushing writes the first place behind the queue, popping moves its start. */
  lemma PushRefines(depth: nat, s: Regs, q: seq<int>, i: In)
    requires depth >= 2 && PowerOfTwo(depth) && Represents(depth, s, q) && i.valid && !i.clear
    requires s.cs.EMPTY? || (s.cs.MIDDLE? && !i.grant)
    ensures Represents(depth, Next(depth, s, i), QueueNext(depth, q, i))
  {
    assert Place(depth, s.pop, |q|) == s.push;
  }

  lemma PopRefines(depth: nat, s: Regs, q: seq<int>, i: In)
    requires depth >= 2 && PowerOfTwo(depth) && Represents(depth, s, q) && i.grant && !i.clear
    requires s.cs.FULL? || (s.cs.MIDDLE? && !i.valid)
    ensures Represents(depth, Next(depth, s, i), QueueNext(depth, q, i))
  {
    assert forall k :: 0 <= k < |q| - 1 ==> Place(depth, Advance(depth, s.pop), k) == Place(depth, s.pop, k + 1);
  }

  lemma PushPopRefines(depth: nat, s: Regs, q: seq<int>, i: In)
    requires depth >= 2 && PowerOfTwo(depth) && Represents(depth, s, q) && i.valid && i.grant && !i.clear
             && s.cs.MIDDLE?
    ensures Represents(depth, Next(depth, s, i), QueueNext(depth, q, i))
  {
    assert Place(depth, s.pop, |q|) == s.push;
    assert forall k :: 0 <= k < |q| ==> Place(depth, Advance(depth, s.pop), k) == Place(depth, s.pop, k + 1);
  }

  /** One cycle of a FIFO whose depth is a power of two is one cycle of the queue; its
      storage is clocked exactly if a word is pushed while there is room. */
  lemma StepRefines(depth: nat, s: Regs, q: seq<int>, i: In)
    requires depth >= 2 && PowerOfTwo(depth) && Represents(depth, s, q)
    ensures QueueShows(depth, q, Output(s))
    ensures !GateClock(s, i) <==> i.valid && |q| < depth
    ensures Represents(depth, Next(depth, s, i), QueueNext(depth, q, i))
  {
    ShowsHead(depth, s, q);
    if !i.clear {
      if i.valid && i.grant && s.cs.MIDDLE? {
        PushPopRefines(depth, s, q, i);
      } else if i.valid && !s.cs.FULL? {
        PushRefines(depth, s, q, i);
      } else if i.grant && !s.cs.EMPTY? {
        PopRefines(depth, s, q, i);
      }
    }
  }

  /** What a run shows: the outputs of every cycle match those of the queue. */
  ghost predicate Refines(depth: nat, s: Regs, q: seq<int>, ins: seq<In>)
    requires WellFormed(depth, s)
    decreases |ins|
  {
    QueueShows(depth, q, Output(s))
    && (ins == [] || (PointersStay(depth, s, ins[0]);
                      Refines(depth, Next(depth, s, ins[0]), QueueNext(depth, q, ins[0]), ins[1..])))
  }

  lemma {:induction false} RunRefines(depth: nat, s: Regs, q: seq<int>, ins: seq<In>)
    requires depth >= 2 && PowerOfTwo(depth) && Represents(depth, s, q)
    ensures Refines(depth, s, q, ins)
    decreases |ins|
  {
    StepRefines(depth, s, q, if ins == [] then In(false, false, 0, false) else ins[0]);
    if ins != [] {
      RunRefines(depth, Next(depth, s, ins[0]), QueueNext(depth, q, ins[0]), ins[1..]);
    }
  }

  // ----- other depths -----

  const PUSH0 := In(false, true, 0, false)
  const PUSH1 := In(false, true, 1, false)
  const POP := In(false, false, 0, true)

  /** k times a push and a pop. */
  function Rounds(k: nat): seq<In> {
    if k == 0 then [] else [PUSH0, POP] + Rounds(k - 1)
  }

  /** An empty FIFO with both pointers at p and zeros in its storage. */
  function At(depth: nat, p: nat): Regs {
    Regs(EMPTY, p, p, seq(depth, i => 0))
  }

  lemma RoundMovesOn(depth: nat, p: nat)
    requires depth >= 2 && p < depth - 1
    ensures Next(depth, Next(depth, At(depth, p), PUSH0), POP) == At(depth, p + 1)
  {
    assert p + 1 < Wrap(depth);
    assert NextStorage(At(depth, p), PUSH0) == At(depth, p).storage;
  }

  /** Outside the powers of two, the last push leaves the push pointer past the storage. */
  lemma LastRoundLeavesStorage(depth: nat)
    requires depth >= 2 && !PowerOfTwo(depth)
    ensures Next(depth, Next(depth, At(depth, depth - 1), PUSH0), POP) == At(depth, 0).(push := depth)
  {
    assert depth < Wrap(depth);
    assert NextStorage(At(depth, depth - 1), PUSH0) == At(depth, 0).storage;
  }

  lemma TwoCycles(depth: nat, s: Regs, a: In, b: In, rest: seq<In>)
    requires WellFormed(depth, s)
    ensures var s2, q2 := Next(depth, Next(depth, s, a), b), QueueNext(depth, QueueNext(depth, [], a), b);
            WellFormed(depth, s2) && (Refines(depth, s, [], [a, b] + rest) ==> Refines(depth, s2, q2, rest))
  {
    PointersStay(depth, s, a);
    PointersStay(depth, Next(depth, s, a), b);
    var ins := [a, b] + rest;
    if Refines(depth, s, [], ins) {
      assert Refines(depth, Next(depth, s, a), QueueNext(depth, [], a), ins[1..]);
      assert ins[1..] == [b] + rest && ([b] + rest)[1..] == rest;
    }
  }

  /** The run that loses a word: bring the pointers past the last place, then push 1:
      it is not the word the FIFO offers next. */
  lemma {:induction false} LosesWord(depth: nat, p: nat)
    requires depth >= 2 && !PowerOfTwo(depth) && p < depth
    ensures !Refines(depth, At(depth, p), [], Rounds(depth - p) + [PUSH1])
    decreases depth - p
  {
    var rest := Rounds(depth - p - 1) + [PUSH1];
    assert Rounds(depth - p) + [PUSH1] == [PUSH0, POP] + rest;
    TwoCycles(depth, At(depth, p), PUSH0, POP, rest);
    assert QueueNext(depth, QueueNext(depth, [], PUSH0), POP) == [];
    if p < depth - 1 {
      RoundMovesOn(depth, p);
      LosesWord(depth, p + 1);
    } else {
      LastRoundLeavesStorage(depth);
      PushIsLost(depth);
      assert rest == [PUSH1];
    }
  }

  lemma PushIsLost(depth: nat)
    requires depth >= 2 && !PowerOfTwo(depth)
    ensures var s := At(depth, 0).(push := depth);
            && WellFormed(depth, s) && !Refines(depth, s, [], [PUSH1])
            && Next(depth, s, PUSH1) == s.(cs := MIDDLE, push := if depth + 1 < Wrap(depth) then depth + 1 else 0)
  {
    var s := At(depth, 0).(push := depth);
    PointersStay(depth, s, PUSH1);
    assert QueueNext(depth, [], PUSH1) == [1];
    assert Output(Next(depth, s, PUSH1)).data == 0;
  }

  /** FIFO refinement: from reset, the FIFO behaves as the bounded queue in every run
      exactly if its depth is a power of two. */
  lemma RefinesExactlyPowersOfTwo(depth: nat)
    requires depth >= 2
    ensures (forall ins :: Refines(depth, Reset(depth), [], ins)) <==> PowerOfTwo(depth)
  {
    if PowerOfTwo(depth) {
      forall ins
        ensures Refines(depth, Reset(depth), [], ins)
      {
        RunRefines(depth, Reset(depth), [], ins);
      }
    } else {
      LosesWord(depth, 0);
      assert Reset(depth) == At(depth, 0);
    }
  }
}
