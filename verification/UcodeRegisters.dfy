/** What the nested loops compute: the order in which the index tuples come, the number
    of executed operations, and the registers in closed form. */
module UcodeRegisters {
  import opened Arith
  import opened Ucode

  // ----- order of the tuples -----

  /** P_j: the product of the ranges below j. */
  function P(loops: seq<Loop>, j: nat): nat
    requires j <= |loops|
  {
    if j == 0 then 1 else Times(loops[j - 1].range, P(loops, j - 1))
  }

  /** The low j indices as a mixed-radix number, index 0 least significant. */
  function Value(loops: seq<Loop>, idx: seq<nat>, j: nat): nat
    requires j <= |loops| == |idx|
  {
    if j == 0 then 0 else Value(loops, idx, j - 1) + Times(idx[j - 1], P(loops, j - 1))
  }

  ghost predicate InRange(loops: seq<Loop>, idx: seq<nat>, j: nat) {
    |idx| == |loops| && forall k :: 0 <= k < j && k < |loops| ==> idx[k] < loops[k].range
  }

  function Visits(events: seq<Event>): seq<seq<nat>> {
    if events == [] then []
    else (if events[0].Visit? then [events[0].idx] else []) + Visits(events[1..])
  }

  lemma {:induction false} VisitsAppend(a: seq<Event>, b: seq<Event>)
    ensures Visits(a + b) == Visits(a) + Visits(b)
    decreases |a|
  {
    if a == [] {
      assert a + b == b;
    } else {
      VisitsAppend(a[1..], b);
      assert (a + b)[1..] == a[1..] + b;
    }
  }

  lemma {:induction false} NoVisits(events: seq<Event>)
    requires forall k :: 0 <= k < |events| ==> !events[k].Visit?
    ensures Visits(events) == []
    decreases |events|
  {
    if events != [] {
      NoVisits(events[1..]);
    }
  }

  /** The tuples have upper indices `upper`, and their low parts count up from base. */
  ghost predicate CountUp(loops: seq<Loop>, ts: seq<seq<nat>>, j: nat, upper: seq<nat>, base: nat)
    requires j + |upper| == |loops|
  {
    forall v :: 0 <= v < |ts| ==>
      && InRange(loops, ts[v], j) && ts[v][j..] == upper
      && Value(loops, ts[v], j) == base + v
  }

  lemma {:induction false} NestCountsUp(loops: seq<Loop>, j: nat, upper: seq<nat>)
    requires WellFormed(loops) && j + |upper| == |loops|
    ensures var ts := Visits(NestEvents(loops, j, upper));
            |ts| == P(loops, j) && CountUp(loops, ts, j, upper, 0)
    decreases j, 0
  {
    if j == 0 {
      assert Visits([Visit(upper)]) == [upper] + Visits([]);
    } else {
      LoopCountsUp(loops, j - 1, 0, upper);
    }
  }

  lemma {:induction false} LoopCountsUp(loops: seq<Loop>, j: nat, i: nat, upper: seq<nat>)
    requires WellFormed(loops) && j + 1 + |upper| == |loops| && i < loops[j].range
    ensures var ts := Visits(LoopEvents(loops, j, i, upper));
            |ts| == Times(loops[j].range - i, P(loops, j)) && CountUp(loops, ts, j + 1, upper, Times(i, P(loops, j)))
    decreases j, 1, loops[j].range - i
  {
    var inner := NestEvents(loops, j, [i] + upper);
    NestCountsUp(loops, j, [i] + upper);
    InnerTuples(loops, Visits(inner), j, i, upper);
    if i + 1 < loops[j].range {
      LoopCountsUp(loops, j, i + 1, upper);
      NoVisits(Block(loops[j]));
      VisitsAppend(Block(loops[j]), LoopEvents(loops, j, i + 1, upper));
      VisitsAppend(inner, Block(loops[j]) + LoopEvents(loops, j, i + 1, upper));
      CountOn(loops, Visits(inner), Visits(LoopEvents(loops, j, i + 1, upper)), j + 1, upper, Times(i, P(loops, j)));
    } else {
      assert LoopEvents(loops, j, i, upper) == inner;
    }
  }

  lemma InnerTuples(loops: seq<Loop>, ts: seq<seq<nat>>, j: nat, i: nat, upper: seq<nat>)
    requires j + 1 + |upper| == |loops| && i < loops[j].range && CountUp(loops, ts, j, [i] + upper, 0)
    ensures CountUp(loops, ts, j + 1, upper, Times(i, P(loops, j)))
  {
    forall v | 0 <= v < |ts|
      ensures InRange(loops, ts[v], j + 1) && ts[v][j + 1..] == upper
              && Value(loops, ts[v], j + 1) == Times(i, P(loops, j)) + v
    {
      assert ts[v][j] == ts[v][j..][0] == i;
      assert ts[v][j + 1..] == ts[v][j..][1..];
    }
  }

  lemma CountOn(loops: seq<Loop>, a: seq<seq<nat>>, b: seq<seq<nat>>, j: nat, upper: seq<nat>, base: nat)
    requires j + |upper| == |loops| && CountUp(loops, a, j, upper, base) && CountUp(loops, b, j, upper, base + |a|)
    ensures CountUp(loops, a + b, j, upper, base)
  {
    forall v | 0 <= v < |a + b|
      ensures InRange(loops, (a + b)[v], j) && (a + b)[v][j..] == upper && Value(loops, (a + b)[v], j) == base + v
    {
      if v >= |a| {
        assert (a + b)[v] == b[v - |a|];
      }
    }
  }

  lemma {:induction false} ValueBound(loops: seq<Loop>, idx: seq<nat>, j: nat)
    requires j <= |loops| && InRange(loops, idx, j)
    ensures Value(loops, idx, j) < P(loops, j)
    decreases j
  {
    if j > 0 {
      ValueBound(loops, idx, j - 1);
      var p, i, r := P(loops, j - 1), idx[j - 1], loops[j - 1].range;
      TimesMonotone(i + 1, r, p);
    }
  }

  lemma {:induction false} TimesMonotone(a: nat, b: nat, d: nat)
    requires a <= b
    ensures Times(a, d) <= Times(b, d)
  {
    if a < b {
      TimesMonotone(a, b - 1, d);
    }
  }

  /** Different tuples have different values. */
  lemma {:induction false} ValueInjective(loops: seq<Loop>, s: seq<nat>, t: seq<nat>, j: nat)
    requires j <= |loops| && InRange(loops, s, j) && InRange(loops, t, j)
    requires Value(loops, s, j) == Value(loops, t, j)
    ensures s[..j] == t[..j]
    decreases j
  {
    if j > 0 {
      var p := P(loops, j - 1);
      ValueBound(loops, s, j - 1);
      ValueBound(loops, t, j - 1);
      TimesIsProduct(s[j - 1], p);
      TimesIsProduct(t[j - 1], p);
      Commute(s[j - 1], p);
      Commute(t[j - 1], p);
      DivModUnique(p, s[j - 1], Value(loops, s, j - 1), t[j - 1], Value(loops, t, j - 1));
      ValueInjective(loops, s, t, j - 1);
      assert s[..j] == s[..j - 1] + [s[j - 1]];
      assert t[..j] == t[..j - 1] + [t[j - 1]];
    }
  }

  /** The nest visits every index tuple exactly once, loop 0 fastest: the v-th visited
      tuple is the one whose mixed-radix value is v. */
  lemma {:induction false} VisitsEveryTupleInOrder(loops: seq<Loop>)
    requires WellFormed(loops)
    ensures var ts, n := Visits(NestEvents(loops, |loops|, [])), |loops|;
            && |ts| == P(loops, n)
            && (forall v :: 0 <= v < |ts| ==> InRange(loops, ts[v], n) && Value(loops, ts[v], n) == v)
            && (forall t :: InRange(loops, t, n) ==> Value(loops, t, n) < |ts| && ts[Value(loops, t, n)] == t)
  {
    var ts, n := Visits(NestEvents(loops, |loops|, [])), |loops|;
    NestCountsUp(loops, n, []);
    forall t | InRange(loops, t, n)
      ensures Value(loops, t, n) < |ts| && ts[Value(loops, t, n)] == t
    {
      ValueBound(loops, t, n);
      ValueInjective(loops, ts[Value(loops, t, n)], t, n);
      assert t == t[..n];
      assert ts[Value(loops, t, n)] == ts[Value(loops, t, n)][..n];
    }
  }

  // ----- number of executed operations -----

  function OpCount(events: seq<Event>): nat {
    if events == [] then 0 else (if events[0].Op? then 1 else 0) + OpCount(events[1..])
  }

  lemma {:induction false} OpCountAppend(a: seq<Event>, b: seq<Event>)
    ensures OpCount(a + b) == OpCount(a) + OpCount(b)
    decreases |a|
  {
    if a == [] {
      assert a + b == b;
    } else {
      OpCountAppend(a[1..], b);
      assert (a + b)[1..] == a[1..] + b;
    }
  }

  lemma {:induction false} AllOps(events: seq<Event>)
    requires forall k :: 0 <= k < |events| ==> events[k].Op?
    ensures OpCount(events) == |events|
    decreases |events|
  {
    if events != [] {
      AllOps(events[1..]);
    }
  }

  function NestOps(loops: seq<Loop>, j: nat): nat
    requires WellFormed(loops) && j <= |loops|
  {
    if j == 0 then 0
    else Times(loops[j - 1].range, NestOps(loops, j - 1)) + Times(loops[j - 1].range - 1, loops[j - 1].nbOps)
  }

  lemma {:induction false} NestOpCount(loops: seq<Loop>, j: nat, upper: seq<nat>)
    requires WellFormed(loops) && j <= |loops|
    ensures OpCount(NestEvents(loops, j, upper)) == NestOps(loops, j)
    decreases j, 0
  {
    if j == 0 {
      assert OpCount([Visit(upper)]) == OpCount([]);
    } else {
      LoopOpCount(loops, j - 1, 0, upper);
    }
  }

  lemma {:induction false} LoopOpCount(loops: seq<Loop>, j: nat, i: nat, upper: seq<nat>)
    requires WellFormed(loops) && j < |loops| && i < loops[j].range
    ensures OpCount(LoopEvents(loops, j, i, upper))
            == Times(loops[j].range - i, NestOps(loops, j)) + Times(loops[j].range - i - 1, loops[j].nbOps)
    decreases j, 1, loops[j].range - i
  {
    var inner := NestEvents(loops, j, [i] + upper);
    NestOpCount(loops, j, [i] + upper);
    if i + 1 < loops[j].range {
      var rest := LoopEvents(loops, j, i + 1, upper);
      LoopOpCount(loops, j, i + 1, upper);
      AllOps(Block(loops[j]));
      OpCountAppend(Block(loops[j]), rest);
      OpCountAppend(inner, Block(loops[j]) + rest);
    } else {
      assert LoopEvents(loops, j, i, upper) == inner;
    }
  }

  /** The product of the ranges from j on. */
  function RangesFrom(loops: seq<Loop>, j: nat): int
    requires j <= |loops|
    decreases |loops| - j
  {
    if j == |loops| then 1 else loops[j].range * RangesFrom(loops, j + 1)
  }

  /** The sum over the loops from j on of nbOps * (range - 1) * the ranges above. */
  function OpsSum(loops: seq<Loop>, j: nat): int
    requires j <= |loops|
    decreases |loops| - j
  {
    if j == |loops| then 0
    else loops[j].nbOps * (loops[j].range - 1) * RangesFrom(loops, j + 1) + OpsSum(loops, j + 1)
  }

  lemma {:induction false} NestOpsSum(loops: seq<Loop>, j: nat)
    requires WellFormed(loops) && j <= |loops|
    ensures NestOps(loops, |loops|) == NestOps(loops, j) * RangesFrom(loops, j) + OpsSum(loops, j)
    decreases |loops| - j
  {
    if j < |loops| {
      NestOpsSum(loops, j + 1);
      TimesIsProduct(loops[j].range, NestOps(loops, j));
      TimesIsProduct(loops[j].range - 1, loops[j].nbOps);
      OneMoreLoop(NestOps(loops, j), loops[j].range, loops[j].nbOps, RangesFrom(loops, j + 1));
    }
  }

  lemma OneMoreLoop(ops: int, r: int, nb: int, above: int)
    ensures (r * ops + (r - 1) * nb) * above == ops * (r * above) + nb * (r - 1) * above
  {
    assert (r * ops) * above == ops * (r * above);
    assert ((r - 1) * nb) * above == nb * (r - 1) * above;
  }

  /** The number of operations the nest executes. */
  lemma {:induction false} TotalOps(loops: seq<Loop>)
    requires WellFormed(loops)
    ensures OpCount(NestEvents(loops, |loops|, [])) == OpsSum(loops, 0)
  {
    NestOpCount(loops, |loops|, []);
    NestOpsSum(loops, 0);
  }

  // ----- registers -----

  datatype Instr = Instr(opSel: bool, a: nat, b: nat)

  /** Every operand names a register. */
  predicate Fits(code: seq<Instr>, registers: nat) {
    forall p :: 0 <= p < |code| ==> code[p].a < registers && code[p].b < registers
  }

  function UcodeExecute(addr: nat, code: seq<Instr>, registers: seq<int>): (r: seq<int>)
    requires addr < |code| && Fits(code, |registers|)
    ensures |r| == |registers|
  {
    var c := code[addr];
    if c.opSel then registers[c.a := registers[c.a] + registers[c.b]]
    else registers[c.a := registers[c.b]]
  }

  ghost predicate InCode(events: seq<Event>, code: seq<Instr>) {
    forall k :: 0 <= k < |events| && events[k].Op? ==> events[k].addr < |code|
  }

  /** The registers after executing the ops among the events. */
  ghost function Executed(events: seq<Event>, code: seq<Instr>, registers: seq<int>): (r: seq<int>)
    requires InCode(events, code) && Fits(code, |registers|)
    ensures |r| == |registers|
    decreases |events|
  {
    if events == [] then registers
    else Executed(events[1..], code, if events[0].Op? then UcodeExecute(events[0].addr, code, registers) else registers)
  }

  /** The registers as each visited tuple finds them. */
  ghost function RegistersAtVisits(events: seq<Event>, code: seq<Instr>, registers: seq<int>): seq<seq<int>>
    requires InCode(events, code) && Fits(code, |registers|)
    decreases |events|
  {
    if events == [] then []
    else (if events[0].Visit? then [registers] else [])
         + RegistersAtVisits(events[1..], code, if events[0].Op? then UcodeExecute(events[0].addr, code, registers)
                             else registers)
  }

  /** A register that no op writes keeps its value, whatever is executed. */
  lemma {:induction false} OnlyTargetsChange(events: seq<Event>, code: seq<Instr>, registers: seq<int>, x: nat)
    requires InCode(events, code) && Fits(code, |registers|) && x < |registers|
    requires forall p :: 0 <= p < |code| ==> code[p].a != x
    ensures Executed(events, code, registers)[x] == registers[x]
    decreases |events|
  {
    if events != [] {
      OnlyTargetsChange(events[1..], code, if events[0].Op? then UcodeExecute(events[0].addr, code, registers)
                        else registers, x);
    }
  }

  /** No register that is read is ever written. */
  predicate ConstantSources(code: seq<Instr>) {
    forall p, q :: 0 <= p < |code| && 0 <= q < |code| ==> code[p].b != code[q].a
  }

  predicate OnlyAdds(code: seq<Instr>) {
    forall p :: 0 <= p < |code| ==> code[p].opSel
  }

  /** One of `count` ops from address `first` on moves to register x. */
  predicate Moves(code: seq<Instr>, first: nat, count: nat, x: nat)
    requires first + count <= |code|
    decreases count
  {
    count > 0 && ((!code[first].opSel && code[first].a == x) || Moves(code, first + 1, count - 1, x))
  }

  /** What they add to it. */
  function Stride(code: seq<Instr>, start: seq<int>, first: nat, count: nat, x: nat): int
    requires first + count <= |code| && Fits(code, |start|)
    decreases count
  {
    if count == 0 then 0
    else (if code[first].opSel && code[first].a == x then start[code[first].b] else 0)
         + Stride(code, start, first + 1, count - 1, x)
  }

  /** The source of the last move, and what is added behind it. */
  function MovedTo(code: seq<Instr>, start: seq<int>, first: nat, count: nat, x: nat): int
    requires first + count <= |code| && Fits(code, |start|) && Moves(code, first, count, x)
    decreases count
  {
    if Moves(code, first + 1, count - 1, x) then MovedTo(code, start, first + 1, count - 1, x)
    else start[code[first].b] + Stride(code, start, first + 1, count - 1, x)
  }

  predicate InMemory(loops: seq<Loop>, code: seq<Instr>) {
    WellFormed(loops) && forall j :: 0 <= j < |loops| ==> loops[j].ucodeAddr + loops[j].nbOps <= |code|
  }

  function LoopStride(loops: seq<Loop>, code: seq<Instr>, start: seq<int>, j: nat, x: nat): int
    requires InMemory(loops, code) && j < |loops| && Fits(code, |start|)
  {
    Stride(code, start, loops[j].ucodeAddr, loops[j].nbOps, x)
  }

  predicate LoopMoves(loops: seq<Loop>, code: seq<Instr>, j: nat, x: nat)
    requires InMemory(loops, code) && j < |loops|
  {
    Moves(code, loops[j].ucodeAddr, loops[j].nbOps, x)
  }

  function LoopMovedTo(loops: seq<Loop>, code: seq<Instr>, start: seq<int>, j: nat, x: nat): int
    requires InMemory(loops, code) && j < |loops| && Fits(code, |start|) && LoopMoves(loops, code, j, x)
  {
    MovedTo(code, start, loops[j].ucodeAddr, loops[j].nbOps, x)
  }

  /** A block adds its stride to a register, or moves it. */
  lemma {:induction false} BlockActs(code: seq<Instr>, start: seq<int>, registers: seq<int>, first: nat, count: nat,
          events: seq<Event>, x: nat)
    requires first + count <= |code| && Fits(code, |start|) && ConstantSources(code) && |registers| == |start|
    requires forall p :: 0 <= p < |code| ==> registers[code[p].b] == start[code[p].b]
    requires |events| == count && (forall k :: 0 <= k < count ==> events[k] == Op(first + k)) && x < |start|
    ensures InCode(events, code)
    ensures Executed(events, code, registers)[x]
            == if Moves(code, first, count, x) then MovedTo(code, start, first, count, x)
               else registers[x] + Stride(code, start, first, count, x)
    decreases count
  {
    if count > 0 {
      BlockActs(code, start, UcodeExecute(first, code, registers), first + 1, count - 1, events[1..], x);
    }
  }

  // ----- step by step -----

  /** The loop, j or one around it, that goes on to reach the linear step v. */
  function Carried(loops: seq<Loop>, v: nat, j: nat): (k: nat)
    requires WellFormed(loops) && j < |loops|
    ensures j <= k < |loops|
    decreases |loops| - j
  {
    ProductsPositive(loops, j + 1);
    if j + 1 < |loops| && v % P(loops, j + 1) == 0 then Carried(loops, v, j + 1) else j
  }

  lemma {:induction false} ProductsPositive(loops: seq<Loop>, k: nat)
    requires WellFormed(loops) && k <= |loops|
    ensures P(loops, k) > 0
  {
    if k > 0 {
      ProductsPositive(loops, k - 1);
    }
  }

  /** A register at the linear step v: each step is the block of one loop. */
  function StepValue(loops: seq<Loop>, code: seq<Instr>, start: seq<int>, v: nat, x: nat): int
    requires InMemory(loops, code) && Fits(code, |start|) && x < |start|
  {
    if v == 0 then start[x]
    else
      var j := Carried(loops, v, 0);
      if LoopMoves(loops, code, j, x) then LoopMovedTo(loops, code, start, j, x)
      else StepValue(loops, code, start, v - 1, x) + LoopStride(loops, code, start, j, x)
  }

  /** The registers are those of the linear step of a tuple. */
  ghost predicate ClosedForm(loops: seq<Loop>, code: seq<Instr>, start: seq<int>, idx: seq<nat>, registers: seq<int>)
    requires InMemory(loops, code) && Fits(code, |start|) && |loops| == |idx|
  {
    && |registers| == |start|
    && forall x :: 0 <= x < |start| ==>
         registers[x] == StepValue(loops, code, start, Value(loops, idx, |loops|), x)
  }

  lemma {:induction false} SourcesUntouched(code: seq<Instr>, start: seq<int>, first: nat, count: nat, p: nat)
    requires first + count <= |code| && Fits(code, |start|) && ConstantSources(code) && p < |code|
    ensures !Moves(code, first, count, code[p].b) && Stride(code, start, first, count, code[p].b) == 0
    decreases count
  {
    if count > 0 {
      SourcesUntouched(code, start, first + 1, count - 1, p);
    }
  }

  lemma {:induction false} SourceStays(loops: seq<Loop>, code: seq<Instr>, start: seq<int>, v: nat, p: nat)
    requires InMemory(loops, code) && Fits(code, |start|) && ConstantSources(code) && p < |code|
    ensures StepValue(loops, code, start, v, code[p].b) == start[code[p].b]
  {
    if v > 0 {
      var j := Carried(loops, v, 0);
      SourceStays(loops, code, start, v - 1, p);
      SourcesUntouched(code, start, loops[j].ucodeAddr, loops[j].nbOps, p);
    }
  }

  lemma {:induction false} ZeroValue(loops: seq<Loop>, idx: seq<nat>, k: nat)
    requires |idx| == |loops| && k <= |loops| && idx[..k] == ZeroIdx(k)
    ensures Value(loops, idx, k) == 0
  {
    if k > 0 {
      assert idx[k - 1] == idx[..k][k - 1] == 0;
      assert idx[..k - 1] == idx[..k][..k - 1] == ZeroIdx(k - 1);
      ZeroValue(loops, idx, k - 1);
    }
  }

  lemma {:induction false} EndValue(loops: seq<Loop>, idx: seq<nat>, k: nat)
    requires WellFormed(loops) && |idx| == |loops| && k <= |loops| && idx[..k] == MaxIdx(loops, k)
    ensures Value(loops, idx, k) == P(loops, k) - 1
  {
    if k > 0 {
      assert idx[k - 1] == idx[..k][k - 1] == loops[k - 1].range - 1;
      assert idx[..k - 1] == idx[..k][..k - 1] == MaxIdx(loops, k - 1);
      EndValue(loops, idx, k - 1);
      assert P(loops, k) == P(loops, k - 1) + Times(loops[k - 1].range - 1, P(loops, k - 1));
    }
  }

  /** The next tuple is the next linear step. */
  lemma {:induction false} NextValue(loops: seq<Loop>, j: nat, i: nat, upper: seq<nat>, k: nat)
    requires WellFormed(loops) && j < k <= |loops| && j + 1 + |upper| == |loops|
    ensures Value(loops, ZeroIdx(j) + ([i + 1] + upper), k) == Value(loops, MaxIdx(loops, j) + ([i] + upper), k) + 1
  {
    var last, next := MaxIdx(loops, j) + ([i] + upper), ZeroIdx(j) + ([i + 1] + upper);
    if k == j + 1 {
      assert last[..j] == MaxIdx(loops, j) && next[..j] == ZeroIdx(j);
      EndValue(loops, last, j);
      ZeroValue(loops, next, j);
      ProductsPositive(loops, j);
    } else {
      NextValue(loops, j, i, upper, k - 1);
      assert last[k - 1] == next[k - 1];
    }
  }

  /** The value of a tuple is that of its low part modulo the product of the low ranges. */
  lemma {:induction false} LowPart(loops: seq<Loop>, idx: seq<nat>, k: nat, m: nat) returns (q: nat)
    requires WellFormed(loops) && |idx| == |loops| && k <= m <= |loops|
    ensures Value(loops, idx, m) == P(loops, k) * q + Value(loops, idx, k)
    ensures exists r: nat :: P(loops, m) == P(loops, k) * r
    decreases m
  {
    if k == m {
      q := 0;
      assert P(loops, m) == P(loops, k) * 1;
    } else {
      q := LowPart(loops, idx, k, m - 1);
      var r: nat :| P(loops, m - 1) == P(loops, k) * r;
      TimesIsProduct(idx[m - 1], P(loops, m - 1));
      TimesIsProduct(loops[m - 1].range, P(loops, m - 1));
      Factored(idx[m - 1], P(loops, k), r, q);
      Factored(loops[m - 1].range, P(loops, k), r, 0);
      q := q + idx[m - 1] * r;
    }
  }

  lemma Factored(a: nat, p: nat, r: nat, q: nat)
    ensures a * r >= 0 && a * (p * r) + p * q == p * (q + a * r)
  {
    assert a * (p * r) == p * (a * r);
  }

  lemma {:induction false} CarriedFrom(loops: seq<Loop>, v: nat, j: nat, k: nat)
    requires WellFormed(loops) && k <= j < |loops|
    requires forall m :: 0 <= m <= |loops| ==> P(loops, m) > 0
    requires forall m :: k < m <= j ==> v % P(loops, m) == 0
    requires j + 1 < |loops| ==> v % P(loops, j + 1) != 0
    ensures Carried(loops, v, k) == j
    decreases j - k
  {
    if k < j {
      CarriedFrom(loops, v, j, k + 1);
    }
  }

  /** The tuple behind the last one inside loop j: its step is a multiple of every product below,
      but not of that with the range of loop j. */
  lemma {:induction false} MultipleBelow(loops: seq<Loop>, next: seq<nat>, j: nat, m: nat)
    requires WellFormed(loops) && |next| == |loops| && m <= j <= |loops| && next[..j] == ZeroIdx(j)
    ensures P(loops, m) > 0 && Value(loops, next, |loops|) % P(loops, m) == 0
  {
    ProductsPositive(loops, m);
    assert next[..m] == next[..j][..m] == ZeroIdx(m);
    ZeroValue(loops, next, m);
    var q := LowPart(loops, next, m, |loops|);
    ModUnique(Value(loops, next, |loops|), P(loops, m), q, 0);
  }

  lemma {:induction false} NoMultiple(loops: seq<Loop>, next: seq<nat>, j: nat)
    requires WellFormed(loops) && |next| == |loops| && j < |loops| && next[..j] == ZeroIdx(j)
    requires 0 < next[j] < loops[j].range
    ensures P(loops, j + 1) > 0 && Value(loops, next, |loops|) % P(loops, j + 1) != 0
  {
    ProductsPositive(loops, j);
    ZeroValue(loops, next, j);
    TimesMonotone(1, next[j], P(loops, j));
    assert Times(1, P(loops, j)) == P(loops, j);
    TimesMonotone(next[j] + 1, loops[j].range, P(loops, j));
    var q := LowPart(loops, next, j + 1, |loops|);
    ModUnique(Value(loops, next, |loops|), P(loops, j + 1), q, Value(loops, next, j + 1));
  }

  /** It is loop j that goes on to reach that tuple. */
  lemma {:induction false} CarriedIsLoop(loops: seq<Loop>, j: nat, i: nat, upper: seq<nat>)
    requires WellFormed(loops) && j + 1 + |upper| == |loops| && i + 1 < loops[j].range
    ensures Carried(loops, Value(loops, ZeroIdx(j) + ([i + 1] + upper), |loops|), 0) == j
  {
    var next := ZeroIdx(j) + ([i + 1] + upper);
    var v := Value(loops, next, |loops|);
    assert next[..j] == ZeroIdx(j);
    forall m | 0 <= m <= |loops|
      ensures P(loops, m) > 0
      ensures m <= j ==> v % P(loops, m) == 0
    {
      ProductsPositive(loops, m);
      if m <= j {
        MultipleBelow(loops, next, j, m);
      }
    }
    NoMultiple(loops, next, j);
    CarriedFrom(loops, v, j, 0);
  }

  /** A block executed on the registers of step v leaves those of step v + 1. */
  lemma {:induction false} BlockSteps(loops: seq<Loop>, code: seq<Instr>, start: seq<int>, j: nat, v: nat,
          registers: seq<int>, x: nat)
    requires InMemory(loops, code) && Fits(code, |start|) && ConstantSources(code)
    requires j < |loops| && x < |start| == |registers| && Carried(loops, v + 1, 0) == j
    requires forall y :: 0 <= y < |start| ==> registers[y] == StepValue(loops, code, start, v, y)
    ensures InCode(Block(loops[j]), code)
    ensures Executed(Block(loops[j]), code, registers)[x] == StepValue(loops, code, start, v + 1, x)
  {
    forall p | 0 <= p < |code|
      ensures registers[code[p].b] == start[code[p].b]
    {
      SourceStays(loops, code, start, v, p);
    }
    BlockActs(code, start, registers, loops[j].ucodeAddr, loops[j].nbOps, Block(loops[j]), x);
  }

  /** The block between two iterations takes the registers from one step to the next. */
  lemma {:induction false} BlockKeepsClosedForm(loops: seq<Loop>, code: seq<Instr>, start: seq<int>, j: nat, i: nat,
          upper: seq<nat>, registers: seq<int>)
    requires InMemory(loops, code) && Fits(code, |start|) && ConstantSources(code)
    requires j + 1 + |upper| == |loops| && i + 1 < loops[j].range
    requires ClosedForm(loops, code, start, MaxIdx(loops, j) + ([i] + upper), registers)
    ensures InCode(Block(loops[j]), code)
    ensures ClosedForm(loops, code, start, ZeroIdx(j) + ([i + 1] + upper), Executed(Block(loops[j]), code, registers))
  {
    var v := Value(loops, MaxIdx(loops, j) + ([i] + upper), |loops|);
    NextValue(loops, j, i, upper, |loops|);
    CarriedIsLoop(loops, j, i, upper);
    forall x | 0 <= x < |start|
      ensures InCode(Block(loops[j]), code)
      ensures Executed(Block(loops[j]), code, registers)[x] == StepValue(loops, code, start, v + 1, x)
    {
      BlockSteps(loops, code, start, j, v, registers, x);
    }
    assert InCode(Block(loops[j]), code);
  }

  // ----- along the whole nest -----

  lemma {:induction false} ExecutedHead(e: Event, rest: seq<Event>, code: seq<Instr>, registers: seq<int>,
          next: seq<int>)
    requires Fits(code, |registers|) && InCode(rest, code) && (e.Op? ==> e.addr < |code|)
    requires next == if e.Op? then UcodeExecute(e.addr, code, registers) else registers
    ensures InCode([e] + rest, code)
    ensures Executed([e] + rest, code, registers) == Executed(rest, code, next)
    ensures RegistersAtVisits([e] + rest, code, registers)
            == (if e.Visit? then [registers] else []) + RegistersAtVisits(rest, code, next)
  {
    assert ([e] + rest)[1..] == rest;
  }

  lemma {:induction false} ExecutedAppend(a: seq<Event>, b: seq<Event>, code: seq<Instr>, registers: seq<int>)
    requires InCode(a, code) && InCode(b, code) && Fits(code, |registers|)
    ensures InCode(a + b, code)
    ensures Executed(a + b, code, registers) == Executed(b, code, Executed(a, code, registers))
    ensures RegistersAtVisits(a + b, code, registers)
            == RegistersAtVisits(a, code, registers) + RegistersAtVisits(b, code, Executed(a, code, registers))
    decreases |a|
  {
    if a == [] {
      assert a + b == b;
    } else {
      var next := if a[0].Op? then UcodeExecute(a[0].addr, code, registers) else registers;
      assert InCode(a[1..], code);
      assert a + b == [a[0]] + (a[1..] + b);
      ExecutedHead(a[0], a[1..] + b, code, registers, next);
      ExecutedHead(a[0], a[1..], code, registers, next);
      assert a == [a[0]] + a[1..];
      ExecutedAppend(a[1..], b, code, next);
    }
  }

  lemma {:induction false} NoRegistersAtVisits(events: seq<Event>, code: seq<Instr>, registers: seq<int>)
    requires InCode(events, code) && Fits(code, |registers|)
    ensures |RegistersAtVisits(events, code, registers)| == |Visits(events)|
    decreases |events|
  {
    if events != [] {
      NoRegistersAtVisits(events[1..], code, if events[0].Op? then UcodeExecute(events[0].addr, code, registers)
                          else registers);
    }
  }

  /** Every visited tuple finds the registers in closed form. */
  ghost predicate VisitsInClosedForm(loops: seq<Loop>, code: seq<Instr>, start: seq<int>, ts: seq<seq<nat>>,
          rs: seq<seq<int>>)
    requires InMemory(loops, code) && Fits(code, |start|)
  {
    |ts| == |rs| && forall v :: 0 <= v < |ts| ==> |ts[v]| == |loops| && ClosedForm(loops, code, start, ts[v], rs[v])
  }

  ghost predicate GoodRun(loops: seq<Loop>, code: seq<Instr>, start: seq<int>, events: seq<Event>, registers: seq<int>,
          last: seq<nat>)
    requires InMemory(loops, code) && Fits(code, |start|)
  {
    && |registers| == |start| && |last| == |loops|
    && InCode(events, code)
    && VisitsInClosedForm(loops, code, start, Visits(events), RegistersAtVisits(events, code, registers))
    && ClosedForm(loops, code, start, last, Executed(events, code, registers))
  }

  lemma GoodRunAppend(loops: seq<Loop>, code: seq<Instr>, start: seq<int>, a: seq<Event>, b: seq<Event>,
          registers: seq<int>, mid: seq<nat>, last: seq<nat>)
    requires InMemory(loops, code) && Fits(code, |start|)
    requires GoodRun(loops, code, start, a, registers, mid)
    requires GoodRun(loops, code, start, b, Executed(a, code, registers), last)
    ensures GoodRun(loops, code, start, a + b, registers, last)
  {
    ExecutedAppend(a, b, code, registers);
    VisitsAppend(a, b);
  }

  lemma {:induction false} VisitGood(loops: seq<Loop>, code: seq<Instr>, start: seq<int>, idx: seq<nat>,
          registers: seq<int>)
    requires InMemory(loops, code) && Fits(code, |start|) && |idx| == |loops|
             && ClosedForm(loops, code, start, idx, registers)
    ensures GoodRun(loops, code, start, [Visit(idx)], registers, idx)
  {
    var none: seq<Event> := [];
    ExecutedHead(Visit(idx), none, code, registers, registers);
    assert [Visit(idx)] + none == [Visit(idx)];
    assert Visits([Visit(idx)]) == [idx] + Visits([]);
  }

  lemma {:induction false} InnermostGood(loops: seq<Loop>, code: seq<Instr>, start: seq<int>, upper: seq<nat>,
          registers: seq<int>)
    requires InMemory(loops, code) && Fits(code, |start|) && |upper| == |loops|
    requires ClosedForm(loops, code, start, ZeroIdx(0) + upper, registers)
    ensures GoodRun(loops, code, start, NestEvents(loops, 0, upper), registers, MaxIdx(loops, 0) + upper)
  {
    assert ZeroIdx(0) + upper == upper == MaxIdx(loops, 0) + upper;
    VisitGood(loops, code, start, upper, registers);
  }

  lemma {:induction false} NestGood(loops: seq<Loop>, code: seq<Instr>, start: seq<int>, j: nat, upper: seq<nat>,
          registers: seq<int>)
    requires InMemory(loops, code) && Fits(code, |start|) && ConstantSources(code) && j + |upper| == |loops|
    requires ClosedForm(loops, code, start, ZeroIdx(j) + upper, registers)
    ensures GoodRun(loops, code, start, NestEvents(loops, j, upper), registers, MaxIdx(loops, j) + upper)
    decreases j, 0
  {
    if j == 0 {
      InnermostGood(loops, code, start, upper, registers);
    } else {
      Tuples(loops, j - 1, upper);
      var last := MaxIdx(loops, j - 1) + ([loops[j - 1].range - 1] + upper);
      LoopGood(loops, code, start, j - 1, 0, upper, registers);
      assert NestEvents(loops, j, upper) == LoopEvents(loops, j - 1, 0, upper);
      assert MaxIdx(loops, j) + upper == last;
    }
  }

  lemma {:induction false} LoopGood(loops: seq<Loop>, code: seq<Instr>, start: seq<int>, j: nat, i: nat,
          upper: seq<nat>, registers: seq<int>)
    requires InMemory(loops, code) && Fits(code, |start|) && ConstantSources(code)
    requires j + 1 + |upper| == |loops| && i < loops[j].range
    requires ClosedForm(loops, code, start, ZeroIdx(j) + ([i] + upper), registers)
    ensures GoodRun(loops, code, start, LoopEvents(loops, j, i, upper), registers,
                    MaxIdx(loops, j) + ([loops[j].range - 1] + upper))
    decreases j, 1, loops[j].range - i
  {
    var inner, block := NestEvents(loops, j, [i] + upper), Block(loops[j]);
    var mid, again, last := MaxIdx(loops, j) + ([i] + upper), ZeroIdx(j) + ([i + 1] + upper),
        MaxIdx(loops, j) + ([loops[j].range - 1] + upper);
    NestGood(loops, code, start, j, [i] + upper, registers);
    if i + 1 < loops[j].range {
      var rest, r := LoopEvents(loops, j, i + 1, upper), Executed(inner, code, registers);
      BlockKeepsClosedForm(loops, code, start, j, i, upper, r);
      NoVisits(block);
      NoRegistersAtVisits(block, code, r);
      LoopGood(loops, code, start, j, i + 1, upper, Executed(block, code, r));
      GoodRunAppend(loops, code, start, block, rest, r, again, last);
      GoodRunAppend(loops, code, start, inner, block + rest, registers, mid, last);
    } else {
      assert LoopEvents(loops, j, i, upper) == inner;
    }
  }

  /** At every visited tuple, the registers are those of its linear step. */
  ghost predicate Stepwise(loops: seq<Loop>, code: seq<Instr>, start: seq<int>, rs: seq<seq<int>>)
    requires InMemory(loops, code) && Fits(code, |start|)
  {
    |rs| == P(loops, |loops|)
    && forall v :: 0 <= v < |rs| ==>
         |rs[v]| == |start| && forall x :: 0 <= x < |start| ==> rs[v][x] == StepValue(loops, code, start, v, x)
  }

  lemma {:induction false} RegistersByStep(loops: seq<Loop>, code: seq<Instr>, start: seq<int>)
    requires InMemory(loops, code) && Fits(code, |start|) && ConstantSources(code)
    ensures var events := NestEvents(loops, |loops|, []);
            InCode(events, code) && Stepwise(loops, code, start, RegistersAtVisits(events, code, start))
  {
    var n, events := |loops|, NestEvents(loops, |loops|, []);
    assert ZeroIdx(n) + [] == ZeroIdx(n) == ZeroIdx(n)[..n];
    ZeroValue(loops, ZeroIdx(n), n);
    NestGood(loops, code, start, n, [], start);
    VisitsEveryTupleInOrder(loops);
    var ts, rs := Visits(events), RegistersAtVisits(events, code, start);
    forall v | 0 <= v < |rs|
      ensures |rs[v]| == |start|
      ensures forall x :: 0 <= x < |start| ==> rs[v][x] == StepValue(loops, code, start, v, x)
    {
      assert ClosedForm(loops, code, start, ts[v], rs[v]);
    }
  }

  // ----- the closed form -----

  /** The sum over the loops from k on of stride * (v / P_k - v / P_(k+1)). */
  ghost function AddedByStep(loops: seq<Loop>, code: seq<Instr>, start: seq<int>, v: nat, x: nat, k: nat): int
    requires InMemory(loops, code) && Fits(code, |start|) && k < |loops|
    requires forall j :: 0 <= j <= |loops| ==> P(loops, j) > 0
    decreases |loops| - k
  {
    LoopStride(loops, code, start, k, x) * (v / P(loops, k) - v / P(loops, k + 1))
    + if k + 1 < |loops| then AddedByStep(loops, code, start, v, x, k + 1) else 0
  }

  lemma QuotientStep(v: nat, p: nat)
    requires v > 0 && p > 0
    ensures v / p == (v - 1) / p + if v % p == 0 then 1 else 0
  {
    var q, r := v / p, v % p;
    if r == 0 {
      assert p * q == p * (q - 1) + p;
      ModUnique(v - 1, p, q - 1, p - 1);
    } else {
      ModUnique(v - 1, p, q, r - 1);
    }
  }

  lemma DividesDown(v: nat, p: nat, r: nat)
    requires p > 0 && r > 0 && r * p > 0 && v % (r * p) == 0
    ensures v % p == 0
  {
    var q := v / (r * p);
    assert (r * p) * q == p * (r * q);
    ModUnique(v, p, r * q, 0);
  }

  lemma OneMore(s: int, u: int, w: int)
    ensures s * ((u + 1) - w) == s * (u - w) + s
    ensures s * ((u + 1) - (w + 1)) == s * (u - w)
  {
  }

  /** A step counts for the loop that goes on, and for no other. */
  lemma {:induction false} AddedOneStep(loops: seq<Loop>, code: seq<Instr>, start: seq<int>, v: nat, x: nat, k: nat)
    requires InMemory(loops, code) && Fits(code, |start|) && k < |loops| && 0 < v < P(loops, |loops|)
    requires forall j :: 0 <= j <= |loops| ==> P(loops, j) > 0
    ensures AddedByStep(loops, code, start, v, x, k)
            == AddedByStep(loops, code, start, v - 1, x, k)
               + if v % P(loops, k) == 0 then LoopStride(loops, code, start, Carried(loops, v, k), x) else 0
    decreases |loops| - k
  {
    var p, p' := P(loops, k), P(loops, k + 1);
    QuotientStep(v, p);
    QuotientStep(v, p');
    OneMore(LoopStride(loops, code, start, k, x), (v - 1) / p, (v - 1) / p');
    TimesIsProduct(loops[k].range, p);
    if v % p' == 0 {
      DividesDown(v, p, loops[k].range);
    }
    if k + 1 < |loops| {
      AddedOneStep(loops, code, start, v, x, k + 1);
    } else {
      ModUnique(v, p', 0, v);
    }
  }

  /** From step w to step v no block that is executed moves to register x. */
  predicate NoMove(loops: seq<Loop>, code: seq<Instr>, w: nat, v: nat, x: nat)
    requires InMemory(loops, code)
  {
    forall u :: w < u <= v ==> !LoopMoves(loops, code, Carried(loops, u, 0), x)
  }

  lemma {:induction false} SinceMove(loops: seq<Loop>, code: seq<Instr>, start: seq<int>, w: nat, v: nat, x: nat)
    requires InMemory(loops, code) && Fits(code, |start|) && x < |start| && w <= v < P(loops, |loops|)
    requires forall j :: 0 <= j <= |loops| ==> P(loops, j) > 0
    requires NoMove(loops, code, w, v, x)
    ensures StepValue(loops, code, start, v, x) - StepValue(loops, code, start, w, x)
            == AddedByStep(loops, code, start, v, x, 0) - AddedByStep(loops, code, start, w, x, 0)
    decreases v
  {
    if w < v {
      SinceMove(loops, code, start, w, v - 1, x);
      AddedOneStep(loops, code, start, v, x, 0);
    }
  }

  lemma {:induction false} AddedAtZero(loops: seq<Loop>, code: seq<Instr>, start: seq<int>, x: nat, k: nat)
    requires InMemory(loops, code) && Fits(code, |start|) && k < |loops|
    requires forall j :: 0 <= j <= |loops| ==> P(loops, j) > 0
    ensures AddedByStep(loops, code, start, 0, x, k) == 0
    decreases |loops| - k
  {
    if k + 1 < |loops| {
      AddedAtZero(loops, code, start, x, k + 1);
    }
  }

  lemma {:induction false} NoMoves(code: seq<Instr>, first: nat, count: nat, x: nat)
    requires first + count <= |code| && OnlyAdds(code)
    ensures !Moves(code, first, count, x)
    decreases count
  {
    if count > 0 {
      NoMoves(code, first + 1, count - 1, x);
    }
  }

  lemma AllPositive(loops: seq<Loop>)
    requires WellFormed(loops)
    ensures forall j :: 0 <= j <= |loops| ==> P(loops, j) > 0
  {
    forall j | 0 <= j <= |loops|
      ensures P(loops, j) > 0
    {
      ProductsPositive(loops, j);
    }
  }

  /** Each of the register files rs, in turn, is the closed form of its linear step. */
  ghost predicate StepwiseClosedForm(loops: seq<Loop>, code: seq<Instr>, start: seq<int>, rs: seq<seq<int>>)
    requires InMemory(loops, code) && Fits(code, |start|)
    requires forall j :: 0 <= j <= |loops| ==> P(loops, j) > 0
  {
    |rs| == P(loops, |loops|)
    && forall v :: 0 <= v < |rs| ==>
         |rs[v]| == |start|
         && forall x :: 0 <= x < |start| ==> rs[v][x] == start[x] + AddedByStep(loops, code, start, v, x, 0)
  }

  /** Registers in closed form: for code that only adds constant sources, the v-th visited
      tuple finds in each register its start value plus, for each loop, the loop's stride
      times the number of its iterations among the first v. */
  lemma {:induction false} RegistersInClosedForm(loops: seq<Loop>, code: seq<Instr>, start: seq<int>)
    requires InMemory(loops, code) && Fits(code, |start|) && ConstantSources(code) && OnlyAdds(code)
    ensures forall j :: 0 <= j <= |loops| ==> P(loops, j) > 0
    ensures var events := NestEvents(loops, |loops|, []);
            InCode(events, code) && StepwiseClosedForm(loops, code, start, RegistersAtVisits(events, code, start))
  {
    AllPositive(loops);
    RegistersByStep(loops, code, start);
    var rs := RegistersAtVisits(NestEvents(loops, |loops|, []), code, start);
    forall v, x | 0 <= v < |rs| && 0 <= x < |start|
      ensures rs[v][x] == start[x] + AddedByStep(loops, code, start, v, x, 0)
    {
      forall u | 0 < u <= v
        ensures !LoopMoves(loops, code, Carried(loops, u, 0), x)
      {
        var l := loops[Carried(loops, u, 0)];
        NoMoves(code, l.ucodeAddr, l.nbOps, x);
      }
      SinceMove(loops, code, start, 0, v, x);
      AddedAtZero(loops, code, start, x, 0);
    }
  }

  /** Step u > 0 is an iteration of loop j. */
  predicate Iterates(loops: seq<Loop>, u: nat, j: nat)
    requires j < |loops| && P(loops, j) > 0 && P(loops, j + 1) > 0
  {
    u % P(loops, j) == 0 && u % P(loops, j + 1) != 0
  }

  /** The loop that goes on at a step is the one whose product of lower ranges divides the step,
      while that with its own range does not. */
  lemma {:induction false} CarriedIterates(loops: seq<Loop>, u: nat, j: nat, k: nat)
    requires WellFormed(loops) && 0 < u < P(loops, |loops|) && k <= j < |loops|
    requires forall m :: 0 <= m <= |loops| ==> P(loops, m) > 0
    requires u % P(loops, k) == 0
    ensures Carried(loops, u, k) == j <==> Iterates(loops, u, j)
    decreases |loops| - k
  {
    if k + 1 == |loops| {
      ModUnique(u, P(loops, k + 1), 0, u);
    } else if u % P(loops, k + 1) == 0 {
      if k < j {
        CarriedIterates(loops, u, j, k + 1);
      }
    } else if k < j && u % P(loops, j) == 0 {
      DividesBelow(loops, u, k + 1, j);
    }
  }

  lemma {:induction false} DividesBelow(loops: seq<Loop>, u: nat, k: nat, j: nat)
    requires WellFormed(loops) && k <= j <= |loops|
    requires forall m :: 0 <= m <= |loops| ==> P(loops, m) > 0
    requires u % P(loops, j) == 0
    ensures u % P(loops, k) == 0
    decreases j - k
  {
    if k < j {
      TimesIsProduct(loops[j - 1].range, P(loops, j - 1));
      DividesDown(u, P(loops, j - 1), loops[j - 1].range);
      DividesBelow(loops, u, k, j - 1);
    }
  }

  /** Register x of the register files rs, in closed form between moves. */
  ghost predicate ClosedBetweenMoves(loops: seq<Loop>, code: seq<Instr>, start: seq<int>, rs: seq<seq<int>>, x: nat)
    requires InMemory(loops, code) && Fits(code, |start|) && x < |start|
    requires forall j :: 0 <= j <= |loops| ==> P(loops, j) > 0
    requires forall v :: 0 <= v < |rs| ==> |rs[v]| == |start|
  {
    && |rs| == P(loops, |loops|) && rs[0][x] == start[x]
    && (forall u, j :: 0 < u < |rs| && 0 <= j < |loops| && Iterates(loops, u, j) && LoopMoves(loops, code, j, x) ==>
          rs[u][x] == LoopMovedTo(loops, code, start, j, x))
    && (forall w, v :: 0 <= w <= v < |rs| && NoMove(loops, code, w, v, x) ==>
          rs[v][x] == rs[w][x] + AddedByStep(loops, code, start, v, x, 0)
                      - AddedByStep(loops, code, start, w, x, 0))
  }

  lemma {:induction false} StepwiseIsClosed(loops: seq<Loop>, code: seq<Instr>, start: seq<int>, rs: seq<seq<int>>,
          x: nat)
    requires InMemory(loops, code) && Fits(code, |start|) && x < |start|
    requires forall j :: 0 <= j <= |loops| ==> P(loops, j) > 0
    requires Stepwise(loops, code, start, rs)
    ensures ClosedBetweenMoves(loops, code, start, rs, x)
  {
    forall u, j | 0 < u < |rs| && 0 <= j < |loops| && Iterates(loops, u, j) && LoopMoves(loops, code, j, x)
      ensures rs[u][x] == LoopMovedTo(loops, code, start, j, x)
    {
      CarriedIterates(loops, u, j, 0);
    }
    forall w, v | 0 <= w <= v < |rs| && NoMove(loops, code, w, v, x)
      ensures rs[v][x] == rs[w][x] + AddedByStep(loops, code, start, v, x, 0)
                          - AddedByStep(loops, code, start, w, x, 0)
    {
      SinceMove(loops, code, start, w, v, x);
    }
  }

  /** With moves: for code that adds and moves constant sources, a step that iterates a loop whose
      block moves to a register leaves there the source of its last move and what is added behind
      it; between such steps the register grows as in the closed form without moves. */
  lemma {:induction false} RegistersBetweenMoves(loops: seq<Loop>, code: seq<Instr>, start: seq<int>, x: nat)
    requires InMemory(loops, code) && Fits(code, |start|) && ConstantSources(code) && x < |start|
    ensures forall j :: 0 <= j <= |loops| ==> P(loops, j) > 0
    ensures var events := NestEvents(loops, |loops|, []); InCode(events, code)
    ensures var rs := RegistersAtVisits(NestEvents(loops, |loops|, []), code, start);
            (forall v :: 0 <= v < |rs| ==> |rs[v]| == |start|) && ClosedBetweenMoves(loops, code, start, rs, x)
  {
    AllPositive(loops);
    RegistersByStep(loops, code, start);
    StepwiseIsClosed(loops, code, start, RegistersAtVisits(NestEvents(loops, |loops|, []), code, start), x);
  }

  lemma EndAddsNothing(events: seq<Event>, code: seq<Instr>, registers: seq<int>)
    requires InCode(events, code) && Fits(code, |registers|)
    ensures InCode(events + [End], code)
    ensures RegistersAtVisits(events + [End], code, registers) == RegistersAtVisits(events, code, registers)
  {
    ExecutedAppend(events, [End], code, registers);
    assert [End][1..] == [];
  }

  /** The same, in terms of what the machine itself executes until it ends. */
  lemma {:induction false} MachineComputesClosedForm(loops: seq<Loop>, code: seq<Instr>, start: seq<int>)
    returns (k: nat)
    requires InMemory(loops, code) && Fits(code, |start|) && ConstantSources(code) && OnlyAdds(code)
    ensures forall j :: 0 <= j <= |loops| ==> P(loops, j) > 0
    ensures var trace := Trace(loops, At(loops, 0, ZeroIdx(|loops|)), k);
            && trace != [] && trace[|trace| - 1] == End
            && InCode(trace, code) && StepwiseClosedForm(loops, code, start, RegistersAtVisits(trace, code, start))
  {
    k := MachineRunsNest(loops);
    RegistersInClosedForm(loops, code, start);
    EndAddsNothing(NestEvents(loops, |loops|, []), code, start);
  }

  /** And with moves. */
  lemma {:induction false} MachineComputesMoves(loops: seq<Loop>, code: seq<Instr>, start: seq<int>, x: nat)
    returns (k: nat)
    requires InMemory(loops, code) && Fits(code, |start|) && ConstantSources(code) && x < |start|
    ensures forall j :: 0 <= j <= |loops| ==> P(loops, j) > 0
    ensures var trace := Trace(loops, At(loops, 0, ZeroIdx(|loops|)), k);
            trace != [] && trace[|trace| - 1] == End && InCode(trace, code)
    ensures var rs := RegistersAtVisits(Trace(loops, At(loops, 0, ZeroIdx(|loops|)), k), code, start);
            (forall v :: 0 <= v < |rs| ==> |rs[v]| == |start|) && ClosedBetweenMoves(loops, code, start, rs, x)
  {
    k := MachineRunsNest(loops);
    RegistersBetweenMoves(loops, code, start, x);
    EndAddsNothing(NestEvents(loops, |loops|, []), code, start);
  }
}
