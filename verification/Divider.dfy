/** The serial divider riscv_alu_div: one clocked object, its step function, and the
    loop invariant of the shift-and-subtract algorithm on same-sign operands. */
module Divider {
  import opened Arith
  import opened Bits

  datatype Fsm = IDLE | DIVIDE | FINISH

  /** A value of the 6-bit counter. */
  type Count = n: nat | n < 64

  datatype Regs = Regs(fsm: Fsm, areg: Word, breg: Word, res: Word, cnt: Count,
                       remSel: bool, compInv: bool, resInv: bool)

  /** The input ports; signedOp and remOp are bits 0 and 1 of OpCode_SI. */
  datatype In = In(opA: Word, opB: Word, opBShift: Count, opBIsZero: bool, opBSign: bool,
                   signedOp: bool, remOp: bool, inVld: bool, outRdy: bool)

  predicate Msb(x: Word) {
    x >= 0x8000_0000
  }

  function Neg(x: Word): Word {
    if x == 0 then 0 else WORDS - x
  }

  function Sub(x: Word, y: Word): Word {
    if x >= y then x - y else x - y + WORDS
  }

  /** The shifted-out divisor register, refilled with the sign of the divisor. */
  function HalveB(s: Regs): Word {
    s.breg / 2 + if s.compInv then 0x8000_0000 else 0
  }

  /** ABComp_S: one unsigned comparator, inverted for negative divisors. */
  predicate Comp(s: Regs, opBIsZero: bool) {
    (s.areg == s.breg || ((s.areg > s.breg) != s.compInv)) && (s.areg != 0 || opBIsZero)
  }

  /** The result register after one more comparison: it shifts down from the top. */
  function Push(res: Word, c: bool): Word {
    res / 2 + if c then 0x8000_0000 else 0
  }

  predicate OppositeSigns(i: In) {
    i.signedOp && Msb(i.opA) != i.opBSign
  }

  predicate OutVld(s: Regs, i: In) {
    s.fsm.FINISH? || (s.fsm.IDLE? && !i.inVld)
  }

  function Next(s: Regs, i: In): Regs {
    var cnt := if s.cnt == 0 then 0 else s.cnt - 1;
    match s.fsm
    case IDLE =>
      if i.inVld then
        Regs(DIVIDE, if OppositeSigns(i) then Neg(i.opA) else i.opA, i.opB, 0, i.opBShift,
             i.remOp, i.opBSign, (!i.opBIsZero || i.remOp) && OppositeSigns(i))
      else
        s.(cnt := cnt)
    case DIVIDE =>
      var c := Comp(s, i.opBIsZero);
      s.(fsm := if s.cnt == 0 then FINISH else DIVIDE,
      areg := if c then Sub(s.areg, s.breg) else s.areg,
      breg := HalveB(s),
      res := Push(s.res, c),
      cnt := cnt)
    case FINISH =>
      s.(fsm := if i.outRdy then IDLE else FINISH, cnt := cnt)
  }

  /** The result port when the quotient is taken to be `quot`. */
  function Output(s: Regs, quot: Word): Word {
    var out := if s.remSel then s.areg else quot;
    if s.resInv then Neg(out) else out
  }

  /** The quotient the shift direction calls for: bit i is bit 31 - i of the register. */
  function Quotient(s: Regs): Word {
    Val32(Reverse(FromNat(s.res, 32)))
  }

  /** Bit i is bit 32 - i of the register: bit 0 is read out of range, so its value is an input. */
  function ReverseAsWritten(res: Bits32, undefinedBit: bool): (r: Bits32) {
    seq(32, i requires 0 <= i < 32 => if i == 0 then undefinedBit else res[32 - i])
  }

  function QuotientAsWritten(res: Word, undefinedBit: bool): Word {
    Val32(ReverseAsWritten(FromNat(res, 32), undefinedBit))
  }

  class RiscvAluDiv {
    var stateSP: Fsm
    var aRegDP: Word
    var bRegDP: Word
    var resRegDP: Word
    var cntDP: Count
    var remSelSP: bool
    var compInvSP: bool
    var resInvSP: bool

    ghost function State(): Regs
      reads this
    {
      Regs(stateSP, aRegDP, bRegDP, resRegDP, cntDP, remSelSP, compInvSP, resInvSP)
    }

    /** Asynchronous reset. */
    constructor ()
      ensures State() == Regs(IDLE, 0, 0, 0, 0, false, false, false)
    {
      stateSP, aRegDP, bRegDP, resRegDP, cntDP := IDLE, 0, 0, 0, 0;
      remSelSP, compInvSP, resInvSP := false, false, false;
    }

    /** One clock cycle: the output ports before the edge, and the registers after it. */
    method Tick(i: In, undefinedBit: bool) returns (outVld: bool, res: Word)
      modifies this
      ensures State() == Next(old(State()), i)
      ensures outVld == OutVld(old(State()), i)
      ensures res == Output(old(State()), QuotientAsWritten(old(resRegDP), undefinedBit))
    {
      outVld := stateSP == FINISH || (stateSP == IDLE && !i.inVld);
      var outMux := if remSelSP then aRegDP else QuotientAsWritten(resRegDP, undefinedBit);
      res := if resInvSP then Neg(outMux) else outMux;
      match stateSP {
        case IDLE =>
          if i.inVld {
            Load(i);
          } else {
            CountDown();
          }
        case DIVIDE =>
          Subtract(i);
        case FINISH =>
          CountDown();
          if i.outRdy {
            stateSP := IDLE;
          }
      }
    }

    /** The registers when LoadEn_S is set. */
    method Load(i: In)
      requires stateSP == IDLE && i.inVld
      modifies this
      ensures State() == Next(old(State()), i)
    {
      var opposite := i.signedOp && Msb(i.opA) != i.opBSign;
      stateSP := DIVIDE;
      aRegDP := if opposite then Neg(i.opA) else i.opA;
      bRegDP, resRegDP, cntDP := i.opB, 0, i.opBShift;
      remSelSP, compInvSP, resInvSP := i.remOp, i.opBSign, (!i.opBIsZero || i.remOp) && opposite;
    }

    /** The registers in the DIVIDE state. */
    method Subtract(i: In)
      requires stateSP == DIVIDE
      modifies this
      ensures State() == Next(old(State()), i)
    {
      var abComp := (aRegDP == bRegDP || ((aRegDP > bRegDP) != compInvSP)) && (aRegDP != 0 || i.opBIsZero);
      aRegDP := if abComp then Sub(aRegDP, bRegDP) else aRegDP;
      bRegDP := bRegDP / 2 + if compInvSP then 0x8000_0000 else 0;
      resRegDP := Push(resRegDP, abComp);
      stateSP := if cntDP == 0 then FINISH else DIVIDE;
      CountDown();
    }

    /** Outside a load, the counter runs down to zero in every state. */
    method CountDown()
      modifies this`cntDP
      ensures cntDP == if old(cntDP) == 0 then 0 else old(cntDP) - 1
    {
      if cntDP != 0 {
        cntDP := cntDP - 1;
      }
    }
  }

  /** The registers after one cycle for each element of ins. */
  function Run(s: Regs, ins: seq<In>): Regs
    decreases |ins|
  {
    if ins == [] then s else Run(Next(s, ins[0]), ins[1..])
  }

  // ----- the loop invariant, on magnitudes -----

  /** A magnitude x as it is held in the register: negated when the divisor is negative. */
  function Encode(neg: bool, x: Word): Word {
    if neg then Neg(x) else x
  }

  /** At a DIVIDE state, n == Times(q, 2 * cur) + r: r is the partial remainder, cur the
      divisor shifted left by the counter, q the quotient bits found so far. */
  ghost predicate LoopInvariant(s: Regs, n: Word, cur: Word, q: nat, r: Word) {
    && s.fsm.DIVIDE?
    && cur > 0
    && n == Times(q, 2 * cur) + r
    && r < 2 * cur
    && (s.compInv ==> n <= 0x8000_0000 && cur <= 0x8000_0000)
    && s.areg == Encode(s.compInv, r)
    && s.breg == Encode(s.compInv, cur)
    && Quotient(s) == q
  }

  /** The inverted unsigned comparison on negated magnitudes is the comparison of magnitudes. */
  lemma CompComparesMagnitudes(s: Regs, cur: Word, r: Word, isZero: bool)
    requires cur > 0 && !isZero
    requires s.compInv ==> cur <= 0x8000_0000
    requires s.areg == Encode(s.compInv, r) && s.breg == Encode(s.compInv, cur)
    ensures Comp(s, isZero) <==> r >= cur
    ensures r >= cur ==> Sub(s.areg, s.breg) == Encode(s.compInv, r - cur)
  {
  }

  lemma HalfOfSum(y: nat, h: nat, c: bool)
    ensures var x := y + if c then 2 * h else 0;
            x / 2 == y / 2 + (if c then h else 0) && x % 2 == y % 2
  {
  }

  lemma {:induction false} TopBitAppends(y: nat, c: bool, w: nat)
    requires y < Pow2(w)
    ensures FromNat(y + if c then Pow2(w) else 0, w + 1) == FromNat(y, w) + [c]
  {
    if w > 0 {
      HalfOfSum(y, Pow2(w - 1), c);
      TopBitAppends(y / 2, c, w - 1);
      var x := y + if c then Pow2(w) else 0;
      assert FromNat(x, w + 1) == [x % 2 == 1] + FromNat(x / 2, w);
    }
  }

  /** Pushing a bit at the top of a register appends it below the reversed contents. */
  lemma PushAppends(x: nat, c: bool, w: nat)
    requires x < Pow2(w + 1)
    ensures Reverse(FromNat(x / 2 + if c then Pow2(w) else 0, w + 1)) == [c] + Reverse(FromNat(x, w + 1))[..w]
  {
    TopBitAppends(x / 2, c, w);
    ReverseAppend(FromNat(x / 2, w), c);
    ReverseCons(x % 2 == 1, FromNat(x / 2, w));
  }

  lemma ReverseAppend(b: BitVec, c: bool)
    ensures Reverse(b + [c]) == [c] + Reverse(b)
  {
  }

  lemma ReverseCons(c: bool, b: BitVec)
    ensures Reverse([c] + b)[..|b|] == Reverse(b)
  {
  }

  lemma ValTop(b: BitVec, c: bool)
    requires |b| > 0
    ensures Val([c] + b[..|b| - 1]) == Bit(c) + 2 * Val(b[..|b| - 1])
    ensures Val(b) == Val(b[..|b| - 1]) + Pow2(|b| - 1) * Bit(b[|b| - 1])
  {
    var low := b[..|b| - 1];
    assert ([c] + low)[1..] == low;
    assert b == low + [b[|b| - 1]];
    ValAppend(low, [b[|b| - 1]]);
    assert Val([b[|b| - 1]]) == Bit(b[|b| - 1]);
  }

  lemma PushDoubles(s: Regs, c: bool, s': Regs)
    requires s'.res == Push(s.res, c) && Quotient(s) < 0x8000_0000
    ensures Quotient(s') == 2 * Quotient(s) + Bit(c)
  {
    Pow2Of32();
    PushAppends(s.res, c, 31);
    ValTop(Reverse(FromNat(s.res, 32)), c);
  }

  lemma QuotientSmall(n: Word, cur: Word, q: nat, r: Word)
    requires cur > 0 && n == Times(q, 2 * cur) + r
    ensures q < 0x8000_0000
  {
    TimesIsProduct(q, 2 * cur);
    MulAtLeast(2 * q, cur);
  }

  /** One DIVIDE cycle: the invariant moves to the next lower quotient bit. */
  lemma DivideCycle(s: Regs, i: In, n: Word, cur: Word, q: nat, r: Word, c: bool)
    requires LoopInvariant(s, n, cur, q, r) && !i.opBIsZero && c == (r >= cur)
    ensures var s' := Next(s, i); var r' := if c then r - cur else r;
            && s'.areg == Encode(s.compInv, r')
            && Quotient(s') == 2 * q + Bit(c)
            && n == Times(2 * q + Bit(c), cur) + r' && r' < cur
            && (cur % 2 == 0 ==> s'.breg == Encode(s.compInv, cur / 2))
  {
    CompComparesMagnitudes(s, cur, r, i.opBIsZero);
    QuotientSmall(n, cur, q, r);
    PushDoubles(s, c, Next(s, i));
    NextEquation(n, cur, q, r, c);
  }

  lemma NextEquation(n: nat, cur: nat, q: nat, r: nat, c: bool)
    requires n == Times(q, 2 * cur) + r && (c ==> r >= cur)
    ensures n == Times(2 * q + Bit(c), cur) + if c then r - cur else r
  {
    TimesIsProduct(q, 2 * cur);
    TimesIsProduct(2 * q + Bit(c), cur);
  }

  /** The registers hold quotient and remainder of n by d. */
  ghost predicate Divided(s: Regs, n: Word, d: nat) {
    && n == Times(Quotient(s), d) + Encode(s.compInv, s.areg)
    && Encode(s.compInv, s.areg) < d
  }

  predicate SameFlags(s: Regs, s': Regs) {
    s'.compInv == s.compInv && s'.remSel == s.remSel && s'.resInv == s.resInv
  }

  /** A cycle that is not the last one re-establishes the invariant. */
  lemma InnerCycle(s: Regs, i: In, n: Word, d: nat, cur: Word, q: nat, r: Word) returns (q': nat, r': Word)
    requires LoopInvariant(s, n, cur, q, r) && !i.opBIsZero && s.cnt > 0 && cur == Shl(d, s.cnt)
    ensures var s' := Next(s, i);
            && SameFlags(s, s') && s'.cnt == s.cnt - 1 && cur / 2 == Shl(d, s'.cnt)
            && LoopInvariant(s', n, cur / 2, q', r')
  {
    var c := r >= cur;
    q', r' := 2 * q + Bit(c), if c then r - cur else r;
    assert cur == 2 * Shl(d, s.cnt - 1);
    DivideCycle(s, i, n, cur, q, r, c);
  }

  lemma LastCycle(s: Regs, i: In, n: Word, d: nat, cur: Word, q: nat, r: Word)
    requires LoopInvariant(s, n, cur, q, r) && !i.opBIsZero && s.cnt == 0 && cur == d
    ensures var s' := Next(s, i); s'.fsm.FINISH? && SameFlags(s, s') && Divided(s', n, d)
  {
    DivideCycle(s, i, n, cur, q, r, r >= cur);
  }

  /** The remaining cycles leave quotient and remainder of n by d in the registers. */
  lemma {:induction false} DivideRun(s: Regs, ins: seq<In>, n: Word, d: nat, cur: Word, q: nat, r: Word)
    requires LoopInvariant(s, n, cur, q, r)
    requires |ins| == s.cnt + 1 && cur == Shl(d, s.cnt)
    requires forall i :: i in ins ==> !i.opBIsZero
    ensures Run(s, ins).fsm.FINISH? && SameFlags(s, Run(s, ins)) && Divided(Run(s, ins), n, d)
    decreases s.cnt
  {
    assert ins[0] in ins;
    if s.cnt == 0 {
      LastCycle(s, ins[0], n, d, cur, q, r);
      assert Run(Next(s, ins[0]), ins[1..]) == Next(s, ins[0]);
    } else {
      var q', r' := InnerCycle(s, ins[0], n, d, cur, q, r);
      DivideRun(Next(s, ins[0]), ins[1..], n, d, cur / 2, q', r');
    }
  }

  /** Until then, whatever the inputs, it stays in DIVIDE: exactly cnt + 1 cycles. */
  lemma {:induction false} StaysInDivide(s: Regs, ins: seq<In>)
    requires s.fsm.DIVIDE?
    ensures |ins| <= s.cnt ==> Run(s, ins).fsm.DIVIDE?
    ensures |ins| == s.cnt + 1 ==> Run(s, ins).fsm.FINISH?
    decreases |ins|
  {
    if ins != [] {
      if s.cnt > 0 {
        StaysInDivide(Next(s, ins[0]), ins[1..]);
      }
    }
  }

  // ----- division by zero -----

  /** With a zero divisor every comparison succeeds: the register fills with ones
      from the top and the dividend stays. */
  lemma {:induction false} ZeroDivisorRun(s: Regs, ins: seq<In>)
    requires s.fsm.DIVIDE? && s.breg == 0 && !s.compInv
    requires |ins| == s.cnt + 1 && WORDS - 1 - s.res < Pow2(s.cnt + 1)
    requires forall i :: i in ins ==> i.opBIsZero
    ensures var e := Run(s, ins);
            e.fsm.FINISH? && SameFlags(s, e) && e.areg == s.areg && Quotient(e) == WORDS - 1
    decreases s.cnt
  {
    var s' := Next(s, ins[0]);
    assert ins[0] in ins;
    assert WORDS - 1 - s'.res == (WORDS - 1 - s.res) / 2;
    if s.cnt == 0 {
      assert Pow2(1) == 2;
      assert Run(s', ins[1..]) == s';
      AllOnes(s');
    } else {
      ZeroDivisorRun(s', ins[1..]);
    }
  }

  lemma OnesReversed(w: nat)
    ensures Val(Reverse(FromNat(Pow2(w) - 1, w))) == Pow2(w) - 1
  {
    var ones := Not(Zeros(w));
    ValNot(Zeros(w));
    ValZeros(w);
    FromNatVal(ones);
    assert Reverse(ones) == ones;
  }

  lemma AllOnes(s: Regs)
    requires s.res == WORDS - 1
    ensures Quotient(s) == WORDS - 1
  {
    Pow2Of32();
    OnesReversed(32);
  }

  // ----- whole divisions -----

  /** The ports at a load: the divisor d is shifted by opBShift and n, the magnitude of
      the dividend, is less than twice the shifted divisor. */
  ghost predicate NormalisedPorts(i: In, n: Word, d: Word) {
    var cur := Shl(d, i.opBShift);
    && !i.opBIsZero && (i.opBSign ==> i.signedOp)
    && 0 < cur < WORDS && (i.opBSign ==> cur <= 0x8000_0000)
    && i.opB == Encode(i.opBSign, cur)
    && n == (if i.signedOp && Msb(i.opA) then Neg(i.opA) else i.opA)
    && n < 2 * cur
  }

  lemma ZeroReversed(w: nat)
    ensures Val(Reverse(FromNat(0, w))) == 0
  {
    ValZeros(w);
    FromNatVal(Zeros(w));
    assert Reverse(Zeros(w)) == Zeros(w);
  }

  lemma ZeroQuotient(s: Regs)
    requires s.res == 0
    ensures Quotient(s) == 0
  {
    ZeroReversed(32);
  }

  /** A load establishes the loop invariant, with the whole dividend still to be divided. */
  lemma LoadEstablishesInvariant(idle: Regs, i: In, n: Word, d: Word)
    requires idle.fsm.IDLE? && i.inVld && NormalisedPorts(i, n, d)
    ensures LoopInvariant(Next(idle, i), n, Shl(d, i.opBShift), 0, n)
  {
    ZeroQuotient(Next(idle, i));
  }

  /** A division by a normalised divisor. */
  lemma DivideAll(idle: Regs, ins: seq<In>, n: Word, d: Word)
    requires idle.fsm.IDLE? && ins != [] && ins[0].inVld && NormalisedPorts(ins[0], n, d)
    requires |ins| == ins[0].opBShift + 2 && forall i :: i in ins ==> !i.opBIsZero
    ensures var e, i := Run(idle, ins), ins[0];
            && e.fsm.FINISH? && e.compInv == i.opBSign && e.remSel == i.remOp && e.resInv == OppositeSigns(i)
            && Divided(e, n, d)
  {
    LoadEstablishesInvariant(idle, ins[0], n, d);
    DivideRun(Next(idle, ins[0]), ins[1..], n, d, Shl(d, ins[0].opBShift), 0, n);
  }

  /** A division by zero: the quotient is all ones, the remainder is the dividend. */
  lemma DivideAllByZero(idle: Regs, ins: seq<In>)
    requires idle.fsm.IDLE? && ins != [] && ins[0].inVld
    requires ins[0].opBShift == 32 && ins[0].opB == 0 && !ins[0].opBSign
    requires |ins| == ins[0].opBShift + 2 && forall i :: i in ins ==> i.opBIsZero
    ensures var e, i := Run(idle, ins), ins[0];
            && e.fsm.FINISH? && e.remSel == i.remOp && Quotient(e) == WORDS - 1
            && Output(e, Quotient(e)) == if i.remOp then i.opA else WORDS - 1
  {
    Pow2Of32();
    assert Pow2(33) == 2 * Pow2(32);
    ZeroDivisorRun(Next(idle, ins[0]), ins[1..]);
  }

  // ----- the reversal as written -----

  lemma WrittenBits(bits: Bits32, undefinedBit: bool)
    ensures ReverseAsWritten(bits, undefinedBit) == [undefinedBit] + Reverse(bits)[..31]
  {
  }

  /** Line 90 yields the quotient shifted left by one place, its bit 0 undefined. */
  lemma AsWrittenIsShifted(s: Regs, undefinedBit: bool)
    ensures QuotientAsWritten(s.res, undefinedBit) == (2 * Quotient(s)) % WORDS + Bit(undefinedBit)
  {
    Pow2Of32();
    var bits := FromNat(s.res, 32);
    WrittenBits(bits, undefinedBit);
    ValTop(Reverse(bits), undefinedBit);
    ValBound(Reverse(bits)[..31]);
  }

  /** So the written quotient is the right one only for 0 and for all ones. */
  lemma AsWrittenCorrectIff(s: Regs, undefinedBit: bool)
    ensures QuotientAsWritten(s.res, undefinedBit) == Quotient(s)
            <==> Quotient(s) == if undefinedBit then WORDS - 1 else 0
  {
    AsWrittenIsShifted(s, undefinedBit);
  }
}
