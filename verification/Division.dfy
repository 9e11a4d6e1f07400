/** How riscv_alu uses the divider: it normalises the divisor with its bit-counting and
    shift circuits, and the pair computes the divisions of the RISC-V M extension. */
module Division {
  import opened Arith
  import opened Bits
  import opened LeadingOne
  import opened Divider

  /** operator_i[1:0] of the four division operators. */
  datatype Op = DIVU | DIV | REMU | REM {
    predicate Signed() {
      DIV? || REM?
    }

    predicate Remainder() {
      REMU? || REM?
    }
  }

  // ----- the normalisation circuit; operand a is the divisor -----

  /** div_op_a_signed: the divisor is negative. */
  predicate Negative(op: Op, a: Bits32) {
    op.Signed() && a[31]
  }

  function FfInput(op: Op, a: Bits32): (r: BitVec)
    ensures |r| == 32
  {
    if Negative(op, a) then Reverse(Not(a)) else Reverse(a)
  }

  /** clb_result, a 6-bit difference that wraps when the top bit is the first one. */
  function ClbResult(op: Op, a: Bits32): int {
    (FirstOne(FfInput(op, a)) - 1) % 64
  }

  function DivShift(op: Op, a: Bits32): Count {
    var shiftInt := if NoOnes(FfInput(op, a)) then 31 else ClbResult(op, a);
    (shiftInt + if Negative(op, a) then 0 else 1) % 64
  }

  /** The shifter looks at the low five bits of the amount only. */
  function ShiftedDivisor(op: Op, a: Bits32): Bits32 {
    ShiftLeft(a, DivShift(op, a) % 32)
  }

  /** What the ALU drives into the divider: operands a and b are swapped. */
  function Drive(op: Op, a: Bits32, b: Bits32, inVld: bool, outRdy: bool): In {
    In(Val32(b), Val32(ShiftedDivisor(op, a)), DivShift(op, a), Popcnt(a) == 0, Negative(op, a),
       op.Signed(), op.Remainder(), inVld, outRdy)
  }

  /** The magnitude of an operand, read as signed or unsigned as the operator says. */
  function Magnitude(op: Op, b: Bits32): Word {
    if Negative(op, b) then Neg(Val32(b)) else Val32(b)
  }

  lemma SignBit(b: Bits32)
    ensures b[31] <==> Val32(b) >= 0x8000_0000
  {
    Pow2Of32();
    SplitValue(b, 31);
    ValBound(b[..31]);
    assert b[31..] == [b[31]];
    assert Val([b[31]]) == Bit(b[31]);
  }

  /** The leading-one tree finds the top bit of a word. */
  lemma TopBitOf(b: Bits32)
    ensures NoOnes(Reverse(b)) <==> Val32(b) == 0
    ensures !NoOnes(Reverse(b)) ==> var f := FirstOne(Reverse(b));
                                    f <= 31 && b[31 - f] && Pow2(31 - f) <= Val32(b) < Pow2(32 - f)
  {
    var rev := Reverse(b);
    FirstOneIsLeast(rev);
    if NoOnes(rev) {
      forall j | 0 <= j < 32
        ensures !b[j]
      {
        assert !rev[31 - j];
      }
      AllClear(b);
    } else {
      var f := FirstOne(rev);
      forall j | 31 - f < j < 32
        ensures !b[j]
      {
        assert !rev[31 - j];
      }
      TopBit(b, 31 - f);
    }
  }

  lemma ScaledBounds(v: nat, s: nat, lo: nat, hi: nat)
    requires Pow2(lo) <= v <= Pow2(hi)
    ensures Pow2(lo + s) <= v * Pow2(s) <= Pow2(hi + s)
    ensures v < Pow2(hi) ==> v * Pow2(s) < Pow2(hi + s)
    ensures v > Pow2(lo) ==> v * Pow2(s) > Pow2(lo + s)
  {
    Pow2Add(lo, s);
    Pow2Add(hi, s);
    Scale(Pow2(lo), v, Pow2(s));
    Scale(v, Pow2(hi), Pow2(s));
  }

  lemma Scale(x: nat, y: nat, p: nat)
    requires x <= y && p > 0
    ensures x * p <= y * p
    ensures x < y ==> x * p < y * p
  {
    if x < y {
      MulAtLeast(p, y - x);
      assert p * (y - x) == y * p - x * p;
    }
  }

  /** Shifting out the leading zeros of v. */
  lemma ShiftNonNegative(a: Bits32, f: nat)
    requires f <= 31 && Pow2(31 - f) <= Val32(a) < Pow2(32 - f)
    ensures Val32(ShiftLeft(a, f)) == Shl(Val32(a), f)
    ensures 0x8000_0000 <= Shl(Val32(a), f) < WORDS
  {
    ShlIsProduct(Val32(a), f);
    Pow2Of32();
    ScaledBounds(Val32(a), f, 31 - f, 32 - f);
    ShiftLeftMultiplies(a, f);
    Commute(Pow2(f), Val32(a));
    ModUnique(Val32(a) * Pow2(f), WORDS, 0, Val32(a) * Pow2(f));
  }

  /** Shifting out all but one of the leading ones of a negative number of magnitude d. */
  lemma ShiftNegative(a: Bits32, s: nat, d: nat)
    requires s <= 31 && Val32(a) + d == WORDS && 0x4000_0000 < Shl(d, s) <= 0x8000_0000
    ensures Val32(ShiftLeft(a, s)) == WORDS - Shl(d, s)
  {
    ShlIsProduct(d, s);
    Pow2Of32();
    ShiftLeftMultiplies(a, s);
    NegatedProduct(Pow2(s), Val32(a), d);
  }

  lemma NegatedProduct(p: nat, v: nat, d: nat)
    requires v + d == WORDS && 0 < d * p <= 0x8000_0000
    ensures (p * v) % WORDS == WORDS - d * p
  {
    assert p * v == WORDS * (p - 1) + (WORDS - d * p);
    ModUnique(p * v, WORDS, p - 1, WORDS - d * p);
  }

  lemma NegativeBounds(d: nat, f: nat)
    requires 1 <= f <= 31 && Pow2(31 - f) < d <= Pow2(32 - f)
    ensures 0x4000_0000 < Shl(d, f - 1) <= 0x8000_0000
  {
    ShlIsProduct(d, f - 1);
    Pow2Of32();
    ScaledBounds(d, f - 1, 31 - f, 32 - f);
  }

  lemma {:induction false} NormaliseNonNegative(op: Op, a: Bits32)
    requires !Negative(op, a) && Val32(a) > 0
    ensures var s := DivShift(op, a);
            s <= 31 && Pow2(31 - s) <= Val32(a) < Pow2(32 - s)
  {
    TopBitOf(a);
    ShiftIsFirstOne(op, a);
  }

  lemma ShiftIsFirstOne(op: Op, a: Bits32)
    requires !Negative(op, a) && !NoOnes(Reverse(a)) && FirstOne(Reverse(a)) <= 31
    ensures DivShift(op, a) == FirstOne(Reverse(a))
  {
  }

  /** The complement of a negative number does not begin with a one. */
  lemma LeadIsLater(a: Bits32)
    requires a[31] && !NoOnes(Reverse(Not(a)))
    ensures FirstOne(Reverse(Not(a))) > 0
  {
    assert !Reverse(Not(a))[0];
    FirstOneIsLeast(Reverse(Not(a)));
  }

  lemma NegativeShift(op: Op, a: Bits32)
    requires Negative(op, a)
    ensures var lead := Reverse(Not(a));
            if NoOnes(lead) then DivShift(op, a) == 31
            else FirstOne(lead) <= 31 ==> FirstOne(lead) > 0 && DivShift(op, a) == FirstOne(lead) - 1
  {
    var lead := Reverse(Not(a));
    assert FfInput(op, a) == lead;
    if !NoOnes(lead) {
      LeadIsLater(a);
      if FirstOne(lead) <= 31 {
        SmallShift(FirstOne(lead) - 1);
      }
    }
  }

  lemma SmallShift(s: int)
    requires 0 <= s < 64
    ensures s % 64 == s
  {
  }

  lemma NegativeMagnitude(op: Op, a: Bits32)
    requires Negative(op, a)
    ensures Val32(a) + Magnitude(op, a) == WORDS
    ensures Val32(Not(a)) == Magnitude(op, a) - 1
  {
    Pow2Of32();
    SignBit(a);
    ValNot(a);
  }

  lemma NormaliseNegative(op: Op, a: Bits32)
    requires Negative(op, a)
    ensures DivShift(op, a) <= 31 && Val32(a) + Magnitude(op, a) == WORDS
    ensures 0x4000_0000 < Shl(Magnitude(op, a), DivShift(op, a)) <= 0x8000_0000
  {
    Pow2Of32();
    NegativeShift(op, a);
    NegativeMagnitude(op, a);
    TopBitOf(Not(a));
    if NoOnes(Reverse(Not(a))) {
      ShlIsProduct(1, 31);
    } else {
      NegativeBounds(Magnitude(op, a), FirstOne(Reverse(Not(a))));
    }
  }

  lemma NormaliseZero(op: Op, a: Bits32)
    requires Val32(a) == 0
    ensures DivShift(op, a) == 32 && !Negative(op, a) && Val32(ShiftedDivisor(op, a)) == 0
  {
    SignBit(a);
    assert NoOnes(Reverse(a)) by {
      TopBitOf(a);
    }
    assert DivShift(op, a) == 32;
    ShiftLeftBits(a, 0);
    assert ShiftLeft(a, 0) == a;
  }

  /** Normalisation: a nonzero divisor is shifted so far that twice its magnitude exceeds
      that of every possible dividend, and the divisor port carries it in the divisor's
      own sign. */
  lemma Normalised(op: Op, a: Bits32, b: Bits32)
    requires Val32(a) != 0
    ensures var cur := Shl(Magnitude(op, a), DivShift(op, a));
            && DivShift(op, a) <= 31
            && (if Negative(op, a) then 0x4000_0000 < cur <= 0x8000_0000 else 0x8000_0000 <= cur < WORDS)
            && Magnitude(op, b) < 2 * cur
  {
    SignBit(b);
    if Negative(op, a) {
      NormaliseNegative(op, a);
    } else {
      NormaliseNonNegative(op, a);
      ShiftNonNegative(a, DivShift(op, a));
    }
  }

  lemma DivisorPortShift(op: Op, a: Bits32, s: nat)
    requires s == DivShift(op, a) && s <= 31
    ensures ShiftedDivisor(op, a) == ShiftLeft(a, s)
  {
    assert s % 32 == s;
  }

  lemma DivisorPort(op: Op, a: Bits32, s: nat)
    requires Val32(a) != 0 && s == DivShift(op, a)
    ensures var port, cur := Val32(ShiftedDivisor(op, a)), Shl(Magnitude(op, a), s);
            port == if Negative(op, a) then WORDS - cur else cur
  {
    if Negative(op, a) {
      NormaliseNegative(op, a);
      ShiftNegative(a, s, Magnitude(op, a));
    } else {
      NormaliseNonNegative(op, a);
      ShiftNonNegative(a, s);
    }
    DivisorPortShift(op, a, s);
  }

  lemma PortsAreNormalised(i: In, x: Word, n: Word, d: Word, cur: Word, negative: bool)
    requires !i.opBIsZero && i.opBSign == negative && i.opA == x && (negative ==> i.signedOp)
    requires cur == Shl(d, i.opBShift) && 0 < cur && n < 2 * cur && (negative ==> cur <= 0x8000_0000)
    requires i.opB == if negative then WORDS - cur else cur
    requires n == if i.signedOp && Msb(x) then Neg(x) else x
    ensures NormalisedPorts(i, n, d)
  {
  }

  lemma NonzeroPorts(op: Op, a: Bits32, b: Bits32, i: In)
    requires i == Drive(op, a, b, true, i.outRdy) && Val32(a) != 0 && !i.opBIsZero
    ensures NormalisedPorts(i, Magnitude(op, b), Magnitude(op, a))
  {
    Normalised(op, a, b);
    DivisorPort(op, a, i.opBShift);
    SignedMagnitude(op, b);
    PortsAreNormalised(i, Val32(b), Magnitude(op, b), Magnitude(op, a), Shl(Magnitude(op, a), i.opBShift),
                       Negative(op, a));
  }

  /** The divider's view of that: the ports it is driven with are normalised. */
  lemma DriveIsNormalised(op: Op, a: Bits32, b: Bits32, outRdy: bool)
    ensures var i := Drive(op, a, b, true, outRdy);
            && (i.opBIsZero <==> Val32(a) == 0)
            && (Val32(a) == 0 ==> i.opBShift == 32 && i.opB == 0 && !i.opBSign)
            && (Val32(a) != 0 ==> NormalisedPorts(i, Magnitude(op, b), Magnitude(op, a)))
  {
    var i := Drive(op, a, b, true, outRdy);
    assert i.opBIsZero <==> Val32(a) == 0 by {
      PopcntCountsOnes(a);
    }
    if Val32(a) == 0 {
      NormaliseZero(op, a);
    } else {
      NonzeroPorts(op, a, b, i);
    }
  }

  // ----- the specification: section 7.2 of the RISC-V Unprivileged ISA -----

  function SignedValue(w: Word): int {
    if Msb(w) then w - WORDS else w
  }

  function ToWord(x: int): Word {
    x % WORDS
  }

  function Abs(x: int): nat {
    if x < 0 then -x else x
  }

  /** Division rounding towards zero. */
  function TruncDiv(n: int, d: int): int
    requires d != 0
  {
    if (n < 0) == (d < 0) then Abs(n) / Abs(d) else -(Abs(n) / Abs(d))
  }

  function TruncRem(n: int, d: int): int
    requires d != 0
  {
    n - d * TruncDiv(n, d)
  }

  /** q and r split n by d, rounding towards zero, r having the sign of n. */
  predicate Splits(n: int, d: int, q: int, r: int) {
    n == d * q + r && Abs(r) < Abs(d) && (r == 0 || (r < 0) == (n < 0))
  }

  function RiscvM(op: Op, dividend: Word, divisor: Word): Word {
    if divisor == 0 then
      if op.Remainder() then dividend else WORDS - 1
    else match op
      case DIVU => dividend / divisor
      case REMU => dividend % divisor
      case DIV => ToWord(TruncDiv(SignedValue(dividend), SignedValue(divisor)))
      case REM => ToWord(TruncRem(SignedValue(dividend), SignedValue(divisor)))
  }

  /** The remainder is the one whose sign is that of the dividend. */
  lemma TruncRemSign(n: int, d: int)
    requires d != 0
    ensures TruncRem(n, d) == if n < 0 then -(Abs(n) % Abs(d)) else Abs(n) % Abs(d)
    ensures Abs(TruncRem(n, d)) < Abs(d)
  {
    var q, r := Abs(n) / Abs(d), Abs(n) % Abs(d);
    assert Abs(n) == Abs(d) * q + r;
    if d < 0 {
      assert Abs(d) * q == -(d * q);
    }
    if (n < 0) != (d < 0) {
      assert d * (-q) == -(d * q);
    }
  }

  /** Truncated division is the only way to split a dividend like that. */
  lemma TruncDivUnique(n: int, d: int, q: int, r: int)
    requires d != 0 && Splits(n, d, q, r)
    ensures q == TruncDiv(n, d) && r == TruncRem(n, d)
  {
    TruncRemSign(n, d);
    var q', r' := TruncDiv(n, d), TruncRem(n, d);
    assert Abs(r - r') < Abs(d);
    Factor(d, q, q');
    SmallMultiple(d, q - q');
  }

  lemma Factor(d: int, q: int, q': int)
    ensures d * (q - q') == d * q - d * q'
  {
  }

  lemma SmallMultiple(d: int, k: int)
    requires Abs(d * k) < Abs(d)
    ensures k == 0
  {
    if k != 0 {
      MulAtLeast(Abs(d), Abs(k));
      AbsProduct(d, k);
    }
  }

  lemma AbsProduct(d: int, k: int)
    ensures Abs(d * k) == Abs(d) * Abs(k)
  {
  }

  lemma QuotientShrinks(x: nat, y: nat)
    requires y > 0
    ensures x / y <= x
    ensures y > 1 && x > 0 ==> x / y < x
  {
    var q, r := x / y, x % y;
    assert x == y * q + r;
    if q > 0 {
      MulAtLeast(q, y);
      Commute(q, y);
      if y > 1 {
        MulAtLeast(q, y - 1);
        assert q * y == q * (y - 1) + q;
      }
    }
  }

  /** Only one division leaves the range of a word. */
  lemma TruncDivFits(n: int, d: int)
    requires -0x8000_0000 <= n < 0x8000_0000 && d != 0 && !(n == -0x8000_0000 && d == -1)
    ensures -0x8000_0000 <= TruncDiv(n, d) < 0x8000_0000
  {
    QuotientShrinks(Abs(n), Abs(d));
  }

  lemma WordRoundTrip(x: int)
    requires -0x8000_0000 <= x < 0x8000_0000
    ensures SignedValue(ToWord(x)) == x
  {
    ModUnique(x, WORDS, if x < 0 then -1 else 0, if x < 0 then x + WORDS else x);
  }

  lemma TruncSplits(n: int, d: int)
    requires d != 0
    ensures forall q, r :: Splits(n, d, q, r) <==> q == TruncDiv(n, d) && r == TruncRem(n, d)
  {
    TruncRemSign(n, d);
    forall q, r | Splits(n, d, q, r)
      ensures q == TruncDiv(n, d) && r == TruncRem(n, d)
    {
      TruncDivUnique(n, d, q, r);
    }
  }

  // ----- end to end -----

  /** The signs the flags record turn the magnitudes back into the result of section 7.2. */
  lemma ResultFromMagnitudes(op: Op, x: Word, y: Word, m: Word, d: Word, q: Word, rem: Word)
    requires y != 0
    requires m == if op.Signed() && Msb(x) then Neg(x) else x
    requires d == if op.Signed() && Msb(y) then Neg(y) else y
    requires m == Times(q, d) + rem && rem < d
    ensures var inv := op.Signed() && Msb(x) != Msb(y);
            RiscvM(op, x, y) == if op.Remainder() then
                                  var ra := if op.Signed() && Msb(y) then Neg(rem) else rem;
                                  if inv then Neg(ra) else ra
                                else if inv then Neg(q) else q
  {
    TimesIsProduct(q, d);
    Commute(q, d);
    ModUnique(m, d, q, rem);
    if op.Signed() {
      var n := SignedValue(x);
      TruncRemSign(n, SignedValue(y));
      ToWordNegates(q);
      ToWordNegates(rem);
    }
  }

  lemma ToWordNegates(w: Word)
    ensures ToWord(w) == w && ToWord(-(w as int)) == Neg(w)
  {
    if w > 0 {
      var minus := 0 - (w as int);
      ModUnique(minus, WORDS, -1, WORDS - w);
    }
  }

  /** An input sequence that starts a division, lasts until the result is there, and
      leaves the zero flag alone meanwhile. */
  ghost predicate Drives(op: Op, a: Bits32, b: Bits32, ins: seq<In>) {
    && ins != []
    && ins[0] == Drive(op, a, b, true, ins[0].outRdy)
    && |ins| == ins[0].opBShift + 2
    && forall i :: i in ins ==> i.opBIsZero == ins[0].opBIsZero
  }

  lemma NonzeroDivision(op: Op, a: Bits32, b: Bits32, idle: Regs, ins: seq<In>)
    requires idle.fsm.IDLE? && Drives(op, a, b, ins) && Val32(a) != 0
    ensures var e := Run(idle, ins);
            && e.fsm.FINISH? && e.remSel == op.Remainder() && e.compInv == (op.Signed() && Msb(Val32(a)))
            && e.resInv == (op.Signed() && Msb(Val32(b)) != Msb(Val32(a)))
            && Divided(e, Magnitude(op, b), Magnitude(op, a))
  {
    DriveIsNormalised(op, a, b, ins[0].outRdy);
    SignBit(a);
    DivideAll(idle, ins, Magnitude(op, b), Magnitude(op, a));
  }

  lemma ZeroDivision(op: Op, a: Bits32, b: Bits32, idle: Regs, ins: seq<In>)
    requires idle.fsm.IDLE? && Drives(op, a, b, ins) && Val32(a) == 0
    ensures var e := Run(idle, ins);
            && e.fsm.FINISH? && e.remSel == op.Remainder() && Quotient(e) == WORDS - 1
            && Output(e, Quotient(e)) == RiscvM(op, Val32(b), 0)
  {
    DriveIsNormalised(op, a, b, ins[0].outRdy);
    DivideAllByZero(idle, ins);
  }

  lemma OutputFromDivided(op: Op, e: Regs, x: Word, y: Word, m: Word, d: Word)
    requires y != 0 && e.remSel == op.Remainder() && e.compInv == (op.Signed() && Msb(y))
    requires e.resInv == (op.Signed() && Msb(x) != Msb(y)) && Divided(e, m, d)
    requires m == if op.Signed() && Msb(x) then Neg(x) else x
    requires d == if op.Signed() && Msb(y) then Neg(y) else y
    ensures Output(e, Quotient(e)) == RiscvM(op, x, y)
  {
    ResultFromMagnitudes(op, x, y, m, d, Quotient(e), Encode(e.compInv, e.areg));
  }

  lemma DrivenDivision(op: Op, a: Bits32, b: Bits32, idle: Regs, ins: seq<In>)
    requires idle.fsm.IDLE? && Drives(op, a, b, ins)
    ensures var e := Run(idle, ins);
            e.fsm.FINISH? && e.remSel == op.Remainder() && Output(e, Quotient(e)) == RiscvM(op, Val32(b), Val32(a))
  {
    if Val32(a) == 0 {
      ZeroDivision(op, a, b, idle, ins);
    } else {
      NonzeroDivision(op, a, b, idle, ins);
      SignedMagnitude(op, a);
      SignedMagnitude(op, b);
      OutputFromDivided(op, Run(idle, ins), Val32(b), Val32(a), Magnitude(op, b), Magnitude(op, a));
    }
  }

  /** One cycle, and then whatever the environment does in n further ones. */
  function Cycles(first: In, n: nat, later: nat -> In): (ins: seq<In>)
    ensures |ins| == n + 1 && ins[0] == first
  {
    [first] + seq(n, k requires 0 <= k => later(k))
  }

  lemma CyclesKeepFlag(first: In, n: nat, later: nat -> In)
    requires forall k: nat :: later(k).opBIsZero == first.opBIsZero
    ensures forall i :: i in Cycles(first, n, later) ==> i.opBIsZero == first.opBIsZero
  {
    var ins := Cycles(first, n, later);
    forall i | i in ins
      ensures i.opBIsZero == first.opBIsZero
    {
      var k :| 0 <= k < |ins| && ins[k] == i;
      if k > 0 {
        assert ins[k] == seq(n, j requires 0 <= j => later(j))[k - 1];
      }
    }
  }

  /** A request, followed by as many cycles as it takes until the result is there. */
  function Request(op: Op, a: Bits32, b: Bits32, outRdy: bool, later: nat -> In): seq<In> {
    var first := Drive(op, a, b, true, outRdy);
    Cycles(first, first.opBShift + 1, later)
  }

  lemma DrivesFrom(op: Op, a: Bits32, b: Bits32, outRdy: bool, first: In, ins: seq<In>)
    requires first == Drive(op, a, b, true, outRdy) && ins != [] && ins[0] == first && |ins| == first.opBShift + 2
    requires forall i :: i in ins ==> i.opBIsZero == first.opBIsZero
    ensures Drives(op, a, b, ins)
  {
  }

  lemma RequestDrives(op: Op, a: Bits32, b: Bits32, outRdy: bool, later: nat -> In)
    requires forall k: nat :: later(k).opBIsZero == (Val32(a) == 0)
    ensures Drives(op, a, b, Request(op, a, b, outRdy, later))
  {
    var first := Drive(op, a, b, true, outRdy);
    assert first.opBIsZero == (Val32(a) == 0) by {
      DriveIsNormalised(op, a, b, outRdy);
    }
    CyclesKeepFlag(first, first.opBShift + 1, later);
    DrivesFrom(op, a, b, outRdy, first, Cycles(first, first.opBShift + 1, later));
  }

  /** The division contract: from IDLE, for every operator and operands, the divider
      offers the result of section 7.2 after shift + 2 cycles, provided the quotient
      register is reversed as its shift direction asks. The zero flag is combinational in
      the divisor, which is held; every other input may change meanwhile. */
  lemma DividesAsSpecified(op: Op, a: Bits32, b: Bits32, outRdy: bool, later: nat -> In, idle: Regs)
    requires idle.fsm.IDLE? && forall k: nat :: later(k).opBIsZero == (Val32(a) == 0)
    ensures var e := Run(idle, Request(op, a, b, outRdy, later));
            e.fsm.FINISH? && Output(e, Quotient(e)) == RiscvM(op, Val32(b), Val32(a))
  {
    RequestDrives(op, a, b, outRdy, later);
    DrivenDivision(op, a, b, idle, Request(op, a, b, outRdy, later));
  }

  /** The result of a request, divisor a and dividend b. */
  function Delivered(op: Op, a: Bits32, b: Bits32, outRdy: bool, later: nat -> In, idle: Regs): Word {
    var e := Run(idle, Request(op, a, b, outRdy, later));
    Output(e, Quotient(e))
  }

  /** What the results of a signed division and remainder of the same operands are: the only
      quotient and remainder that split the dividend, except for the two rows of the table in
      section 7.2, division by zero and overflow. */
  lemma SignedResultsSplit(a: Bits32, b: Bits32, outRdy: bool, later: nat -> In, idle: Regs)
    requires idle.fsm.IDLE? && forall k: nat :: later(k).opBIsZero == (Val32(a) == 0)
    ensures var q, r := Delivered(DIV, a, b, outRdy, later, idle), Delivered(REM, a, b, outRdy, later, idle);
            var n, d := SignedValue(Val32(b)), SignedValue(Val32(a));
            if d == 0 then q == WORDS - 1 && r == Val32(b)
            else if n == -0x8000_0000 && d == -1 then q == 0x8000_0000 && r == 0
            else forall q', r' :: Splits(n, d, q', r') <==> q' == SignedValue(q) && r' == SignedValue(r)
  {
    DividesAsSpecified(DIV, a, b, outRdy, later, idle);
    DividesAsSpecified(REM, a, b, outRdy, later, idle);
    SignedSpec(Val32(b), Val32(a));
  }

  lemma SignedSpec(x: Word, y: Word)
    ensures var q, r := RiscvM(DIV, x, y), RiscvM(REM, x, y); var n, d := SignedValue(x), SignedValue(y);
            if d == 0 then q == WORDS - 1 && r == x
            else if n == -0x8000_0000 && d == -1 then q == 0x8000_0000 && r == 0
            else forall q', r' :: Splits(n, d, q', r') <==> q' == SignedValue(q) && r' == SignedValue(r)
  {
    var n, d := SignedValue(x), SignedValue(y);
    if d == 0 {
    } else if n == -0x8000_0000 && d == -1 {
      assert TruncDiv(n, d) == 0x8000_0000 && TruncRem(n, d) == 0;
    } else {
      TruncDivFits(n, d);
      TruncRemSign(n, d);
      WordRoundTrip(TruncDiv(n, d));
      WordRoundTrip(TruncRem(n, d));
      TruncSplits(n, d);
    }
  }

  /** The same for unsigned division. */
  lemma UnsignedResultsSplit(a: Bits32, b: Bits32, outRdy: bool, later: nat -> In, idle: Regs)
    requires idle.fsm.IDLE? && forall k: nat :: later(k).opBIsZero == (Val32(a) == 0)
    ensures var q, r := Delivered(DIVU, a, b, outRdy, later, idle), Delivered(REMU, a, b, outRdy, later, idle);
            if Val32(a) == 0 then q == WORDS - 1 && r == Val32(b)
            else forall q', r' :: Splits(Val32(b), Val32(a), q', r') <==> q' == q && r' == r
  {
    DividesAsSpecified(DIVU, a, b, outRdy, later, idle);
    DividesAsSpecified(REMU, a, b, outRdy, later, idle);
    if Val32(a) != 0 {
      TruncSplits(Val32(b), Val32(a));
      TruncRemSign(Val32(b), Val32(a));
    }
  }

  lemma SignedMagnitude(op: Op, b: Bits32)
    ensures Magnitude(op, b) == if op.Signed() && Msb(Val32(b)) then Neg(Val32(b)) else Val32(b)
  {
    SignBit(b);
  }

  /** It takes exactly shift + 2 cycles: it offers no result at any earlier one, and the
      one it then offers is held until it is taken. */
  lemma BusyUntilDone(idle: Regs, ins: seq<In>, i: In)
    requires idle.fsm.IDLE? && ins != [] && ins[0].inVld && |ins| <= ins[0].opBShift + 2
    ensures !OutVld(idle, ins[0])
    ensures OutVld(Run(idle, ins), i) <==> |ins| == ins[0].opBShift + 2
  {
    StaysInDivide(Next(idle, ins[0]), ins[1..]);
  }

  lemma {:induction false} ResultHeld(e: Regs, ins: seq<In>)
    requires e.fsm.FINISH? && forall i :: i in ins ==> !i.outRdy
    ensures var h := Run(e, ins);
            && h.fsm.FINISH? && Output(h, Quotient(h)) == Output(e, Quotient(e))
    decreases |ins|
  {
    if ins != [] {
      assert ins[0] in ins;
      ResultHeld(Next(e, ins[0]), ins[1..]);
    }
  }

  // ----- the result port as written -----

  /** When the quotient is 0, and when it is full of ones. */
  lemma ExtremeQuotients(op: Op, a: Bits32, b: Bits32, idle: Regs, ins: seq<In>)
    requires idle.fsm.IDLE? && Drives(op, a, b, ins)
    ensures Quotient(Run(idle, ins)) == 0 <==> Val32(a) != 0 && Magnitude(op, b) < Magnitude(op, a)
    ensures Quotient(Run(idle, ins)) == WORDS - 1
            <==> Val32(a) == 0 || (Magnitude(op, b) == WORDS - 1 && Magnitude(op, a) == 1)
  {
    if Val32(a) == 0 {
      ZeroDivision(op, a, b, idle, ins);
    } else {
      NonzeroDivision(op, a, b, idle, ins);
      var e := Run(idle, ins);
      QuotientExtremes(Magnitude(op, b), Magnitude(op, a), Quotient(e), Encode(e.compInv, e.areg));
    }
  }

  lemma FullMagnitude(op: Op, a: Bits32, b: Bits32)
    ensures Magnitude(op, b) == WORDS - 1 ==> !op.Signed() && Val32(b) == WORDS - 1
    ensures !op.Signed() ==> Magnitude(op, b) == Val32(b) && Magnitude(op, a) == Val32(a)
  {
    SignedMagnitude(op, a);
    SignedMagnitude(op, b);
  }

  /** The result port as written is right exactly when the operator asks for a remainder;
      or the quotient is 0 and the bit read out of range is 0; or the quotient register
      is full of ones (a zero divisor, or the greatest unsigned number divided by 1) and
      the bit read out of range is 1. */
  lemma AsWrittenCorrectExactly(op: Op, a: Bits32, b: Bits32, outRdy: bool, later: nat -> In, idle: Regs,
          undefinedBit: bool)
    requires idle.fsm.IDLE? && forall k: nat :: later(k).opBIsZero == (Val32(a) == 0)
    ensures var e := Run(idle, Request(op, a, b, outRdy, later));
            Output(e, QuotientAsWritten(e.res, undefinedBit)) == RiscvM(op, Val32(b), Val32(a))
            <==> (op.Remainder() || WrittenQuotientRight(op, Val32(a), Val32(b), Magnitude(op, a), Magnitude(op, b),
                                                         undefinedBit))
  {
    var ins := Request(op, a, b, outRdy, later);
    var e := Run(idle, ins);
    RequestDrives(op, a, b, outRdy, later);
    assert Output(e, Quotient(e)) == RiscvM(op, Val32(b), Val32(a)) && e.remSel == op.Remainder() by {
      DrivenDivision(op, a, b, idle, ins);
    }
    OutputTellsQuotient(e, Quotient(e), QuotientAsWritten(e.res, undefinedBit));
    AsWrittenCorrectIff(e, undefinedBit);
    ExtremeQuotients(op, a, b, idle, ins);
    FullMagnitude(op, a, b);
  }

  lemma OutputTellsQuotient(e: Regs, q: Word, q': Word)
    ensures Output(e, q) == Output(e, q') <==> e.remSel || q == q'
  {
  }

  predicate WrittenQuotientRight(op: Op, divisor: Word, dividend: Word, d: Word, n: Word, undefinedBit: bool) {
    if undefinedBit then
      divisor == 0 || (op.DIVU? && divisor == 1 && dividend == WORDS - 1)
    else
      divisor != 0 && n < d
  }

  lemma QuotientExtremes(n: Word, d: Word, q: Word, r: Word)
    requires n == Times(q, d) + r && r < d
    ensures q == 0 <==> n < d
    ensures q == WORDS - 1 <==> n == WORDS - 1 && d == 1
  {
    TimesIsProduct(q, d);
    if q > 0 {
      MulAtLeast(d, q);
      Commute(d, q);
    }
    if q == WORDS - 1 && d > 1 {
      Scale(2, d, q);
      Commute(d, q);
    }
  }

  lemma TwoByOneIsWrong(a: Bits32, b: Bits32, outRdy: bool, later: nat -> In, idle: Regs, undefinedBit: bool)
    requires Val32(a) == 1 && Val32(b) == 2
    requires idle.fsm.IDLE? && forall k: nat :: !later(k).opBIsZero
    ensures var e := Run(idle, Request(DIVU, a, b, outRdy, later));
            Output(e, QuotientAsWritten(e.res, undefinedBit)) != RiscvM(DIVU, 2, 1)
  {
    AsWrittenCorrectExactly(DIVU, a, b, outRdy, later, idle, undefinedBit);
  }

  /** Two divided by one, for instance, never comes out right. */
  lemma AsWrittenIsWrong(outRdy: bool, later: nat -> In, idle: Regs, undefinedBit: bool)
    requires idle.fsm.IDLE? && forall k: nat :: !later(k).opBIsZero
    ensures var e := Run(idle, Request(DIVU, FromNat(1, 32), FromNat(2, 32), outRdy, later));
            Output(e, QuotientAsWritten(e.res, undefinedBit)) != RiscvM(DIVU, 2, 1)
  {
    Pow2Of32();
    ValFromNat(1, 32);
    ValFromNat(2, 32);
    TwoByOneIsWrong(FromNat(1, 32), FromNat(2, 32), outRdy, later, idle, undefinedBit);
  }
}
