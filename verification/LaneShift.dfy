/** The shifter of riscv_alu: right shifters for every lane width, and left shifts made of a
    reversed operand, a right shift and a reversed result. */
module LaneShift {
  import opened Arith
  import opened Bits
  import opened LaneAdder
  import LaneCompare

  /** A right shift by s bits that fills with the given bit. */
  function ShiftRightFill(b: BitVec, s: nat, fill: bool): (r: BitVec)
    requires s <= |b|
    ensures |r| == |b|
  {
    b[s..] + (if fill then Ones(s) else Zeros(s))
  }

  /** A lane shifted right, arithmetically or logically. */
  function LaneRight(b: BitVec, amount: BitVec, arithmetic: bool): (r: BitVec)
    requires b != [] && Val(amount) <= |b|
    ensures |r| == |b|
  {
    ShiftRightFill(b, Val(amount), arithmetic && b[|b| - 1])
  }

  /** The low bits of a lane that hold its shift amount. */
  function AmountBits(mode: VecMode): nat {
    match mode
    case VEC_MODE32 => 5
    case VEC_MODE16 => 4
    case VEC_MODE8 => 3
  }

  /** A shift amount lies below the lane width. */
  lemma AmountFits(amount: BitVec)
    ensures |amount| == 3 ==> Val(amount) < 8
    ensures |amount| == 4 ==> Val(amount) < 16
    ensures |amount| == 5 ==> Val(amount) < 32
  {
    ValBound(amount);
    assert Pow2(3) == 8;
    assert Pow2(4) == 2 * Pow2(3);
    assert Pow2(5) == 2 * Pow2(4);
  }

  /** The lane of w bits from a position, shifted by the n low bits of its own amount. */
  function LaneResult(a: Bits32, amt: Bits32, from: nat, w: nat, n: nat, arithmetic: bool): (r: BitVec)
    requires from + w <= 32 && ((w == 32 && n == 5) || (w == 16 && n == 4) || (w == 8 && n == 3))
    ensures |r| == w
  {
    AmountFits(amt[from..from + n]);
    LaneRight(a[from..from + w], amt[from..from + n], arithmetic)
  }

  /** shift_right_result. */
  function ShiftRightResult(mode: VecMode, a: Bits32, amt: Bits32, arithmetic: bool): Bits32 {
    match mode
    case VEC_MODE32 => LaneResult(a, amt, 0, 32, 5, arithmetic)
    case VEC_MODE16 => LaneResult(a, amt, 0, 16, 4, arithmetic) + LaneResult(a, amt, 16, 16, 4, arithmetic)
    case VEC_MODE8 =>
      LaneResult(a, amt, 0, 8, 3, arithmetic) + LaneResult(a, amt, 8, 8, 3, arithmetic)
      + LaneResult(a, amt, 16, 8, 3, arithmetic) + LaneResult(a, amt, 24, 8, 3, arithmetic)
  }

  /** shift_amt_left: the reversal of the operand reverses the lanes. */
  function ShiftAmtLeft(mode: VecMode, amt: Bits32): Bits32 {
    match mode
    case VEC_MODE32 => amt
    case VEC_MODE16 => amt[16..] + amt[..16]
    case VEC_MODE8 => amt[24..] + amt[16..24] + amt[8..16] + amt[..8]
  }

  /** shift_left_result. */
  function ShiftLeftResult(mode: VecMode, a: Bits32, amt: Bits32): Bits32 {
    Reverse(ShiftRightResult(mode, Reverse(a), ShiftAmtLeft(mode, amt), false))
  }

  // ----- lanes of bits -----

  function LaneWidth(mode: VecMode): nat {
    match mode
    case VEC_MODE32 => 32
    case VEC_MODE16 => 16
    case VEC_MODE8 => 8
  }

  function LaneStart(mode: VecMode, k: nat): (start: nat)
    requires k < Lanes(mode)
    ensures start + LaneWidth(mode) <= 32
  {
    match mode
    case VEC_MODE32 => 0
    case VEC_MODE16 => 16 * k
    case VEC_MODE8 => 8 * k
  }

  /** The bits of a lane. */
  function LaneBits(mode: VecMode, b: Bits32, k: nat): (l: BitVec)
    requires k < Lanes(mode)
    ensures |l| == LaneWidth(mode)
  {
    b[LaneStart(mode, k)..LaneStart(mode, k) + LaneWidth(mode)]
  }

  /** The shift amount of a lane: its own lowest bits. */
  function LaneAmount(mode: VecMode, amt: Bits32, k: nat): (s: nat)
    requires k < Lanes(mode)
    ensures s < LaneWidth(mode)
  {
    var amount := amt[LaneStart(mode, k)..LaneStart(mode, k) + AmountBits(mode)];
    AmountFits(amount);
    Val(amount)
  }

  lemma TwoParts(x: BitVec, y: BitVec)
    requires |x| == |y| == 16
    ensures (x + y)[0..16] == x && (x + y)[16..32] == y
  {
  }

  lemma FourParts(x: BitVec, y: BitVec, z: BitVec, u: BitVec)
    requires |x| == |y| == |z| == |u| == 8
    ensures (x + y + z + u)[0..8] == x && (x + y + z + u)[8..16] == y
    ensures (x + y + z + u)[16..24] == z && (x + y + z + u)[24..32] == u
  {
  }

  lemma ResultBytes(a: Bits32, amt: Bits32, arithmetic: bool)
    ensures var r := ShiftRightResult(VEC_MODE8, a, amt, arithmetic);
            && r[0..8] == LaneResult(a, amt, 0, 8, 3, arithmetic) && r[8..16] == LaneResult(a, amt, 8, 8, 3, arithmetic)
            && r[16..24] == LaneResult(a, amt, 16, 8, 3, arithmetic)
            && r[24..32] == LaneResult(a, amt, 24, 8, 3, arithmetic)
  {
    FourParts(LaneResult(a, amt, 0, 8, 3, arithmetic), LaneResult(a, amt, 8, 8, 3, arithmetic),
              LaneResult(a, amt, 16, 8, 3, arithmetic), LaneResult(a, amt, 24, 8, 3, arithmetic));
  }

  lemma ResultHalves(a: Bits32, amt: Bits32, arithmetic: bool)
    ensures var r := ShiftRightResult(VEC_MODE16, a, amt, arithmetic);
            && r[0..16] == LaneResult(a, amt, 0, 16, 4, arithmetic)
            && r[16..32] == LaneResult(a, amt, 16, 16, 4, arithmetic)
  {
    TwoParts(LaneResult(a, amt, 0, 16, 4, arithmetic), LaneResult(a, amt, 16, 16, 4, arithmetic));
  }

  lemma ResultLanes(mode: VecMode, a: Bits32, amt: Bits32, arithmetic: bool, k: nat)
    requires k < Lanes(mode)
    ensures LaneBits(mode, ShiftRightResult(mode, a, amt, arithmetic), k)
            == LaneResult(a, amt, LaneStart(mode, k), LaneWidth(mode), AmountBits(mode), arithmetic)
  {
    match mode
    case VEC_MODE32 =>
      var r := ShiftRightResult(mode, a, amt, arithmetic);
      assert r[0..32] == r;
    case VEC_MODE16 =>
      ResultHalves(a, amt, arithmetic);
      assert k == 0 || k == 1;
    case VEC_MODE8 =>
      ResultBytes(a, amt, arithmetic);
      assert k == 0 || k == 1 || k == 2 || k == 3;
  }

  lemma RightLanes(mode: VecMode, a: Bits32, amt: Bits32, arithmetic: bool, k: nat)
    requires k < Lanes(mode)
    ensures LaneBits(mode, ShiftRightResult(mode, a, amt, arithmetic), k)
            == ShiftRightFill(LaneBits(mode, a, k), LaneAmount(mode, amt, k),
                              arithmetic && LaneBits(mode, a, k)[LaneWidth(mode) - 1])
  {
    ResultLanes(mode, a, amt, arithmetic, k);
  }

  lemma ReversedSlice(b: Bits32, from: nat, w: nat, from': nat)
    requires from + w + from' == 32
    ensures Reverse(b)[from'..from' + w] == Reverse(b[from..from + w])
  {
    var x, y := Reverse(b)[from'..from' + w], Reverse(b[from..from + w]);
    forall i | 0 <= i < w
      ensures x[i] == y[i]
    {
      assert x[i] == Reverse(b)[from' + i];
    }
  }

  /** Reversing a word reverses every lane and their order. */
  lemma ReversedLanes(mode: VecMode, b: Bits32, k: nat)
    requires k < Lanes(mode)
    ensures LaneBits(mode, Reverse(b), Lanes(mode) - 1 - k) == Reverse(LaneBits(mode, b, k))
  {
    ReversedSlice(b, LaneStart(mode, k), LaneWidth(mode), LaneStart(mode, Lanes(mode) - 1 - k));
  }

  lemma SwapHalves(x: Bits32)
    ensures (x[16..] + x[..16])[0..4] == x[16..20] && (x[16..] + x[..16])[16..20] == x[0..4]
  {
  }

  lemma SwapBytes(x: Bits32)
    ensures var y := x[24..] + x[16..24] + x[8..16] + x[..8];
            y[0..3] == x[24..27] && y[8..11] == x[16..19] && y[16..19] == x[8..11] && y[24..27] == x[0..3]
  {
    FourParts(x[24..], x[16..24], x[8..16], x[..8]);
    Prefix(x, 0);
    Prefix(x, 8);
    Prefix(x, 16);
    Prefix(x, 24);
    var y := x[24..] + x[16..24] + x[8..16] + x[..8];
    Prefix(y, 0);
    Prefix(y, 8);
    Prefix(y, 16);
    Prefix(y, 24);
  }

  lemma Prefix(x: Bits32, from: nat)
    requires from <= 24
    ensures x[from..from + 8][..3] == x[from..from + 3]
  {
  }

  lemma SwappedAmounts(mode: VecMode, amt: Bits32, k: nat)
    requires k < Lanes(mode)
    ensures LaneAmount(mode, ShiftAmtLeft(mode, amt), Lanes(mode) - 1 - k) == LaneAmount(mode, amt, k)
  {
    match mode
    case VEC_MODE32 =>
    case VEC_MODE16 => SwapHalves(amt);
    case VEC_MODE8 => SwapBytes(amt);
  }

  /** Vector left shift: reversing, shifting right and reversing again multiplies every lane
      by two to its own amount, modulo the width of the lane. */
  lemma LaneShiftLeft(mode: VecMode, a: Bits32, amt: Bits32, k: nat)
    requires k < Lanes(mode)
    ensures Val(LaneBits(mode, ShiftLeftResult(mode, a, amt), k))
            == (Pow2(LaneAmount(mode, amt, k)) * Val(LaneBits(mode, a, k))) % Pow2(LaneWidth(mode))
  {
    var j, s, lane := Lanes(mode) - 1 - k, LaneAmount(mode, amt, k), LaneBits(mode, a, k);
    var left := ShiftAmtLeft(mode, amt);
    var right := ShiftRightResult(mode, Reverse(a), left, false);
    assert LaneBits(mode, Reverse(right), k) == Reverse(LaneBits(mode, right, j)) by {
      ReversedLanes(mode, right, j);
    }
    assert LaneBits(mode, right, j) == ShiftRight(Reverse(lane), s) by {
      RightLanes(mode, Reverse(a), left, false, j);
      ReversedLanes(mode, a, k);
      SwappedAmounts(mode, amt, k);
    }
    ShiftLeftMultiplies(lane, s);
  }

  /** The scalar left shift, as the normalisation of a divisor uses it. */
  lemma ScalarShiftLeft(a: Bits32, amt: Bits32)
    ensures Val(amt[..5]) < 32 && ShiftLeftResult(VEC_MODE32, a, amt) == ShiftLeft(a, Val(amt[..5]))
  {
    AmountFits(amt[..5]);
    assert Reverse(a)[0..32] == Reverse(a);
    assert amt[0..5] == amt[..5];
  }

  // ----- right shifts divide -----

  /** The value of a lane, signed for an arithmetic shift. */
  function Number(b: BitVec, isSigned: bool): int
    requires b != []
  {
    Val(b) - (if isSigned && b[|b| - 1] then Pow2(|b|) else 0)
  }

  lemma {:induction false} ValOnes(n: nat)
    ensures Val(Ones(n)) == Pow2(n) - 1
  {
    if n > 0 {
      assert Ones(n)[1..] == Ones(n - 1);
      ValOnes(n - 1);
    }
  }

  lemma {:induction false} FilledWithOnes(b: BitVec, s: nat)
    ensures Val(b + Ones(s)) + Pow2(|b|) == Val(b) + Pow2(|b| + s)
  {
    if b == [] {
      assert b + Ones(s) == Ones(s);
      ValOnes(s);
    } else {
      assert (b + Ones(s))[1..] == b[1..] + Ones(s);
      FilledWithOnes(b[1..], s);
    }
  }

  /** Extending a number by copies of its sign keeps it. */
  lemma ExtendOnes(b: BitVec, s: nat)
    requires b != [] && b[|b| - 1]
    ensures Number(b + Ones(s), true) == Number(b, true)
  {
    FilledWithOnes(b, s);
    assert (b + Ones(s))[|b| + s - 1];
  }

  lemma ExtendZeros(b: BitVec, s: nat, isSigned: bool)
    requires b != [] && (isSigned ==> !b[|b| - 1])
    ensures Number(b + Zeros(s), isSigned) == Number(b, isSigned)
  {
    ValAppend(b, Zeros(s));
    ValZeros(s);
    assert isSigned ==> !(b + Zeros(s))[|b| + s - 1];
  }

  /** x halved s times, rounding down. */
  function Halved(x: int, s: nat): int
    decreases s
  {
    if s == 0 then x else Halved(x / 2, s - 1)
  }

  lemma {:induction false} HalvedIsQuotient(x: int, s: nat)
    ensures Halved(x, s) == x / Pow2(s)
    decreases s
  {
    if s > 0 {
      HalvedIsQuotient(x / 2, s - 1);
      DivideTwice(x, Pow2(s - 1));
    }
  }

  lemma DivideTwice(x: int, p: nat)
    requires p > 0
    ensures x / 2 / p == x / (2 * p)
  {
    var q, r := x / 2 / p, x / 2 % p;
    assert (2 * p) * q == 2 * (p * q);
    ModUnique(x, 2 * p, q, x % 2 + 2 * r);
  }

  /** Dropping the lowest bits halves a number as often. */
  lemma {:induction false} DropHalves(b: BitVec, s: nat, isSigned: bool)
    requires s < |b|
    ensures Number(b[s..], isSigned) == Halved(Number(b, isSigned), s)
  {
    if s == 0 {
      assert b[0..] == b;
    } else {
      assert Number(b, isSigned) / 2 == Number(b[1..], isSigned);
      DropHalves(b[1..], s - 1, isSigned);
      assert b[1..][s - 1..] == b[s..];
    }
  }

  lemma ShiftDivides(b: BitVec, s: nat, isSigned: bool, fill: bool)
    requires s < |b| && fill == (isSigned && b[|b| - 1])
    ensures Number(ShiftRightFill(b, s, fill), isSigned) == Number(b, isSigned) / Pow2(s)
  {
    DropHalves(b, s, isSigned);
    HalvedIsQuotient(Number(b, isSigned), s);
    if fill {
      ExtendOnes(b[s..], s);
    } else {
      ExtendZeros(b[s..], s, isSigned);
    }
  }

  /** Vector right shift: every lane is divided by two to its own amount, rounding down, as a
      signed number for an arithmetic shift and as an unsigned one for a logical shift. */
  lemma LaneShiftRight(mode: VecMode, a: Bits32, amt: Bits32, arithmetic: bool, k: nat)
    requires k < Lanes(mode)
    ensures Number(LaneBits(mode, ShiftRightResult(mode, a, amt, arithmetic), k), arithmetic)
            == Number(LaneBits(mode, a, k), arithmetic) / Pow2(LaneAmount(mode, amt, k))
  {
    var s, lane := LaneAmount(mode, amt, k), LaneBits(mode, a, k);
    var fill := arithmetic && lane[|lane| - 1];
    assert Number(ShiftRightFill(lane, s, fill), arithmetic) == Number(lane, arithmetic) / Pow2(s) by {
      ShiftDivides(lane, s, arithmetic, fill);
    }
    RightLanes(mode, a, amt, arithmetic, k);
  }

  // ----- words of bits and words of bytes -----

  function ByteOf(b: BitVec): Byte
    requires |b| == 8
  {
    ValBound(b);
    Pow2Of32();
    Val(b)
  }

  /** The bytes that the adder and the comparators see of a word. */
  function BytesOf(b: Bits32): Bytes {
    [ByteOf(b[0..8]), ByteOf(b[8..16]), ByteOf(b[16..24]), ByteOf(b[24..32])]
  }

  /** The value of the bytes of a bit vector is that of its bits. */
  lemma {:induction false} BytesValue(x: seq<Byte>, b: BitVec)
    requires |b| == 8 * |x| && forall i :: 0 <= i < |x| ==> x[i] == ByteOf(b[8 * i..8 * i + 8])
    ensures LaneVal(x) == Val(b)
    decreases |x|
  {
    if x != [] {
      var tail := b[8..];
      forall i | 0 <= i < |x| - 1
        ensures x[1..][i] == ByteOf(tail[8 * i..8 * i + 8])
      {
        assert tail[8 * i..8 * i + 8] == b[8 * (i + 1)..8 * (i + 1) + 8];
      }
      BytesValue(x[1..], tail);
      assert b[0..8] == b[..8];
      SplitValue(b, 8);
      Pow2Of32();
    }
  }

  lemma LaneOfBytes(mode: VecMode, b: Bits32, k: nat, i: nat)
    requires k < Lanes(mode) && i < LaneBytes(mode)
    ensures |Lane(mode, BytesOf(b), k)| == LaneBytes(mode) && LaneWidth(mode) == 8 * LaneBytes(mode)
    ensures Lane(mode, BytesOf(b), k)[i] == ByteOf(LaneBits(mode, b, k)[8 * i..8 * i + 8])
  {
    SubSlice(b, LaneStart(mode, k), LaneWidth(mode), 8 * i, 8);
    match mode
    case VEC_MODE32 => assert i == 0 || i == 1 || i == 2 || i == 3;
    case VEC_MODE16 => assert (k == 0 || k == 1) && (i == 0 || i == 1);
    case VEC_MODE8 => assert k == 0 || k == 1 || k == 2 || k == 3;
  }

  lemma SubSlice(b: BitVec, from: nat, w: nat, i: nat, n: nat)
    requires from + w <= |b| && i + n <= w
    ensures b[from..from + w][i..i + n] == b[from + i..from + i + n]
  {
    var slice := b[from..from + w];
    var x, y := slice[i..i + n], b[from + i..from + i + n];
    forall j | 0 <= j < n
      ensures x[j] == y[j]
    {
      assert x[j] == slice[i + j];
    }
  }

  /** Both views of a lane have the same value, unsigned and signed: the results about sums
      and comparisons of bytes are about the lanes that the shifter shifts. */
  lemma LanesAgree(mode: VecMode, b: Bits32, k: nat, isSigned: bool)
    requires k < Lanes(mode)
    ensures |Lane(mode, BytesOf(b), k)| > 0
    ensures LaneVal(Lane(mode, BytesOf(b), k)) == Val(LaneBits(mode, b, k))
    ensures LaneCompare.Number(Lane(mode, BytesOf(b), k), isSigned) == Number(LaneBits(mode, b, k), isSigned)
  {
    var x, l := Lane(mode, BytesOf(b), k), LaneBits(mode, b, k);
    forall i | 0 <= i < LaneBytes(mode)
      ensures |x| == LaneBytes(mode) && |l| == 8 * |x| && x[i] == ByteOf(l[8 * i..8 * i + 8])
    {
      LaneOfBytes(mode, b, k, i);
    }
    assert |x| == LaneBytes(mode) by {
      LaneOfBytes(mode, b, k, 0);
    }
    BytesValue(x, l);
    LaneCompare.NumberIsTwosComplement(x, isSigned);
    PowersAgree(|x|);
    var top := l[8 * (|x| - 1)..8 * (|x| - 1) + 8];
    assert x[|x| - 1] == ByteOf(top) && top[7] == l[|l| - 1];
    TopBitOfByte(top);
  }

  lemma {:induction false} PowersAgree(n: nat)
    ensures Pow256(n) == Pow2(8 * n)
  {
    if n > 0 {
      PowersAgree(n - 1);
      Pow2Add(8, 8 * (n - 1));
      Pow2Of32();
    }
  }

  lemma TopBitOfByte(b: BitVec)
    requires |b| == 8
    ensures ByteOf(b) >= 128 <==> b[7]
  {
    assert Pow2(7) == 128 by {
      Pow2Of32();
    }
    assert b[7..] == [b[7]];
    SplitValue(b, 7);
    ValBound(b[..7]);
  }
}
