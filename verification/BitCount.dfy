/** The bit-counting results of riscv_alu: first one, last one, leading sign bits, and the
    number of ones. */
module BitCount {
  import opened Arith
  import opened Bits
  import opened LeadingOne
  import D = Division

  datatype Op = ALU_FF1 | ALU_FL1 | ALU_CLB | ALU_CNT

  /** The input of the leading-one tree. */
  function FfInput(op: Op, a: Bits32): (r: BitVec)
    ensures |r| == 32
  {
    match op
    case ALU_FF1 => a
    case ALU_FL1 => Reverse(a)
    case ALU_CLB => if a[31] then Reverse(Not(a)) else Reverse(a)
    case ALU_CNT => Zeros(32)
  }

  /** bitop_result; the differences are taken in five and in six bits. */
  function BitopResult(op: Op, a: Bits32): int {
    var ff := FfInput(op, a);
    match op
    case ALU_FF1 => if NoOnes(ff) then 32 else FirstOne(ff)
    case ALU_FL1 => if NoOnes(ff) then 32 else (31 - FirstOne(ff)) % 32
    case ALU_CLB =>
      if NoOnes(ff) then if a[31] then 31 else 0
      else (FirstOne(ff) - 1) % 64
    case ALU_CNT => Popcnt(a)
  }

  /** FF1 is the index of the lowest one, FL1 that of the highest; both are 32 for zero. */
  lemma FirstAndLastOne(a: Bits32)
    ensures var f, l := BitopResult(ALU_FF1, a), BitopResult(ALU_FL1, a);
            if Val32(a) == 0 then f == l == 32
            else 0 <= f <= l <= 31 && a[f] && a[l] && forall j :: 0 <= j < f || l < j < 32 ==> !a[j]
  {
    LowestOne(a);
    HighestOne(a);
  }

  lemma LowestOne(a: Bits32)
    ensures var f := BitopResult(ALU_FF1, a);
            if Val32(a) == 0 then f == 32 else 0 <= f <= 31 && a[f] && forall j :: 0 <= j < f ==> !a[j]
  {
    FirstOneIsLeast(a);
    if NoOnes(a) {
      AllClear(a);
    } else {
      SetBitIsNonzero(a, FirstOne(a));
    }
  }

  lemma HighestOne(a: Bits32)
    ensures var l := BitopResult(ALU_FL1, a);
            if Val32(a) == 0 then l == 32 else 0 <= l <= 31 && a[l] && forall j :: l < j < 32 ==> !a[j]
  {
    var rev := Reverse(a);
    D.TopBitOf(a);
    FirstOneIsLeast(rev);
    if !NoOnes(rev) {
      var f := FirstOne(rev);
      D.SmallShift(f);
      forall j | 31 - f < j < 32
        ensures !a[j]
      {
        assert !rev[31 - j];
      }
    }
  }

  /** CNT is the number of ones. */
  lemma CountsOnes(a: Bits32)
    ensures BitopResult(ALU_CNT, a) == CountOnes(a)
  {
    PopcntCountsOnes(a);
  }

  // ----- leading sign bits -----

  function SignedVal(a: Bits32): int {
    if a[31] then Val32(a) - WORDS else Val32(a)
  }

  /** v * 2^k is a signed 32-bit number. */
  predicate ShiftFits(v: int, k: nat) {
    if v < 0 then Shl(-v, k) <= 0x8000_0000 else Shl(v, k) < 0x8000_0000
  }

  lemma {:induction false} ShiftFitsBelow(v: int, k: nat, j: nat)
    requires j <= k && ShiftFits(v, k)
    ensures ShiftFits(v, j)
  {
    if j < k {
      ShiftFitsBelow(v, k - 1, j);
    }
  }

  /** The bounds of a magnitude whose top bit stands f below bit 31. */
  lemma PositiveBounds(v: nat, f: nat)
    requires 1 <= f <= 31 && Pow2(31 - f) <= v < Pow2(32 - f)
    ensures ShiftFits(v, f - 1) && !ShiftFits(v, f)
  {
    ShlIsProduct(v, f - 1);
    ShlIsProduct(v, f);
    Pow2Of32();
    D.ScaledBounds(v, f - 1, 31 - f, 32 - f);
    D.ScaledBounds(v, f, 31 - f, 32 - f);
  }

  lemma NegativeBounds(m: nat, f: nat)
    requires 1 <= f <= 31 && Pow2(31 - f) < m <= Pow2(32 - f)
    ensures ShiftFits(-(m as int), f - 1) && !ShiftFits(-(m as int), f)
  {
    ShlIsProduct(m, f - 1);
    ShlIsProduct(m, f);
    Pow2Of32();
    D.ScaledBounds(m, f - 1, 31 - f, 32 - f);
    D.ScaledBounds(m, f, 31 - f, 32 - f);
  }

  lemma ClbOfPositive(a: Bits32)
    requires !a[31] && Val32(a) > 0
    ensures var r := BitopResult(ALU_CLB, a); 0 <= r <= 30 && ShiftFits(Val32(a), r) && !ShiftFits(Val32(a), r + 1)
  {
    var f := FirstOne(Reverse(a));
    D.TopBitOf(a);
    assert f > 0;
    D.SmallShift(f - 1);
    PositiveBounds(Val32(a), f);
  }

  lemma MinusOne(a: Bits32)
    requires a[31] && NoOnes(Reverse(Not(a)))
    ensures Val32(a) == WORDS - 1 && BitopResult(ALU_CLB, a) == 31
    ensures ShiftFits(-1, 31) && !ShiftFits(-1, 32)
  {
    D.TopBitOf(Not(a));
    Pow2Of32();
    ValNot(a);
    ShlIsProduct(1, 31);
    ShlIsProduct(1, 32);
  }

  lemma LeadOfNegative(a: Bits32)
    requires a[31] && !NoOnes(Reverse(Not(a)))
    ensures var f := FirstOne(Reverse(Not(a)));
            1 <= f <= 31 && Pow2(31 - f) < WORDS - Val32(a) <= Pow2(32 - f)
  {
    D.TopBitOf(Not(a));
    D.LeadIsLater(a);
    Pow2Of32();
    ValNot(a);
  }

  lemma ClbOfNegative(a: Bits32)
    requires a[31]
    ensures var r, v := BitopResult(ALU_CLB, a), Val32(a) - WORDS;
            0 <= r <= 31 && ShiftFits(v, r) && !ShiftFits(v, r + 1)
  {
    if NoOnes(Reverse(Not(a))) {
      MinusOne(a);
    } else {
      var f := FirstOne(Reverse(Not(a)));
      LeadOfNegative(a);
      D.SmallShift(f - 1);
      NegativeBounds(WORDS - Val32(a), f);
    }
  }

  /** CLB counts the sign bits behind the first: it is the greatest number of places by which
      the operand can be shifted left without changing its sign or losing a bit. Zero, which
      can be shifted by any, gives 0. */
  lemma ClbIsGreatestShift(a: Bits32, k: nat)
    ensures var r := BitopResult(ALU_CLB, a);
            if Val32(a) == 0 then r == 0 else 0 <= r <= 31 && (ShiftFits(SignedVal(a), k) <==> k <= r)
  {
    D.SignBit(a);
    if Val32(a) == 0 {
      D.TopBitOf(a);
    } else {
      if a[31] {
        ClbOfNegative(a);
      } else {
        ClbOfPositive(a);
      }
      var r, v := BitopResult(ALU_CLB, a), SignedVal(a);
      if k <= r {
        ShiftFitsBelow(v, r, k);
      } else if ShiftFits(v, k) {
        ShiftFitsBelow(v, k, r + 1);
        assert false;
      }
    }
  }
}
