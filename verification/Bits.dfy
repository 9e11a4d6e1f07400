/** Bit vectors as sequences of Booleans, index 0 being the least significant bit,
    their unsigned value, and the operations on them that the RTL is written with. */
module Bits {
  import opened Arith

  type BitVec = seq<bool>

  /** A 32-bit word as an unsigned number. */
  const WORDS := 0x1_0000_0000
  type Word = x: int | 0 <= x < WORDS

  /** A 32-bit word as a bit vector. */
  type Bits32 = b: BitVec | |b| == 32 witness seq(32, i => false)

  type Byte = n: nat | n < 256

  function Pow2(n: nat): (p: nat)
    ensures p > 0
  {
    if n == 0 then 1 else 2 * Pow2(n - 1)
  }

  /** $clog2: the least r with n <= 2^r. */
  function Clog2(n: nat): (r: nat)
    requires n >= 1
    ensures n <= Pow2(r)
    ensures r > 0 ==> Pow2(r - 1) < n
  {
    if n == 1 then 0 else 1 + Clog2((n + 1) / 2)
  }

  function Bit(b: bool): nat {
    if b then 1 else 0
  }

  /** The unsigned value of a bit vector. */
  function Val(b: BitVec): nat {
    if b == [] then 0 else Bit(b[0]) + 2 * Val(b[1..])
  }

  /** The low w bits of n. */
  function FromNat(n: nat, w: nat): (b: BitVec)
    ensures |b| == w
  {
    if w == 0 then [] else [n % 2 == 1] + FromNat(n / 2, w - 1)
  }

  function Zeros(n: nat): (b: BitVec)
    ensures |b| == n
  {
    seq(n, i => false)
  }

  function Ones(n: nat): (b: BitVec)
    ensures |b| == n
  {
    seq(n, i => true)
  }

  function Reverse(b: BitVec): (r: BitVec)
    ensures |r| == |b|
  {
    seq(|b|, i requires 0 <= i < |b| => b[|b| - 1 - i])
  }

  function Not(b: BitVec): (r: BitVec)
    ensures |r| == |b|
  {
    seq(|b|, i requires 0 <= i < |b| => !b[i])
  }

  /** Logical right shift that keeps the width. */
  function ShiftRight(b: BitVec, s: nat): (r: BitVec)
    requires s <= |b|
    ensures |r| == |b|
  {
    b[s..] + Zeros(s)
  }

  /** The left shift of the ALU: reverse, shift right, reverse. */
  function ShiftLeft(b: BitVec, s: nat): (r: BitVec)
    requires s <= |b|
    ensures |r| == |b|
  {
    Reverse(ShiftRight(Reverse(b), s))
  }

  lemma {:induction false} Pow2Add(a: nat, b: nat)
    ensures Pow2(a + b) == Pow2(a) * Pow2(b)
  {
    if a == 0 {
    } else {
      Pow2Add(a - 1, b);
      assert Pow2(a + b) == 2 * Pow2(a - 1 + b);
    }
  }

  lemma {:induction false} Pow2Monotone(a: nat, b: nat)
    requires a <= b
    ensures Pow2(a) <= Pow2(b)
  {
    if a < b {
      Pow2Monotone(a, b - 1);
    }
  }

  lemma Pow2Of32()
    ensures Pow2(5) == 32
    ensures Pow2(8) == 256
    ensures Pow2(16) == 0x1_0000
    ensures Pow2(30) == 0x4000_0000
    ensures Pow2(31) == 0x8000_0000
    ensures Pow2(32) == 0x1_0000_0000
  {
    assert Pow2(3) == 8;
    assert Pow2(5) == 32;
    Pow2Add(5, 3);
    Pow2Add(8, 8);
    Pow2Add(16, 8);
    Pow2Add(24, 5);
    assert Pow2(30) == 2 * Pow2(29);
    assert Pow2(31) == 2 * Pow2(30);
    assert Pow2(32) == 2 * Pow2(31);
  }

  /** The value of a word. */
  function Val32(b: Bits32): Word {
    ValBound(b);
    Pow2Of32();
    Val(b)
  }

  lemma {:induction false} ValBound(b: BitVec)
    ensures Val(b) < Pow2(|b|)
  {
    if b != [] {
      ValBound(b[1..]);
    }
  }

  lemma {:induction false} ValAppend(a: BitVec, b: BitVec)
    ensures Val(a + b) == Val(a) + Pow2(|a|) * Val(b)
  {
    if a == [] {
      assert a + b == b;
    } else {
      ValAppend(a[1..], b);
      assert (a + b)[1..] == a[1..] + b;
      Double(Pow2(|a| - 1), Val(b));
    }
  }

  lemma {:induction false} ValZeros(n: nat)
    ensures Val(Zeros(n)) == 0
  {
    if n > 0 {
      assert Zeros(n)[1..] == Zeros(n - 1);
      ValZeros(n - 1);
    }
  }

  lemma {:induction false} ValNot(b: BitVec)
    ensures Val(Not(b)) == Pow2(|b|) - 1 - Val(b)
  {
    if b != [] {
      assert Not(b)[1..] == Not(b[1..]);
      ValNot(b[1..]);
    }
  }

  lemma {:induction false} ValFromNat(n: nat, w: nat)
    ensures Val(FromNat(n, w)) == n % Pow2(w)
  {
    if w > 0 {
      ValFromNat(n / 2, w - 1);
      ModDouble(n, Pow2(w - 1));
    }
  }

  lemma {:induction false} FromNatVal(b: BitVec)
    ensures FromNat(Val(b), |b|) == b
  {
    if b != [] {
      FromNatVal(b[1..]);
      assert Val(b) / 2 == Val(b[1..]);
    }
  }

  /** If k is the highest set bit, the value lies in [2^k, 2^(k+1)). */
  lemma {:induction false} TopBit(b: BitVec, k: nat)
    requires k < |b| && b[k] && forall j :: k < j < |b| ==> !b[j]
    ensures Pow2(k) <= Val(b) < Pow2(k + 1)
  {
    var low, high := b[..k + 1], b[k + 1..];
    assert b == low + high && high == Zeros(|high|);
    ValZeros(|high|);
    ValAppend(low, high);
    assert low == b[..k] + [true];
    ValAppend(b[..k], [true]);
    assert Val([true]) == 1;
    ValBound(low[..k]);
    assert low[..k] == b[..k];
  }

  lemma {:induction false} AllClear(b: BitVec)
    requires forall j :: 0 <= j < |b| ==> !b[j]
    ensures Val(b) == 0
  {
    assert b == Zeros(|b|);
    ValZeros(|b|);
  }

  lemma ShiftLeftBits(b: BitVec, s: nat)
    requires s <= |b|
    ensures ShiftLeft(b, s) == Zeros(s) + b[..|b| - s]
  {
    var n := |b|;
    forall i | 0 <= i < n
      ensures ShiftLeft(b, s)[i] == (Zeros(s) + b[..n - s])[i]
    {
      assert ShiftLeft(b, s)[i] == ShiftRight(Reverse(b), s)[n - 1 - i];
    }
  }

  /** Reverse, shift right, reverse multiplies by a power of two, modulo the width. */
  lemma {:induction false} ShiftLeftMultiplies(b: BitVec, s: nat)
    requires s <= |b|
    ensures Val(ShiftLeft(b, s)) == (Pow2(s) * Val(b)) % Pow2(|b|)
  {
    var kept, lost := b[..|b| - s], b[|b| - s..];
    var p, k := Pow2(s), Pow2(|b| - s);
    assert Val(ShiftLeft(b, s)) == p * Val(kept) by {
      ShiftLeftBits(b, s);
      ShiftedUp(kept, s);
    }
    assert Val(b) == Val(kept) + k * Val(lost) by {
      SplitValue(b, |b| - s);
    }
    assert Pow2(|b|) == p * k by {
      Pow2Add(s, |b| - s);
    }
    assert Val(kept) < k by {
      ValBound(kept);
    }
    ShiftedMod(Val(kept), Val(lost), p, k, Val(b));
  }

  lemma ShiftedUp(b: BitVec, s: nat)
    ensures Val(Zeros(s) + b) == Pow2(s) * Val(b)
  {
    ValZeros(s);
    ValAppend(Zeros(s), b);
  }

  /** x * 2^s. */
  function Shl(x: nat, s: nat): nat {
    if s == 0 then x else 2 * Shl(x, s - 1)
  }

  lemma {:induction false} ShlIsProduct(x: nat, s: nat)
    ensures Shl(x, s) == x * Pow2(s)
  {
    if s > 0 {
      ShlIsProduct(x, s - 1);
      Double(Pow2(s - 1), x);
    }
  }

  lemma SplitValue(b: BitVec, k: nat)
    requires k <= |b|
    ensures Val(b) == Val(b[..k]) + Pow2(k) * Val(b[k..])
  {
    assert b == b[..k] + b[k..];
    ValAppend(b[..k], b[k..]);
  }

  lemma ShiftedMod(v: nat, w: nat, p: nat, k: nat, b: nat)
    requires b == v + k * w && v < k && p > 0
    ensures (p * b) % (p * k) == p * v
  {
    MulAtLeast(p, k - v);
    Distribute(p, v, k, w);
    ModUnique(p * b, p * k, w, p * v);
  }

  lemma Distribute(p: nat, v: nat, k: nat, w: nat)
    ensures p * (v + k * w) == (p * k) * w + p * v
    ensures v <= k ==> p * (k - v) == p * k - p * v
  {
    assert p * (k * w) == (p * k) * w;
  }
}
