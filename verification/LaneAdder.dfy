/** The partitioned adder of riscv_alu: one 36-bit addition with a guard bit below each byte
    serves one 32-bit, two 16-bit or four 8-bit lanes. */
module LaneAdder {
  import opened Bits

  datatype VecMode = VEC_MODE32 | VEC_MODE16 | VEC_MODE8

  /** A word as four bytes, the least significant first. */
  type Bytes = b: seq<Byte> | |b| == 4 witness [0, 0, 0, 0]

  /** The width of a lane in bytes. */
  function LaneBytes(mode: VecMode): nat {
    match mode
    case VEC_MODE32 => 4
    case VEC_MODE16 => 2
    case VEC_MODE8 => 1
  }

  /** A guard of operand a: one, except at the lane borders of an addition. */
  function GuardsA(mode: VecMode, carry: bool): (g: seq<bool>)
    ensures |g| == 4
  {
    if carry || mode.VEC_MODE32? then [true, true, true, true]
    else if mode.VEC_MODE16? then [true, true, false, true]
    else [true, false, false, false]
  }

  /** A guard of operand b: a one injects a carry into the lane above it. */
  function GuardsB(mode: VecMode, carry: bool): (g: seq<bool>)
    ensures |g| == 4
  {
    if !carry then [false, false, false, false]
    else match mode
      case VEC_MODE32 => [true, false, false, false]
      case VEC_MODE16 => [true, false, true, false]
      case VEC_MODE8 => [true, true, true, true]
  }

  /** The number whose nine-bit fields are the bytes, each with its guard below it. */
  function Guarded(x: seq<Byte>, g: seq<bool>): nat
    requires |g| == |x|
  {
    if x == [] then 0 else Bit(g[0]) + 2 * (x[0] as nat) + 512 * Guarded(x[1..], g[1..])
  }

  /** The byte in the lowest field of a sum. */
  function FieldByte(sum: nat): Byte {
    sum % 512 / 2
  }

  /** The bytes of a sum, without the guards. */
  function WithoutGuards(sum: nat, n: nat): (r: seq<Byte>)
    ensures |r| == n
  {
    if n == 0 then [] else [FieldByte(sum)] + WithoutGuards(sum / 512, n - 1)
  }

  /** The adder; carry is set for subtraction, ABS and CLIP. */
  function AdderResult(mode: VecMode, carry: bool, a: Bytes, b: Bytes): Bytes {
    WithoutGuards(Guarded(a, GuardsA(mode, carry)) + Guarded(b, GuardsB(mode, carry)), 4)
  }

  // ----- the carries that the guards let through -----

  /** The carry into a byte: the one from below if the guards differ, their own otherwise. */
  function CarryIn(ga: bool, gb: bool, below: bool): bool {
    if ga == gb then ga else below
  }

  /** Byte-wise addition, with the guards deciding which carries pass. */
  function Ripple(x: seq<Byte>, y: seq<Byte>, ga: seq<bool>, gb: seq<bool>, below: bool): (r: seq<Byte>)
    requires |x| == |y| == |ga| == |gb|
    ensures |r| == |x|
  {
    if x == [] then []
    else
      var s := x[0] + y[0] + Bit(CarryIn(ga[0], gb[0], below));
      [s % 256] + Ripple(x[1..], y[1..], ga[1..], gb[1..], s >= 256)
  }

  /** One field of the sum: its byte and the carry it passes on. */
  lemma OneField(x: Byte, y: Byte, ga: bool, gb: bool, below: bool, rest: nat, sum: nat)
    requires sum == Bit(ga) + 2 * x + Bit(gb) + 2 * y + Bit(below) + 512 * rest
    ensures var s := x + y + Bit(CarryIn(ga, gb, below));
            FieldByte(sum) == s % 256 && sum / 512 == rest + Bit(s >= 256)
  {
    var s := x + y + Bit(CarryIn(ga, gb, below));
    var f := Bit(ga) + 2 * x + Bit(gb) + 2 * y + Bit(below);
    assert f == 2 * s || f == 2 * s + 1;
    if s < 256 {
      assert sum / 512 == rest && sum % 512 == f;
    } else {
      assert sum / 512 == rest + 1 && sum % 512 == f - 512;
    }
  }

  lemma LowestField(x: Byte, y: Byte, ga: bool, gb: bool, below: bool, rest: nat, sum: nat, n: nat, s: nat)
    requires n > 0 && s == x + y + Bit(CarryIn(ga, gb, below))
    requires sum == Bit(ga) + 2 * x + Bit(gb) + 2 * y + Bit(below) + 512 * rest
    ensures WithoutGuards(sum, n) == [s % 256] + WithoutGuards(rest + Bit(s >= 256), n - 1)
  {
    OneField(x, y, ga, gb, below, rest, sum);
  }

  /** The wide addition is the byte-wise one. */
  lemma {:induction false} AdditionRipples(x: seq<Byte>, y: seq<Byte>, ga: seq<bool>, gb: seq<bool>, below: bool)
    requires |x| == |y| == |ga| == |gb|
    ensures WithoutGuards(Guarded(x, ga) + Guarded(y, gb) + Bit(below), |x|) == Ripple(x, y, ga, gb, below)
  {
    if x != [] {
      var s := x[0] + y[0] + Bit(CarryIn(ga[0], gb[0], below));
      var rest := Guarded(x[1..], ga[1..]) + Guarded(y[1..], gb[1..]);
      var sum := Bit(ga[0]) + 2 * (x[0] as nat) + Bit(gb[0]) + 2 * (y[0] as nat) + Bit(below) + 512 * rest;
      assert Guarded(x, ga) + Guarded(y, gb) + Bit(below) == sum;
      LowestField(x[0], y[0], ga[0], gb[0], below, rest, sum, |x|, s);
      AdditionRipples(x[1..], y[1..], ga[1..], gb[1..], s >= 256);
    }
  }

  // ----- lanes -----

  /** The value of a lane. */
  function LaneVal(x: seq<Byte>): nat {
    if x == [] then 0 else x[0] + 256 * LaneVal(x[1..])
  }

  /** 256^n. */
  function Pow256(n: nat): nat {
    if n == 0 then 1 else 256 * Pow256(n - 1)
  }

  /** Inside a lane every carry passes. */
  predicate Open(ga: seq<bool>, gb: seq<bool>)
    requires |ga| == |gb|
  {
    ga == [] || (ga[0] && !gb[0] && Open(ga[1..], gb[1..]))
  }

  lemma {:induction false} AllOpen(ga: seq<bool>, gb: seq<bool>)
    requires |ga| == |gb| && forall k :: 0 <= k < |ga| ==> ga[k] && !gb[k]
    ensures Open(ga, gb)
  {
    if ga != [] {
      AllOpen(ga[1..], gb[1..]);
    }
  }

  /** One byte of a lane: its sum, and the sum of the bytes above it with its carry. */
  lemma AddByte(x: Byte, y: Byte, c: nat, xs: nat, ys: nat, rs: nat, over: nat, s: nat)
    requires s == x + y + c && rs + over == xs + ys + Bit(s >= 256) && s < 512
    ensures (s % 256 + 256 * rs) + 256 * over == (x + 256 * xs) + (y + 256 * ys) + c
  {
  }

  lemma LaneValStep(x: seq<Byte>)
    requires x != []
    ensures LaneVal(x) == x[0] + 256 * LaneVal(x[1..])
  {
  }

  /** Byte-wise addition with open guards is addition of the values. */
  lemma {:induction false} OpenRippleAdds(x: seq<Byte>, y: seq<Byte>, ga: seq<bool>, gb: seq<bool>, c: bool)
    returns (out: bool)
    requires |x| == |y| == |ga| == |gb| && Open(ga, gb)
    ensures LaneVal(Ripple(x, y, ga, gb, c)) + (if out then Pow256(|x|) else 0) == LaneVal(x) + LaneVal(y) + Bit(c)
    decreases |x|, 1
  {
    if x == [] {
      out := c;
    } else {
      out := LaneStep(x, y, ga, gb, c, c);
    }
  }

  /** The first byte of a lane, with the carry that its guards let in. */
  lemma {:induction false} LaneStep(x: seq<Byte>, y: seq<Byte>, ga: seq<bool>, gb: seq<bool>, below: bool, c: bool)
    returns (out: bool)
    requires |x| == |y| == |ga| == |gb| && x != []
    requires CarryIn(ga[0], gb[0], below) == c && Open(ga[1..], gb[1..])
    ensures LaneVal(Ripple(x, y, ga, gb, below)) + (if out then Pow256(|x|) else 0) == LaneVal(x) + LaneVal(y) + Bit(c)
    decreases |x|, 0
  {
    var s := x[0] + y[0] + Bit(c);
    var rest := Ripple(x[1..], y[1..], ga[1..], gb[1..], s >= 256);
    assert Ripple(x, y, ga, gb, below) == [s % 256] + rest;
    LaneValHead(s % 256, rest);
    out := OpenRippleAdds(x[1..], y[1..], ga[1..], gb[1..], s >= 256);
    AddByte(x[0], y[0], Bit(c), LaneVal(x[1..]), LaneVal(y[1..]), LaneVal(rest), if out then Pow256(|x| - 1) else 0, s);
    LaneValStep(x);
    LaneValStep(y);
  }

  lemma LaneValHead(b: Byte, rest: seq<Byte>)
    ensures LaneVal([b] + rest) == b + 256 * LaneVal(rest)
  {
    assert ([b] + rest)[1..] == rest;
  }

  lemma {:induction false} LaneValBound(x: seq<Byte>)
    ensures LaneVal(x) < Pow256(|x|)
  {
    if x != [] {
      LaneValBound(x[1..]);
    }
  }

  /** A lane starting at the bottom of a ripple takes no part in what lies above it. */
  lemma {:induction false} RipplePrefix(x: seq<Byte>, y: seq<Byte>, ga: seq<bool>, gb: seq<bool>, c: bool, w: nat)
    requires |x| == |y| == |ga| == |gb| && w <= |x|
    ensures Ripple(x, y, ga, gb, c)[..w] == Ripple(x[..w], y[..w], ga[..w], gb[..w], c)
  {
    if w > 0 {
      var s := x[0] + y[0] + Bit(CarryIn(ga[0], gb[0], c));
      RipplePrefix(x[1..], y[1..], ga[1..], gb[1..], s >= 256, w - 1);
      assert x[..w][1..] == x[1..][..w - 1] && y[..w][1..] == y[1..][..w - 1];
      assert ga[..w][1..] == ga[1..][..w - 1] && gb[..w][1..] == gb[1..][..w - 1];
    }
  }

  lemma Drops<T>(x: seq<T>, k: nat)
    requires 0 < k <= |x|
    ensures x[1..][k - 1..] == x[k..]
  {
  }

  /** Above any point the ripple goes on with some carry. */
  lemma {:induction false} RippleSuffix(x: seq<Byte>, y: seq<Byte>, ga: seq<bool>, gb: seq<bool>, c: bool, k: nat)
    returns (d: bool)
    requires |x| == |y| == |ga| == |gb| && k <= |x|
    ensures k == 0 ==> d == c
    ensures Ripple(x, y, ga, gb, c)[k..] == Ripple(x[k..], y[k..], ga[k..], gb[k..], d)
  {
    if k == 0 {
      d := c;
      assert x[0..] == x && y[0..] == y && ga[0..] == ga && gb[0..] == gb;
    } else {
      var s := x[0] + y[0] + Bit(CarryIn(ga[0], gb[0], c));
      var tail := Ripple(x[1..], y[1..], ga[1..], gb[1..], s >= 256);
      d := RippleSuffix(x[1..], y[1..], ga[1..], gb[1..], s >= 256, k - 1);
      assert Ripple(x, y, ga, gb, c)[k..] == tail[k - 1..];
      Drops(x, k);
      Drops(y, k);
      Drops(ga, k);
      Drops(gb, k);
    }
  }

  /** A lane: its lowest guards inject c, the others are open. */
  lemma LaneAdds(x: seq<Byte>, y: seq<Byte>, ga: seq<bool>, gb: seq<bool>, below: bool, c: bool)
    requires |x| == |y| == |ga| == |gb| && x != []
    requires CarryIn(ga[0], gb[0], below) == c && Open(ga[1..], gb[1..])
    ensures var r := LaneVal(Ripple(x, y, ga, gb, below)); var t := LaneVal(x) + LaneVal(y) + Bit(c);
            r < Pow256(|x|) && (r == t || r == t - Pow256(|x|))
  {
    var _ := LaneStep(x, y, ga, gb, below, c);
    LaneValBound(Ripple(x, y, ga, gb, below));
  }

  /** The k-th lane of a word. */
  function Lane(mode: VecMode, x: Bytes, k: nat): seq<Byte>
    requires k < Lanes(mode)
  {
    match mode
    case VEC_MODE32 => x
    case VEC_MODE16 => if k == 0 then x[..2] else x[2..]
    case VEC_MODE8 => [x[k]]
  }

  function Lanes(mode: VecMode): nat {
    match mode
    case VEC_MODE32 => 1
    case VEC_MODE16 => 2
    case VEC_MODE8 => 4
  }

  /** 2 to the number of bits in a lane. */
  function Modulus(mode: VecMode): nat {
    match mode
    case VEC_MODE32 => 0x1_0000_0000
    case VEC_MODE16 => 0x1_0000
    case VEC_MODE8 => 256
  }

  lemma LaneIsSlice(mode: VecMode, x: Bytes, k: nat, from: nat)
    requires k < Lanes(mode) && from == (if mode.VEC_MODE16? then 2 * k else k)
    ensures from + LaneBytes(mode) <= 4
    ensures Lane(mode, x, k) == x[from..][..LaneBytes(mode)]
    ensures Pow256(LaneBytes(mode)) == Modulus(mode)
  {
    assert Pow256(1) == 256 && Pow256(2) == 256 * Pow256(1);
    assert Pow256(4) == 256 * Pow256(3) == 256 * (256 * Pow256(2));
  }

  lemma GuardsOfLane(mode: VecMode, carry: bool, k: nat, from: nat, below: bool)
    requires k < Lanes(mode) && from == (if mode.VEC_MODE16? then 2 * k else k) && (k == 0 ==> !below)
    ensures var w := LaneBytes(mode);
            var ga, gb := GuardsA(mode, carry)[from..][..w], GuardsB(mode, carry)[from..][..w];
            CarryIn(ga[0], gb[0], below) == carry && Open(ga[1..], gb[1..])
  {
    var w := LaneBytes(mode);
    AllOpen(GuardsA(mode, carry)[from..][..w][1..], GuardsB(mode, carry)[from..][..w][1..]);
  }

  /** A slice of the sum is the ripple of the slices. */
  lemma SliceRipples(mode: VecMode, carry: bool, a: Bytes, b: Bytes, from: nat, w: nat) returns (below: bool)
    requires from + w <= 4
    ensures from == 0 ==> !below
    ensures AdderResult(mode, carry, a, b)[from..][..w]
            == Ripple(a[from..][..w], b[from..][..w], GuardsA(mode, carry)[from..][..w],
                      GuardsB(mode, carry)[from..][..w], below)
  {
    var ga, gb := GuardsA(mode, carry), GuardsB(mode, carry);
    AdditionRipples(a, b, ga, gb, false);
    below := RippleSuffix(a, b, ga, gb, false, from);
    RipplePrefix(a[from..], b[from..], ga[from..], gb[from..], below, w);
  }

  /** The lane of a sum, before the modulus. */
  lemma LaneOfSum(mode: VecMode, carry: bool, a: Bytes, b: Bytes, k: nat)
    requires k < Lanes(mode)
    ensures var r := LaneVal(Lane(mode, AdderResult(mode, carry, a, b), k));
            var t := LaneVal(Lane(mode, a, k)) + LaneVal(Lane(mode, b, k)) + Bit(carry);
            r < Modulus(mode) && (r == t || r == t - Modulus(mode))
  {
    var w, from := LaneBytes(mode), if mode.VEC_MODE16? then 2 * k else k;
    LaneIsSlice(mode, a, k, from);
    LaneIsSlice(mode, b, k, from);
    LaneIsSlice(mode, AdderResult(mode, carry, a, b), k, from);
    var below := SliceRipples(mode, carry, a, b, from, w);
    var ga, gb := GuardsA(mode, carry)[from..][..w], GuardsB(mode, carry)[from..][..w];
    assert CarryIn(ga[0], gb[0], below) == carry && Open(ga[1..], gb[1..]) by {
      GuardsOfLane(mode, carry, k, from, below);
    }
    LaneAdds(a[from..][..w], b[from..][..w], ga, gb, below, carry);
  }

  /** Vector addition: in every mode each lane of the result is the sum of the lanes, plus
      one if a carry is injected, modulo the width of the lane. */
  lemma LaneAddition(mode: VecMode, carry: bool, a: Bytes, b: Bytes, k: nat)
    requires k < Lanes(mode)
    ensures LaneVal(Lane(mode, AdderResult(mode, carry, a, b), k))
            == (LaneVal(Lane(mode, a, k)) + LaneVal(Lane(mode, b, k)) + Bit(carry)) % Modulus(mode)
  {
    LaneOfSum(mode, carry, a, b, k);
    Reduce(mode, LaneVal(Lane(mode, AdderResult(mode, carry, a, b), k)),
           LaneVal(Lane(mode, a, k)) + LaneVal(Lane(mode, b, k)) + Bit(carry));
  }

  lemma Reduce(mode: VecMode, r: nat, t: int)
    requires r < Modulus(mode) && (r == t || r == t - Modulus(mode) || r == t + Modulus(mode))
    ensures r == t % Modulus(mode)
  {
  }

  /** operand_b_neg. */
  function NotBytes(x: seq<Byte>): (r: seq<Byte>)
    ensures |r| == |x|
  {
    seq(|x|, i requires 0 <= i < |x| => 255 - x[i])
  }

  lemma {:induction false} ComplementValue(x: seq<Byte>)
    ensures LaneVal(NotBytes(x)) == Pow256(|x|) - 1 - LaneVal(x)
  {
    if x != [] {
      assert NotBytes(x)[1..] == NotBytes(x[1..]);
      ComplementValue(x[1..]);
    }
  }

  /** Vector subtraction: with the complement of b and a carry, each lane of the result is
      the difference of the lanes modulo the width of the lane. */
  lemma LaneSubtraction(mode: VecMode, a: Bytes, b: Bytes, k: nat)
    requires k < Lanes(mode)
    ensures LaneVal(Lane(mode, AdderResult(mode, true, a, NotBytes(b)), k))
            == (LaneVal(Lane(mode, a, k)) - LaneVal(Lane(mode, b, k))) % Modulus(mode)
  {
    LaneOfSum(mode, true, a, NotBytes(b), k);
    assert Lane(mode, NotBytes(b), k) == NotBytes(Lane(mode, b, k));
    ComplementValue(Lane(mode, b, k));
    LaneIsSlice(mode, b, k, if mode.VEC_MODE16? then 2 * k else k);
    Reduce(mode, LaneVal(Lane(mode, AdderResult(mode, true, a, NotBytes(b)), k)),
           LaneVal(Lane(mode, a, k)) - LaneVal(Lane(mode, b, k)));
  }
}
