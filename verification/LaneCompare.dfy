/** The comparison network of riscv_alu: four byte comparators whose flags are combined for
    one 32-bit, two 16-bit or four 8-bit lanes. */
module LaneCompare {
  import opened Bits
  import opened LaneAdder

  /** One flag for each byte. */
  type Flags = f: seq<bool> | |f| == 4 witness [false, false, false, false]

  /** cmp_signed: in a signed comparison the top byte of each lane is signed. */
  function CmpSigned(mode: VecMode, isSigned: bool): Flags {
    if !isSigned then [false, false, false, false]
    else match mode
      case VEC_MODE8 => [true, true, true, true]
      case VEC_MODE16 => [false, true, false, true]
      case VEC_MODE32 => [false, false, false, true]
  }

  /** A byte extended by its sign bit, or by zero. */
  function Extended(x: Byte, isSigned: bool): int {
    if isSigned && x >= 128 then x - 256 else x
  }

  function GreaterVec(mode: VecMode, isSigned: bool, a: Bytes, b: Bytes): Flags {
    var s := CmpSigned(mode, isSigned);
    [Extended(a[0], s[0]) > Extended(b[0], s[0]), Extended(a[1], s[1]) > Extended(b[1], s[1]),
     Extended(a[2], s[2]) > Extended(b[2], s[2]), Extended(a[3], s[3]) > Extended(b[3], s[3])]
  }

  function EqualVec(a: Bytes, b: Bytes): Flags {
    [a[0] == b[0], a[1] == b[1], a[2] == b[2], a[3] == b[3]]
  }

  function IsEqual(mode: VecMode, a: Bytes, b: Bytes): Flags {
    var e := EqualVec(a, b);
    match mode
    case VEC_MODE8 => e
    case VEC_MODE16 =>
      var low, high := e[0] && e[1], e[2] && e[3];
      [low, low, high, high]
    case VEC_MODE32 =>
      var all := e[3] && e[2] && e[1] && e[0];
      [all, all, all, all]
  }

  function IsGreater(mode: VecMode, isSigned: bool, a: Bytes, b: Bytes): Flags {
    var g, e := GreaterVec(mode, isSigned, a, b), EqualVec(a, b);
    match mode
    case VEC_MODE8 => g
    case VEC_MODE16 =>
      var low, high := g[1] || (e[1] && g[0]), g[3] || (e[3] && g[2]);
      [low, low, high, high]
    case VEC_MODE32 =>
      var all := g[3] || (e[3] && (g[2] || (e[2] && (g[1] || (e[1] && g[0])))));
      [all, all, all, all]
  }

  /** The integer comparisons. */
  datatype Comparison = EQ | NE | GT | GE | LT | LE

  function CmpResult(mode: VecMode, op: Comparison, isSigned: bool, a: Bytes, b: Bytes, k: nat): bool
    requires k < 4
  {
    var e, g := IsEqual(mode, a, b)[k], IsGreater(mode, isSigned, a, b)[k];
    match op
    case EQ => e
    case NE => !e
    case GT => g
    case GE => g || e
    case LT => !(g || e)
    case LE => !g
  }

  // ----- what the flags mean -----

  /** The signed or unsigned value of a lane. */
  function Number(x: seq<Byte>, isSigned: bool): int
    requires x != []
  {
    if |x| == 1 then Extended(x[0], isSigned) else (x[0] as int) + 256 * Number(x[1..], isSigned)
  }

  /** The value is that of the bits, less the modulus when the sign bit counts and is set. */
  lemma {:induction false} NumberIsTwosComplement(x: seq<Byte>, isSigned: bool)
    requires x != []
    ensures Number(x, isSigned) == LaneVal(x) - (if isSigned && x[|x| - 1] >= 128 then Pow256(|x|) else 0)
  {
    if |x| == 1 {
      assert x[1..] == [] && Pow256(1) == 256 * Pow256(0);
    } else {
      NumberIsTwosComplement(x[1..], isSigned);
    }
  }

  /** The higher bytes decide, and the lowest one if they are equal. */
  lemma PeelByte(x: seq<Byte>, y: seq<Byte>, isSigned: bool)
    requires |x| == |y| >= 2
    ensures var h, i := Number(x[1..], isSigned), Number(y[1..], isSigned);
            && (Number(x, isSigned) > Number(y, isSigned) <==> h > i || (h == i && x[0] > y[0]))
            && (Number(x, isSigned) == Number(y, isSigned) <==> h == i && x[0] == y[0])
  {
  }

  predicate Compare(op: Comparison, x: int, y: int) {
    match op
    case EQ => x == y
    case NE => x != y
    case GT => x > y
    case GE => x >= y
    case LT => x < y
    case LE => x <= y
  }

  lemma TwoBytes(x: seq<Byte>, y: seq<Byte>, isSigned: bool)
    requires |x| == |y| == 2
    ensures Number(x, isSigned) > Number(y, isSigned) <==>
            Extended(x[1], isSigned) > Extended(y[1], isSigned)
                || (x[1] == y[1] && Extended(x[0], false) > Extended(y[0], false))
    ensures Number(x, isSigned) == Number(y, isSigned) <==> x[1] == y[1] && x[0] == y[0]
  {
    PeelByte(x, y, isSigned);
    assert x[1..] == [x[1]] && y[1..] == [y[1]];
  }

  lemma FourBytes(x: seq<Byte>, y: seq<Byte>, isSigned: bool)
    requires |x| == |y| == 4
    ensures Number(x, isSigned) > Number(y, isSigned) <==>
            Number(x[2..], isSigned) > Number(y[2..], isSigned)
            || (x[3] == y[3] && x[2] == y[2] && (x[1] > y[1] || (x[1] == y[1] && x[0] > y[0])))
    ensures Number(x, isSigned) == Number(y, isSigned) <==> x == y
  {
    PeelByte(x, y, isSigned);
    PeelByte(x[1..], y[1..], isSigned);
    assert x[1..][1..] == x[2..] && y[1..][1..] == y[2..];
    TwoBytes(x[2..], y[2..], isSigned);
    assert x == [x[0], x[1], x[2], x[3]] && y == [y[0], y[1], y[2], y[3]];
  }

  /** The lane that a byte lies in. */
  function LaneOf(mode: VecMode, k: nat): (lane: nat)
    requires k < 4
    ensures lane < Lanes(mode)
  {
    match mode
    case VEC_MODE32 => 0
    case VEC_MODE16 => if k < 2 then 0 else 1
    case VEC_MODE8 => k
  }

  /** A flag for x > y and a flag for x == y. */
  predicate Ordered(g: bool, e: bool, x: seq<Byte>, y: seq<Byte>, isSigned: bool)
    requires x != [] && y != []
  {
    (g <==> Number(x, isSigned) > Number(y, isSigned)) && (e <==> Number(x, isSigned) == Number(y, isSigned))
  }

  lemma OrderInBytes(isSigned: bool, a: Bytes, b: Bytes, k: nat)
    requires k < 4
    ensures Ordered(IsGreater(VEC_MODE8, isSigned, a, b)[k], IsEqual(VEC_MODE8, a, b)[k], [a[k]], [b[k]], isSigned)
  {
    assert IsGreater(VEC_MODE8, isSigned, a, b)[k] <==> Extended(a[k], isSigned) > Extended(b[k], isSigned);
    assert IsEqual(VEC_MODE8, a, b)[k] <==> a[k] == b[k];
  }

  lemma OrderInHalves(isSigned: bool, a: Bytes, b: Bytes)
    ensures var g, e := IsGreater(VEC_MODE16, isSigned, a, b), IsEqual(VEC_MODE16, a, b);
            && g[0] == g[1] && e[0] == e[1] && Ordered(g[0], e[0], a[..2], b[..2], isSigned)
            && g[2] == g[3] && e[2] == e[3] && Ordered(g[2], e[2], a[2..], b[2..], isSigned)
  {
    TwoBytes(a[..2], b[..2], isSigned);
    TwoBytes(a[2..], b[2..], isSigned);
  }

  lemma OrderInWord(isSigned: bool, a: Bytes, b: Bytes, k: nat)
    requires k < 4
    ensures Ordered(IsGreater(VEC_MODE32, isSigned, a, b)[k], IsEqual(VEC_MODE32, a, b)[k], a, b, isSigned)
  {
    FourBytes(a, b, isSigned);
    TwoBytes(a[2..], b[2..], isSigned);
    assert a == [a[0], a[1], a[2], a[3]] && b == [b[0], b[1], b[2], b[3]];
  }

  /** The combined flags of a lane are the order and the equality of its values. */
  lemma LaneOrder(mode: VecMode, isSigned: bool, a: Bytes, b: Bytes, k: nat)
    requires k < 4
    ensures Ordered(IsGreater(mode, isSigned, a, b)[k], IsEqual(mode, a, b)[k],
                    Lane(mode, a, LaneOf(mode, k)), Lane(mode, b, LaneOf(mode, k)), isSigned)
  {
    match mode
    case VEC_MODE8 => OrderInBytes(isSigned, a, b, k);
    case VEC_MODE16 => OrderInHalves(isSigned, a, b);
    case VEC_MODE32 => OrderInWord(isSigned, a, b, k);
  }

  /** Vector comparison: in every mode the flag of every byte is the signed or unsigned
      comparison of the lane that the byte lies in. */
  lemma LaneComparison(mode: VecMode, op: Comparison, isSigned: bool, a: Bytes, b: Bytes, k: nat)
    requires k < 4
    ensures CmpResult(mode, op, isSigned, a, b, k)
            <==> Compare(op, Number(Lane(mode, a, LaneOf(mode, k)), isSigned),
                         Number(Lane(mode, b, LaneOf(mode, k)), isSigned))
  {
    LaneOrder(mode, isSigned, a, b, k);
  }
}
