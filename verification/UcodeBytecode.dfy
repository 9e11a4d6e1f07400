/** The packing half of ucode_common.py: flattening the blocks of the loops, and the
    bytecode words from which code and loops can be recovered. */
module UcodeBytecode {
  import opened Arith
  import opened Bits
  import U = Ucode
  import R = UcodeRegisters

  /** A BitArray: its bits in the order of appending, the most significant first. */
  type BitArray = seq<bool>

  /** A field does not hold its value: the bitstring library raises a CreationError. */
  datatype Result = Bytecode(code: BitArray, loops: BitArray) | CreationError

  // ----- flattening -----

  function SumTo(ops: seq<nat>, j: nat): nat
    requires j <= |ops|
  {
    if j == 0 then 0 else SumTo(ops, j - 1) + ops[j - 1]
  }

  function Lengths(blocks: seq<seq<R.Instr>>): (ops: seq<nat>)
    ensures |ops| == |blocks|
  {
    seq(|blocks|, j requires 0 <= j < |blocks| => |blocks[j]|)
  }

  /** The first l blocks, one behind the other. */
  function Flatten(blocks: seq<seq<R.Instr>>, l: nat): seq<R.Instr>
    requires l <= |blocks|
  {
    if l == 0 then [] else Flatten(blocks, l - 1) + blocks[l - 1]
  }

  /** Concatenate the blocks, and note their lengths. */
  method UcodeLoad(blocks: seq<seq<R.Instr>>) returns (loopsOps: seq<nat>, code: seq<R.Instr>)
    ensures loopsOps == Lengths(blocks) && code == Flatten(blocks, |blocks|)
  {
    loopsOps, code := [], [];
    for l := 0 to |blocks|
      invariant loopsOps == Lengths(blocks)[..l] && code == Flatten(blocks, l)
    {
      code := code + blocks[l];
      loopsOps := loopsOps + [|blocks[l]|];
    }
    assert loopsOps == Lengths(blocks);
  }

  lemma {:induction false} FlattenedLength(blocks: seq<seq<R.Instr>>, l: nat)
    requires l <= |blocks|
    ensures |Flatten(blocks, l)| == SumTo(Lengths(blocks), l)
  {
    if l > 0 {
      FlattenedLength(blocks, l - 1);
    }
  }

  /** The code of a loop lies where the lengths of the blocks before it end. */
  lemma {:induction false} BlockInPlace(blocks: seq<seq<R.Instr>>, l: nat, j: nat)
    requires j < l <= |blocks|
    ensures var from, code := SumTo(Lengths(blocks), j), Flatten(blocks, l);
            from + |blocks[j]| <= |code| && code[from..from + |blocks[j]|] == blocks[j]
  {
    FlattenedLength(blocks, l - 1);
    if j < l - 1 {
      BlockInPlace(blocks, l - 1, j);
    }
  }

  function LoopsOf(ops: seq<nat>, ranges: seq<nat>): (loops: seq<U.Loop>)
    ensures |loops| == if |ops| < |ranges| then |ops| else |ranges|
  {
    seq(if |ops| < |ranges| then |ops| else |ranges|,
        j requires 0 <= j < |ops| && j < |ranges| => U.Loop(ranges[j], ops[j], SumTo(ops, j)))
  }

  /** Loop j starts where the blocks before it end; the shorter list decides. */
  method UcodeGetLoops(ops: seq<nat>, ranges: seq<nat>) returns (loops: seq<U.Loop>)
    ensures loops == LoopsOf(ops, ranges)
  {
    loops := [];
    var a := 0;
    var n := if |ops| < |ranges| then |ops| else |ranges|;
    for j := 0 to n
      invariant a == SumTo(ops, j) && loops == LoopsOf(ops, ranges)[..j]
    {
      loops := loops + [U.Loop(ranges[j], ops[j], a)];
      a := a + ops[j];
    }
  }

  lemma {:induction false} SumMonotone(ops: seq<nat>, i: nat, j: nat)
    requires i <= j <= |ops|
    ensures SumTo(ops, i) <= SumTo(ops, j)
  {
    if i < j {
      SumMonotone(ops, i, j - 1);
    }
  }

  /** The loops made for flattened blocks lie in the code: what the closed form needs. */
  lemma LoopsInMemory(blocks: seq<seq<R.Instr>>, ranges: seq<nat>)
    requires blocks != [] && ranges != []
    requires forall j :: 0 <= j < |blocks| ==> blocks[j] != []
    requires forall j :: 0 <= j < |ranges| ==> ranges[j] >= 1
    ensures R.InMemory(LoopsOf(Lengths(blocks), ranges), Flatten(blocks, |blocks|))
  {
    var ops := Lengths(blocks);
    var loops := LoopsOf(ops, ranges);
    FlattenedLength(blocks, |blocks|);
    forall j | 0 <= j < |loops|
      ensures loops[j].ucodeAddr + loops[j].nbOps <= SumTo(ops, |ops|)
      ensures loops[j].range >= 1 && loops[j].nbOps >= 1
    {
      BlockEnds(ops, j);
      assert blocks[j] != [];
    }
  }

  lemma BlockEnds(ops: seq<nat>, j: nat)
    requires j < |ops|
    ensures SumTo(ops, j) + ops[j] <= SumTo(ops, |ops|)
  {
    assert SumTo(ops, j + 1) == SumTo(ops, j) + ops[j];
    SumMonotone(ops, j + 1, |ops|);
  }

  // ----- packing -----

  /** BitArray(uint=x, length=n): most significant bit first. */
  function Uint(x: nat, n: nat): (b: BitArray)
    ensures |b| == n
  {
    Reverse(FromNat(x, n))
  }

  predicate OpFits(c: R.Instr) {
    c.a < 32 && c.b < 32
  }

  predicate LoopFits(a: nat, o: nat) {
    a < 32 && o < 8
  }

  /** The bits of an op, the least significant first: b, a, op_sel. */
  function OpField(c: R.Instr): (f: BitVec)
    ensures |f| == 11
  {
    FromNat(c.b, 5) + FromNat(c.a, 5) + [c.opSel]
  }

  /** The bits of a loop, the least significant first: its length, its address. */
  function LoopField(a: nat, o: nat): (f: BitVec)
    ensures |f| == 8
  {
    FromNat(o, 3) + FromNat(a, 5)
  }

  function OpFields(code: seq<R.Instr>): (f: BitVec) {
    if code == [] then [] else OpField(code[0]) + OpFields(code[1..])
  }

  function LoopFields(ops: seq<nat>, j: nat): (f: BitVec)
    requires j <= |ops|
    decreases |ops| - j
  {
    if j == |ops| then [] else LoopField(SumTo(ops, j), ops[j]) + LoopFields(ops, j + 1)
  }

  /** The loops from j on fit. */
  predicate LoopsFit(ops: seq<nat>, j: nat)
    requires j <= |ops|
    decreases |ops| - j
  {
    j == |ops| || (LoopFits(SumTo(ops, j), ops[j]) && LoopsFit(ops, j + 1))
  }

  lemma {:induction false} LoopFitsAt(ops: seq<nat>, from: nat, j: nat)
    requires from <= j < |ops| && LoopsFit(ops, from)
    ensures LoopFits(SumTo(ops, j), ops[j])
    decreases |ops| - from
  {
    if from < j {
      LoopFitsAt(ops, from + 1, j);
    }
  }

  lemma {:induction false} LoopsFitBelow(ops: seq<nat>, from: nat, j: nat)
    requires from <= j <= |ops| && !LoopsFit(ops, j)
    ensures !LoopsFit(ops, from)
    decreases |ops| - from
  {
    if from < j {
      LoopsFitBelow(ops, from + 1, j);
    }
  }

  predicate Encodable(code: seq<R.Instr>, ops: seq<nat>) {
    && (forall i :: 0 <= i < |code| ==> OpFits(code[i]))
    && LoopsFit(ops, 0)
  }

  lemma ReverseConcat(a: BitVec, b: BitVec)
    ensures Reverse(a + b) == Reverse(b) + Reverse(a)
    ensures Reverse(Reverse(a)) == a
  {
  }

  lemma OpBits(c: R.Instr)
    ensures [c.opSel] + Uint(c.a, 5) + Uint(c.b, 5) == Reverse(OpField(c))
  {
    ReverseConcat(FromNat(c.b, 5) + FromNat(c.a, 5), [c.opSel]);
    ReverseConcat(FromNat(c.b, 5), FromNat(c.a, 5));
  }

  lemma LoopBits(a: nat, o: nat)
    ensures Uint(a, 5) + Uint(o, 3) == Reverse(LoopField(a, o))
  {
    ReverseConcat(FromNat(o, 3), FromNat(a, 5));
  }

  function Max0(x: int): nat {
    if x < 0 then 0 else x
  }

  /** The code word is built from the last op to the first, then padded on the left. */
  method PackCode(code: seq<R.Instr>) returns (ok: bool, bits: BitArray)
    ensures ok <==> forall k :: 0 <= k < |code| ==> OpFits(code[k])
    ensures ok ==> Reverse(bits) == OpFields(code) + Zeros(Max0(176 - |OpFields(code)|))
  {
    ok, bits := true, [];
    var i := |code|;
    while i > 0
      invariant 0 <= i <= |code| && Reverse(bits) == OpFields(code[i..])
      invariant forall k :: i <= k < |code| ==> OpFits(code[k])
    {
      i := i - 1;
      var c := code[i];
      if c.a >= 32 || c.b >= 32 {
        return false, bits;
      }
      AppendOp(bits, code, i);
      bits := bits + ([c.opSel] + Uint(c.a, 5) + Uint(c.b, 5));
    }
    assert code[0..] == code;
    Padded(bits, Max0(176 - |bits|));
    bits := Zeros(Max0(176 - |bits|)) + bits;
  }

  lemma AppendOp(bits: BitArray, code: seq<R.Instr>, i: nat)
    requires i < |code| && Reverse(bits) == OpFields(code[i + 1..])
    ensures Reverse(bits + ([code[i].opSel] + Uint(code[i].a, 5) + Uint(code[i].b, 5))) == OpFields(code[i..])
  {
    var field := OpField(code[i]);
    OpBits(code[i]);
    ReverseConcat(bits, Reverse(field));
    ReverseConcat(field, []);
    assert code[i..][0] == code[i] && code[i..][1..] == code[i + 1..];
  }

  lemma Padded(bits: BitArray, n: nat)
    ensures Reverse(Zeros(n) + bits) == Reverse(bits) + Zeros(n)
  {
    ReverseConcat(Zeros(n), bits);
    assert Reverse(Zeros(n)) == Zeros(n);
  }

  /** The addresses of the loops. */
  method Addresses(loopsOps: seq<nat>) returns (addr: seq<nat>)
    ensures |addr| == |loopsOps|
    ensures forall k :: 0 <= k < |addr| ==> addr[k] == SumTo(loopsOps, k)
  {
    var a := 0;
    addr := [];
    for j := 0 to |loopsOps|
      invariant a == SumTo(loopsOps, j) && |addr| == j
      invariant forall k :: 0 <= k < j ==> addr[k] == SumTo(loopsOps, k)
    {
      addr := addr + [a];
      a := a + loopsOps[j];
    }
  }

  /** The loop word is built from the last loop to the first. */
  method PackLoops(loopsOps: seq<nat>) returns (ok: bool, loops: BitArray)
    ensures ok <==> LoopsFit(loopsOps, 0)
    ensures ok ==> Reverse(loops) == LoopFields(loopsOps, 0)
  {
    ok, loops := true, [];
    var addr := Addresses(loopsOps);
    var j := |loopsOps|;
    while j > 0
      invariant 0 <= j <= |loopsOps| && LoopsFit(loopsOps, j) && Reverse(loops) == LoopFields(loopsOps, j)
    {
      j := j - 1;
      if addr[j] >= 32 || loopsOps[j] >= 8 {
        LoopsFitBelow(loopsOps, 0, j);
        return false, loops;
      }
      AppendLoop(loops, loopsOps, j);
      loops := loops + (Uint(addr[j], 5) + Uint(loopsOps[j], 3));
    }
  }

  lemma AppendLoop(bits: BitArray, ops: seq<nat>, j: nat)
    requires j < |ops| && Reverse(bits) == LoopFields(ops, j + 1)
    ensures Reverse(bits + (Uint(SumTo(ops, j), 5) + Uint(ops[j], 3))) == LoopFields(ops, j)
  {
    var field := LoopField(SumTo(ops, j), ops[j]);
    LoopBits(SumTo(ops, j), ops[j]);
    ReverseConcat(bits, Reverse(field));
    ReverseConcat(field, []);
  }

  /** The bytecode, or the error of the first field that does not fit. */
  method UcodeBytecode(code: seq<R.Instr>, loopsOps: seq<nat>) returns (r: Result)
    ensures r.CreationError? <==> !Encodable(code, loopsOps)
    ensures r.Bytecode? ==> IsBytecode(code, loopsOps, r.code, r.loops)
  {
    var codeOk, bits := PackCode(code);
    if !codeOk {
      return CreationError;
    }
    var loopsOk, loops := PackLoops(loopsOps);
    if !loopsOk {
      return CreationError;
    }
    return Bytecode(bits, loops);
  }

  ghost predicate IsBytecode(code: seq<R.Instr>, ops: seq<nat>, codeWord: BitArray, loopWord: BitArray) {
    && Reverse(codeWord) == OpFields(code) + Zeros(Max0(176 - |OpFields(code)|))
    && Reverse(loopWord) == LoopFields(ops, 0)
  }

  // ----- unpacking -----

  /** The op whose bits are f[pos .. pos + 11]. */
  function OpAt(f: BitVec, pos: nat): R.Instr
    requires pos + 11 <= |f|
  {
    R.Instr(f[pos + 10], Val(f[pos + 5..pos + 10]), Val(f[pos..pos + 5]))
  }

  /** Address and length of the loop whose bits are f[pos .. pos + 8]. */
  function LoopAt(f: BitVec, pos: nat): (nat, nat)
    requires pos + 8 <= |f|
  {
    (Val(f[pos + 3..pos + 8]), Val(f[pos..pos + 3]))
  }

  lemma FieldValue(x: nat, w: nat)
    requires x < Pow2(w)
    ensures Val(FromNat(x, w)) == x
  {
    ValFromNat(x, w);
    ModUnique(x, Pow2(w), 0, x);
  }

  /** The parts of a field between other bits. */
  lemma PartsOf(before: BitVec, x: BitVec, y: BitVec, z: BitVec, after: BitVec)
    ensures var f, p := before + (x + y + z) + after, |before|;
            f[p..p + |x|] == x && f[p + |x|..p + |x| + |y|] == y && f[p + |x| + |y|..p + |x| + |y| + |z|] == z
  {
  }

  lemma OpFieldDecodes(c: R.Instr, before: BitVec, after: BitVec)
    requires OpFits(c)
    ensures OpAt(before + OpField(c) + after, |before|) == c
  {
    Pow2Of32();
    PartsOf(before, FromNat(c.b, 5), FromNat(c.a, 5), [c.opSel], after);
    var f, p := before + OpField(c) + after, |before|;
    assert f[p + 10] == f[p + 10..p + 11][0];
    FieldValue(c.b, 5);
    FieldValue(c.a, 5);
  }

  lemma LoopFieldDecodes(a: nat, o: nat, before: BitVec, after: BitVec)
    requires LoopFits(a, o)
    ensures LoopAt(before + LoopField(a, o) + after, |before|) == (a, o)
  {
    Pow2Of32();
    assert Pow2(3) == 8;
    PartsOf(before, FromNat(o, 3), FromNat(a, 5), [], after);
    assert LoopField(a, o) + [] == LoopField(a, o);
    FieldValue(o, 3);
    FieldValue(a, 5);
  }

  lemma {:induction false} OpFieldsDecode(code: seq<R.Instr>, before: BitVec, after: BitVec, i: nat)
    requires i < |code| && forall k :: 0 <= k < |code| ==> OpFits(code[k])
    ensures var f, pos := before + OpFields(code) + after, |before| + Times(i, 11);
            pos + 11 <= |f| && OpAt(f, pos) == code[i]
    decreases |code|
  {
    var field, rest := OpField(code[0]), OpFields(code[1..]);
    Regroup(before, field, rest, after);
    if i == 0 {
      OpFieldDecodes(code[0], before, rest + after);
    } else {
      OpFieldsDecode(code[1..], before + field, after, i - 1);
    }
  }

  lemma Regroup(a: BitVec, b: BitVec, c: BitVec, d: BitVec)
    ensures a + (b + c) + d == a + b + (c + d) == (a + b) + c + d
  {
  }

  lemma {:induction false} LoopFieldsDecode(ops: seq<nat>, j: nat, before: BitVec, i: nat)
    requires j <= i < |ops| && LoopsFit(ops, 0)
    ensures var f, pos := before + LoopFields(ops, j), |before| + Times(i - j, 8);
            pos + 8 <= |f| && LoopAt(f, pos) == (SumTo(ops, i), ops[i])
    decreases |ops| - j
  {
    var field, rest := LoopField(SumTo(ops, j), ops[j]), LoopFields(ops, j + 1);
    Grow(before, field, rest);
    if i == j {
      LoopFitsAt(ops, 0, j);
      LoopFieldDecodes(SumTo(ops, j), ops[j], before, rest);
    } else {
      LoopFieldsDecode(ops, j + 1, before + field, i);
      assert Times(i - j, 8) == 8 + Times(i - j - 1, 8);
    }
  }

  lemma Grow(a: BitVec, b: BitVec, c: BitVec)
    ensures a + (b + c) == a + b + c
  {
  }

  lemma NothingBefore(x: BitVec, y: BitVec)
    ensures [] + x + y == x + y
  {
  }

  lemma {:induction false} OpsFromStart(code: seq<R.Instr>, after: BitVec, f: BitVec, i: nat)
    requires i < |code| && forall k :: 0 <= k < |code| ==> OpFits(code[k])
    requires f == OpFields(code) + after
    ensures Times(i, 11) + 11 <= |f| && OpAt(f, Times(i, 11)) == code[i]
  {
    NothingBefore(OpFields(code), after);
    OpFieldsDecode(code, [], after, i);
  }

  lemma {:induction false} CodeWordDecodes(code: seq<R.Instr>, codeWord: BitArray, i: nat)
    requires i < |code| && forall k :: 0 <= k < |code| ==> OpFits(code[k])
    requires Reverse(codeWord) == OpFields(code) + Zeros(Max0(176 - |OpFields(code)|))
    ensures Times(i, 11) + 11 <= |codeWord| && OpAt(Reverse(codeWord), Times(i, 11)) == code[i]
  {
    OpsFromStart(code, Zeros(Max0(176 - |OpFields(code)|)), Reverse(codeWord), i);
  }

  lemma LoopWordDecodes(ops: seq<nat>, loopWord: BitArray, j: nat)
    requires j < |ops| && LoopsFit(ops, 0)
    requires Reverse(loopWord) == LoopFields(ops, 0)
    ensures Times(j, 8) + 8 <= |loopWord| && LoopAt(Reverse(loopWord), Times(j, 8)) == (SumTo(ops, j), ops[j])
  {
    LoopFieldsDecode(ops, 0, [], j);
    assert [] + LoopFields(ops, 0) == LoopFields(ops, 0);
  }

  /** Bytecode round trip: op i is recovered from bits 11 i to 11 i + 10 of the code word,
      and loop j, with the address ucode_get_loops gives it, from byte j of the loop word. */
  lemma BytecodeRoundTrip(code: seq<R.Instr>, ops: seq<nat>, ranges: seq<nat>, codeWord: BitArray, loopWord: BitArray)
    requires Encodable(code, ops) && |ranges| >= |ops| && IsBytecode(code, ops, codeWord, loopWord)
    ensures forall i :: 0 <= i < |code| ==>
              Times(i, 11) + 11 <= |codeWord| && OpAt(Reverse(codeWord), Times(i, 11)) == code[i]
    ensures forall j :: 0 <= j < |ops| ==>
              && Times(j, 8) + 8 <= |loopWord|
              && LoopAt(Reverse(loopWord), Times(j, 8)) == (LoopsOf(ops, ranges)[j].ucodeAddr, ops[j])
  {
    forall i | 0 <= i < |code|
      ensures Times(i, 11) + 11 <= |codeWord| && OpAt(Reverse(codeWord), Times(i, 11)) == code[i]
    {
      CodeWordDecodes(code, codeWord, i);
    }
    forall j | 0 <= j < |ops|
      ensures Times(j, 8) + 8 <= |loopWord| && LoopAt(Reverse(loopWord), Times(j, 8)) == (SumTo(ops, j), ops[j])
    {
      LoopWordDecodes(ops, loopWord, j);
    }
  }

  /** Up to sixteen ops make a code word of exactly 176 bits. */
  lemma {:induction false} CodeWordWidth(code: seq<R.Instr>)
    ensures |OpFields(code)| == Times(|code|, 11)
    ensures |code| <= 16 <==> |OpFields(code)| <= 176
    decreases |code|
  {
    if code != [] {
      CodeWordWidth(code[1..]);
    }
    TimesIsProduct(|code|, 11);
  }

  lemma {:induction false} LoopFieldsWidth(ops: seq<nat>, j: nat)
    requires j <= |ops|
    ensures |LoopFields(ops, j)| == Times(|ops| - j, 8)
    decreases |ops| - j
  {
    if j < |ops| {
      LoopFieldsWidth(ops, j + 1);
    }
  }

  /** The code word has 176 bits, or as many as the ops need if there are more than sixteen; the
      loop word has a byte for each loop. */
  lemma WordLengths(code: seq<R.Instr>, ops: seq<nat>, codeWord: BitArray, loopWord: BitArray)
    requires IsBytecode(code, ops, codeWord, loopWord)
    ensures |codeWord| == if |code| <= 16 then 176 else 11 * |code|
    ensures |loopWord| == 8 * |ops|
  {
    CodeWordWidth(code);
    LoopFieldsWidth(ops, 0);
    TimesIsProduct(|code|, 11);
    TimesIsProduct(|ops|, 8);
    assert |Reverse(codeWord)| == |codeWord| && |Reverse(loopWord)| == |loopWord|;
  }
}
