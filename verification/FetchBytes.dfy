/** The instruction stream in byte addresses: a parser that counts bytes modulo 2^32 and knows
    nothing of words, and the proof that the realigner delivers what it reads. */
module FetchBytes {
  import opened FetchFifo
  import opened FetchStream
  import opened Wrappers

  const BYTES := 0x1_0000_0000

  /** The number whose bits 31 to 2, 1 and 0 are those of the address. */
  function ByteAddr(a: Addr): nat {
    4 * a.index + (if a.upper then 2 else 0) + if a.odd then 1 else 0
  }

  /** The half-word of memory at an even byte address. */
  function HalfOf(mem: Image, n: nat): Half {
    var word := mem(Addr(n / 4 % 0x4000_0000, false, false));
    if n % 4 >= 2 then word.high else word.low
  }

  /** An instruction as its byte address and its half-words. */
  datatype Located = Located(at: nat, halves: seq<Half>)

  /** Section 1.5 of the RISC-V Unprivileged ISA: four bytes if the low two bits are 11. */
  function ReadAt(mem: Image, n: nat): Located {
    var h := HalfOf(mem, n);
    Located(n, if h % 4 == 3 then [h, HalfOf(mem, (n + 2) % BYTES)] else [h])
  }

  /** k instructions from byte n on. */
  function ReadFrom(mem: Image, n: nat, k: nat): (r: seq<Located>)
    ensures |r| == k
    decreases k
  {
    if k == 0 then []
    else
      var l := ReadAt(mem, n);
      [l] + ReadFrom(mem, (n + 2 * |l.halves|) % BYTES, k - 1)
  }

  /** A delivered word shows a located instruction; of a compressed one only the low half counts. */
  predicate Delivers(e: Emission, l: Located) {
    && 1 <= |l.halves| <= 2
    && ByteAddr(e.addr) == l.at && e.rdata.low == l.halves[0]
    && (|l.halves| == 2 ==> e.rdata.high == l.halves[1])
  }

  ghost predicate DeliversAll(es: seq<Emission>, ls: seq<Located>) {
    |es| == |ls| && forall k :: 0 <= k < |es| ==> Delivers(es[k], ls[k])
  }

  // ----- addresses -----

  lemma AddrParts(a: Addr)
    ensures ByteAddr(a) / 4 == a.index
    ensures ByteAddr(a) % 4 == (if a.upper then 2 else 0) + if a.odd then 1 else 0
  {
  }

  lemma WrapsAround(n: nat)
    requires n < 2 * BYTES
    ensures n % BYTES == if n < BYTES then n else n - BYTES
  {
  }

  /** The address arithmetic of the realigner, in bytes. */
  lemma AddressesInBytes(a: Addr)
    ensures ByteAddr(a) < BYTES
    ensures ByteAddr(Advance(a)) == (ByteAddr(a) + 4) % BYTES
    ensures ByteAddr(Align(a)) == ByteAddr(a) / 4 * 4
    ensures ByteAddr(UpperHalf(a)) == ByteAddr(a) / 4 * 4 + 2
    ensures Unaligned(a) <==> ByteAddr(a) % 4 >= 2
  {
    AddrParts(a);
    WrapsAround(ByteAddr(a) + 4);
  }

  lemma NextHalfInBytes(a: Addr)
    requires Even(a)
    ensures ByteAddr(NextHalf(a)) == (ByteAddr(a) + 2) % BYTES && Even(NextHalf(a))
  {
    WrapsAround(ByteAddr(a) + 2);
  }

  lemma HalfInBytes(mem: Image, a: Addr)
    requires Even(a)
    ensures HalfAt(mem, a) == HalfOf(mem, ByteAddr(a))
  {
    AddrParts(a);
  }

  /** The parser in words and the one in bytes read the same instruction and go on at the same
      address. */
  lemma InstrInBytes(mem: Image, pc: Addr, e: Emission)
    requires Even(pc) && e.addr == pc && Shows(e.rdata, InstrAt(mem, pc))
    ensures Delivers(e, ReadAt(mem, ByteAddr(pc)))
    ensures ByteAddr(After(mem, pc)) == (ByteAddr(pc) + 2 * |ReadAt(mem, ByteAddr(pc)).halves|) % BYTES
    ensures Even(After(mem, pc))
  {
    HalfInBytes(mem, pc);
    NextHalfInBytes(pc);
    HalfInBytes(mem, NextHalf(pc));
    NextHalfInBytes(NextHalf(pc));
  }

  // ----- streams -----

  lemma {:induction false} MatchTail(es: seq<Emission>, first: Instr, rest: seq<Instr>)
    requires Matches(es, [first] + rest)
    ensures es != [] && es[0].addr == first.addr && Shows(es[0].rdata, first) && Matches(es[1..], rest)
  {
    assert ([first] + rest)[0] == first;
    assert forall k :: 0 <= k < |rest| ==> ([first] + rest)[k + 1] == rest[k];
  }

  lemma {:induction false} DeliverHead(es: seq<Emission>, first: Located, rest: seq<Located>)
    requires es != [] && Delivers(es[0], first) && DeliversAll(es[1..], rest)
    ensures DeliversAll(es, [first] + rest)
  {
    assert forall k :: 0 < k < |es| ==> es[k] == es[1..][k - 1];
  }

  lemma {:induction false} HeadInBytes(mem: Image, pc: Addr, es: seq<Emission>, tail: seq<Located>)
    requires Even(pc) && es != [] && es[0].addr == pc && Shows(es[0].rdata, InstrAt(mem, pc))
    requires tail == ReadFrom(mem, ByteAddr(After(mem, pc)), |es| - 1) && DeliversAll(es[1..], tail)
    ensures DeliversAll(es, ReadFrom(mem, ByteAddr(pc), |es|))
  {
    InstrInBytes(mem, pc, es[0]);
    DeliverHead(es, ReadAt(mem, ByteAddr(pc)), tail);
  }

  lemma {:induction false} ParseInBytes(mem: Image, pc: Addr, es: seq<Emission>)
    requires Even(pc) && Matches(es, Parse(mem, pc, |es|))
    ensures DeliversAll(es, ReadFrom(mem, ByteAddr(pc), |es|))
    decreases |es|
  {
    if es != [] {
      var next := After(mem, pc);
      MatchTail(es, InstrAt(mem, pc), Parse(mem, next, |es| - 1));
      var tail := ReadFrom(mem, ByteAddr(next), |es| - 1);
      assert DeliversAll(es[1..], tail) by {
        InstrInBytes(mem, pc, es[0]);
        ParseInBytes(mem, next, es[1..]);
      }
      HeadInBytes(mem, pc, es, tail);
    }
  }

  /** In bytes: without redirects, for every memory, start and timing, the instructions delivered
      are those a parser reads that starts at the byte address and goes on by two or four bytes,
      modulo 2^32. */
  lemma {:induction false} PlainStreamInBytes(mem: Image, start: Addr, ins: seq<In>)
    requires Even(start) && Episode(mem, EMPTY, start, ins) && forall i :: i in ins ==> !i.replace2
    ensures var es := Emitted(EMPTY, ins);
            DeliversAll(es, ReadFrom(mem, ByteAddr(start), |es|))
  {
    PlainStreamIsParse(mem, start, ins);
    ParseInBytes(mem, start, Emitted(EMPTY, ins));
  }

  lemma {:induction false} SplitMatch(es: seq<Emission>, a: seq<Instr>, b: seq<Instr>)
    requires Matches(es, a + b)
    ensures Matches(es[..|a|], a) && Matches(es[|a|..], b)
  {
    assert forall k :: 0 <= k < |b| ==> (a + b)[|a| + k] == b[k];
  }

  lemma {:induction false} TargetIsEven(mem: Image, start: Addr, before: seq<In>, i: In, later: seq<In>)
    requires Even(start) && Episode(mem, EMPTY, start, before + ([i] + later)) && i.valid
    ensures Even(i.addr)
  {
    var _, fetch := MiddleInv(mem, EMPTY, Reader(start, None), start, before, [i] + later);
    assert Obeys(mem, State(EMPTY, before), fetch, i);
  }

  /** The same around a redirect: the second part starts at the byte address of the loop target. */
  lemma {:induction false} RedirectedStreamInBytes(mem: Image, start: Addr, before: seq<In>, i: In, later: seq<In>)
    requires Even(start) && Episode(mem, EMPTY, start, before + ([i] + later))
    requires i.valid && i.replace2
    requires forall j :: j in before ==> !j.replace2
    requires forall j :: j in later ==> !j.replace2
    ensures var es, kept := Emitted(EMPTY, before + ([i] + later)), Kept(before);
            if |es| <= kept then DeliversAll(es, ReadFrom(mem, ByteAddr(start), |es|))
            else && DeliversAll(es[..kept], ReadFrom(mem, ByteAddr(start), kept))
                 && DeliversAll(es[kept..], ReadFrom(mem, ByteAddr(i.addr), |es| - kept))
  {
    var es, kept := Emitted(EMPTY, before + ([i] + later)), Kept(before);
    TargetIsEven(mem, start, before, i, later);
    RedirectedStream(mem, start, before, i, later);
    if |es| <= kept {
      ParseInBytes(mem, start, es);
    } else {
      SplitMatch(es, Parse(mem, start, kept), Parse(mem, i.addr, |es| - kept));
      ParseInBytes(mem, start, es[..kept]);
      ParseInBytes(mem, i.addr, es[kept..]);
    }
  }

  function TotalBytes(ls: seq<Located>): nat {
    if ls == [] then 0 else 2 * |ls[0].halves| + TotalBytes(ls[1..])
  }

  lemma ModSum(a: nat, b: nat, c: nat)
    ensures ((a + b) % BYTES + c) % BYTES == (a + (b + c)) % BYTES
  {
  }

  lemma {:induction false} ReadAddress(mem: Image, n: nat, k: nat, j: nat)
    requires j < k && n < BYTES
    ensures ReadFrom(mem, n, k)[j].at == (n + TotalBytes(ReadFrom(mem, n, k)[..j])) % BYTES
    decreases k
  {
    var ls := ReadFrom(mem, n, k);
    if j > 0 {
      var step := 2 * |ls[0].halves|;
      var rest := ReadFrom(mem, (n + step) % BYTES, k - 1);
      ReadAddress(mem, (n + step) % BYTES, k - 1, j - 1);
      assert TotalBytes(ls[..j]) == step + TotalBytes(rest[..j - 1]) by {
        assert ls[..j][1..] == rest[..j - 1] && ls[..j][0] == ls[0];
      }
      ModSum(n, step, TotalBytes(rest[..j - 1]));
    }
  }

  /** The address of the k-th delivered instruction is the start plus the lengths of those
      before it, modulo 2^32. */
  lemma {:induction false} AddressIsSumOfLengths(mem: Image, start: Addr, ins: seq<In>, k: nat)
    requires Even(start) && Episode(mem, EMPTY, start, ins) && forall i :: i in ins ==> !i.replace2
    requires k < |Emitted(EMPTY, ins)|
    ensures var es := Emitted(EMPTY, ins);
            ByteAddr(es[k].addr)
            == (ByteAddr(start) + TotalBytes(ReadFrom(mem, ByteAddr(start), |es|)[..k])) % BYTES
  {
    PlainStreamInBytes(mem, start, ins);
    AddressesInBytes(start);
    ReadAddress(mem, ByteAddr(start), |Emitted(EMPTY, ins)|, k);
  }
}
