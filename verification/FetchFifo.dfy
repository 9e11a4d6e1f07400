/** The instruction realigner riscv_fetch_fifo: four word registers with valid bits, and
    the queue of words they stand for. */
module FetchFifo {
  import opened Wrappers
  const DEPTH := 4

  type Half = h: nat | h < 0x1_0000

  /** A fetched word, as its two halves. */
  datatype Data = Data(low: Half, high: Half)

  /** A byte address: the index of its word (bits 31 to 2), bit 1 and bit 0. */
  datatype Addr = Addr(index: WordIndex, upper: bool, odd: bool)

  type WordIndex = n: nat | n < 0x4000_0000

  const ZERO := Addr(0, false, false)

  datatype In = In(clear: bool, addr: Addr, rdata: Data, valid: bool, replace2: bool, isHwlp: bool, outReady: bool)

  /** The buffered words, the address of the current instruction (0 when nothing is
      buffered), the loop target behind it if one is, and whether the head comes from a loop. */
  datatype Queue = Queue(words: seq<Data>, pc: Addr, redirect: Option<Addr>, headIsHwlp: bool)

  const EMPTY := Queue([], ZERO, None, false)

  /** The word made of the upper half of lo and the lower half of hi. */
  function Straddle(lo: Data, hi: Data): Data {
    Data(lo.high, hi.low)
  }

  /** Section 1.5 of the RISC-V Unprivileged ISA: two bytes unless the low two bits are 11. */
  predicate Compressed(half: Half) {
    half % 4 != 3
  }

  /** Bit 1 of the address: the instruction starts in the upper half of a word. */
  predicate Unaligned(a: Addr) {
    a.upper
  }

  function Align(a: Addr): Addr {
    Addr(a.index, false, false)
  }

  /** The upper half of the same word. */
  function UpperHalf(a: Addr): Addr {
    Addr(a.index, true, false)
  }

  /** Four bytes further, wrapping around at 2^32. */
  function Advance(a: Addr): Addr {
    a.(index := if a.index + 1 < 0x4000_0000 then a.index + 1 else 0)
  }

  // ----- output port -----

  function Rdata(q: Queue, i: In): Data {
    if q.words != [] then q.words[0] else i.rdata
  }

  function OutAddr(q: Queue, i: In): Addr {
    if q.words != [] then q.pc else i.addr
  }

  predicate OutIsHwlp(q: Queue, i: In) {
    if q.words != [] then q.headIsHwlp else i.isHwlp
  }

  /** The unaligned case: not taken while a loop target waits behind a prealigned head. */
  predicate Straddles(q: Queue, i: In) {
    Unaligned(OutAddr(q, i)) && q.redirect.None?
  }

  function OutRdata(q: Queue, i: In): Data {
    if Straddles(q, i) then
      Straddle(Rdata(q, i), if |q.words| > 1 then q.words[1] else i.rdata)
    else
      Rdata(q, i)
  }

  predicate OutValid(q: Queue, i: In) {
    if Straddles(q, i) && !Compressed(Rdata(q, i).high) then
      |q.words| > 1 || (q.words != [] && i.valid)
    else
      q.words != [] || i.valid
  }

  /** rdata0 is the first word register, whether or not its contents are valid. */
  predicate OutValidStored(q: Queue, i: In, rdata0: Data) {
    if Straddles(q, i) then
      Compressed(rdata0.high) || |q.words| > 1
    else
      q.words != []
  }

  /** unaligned_is_compressed_o. */
  predicate UnalignedIsCompressed(q: Queue, i: In) {
    Compressed(Rdata(q, i).high)
  }

  // ----- next state -----

  /** After the input port: append a word, or replace all but the current instruction. */
  function Pushed(q: Queue, i: In): Queue {
    if !i.valid then q
    else if q.words == [] then
      Queue([i.rdata], i.addr, None, if i.replace2 then i.isHwlp else q.headIsHwlp)
    else if i.replace2 then
      q.(words := [OutRdata(q, i), i.rdata], redirect := if i.isHwlp then Some(i.addr) else None)
    else if |q.words| < DEPTH then
      q.(words := q.words + [i.rdata])
    else q
  }

  function Drop(q: Queue, pc: Addr, hwlp: bool): Queue {
    if |q.words| <= 1 then EMPTY else Queue(q.words[1..], pc, None, hwlp)
  }

  /** After the output port took an instruction whose first word is rdata. */
  function Popped(q: Queue, rdata: Data): Queue {
    match q.redirect
    case Some(target) => Drop(q, target, true)
    case None =>
      if Unaligned(q.pc) then
        Drop(q, if Compressed(rdata.high) then Advance(Align(q.pc)) else UpperHalf(Advance(q.pc)), false)
      else if Compressed(rdata.low) then
        q.(pc := UpperHalf(q.pc), headIsHwlp := false)
      else
        Drop(q, Advance(Align(q.pc)), false)
  }

  predicate Accepts(q: Queue, i: In) {
    i.outReady && OutValid(q, i)
  }

  function Next(q: Queue, i: In): Queue {
    if i.clear then EMPTY
    else if Accepts(q, i) then Popped(Pushed(q, i), Rdata(q, i))
    else Pushed(q, i)
  }

  // ----- the registers -----

  class RiscvFetchFifo {
    const addrQ: array<Addr>
    const rdataQ: array<Data>
    const validQ: array<bool>
    var isHwlpQ0: bool
    var isHwlpQ1: bool

    /** The valid bits are a prefix, and a waiting loop target has an instruction before it. */
    ghost predicate Valid()
      reads this, validQ
    {
      && addrQ.Length == rdataQ.Length == validQ.Length == DEPTH
      && (validQ[1] ==> validQ[0]) && (validQ[2] ==> validQ[1]) && (validQ[3] ==> validQ[2])
      && (isHwlpQ1 ==> validQ[1])
      && (isHwlpQ0 ==> validQ[0])
    }

    ghost function Words(): seq<Data>
      reads this, validQ, rdataQ
      requires Valid()
    {
      if validQ[3] then [rdataQ[0], rdataQ[1], rdataQ[2], rdataQ[3]]
      else if validQ[2] then [rdataQ[0], rdataQ[1], rdataQ[2]]
      else if validQ[1] then [rdataQ[0], rdataQ[1]]
      else if validQ[0] then [rdataQ[0]]
      else []
    }

    ghost function Contents(): Queue
      reads this, addrQ, rdataQ, validQ
      requires Valid()
    {
      Queue(Words(), if validQ[0] then addrQ[0] else ZERO, if isHwlpQ1 then Some(addrQ[1]) else None, isHwlpQ0)
    }

    /** Reset. */
    constructor ()
      ensures Valid() && Contents() == EMPTY
      ensures fresh(addrQ) && fresh(rdataQ) && fresh(validQ)
    {
      addrQ := new Addr[DEPTH](i => ZERO);
      rdataQ := new Data[DEPTH](i => Data(0, 0));
      validQ := new bool[DEPTH](i => false);
      isHwlpQ0, isHwlpQ1 := false, false;
    }

    /** The combinational output port. */
    method Output(i: In)
      returns (valid: bool, addr: Addr, rdata: Data, isHwlp: bool, stored: bool, unalignedIsCompressed: bool)
      requires Valid()
      ensures valid == OutValid(Contents(), i) && addr == OutAddr(Contents(), i)
      ensures rdata == OutRdata(Contents(), i) && isHwlp == OutIsHwlp(Contents(), i)
      ensures stored == OutValidStored(Contents(), i, rdataQ[0])
      ensures unalignedIsCompressed == UnalignedIsCompressed(Contents(), i)
    {
      var first := if validQ[0] then rdataQ[0] else i.rdata;
      unalignedIsCompressed := Compressed(first.high);
      addr := if validQ[0] then addrQ[0] else i.addr;
      isHwlp := if validQ[0] then isHwlpQ0 else i.isHwlp;
      valid := validQ[0] || i.valid || isHwlpQ1;
      if Unaligned(addr) && !isHwlpQ1 {
        rdata := Straddle(first, if validQ[1] then rdataQ[1] else i.rdata);
        if !unalignedIsCompressed {
          valid := validQ[1] || (validQ[0] && i.valid);
        }
        stored := Compressed(rdataQ[0].high) || validQ[1];
      } else {
        rdata := first;
        stored := validQ[0];
      }
    }

    /** Write the incoming word into the first free entry, if there is one. */
    method Append(i: In)
      requires Valid()
      modifies addrQ, rdataQ, validQ
      ensures Valid()
      ensures var q := old(Contents());
              Contents() == if q.words == [] then Queue([i.rdata], i.addr, q.redirect, q.headIsHwlp)
                            else if |q.words| < DEPTH then q.(words := q.words + [i.rdata])
                            else q
    {
      var j := 0;
      while j < DEPTH && validQ[j]
        invariant 0 <= j <= DEPTH
        invariant forall k :: 0 <= k < j ==> validQ[k]
      {
        j := j + 1;
      }
      if j < DEPTH {
        addrQ[j], rdataQ[j], validQ[j] := i.addr, i.rdata, true;
      }
    }

    /** A word that replaces everything behind the current instruction. */
    method Replace(i: In, outRdata: Data)
      requires Valid() && validQ[0]
      modifies this, addrQ, rdataQ, validQ
      ensures Valid()
      ensures Contents() == old(Contents()).(words := [outRdata, i.rdata],
                                             redirect := if i.isHwlp then Some(i.addr) else None)
    {
      addrQ[1], rdataQ[0], rdataQ[1] := i.addr, outRdata, i.rdata;
      validQ[1], validQ[2], validQ[3] := true, false, false;
      isHwlpQ1 := i.isHwlp;
    }

    /** Move every entry down by one. */
    method Shift(pc: Addr, hwlp: bool)
      requires Valid() && validQ[0] && (hwlp ==> validQ[1])
      modifies this, addrQ, rdataQ, validQ
      ensures Valid()
      ensures Contents() == Drop(old(Contents()), pc, hwlp)
    {
      addrQ[0] := pc;
      var j := 0;
      while j < DEPTH - 1
        invariant 0 <= j <= DEPTH - 1
        invariant forall k :: 0 <= k < j ==> rdataQ[k] == old(rdataQ[k + 1]) && validQ[k] == old(validQ[k + 1])
        invariant forall k :: j <= k < DEPTH ==> rdataQ[k] == old(rdataQ[k]) && validQ[k] == old(validQ[k])
        invariant addrQ[0] == pc
      {
        rdataQ[j], validQ[j] := rdataQ[j + 1], validQ[j + 1];
        j := j + 1;
      }
      rdataQ[DEPTH - 1], validQ[DEPTH - 1] := Data(0, 0), false;
      isHwlpQ0, isHwlpQ1 := hwlp, false;
    }

    method Push(i: In, outRdata: Data)
      requires Valid() && outRdata == OutRdata(Contents(), i)
      modifies this, addrQ, rdataQ, validQ
      ensures Valid() && Contents() == Pushed(old(Contents()), i)
    {
      if i.valid {
        var hadFirst := validQ[0];
        Append(i);
        if i.replace2 {
          if hadFirst {
            Replace(i, outRdata);
          } else {
            isHwlpQ0 := i.isHwlp;
          }
        }
      }
    }

    method Pop(rdata: Data)
      requires Valid() && validQ[0]
      modifies this, addrQ, rdataQ, validQ
      ensures Valid() && Contents() == Popped(old(Contents()), rdata)
    {
      if isHwlpQ1 {
        Shift(addrQ[1], true);
      } else if Unaligned(addrQ[0]) {
        Shift(if Compressed(rdata.high) then Advance(Align(addrQ[0])) else UpperHalf(Advance(addrQ[0])), false);
      } else if Compressed(rdata.low) {
        addrQ[0] := UpperHalf(addrQ[0]);
        isHwlpQ0 := false;
      } else {
        Shift(Advance(Align(addrQ[0])), false);
      }
    }

    /** One clock cycle: the output port before the edge, and the registers after it. */
    method Tick(i: In)
      returns (valid: bool, addr: Addr, rdata: Data, isHwlp: bool, stored: bool, unalignedIsCompressed: bool,
               inReady: bool)
      requires Valid()
      modifies this, addrQ, rdataQ, validQ
      ensures Valid() && Contents() == Next(old(Contents()), i)
      ensures valid == OutValid(old(Contents()), i) && addr == OutAddr(old(Contents()), i)
      ensures rdata == OutRdata(old(Contents()), i) && isHwlp == OutIsHwlp(old(Contents()), i)
      ensures stored == OutValidStored(old(Contents()), i, old(rdataQ[0]))
      ensures unalignedIsCompressed == UnalignedIsCompressed(old(Contents()), i)
      ensures inReady == (|old(Contents()).words| < DEPTH - 1)
    {
      valid, addr, rdata, isHwlp, stored, unalignedIsCompressed := Output(i);
      inReady := !validQ[DEPTH - 2];
      var first := if validQ[0] then rdataQ[0] else i.rdata;
      if i.clear {
        validQ[0], validQ[1], validQ[2], validQ[3] := false, false, false, false;
        isHwlpQ0, isHwlpQ1 := false, false;
      } else {
        Push(i, rdata);
        if i.outReady && valid {
          Pop(first);
        }
      }
    }
  }
}
