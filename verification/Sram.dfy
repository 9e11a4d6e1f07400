/** The taint-tracking data memory ift_sram: data, shadow taints, the two conservative
    flags, and the non-interference its taint output promises. */
module Sram {
  import opened Bits

  /** Data, byte-enable and address widths; a byte has eight bits. */
  datatype Params = Params(dataWidth: nat, addrWidth: nat) {
    function WidthBytes(): nat {
      (dataWidth + 7) / 8
    }
  }

  /** The input ports and, with a T, their taints. */
  datatype In = In(req: bool, we: bool, addr: BitVec, wdata: BitVec, be: BitVec,
                   reqT: bool, weT: bool, addrT: BitVec, wdataT: BitVec, beT: BitVec)

  predicate Fits(p: Params, i: In) {
    && |i.addr| == |i.addrT| == p.addrWidth
    && |i.wdata| == |i.wdataT| == p.dataWidth
    && |i.be| == |i.beT| == p.WidthBytes()
  }

  predicate Any(v: BitVec) {
    exists k :: 0 <= k < |v| && v[k]
  }

  /** A memory word; one that was never written reads as zero. */
  function WordAt(m: map<BitVec, BitVec>, a: BitVec, width: nat): (w: BitVec)
    ensures |w| == width
  {
    if a in m && |m[a]| == width then m[a] else Zeros(width)
  }

  /** w with the enabled ones of its first n bits taken from data. */
  function Merge(w: BitVec, data: BitVec, be: BitVec, n: nat): (r: BitVec)
    requires n <= |w| == |data| <= 8 * |be|
    ensures |r| == |w|
  {
    seq(|w|, k requires 0 <= k < |w| == |data| <= 8 * |be| => if k < n && be[k / 8] then data[k] else w[k])
  }

  predicate Enables(be: BitVec, n: nat)
    requires n <= 8 * |be|
  {
    exists k :: 0 <= k < n && be[k / 8]
  }

  /** The memory after a write of n bits; a write without enabled bytes touches nothing. */
  function Written(m: map<BitVec, BitVec>, a: BitVec, data: BitVec, be: BitVec, n: nat): map<BitVec, BitVec>
    requires n <= |data| <= 8 * |be|
  {
    if Enables(be, n) then m[a := Merge(WordAt(m, a, |data|), data, be, n)] else m
  }

  datatype State = State(memory: map<BitVec, BitVec>, taints: map<BitVec, BitVec>, rdata: BitVec, rtaint: BitVec,
                         fullyTainted: bool, addrTainted: bool)

  /** Line 57: the byte enables are combined with the low address taints. */
  predicate SeesTaint(i: In) {
    exists k :: 0 <= k < |i.be| && k < |i.beT| && k < |i.addrT| && (i.be[k] || i.beT[k]) && i.addrT[k]
  }

  predicate FullyTaints(i: In) {
    (i.req || i.reqT) && (i.we || i.weT) && SeesTaint(i)
  }

  /** Line 68. */
  predicate AddrTainted(i: In) {
    Any(i.addrT) || i.reqT || (i.req && i.weT)
  }

  function Next(p: Params, s: State, i: In): State
    requires Fits(p, i)
  {
    var n := p.dataWidth;
    var s' := s.(fullyTainted := s.fullyTainted || FullyTaints(i), addrTainted := AddrTainted(i));
    if !i.req then s'
    else if i.we then
      s'.(memory := Written(s.memory, i.addr, i.wdata, i.be, n),
      taints := Written(s.taints, i.addr, i.wdataT, i.be, n))
    else
      s'.(rdata := WordAt(s.memory, i.addr, n), rtaint := WordAt(s.taints, i.addr, n))
  }

  /** rdata_o_t0. */
  function OutTaint(s: State): (t: BitVec)
    ensures |t| == |s.rtaint|
  {
    seq(|s.rtaint|, k requires 0 <= k < |s.rtaint| => s.rtaint[k] || s.addrTainted || s.fullyTainted)
  }

  class IftSram {
    const p: Params
    var memory: map<BitVec, BitVec>
    var memTaints: map<BitVec, BitVec>
    var rdata: BitVec
    var rdataTaint: BitVec
    var isMemFullyTaintedQ: bool
    var wasReqAddrTaintedQ: bool

    ghost function Contents(): State
      reads this
    {
      State(memory, memTaints, rdata, rdataTaint, isMemFullyTaintedQ, wasReqAddrTaintedQ)
    }

    /** Reset clears the flags; the preloaded contents and the output registers are given. */
    constructor (p: Params, memory: map<BitVec, BitVec>, memTaints: map<BitVec, BitVec>, rdata: BitVec,
            rdataTaint: BitVec)
      ensures this.p == p && Contents() == State(memory, memTaints, rdata, rdataTaint, false, false)
    {
      this.p, this.memory, this.memTaints, this.rdata, this.rdataTaint := p, memory, memTaints, rdata, rdataTaint;
      isMemFullyTaintedQ, wasReqAddrTaintedQ := false, false;
    }

    /** Write the enabled bits of one word, one at a time. */
    static method WriteBits(m: map<BitVec, BitVec>, a: BitVec, data: BitVec, be: BitVec)
      returns (m': map<BitVec, BitVec>)
      requires |data| <= 8 * |be|
      ensures m' == Written(m, a, data, be, |data|)
    {
      m' := m;
      for i := 0 to |data|
        invariant m' == Written(m, a, data, be, i)
      {
        if be[i / 8] {
          var w := WordAt(m', a, |data|);
          assert Merge(WordAt(m, a, |data|), data, be, i + 1) == w[i := data[i]];
          m' := m'[a := w[i := data[i]]];
        } else {
          assert Merge(WordAt(m, a, |data|), data, be, i + 1) == Merge(WordAt(m, a, |data|), data, be, i);
        }
      }
    }

    /** One clock cycle. */
    method Tick(i: In)
      requires Fits(p, i)
      modifies this
      ensures Contents() == Next(p, old(Contents()), i)
    {
      if i.req {
        if i.we {
          memory := WriteBits(memory, i.addr, i.wdata, i.be);
          memTaints := WriteBits(memTaints, i.addr, i.wdataT, i.be);
        } else {
          rdata := WordAt(memory, i.addr, p.dataWidth);
          rdataTaint := if i.addr in memTaints then WordAt(memTaints, i.addr, p.dataWidth) else Zeros(p.dataWidth);
        }
      }
      isMemFullyTaintedQ := isMemFullyTaintedQ || ((i.req || i.reqT) && (i.we || i.weT) && SeesTaint(i));
      wasReqAddrTaintedQ := Any(i.addrT) || i.reqT || (i.req && i.weT);
    }
  }

  function Run(p: Params, s: State, ins: seq<In>): State
    requires forall k :: 0 <= k < |ins| ==> Fits(p, ins[k])
    decreases |ins|
  {
    if ins == [] then s else Run(p, Next(p, s, ins[0]), ins[1..])
  }

  // ----- what is stored -----

  /** The k-th bit at an address after the accesses: that of the last write that enabled it,
      of its data or of its taints, or the one that was there before them. */
  function LastWritten(ins: seq<In>, a: BitVec, k: nat, taint: bool, before: bool): bool {
    if ins == [] then before
    else
      var i := ins[|ins| - 1];
      if i.req && i.we && i.addr == a && k / 8 < |i.be| && i.be[k / 8] && k < |i.wdata| && k < |i.wdataT| then
        if taint then i.wdataT[k] else i.wdata[k]
      else LastWritten(ins[..|ins| - 1], a, k, taint, before)
  }

  lemma {:induction false} RunLast(p: Params, s: State, ins: seq<In>)
    requires ins != [] && forall k :: 0 <= k < |ins| ==> Fits(p, ins[k])
    ensures Run(p, s, ins) == Next(p, Run(p, s, ins[..|ins| - 1]), ins[|ins| - 1])
    decreases |ins|
  {
    if |ins| == 1 {
      assert ins[1..] == [] && ins[..0] == [];
    } else {
      RunLast(p, Next(p, s, ins[0]), ins[1..]);
      assert ins[1..][..|ins| - 2] == ins[..|ins| - 1][1..];
    }
  }

  /** One access changes exactly the enabled bits of the addressed word. */
  lemma NextBit(p: Params, s: State, i: In, a: BitVec, k: nat)
    requires Fits(p, i) && k < p.dataWidth
    ensures var s' := Next(p, s, i); var hit := i.req && i.we && i.addr == a && i.be[k / 8];
            && WordAt(s'.memory, a, p.dataWidth)[k]
               == (if hit then i.wdata[k] else WordAt(s.memory, a, p.dataWidth)[k])
            && WordAt(s'.taints, a, p.dataWidth)[k]
               == (if hit then i.wdataT[k] else WordAt(s.taints, a, p.dataWidth)[k])
  {
  }

  lemma {:induction false} StoresLastWrite(p: Params, s: State, ins: seq<In>, a: BitVec, k: nat)
    requires k < p.dataWidth && forall j :: 0 <= j < |ins| ==> Fits(p, ins[j])
    ensures var e, n := Run(p, s, ins), p.dataWidth;
            && WordAt(e.memory, a, n)[k] == LastWritten(ins, a, k, false, WordAt(s.memory, a, n)[k])
            && WordAt(e.taints, a, n)[k] == LastWritten(ins, a, k, true, WordAt(s.taints, a, n)[k])
    decreases |ins|
  {
    if ins != [] {
      var front := ins[..|ins| - 1];
      StoresLastWrite(p, s, front, a, k);
      RunLast(p, s, ins);
      NextBit(p, Run(p, s, front), ins[|ins| - 1], a, k);
    }
  }

  /** Read after write: in every run and from every contents, a read delivers, bit by bit, the
      last enabled write to its address, and with it the taint of that write. */
  lemma {:induction false} ReadsLastWrite(p: Params, s: State, ins: seq<In>, read: In, k: nat)
    requires k < p.dataWidth && (forall j :: 0 <= j < |ins| ==> Fits(p, ins[j]))
    requires Fits(p, read) && read.req && !read.we
    ensures var e, n := Next(p, Run(p, s, ins), read), p.dataWidth;
            && |e.rdata| == |e.rtaint| == n
            && e.rdata[k] == LastWritten(ins, read.addr, k, false, WordAt(s.memory, read.addr, n)[k])
            && e.rtaint[k] == LastWritten(ins, read.addr, k, true, WordAt(s.taints, read.addr, n)[k])
  {
    StoresLastWrite(p, s, ins, read.addr, k);
  }

  /** The delivered word stays at the output until the next read. */
  lemma {:induction false} OutputHeld(p: Params, s: State, ins: seq<In>)
    requires forall j :: 0 <= j < |ins| ==> Fits(p, ins[j]) && !(ins[j].req && !ins[j].we)
    ensures Run(p, s, ins).rdata == s.rdata && Run(p, s, ins).rtaint == s.rtaint
    decreases |ins|
  {
    if ins != [] {
      OutputHeld(p, Next(p, s, ins[0]), ins[1..]);
    }
  }

  // ----- two runs -----

  /** v and w agree on every bit that t does not taint. */
  ghost predicate Agree(v: BitVec, w: BitVec, t: BitVec) {
    |v| == |w| == |t| && forall k :: 0 <= k < |v| ==> t[k] || v[k] == w[k]
  }

  /** Inputs of two runs: they may differ on tainted bits only, and the controls are untainted. */
  ghost predicate SameInput(p: Params, i: In, j: In) {
    && Fits(p, i) && Fits(p, j)
    && i.req == j.req && i.we == j.we && i.be == j.be
    && i.addrT == j.addrT && i.wdataT == j.wdataT && i.beT == j.beT
    && !i.reqT && !i.weT && !j.reqT && !j.weT && !Any(i.beT)
    && Agree(i.addr, j.addr, i.addrT) && Agree(i.wdata, j.wdata, i.wdataT)
  }

  /** A write whose address is tainted is seen by line 57, unless it writes nothing. */
  ghost predicate WriteSeen(p: Params, i: In)
    requires Fits(p, i)
  {
    i.req && i.we && Any(i.addrT) && Enables(i.be, p.dataWidth) ==> SeesTaint(i)
  }

  /** Both memories agree on what their (equal) taints leave untainted. */
  ghost predicate SameMemory(p: Params, s: State, t: State) {
    forall a: BitVec ::
      && WordAt(s.taints, a, p.dataWidth) == WordAt(t.taints, a, p.dataWidth)
      && Agree(WordAt(s.memory, a, p.dataWidth), WordAt(t.memory, a, p.dataWidth), WordAt(s.taints, a, p.dataWidth))
  }

  ghost predicate SameOutput(s: State, t: State) {
    OutTaint(s) == OutTaint(t) && Agree(s.rdata, t.rdata, OutTaint(s))
  }

  /** The registers before the conservative flags agree too. */
  ghost predicate SameRead(s: State, t: State) {
    s.rtaint == t.rtaint && Agree(s.rdata, t.rdata, s.rtaint)
  }

  ghost predicate Related(p: Params, s: State, t: State) {
    && s.fullyTainted == t.fullyTainted && s.addrTainted == t.addrTainted
    && |s.rdata| == |s.rtaint| == |t.rdata| == |t.rtaint| == p.dataWidth
    && (!s.fullyTainted ==> SameMemory(p, s, t))
  }

  lemma UntaintedAddrsEqual(i: In, j: In)
    requires Agree(i.addr, j.addr, i.addrT) && !Any(i.addrT)
    ensures i.addr == j.addr
  {
  }

  lemma WriteKeepsSameMemory(p: Params, s: State, t: State, i: In, j: In)
    requires SameInput(p, i, j) && SameMemory(p, s, t) && i.req && i.we
    requires !Any(i.addrT) || !Enables(i.be, p.dataWidth)
    ensures SameMemory(p, Next(p, s, i), Next(p, t, j))
  {
    if Enables(i.be, p.dataWidth) {
      UntaintedAddrsEqual(i, j);
      var s', t', n := Next(p, s, i), Next(p, t, j), p.dataWidth;
      forall a: BitVec
        ensures WordAt(s'.taints, a, n) == WordAt(t'.taints, a, n)
        ensures Agree(WordAt(s'.memory, a, n), WordAt(t'.memory, a, n), WordAt(s'.taints, a, n))
      {
        if a == i.addr {
          MergeAgree(WordAt(s.memory, a, n), WordAt(t.memory, a, n), WordAt(s.taints, a, n), i, j, n);
        } else {
          assert WordAt(s'.memory, a, n) == WordAt(s.memory, a, n) && WordAt(t'.memory, a, n) == WordAt(t.memory, a, n);
          assert WordAt(s'.taints, a, n) == WordAt(s.taints, a, n) && WordAt(t'.taints, a, n) == WordAt(t.taints, a, n);
        }
      }
    }
  }

  lemma MergeAgree(v: BitVec, w: BitVec, t: BitVec, i: In, j: In, n: nat)
    requires Agree(v, w, t) && |v| == n && Agree(i.wdata, j.wdata, i.wdataT) && |i.wdata| == n <= 8 * |i.be|
    ensures Agree(Merge(v, i.wdata, i.be, n), Merge(w, j.wdata, i.be, n), Merge(t, i.wdataT, i.be, n))
  {
  }

  /** One cycle keeps the two runs related. */
  lemma StepKeepsRelated(p: Params, s: State, t: State, i: In, j: In)
    requires Related(p, s, t) && SameInput(p, i, j) && WriteSeen(p, i)
    ensures Related(p, Next(p, s, i), Next(p, t, j))
  {
    if !Next(p, s, i).fullyTainted && i.req && i.we {
      WriteKeepsSameMemory(p, s, t, i, j);
    }
  }

  /** What a read delivers agrees, thanks to the flag of the next cycle if need be. */
  lemma ReadAgrees(p: Params, s: State, t: State, i: In, j: In)
    requires Related(p, s, t) && SameInput(p, i, j) && i.req && !i.we
    ensures SameOutput(Next(p, s, i), Next(p, t, j))
    ensures !s.fullyTainted && !Any(i.addrT) ==> SameRead(Next(p, s, i), Next(p, t, j))
  {
    if !Any(i.addrT) {
      UntaintedAddrsEqual(i, j);
    }
  }

  ghost predicate SameInputs(p: Params, ins: seq<In>, jns: seq<In>) {
    |ins| == |jns| && forall k :: 0 <= k < |ins| ==> SameInput(p, ins[k], jns[k]) && WriteSeen(p, ins[k])
  }

  lemma {:induction false} RunKeepsRelated(p: Params, s: State, t: State, ins: seq<In>, jns: seq<In>)
    requires Related(p, s, t) && SameInputs(p, ins, jns)
    ensures Related(p, Run(p, s, ins), Run(p, t, jns))
    decreases |ins|
  {
    if ins != [] {
      StepKeepsRelated(p, s, t, ins[0], jns[0]);
      RunKeepsRelated(p, Next(p, s, ins[0]), Next(p, t, jns[0]), ins[1..], jns[1..]);
    }
  }

  /** After reset: flags clear, memories agreeing on what their taints leave untainted. */
  ghost predicate Fresh(p: Params, s: State, t: State) {
    Related(p, s, t) && !s.fullyTainted && !s.addrTainted
  }

  /** Non-interference: after every pair of runs from reset, the words delivered in the
      cycle after a read agree wherever the taint output is 0. */
  lemma NonInterference(p: Params, s: State, t: State, ins: seq<In>, jns: seq<In>, read: In, read': In)
    requires Fresh(p, s, t) && SameInputs(p, ins, jns)
    requires SameInput(p, read, read') && read.req && !read.we
    ensures SameOutput(Next(p, Run(p, s, ins), read), Next(p, Run(p, t, jns), read'))
  {
    RunKeepsRelated(p, s, t, ins, jns);
    ReadAgrees(p, Run(p, s, ins), Run(p, t, jns), read, read');
  }

  // ----- later cycles -----

  ghost predicate Held(s: State, t: State) {
    && s.fullyTainted == t.fullyTainted && s.addrTainted == t.addrTainted
    && |s.rdata| == |s.rtaint| == |t.rdata| == |t.rtaint|
    && (s.fullyTainted || SameRead(s, t))
  }

  /** Inputs of two runs that do not read. */
  ghost predicate SameWithoutReads(p: Params, ins: seq<In>, jns: seq<In>) {
    |ins| == |jns| && forall k :: 0 <= k < |ins| ==> SameInput(p, ins[k], jns[k]) && (ins[k].req ==> ins[k].we)
  }

  lemma {:induction false} HeldStays(p: Params, s: State, t: State, ins: seq<In>, jns: seq<In>)
    requires Held(s, t) && SameWithoutReads(p, ins, jns)
    ensures Held(Run(p, s, ins), Run(p, t, jns)) && SameOutput(Run(p, s, ins), Run(p, t, jns))
    decreases |ins|
  {
    if ins != [] {
      HeldStays(p, Next(p, s, ins[0]), Next(p, t, jns[0]), ins[1..], jns[1..]);
    }
  }

  /** A word read at an untainted address stays good until the next read: after every pair of
      runs from reset, such a read and any later writes, seen or unseen by line 57, and idle
      cycles, the delivered words agree wherever the taint output is 0. */
  lemma UntaintedReadStays(p: Params, s: State, t: State, ins: seq<In>, jns: seq<In>, read: In, read': In,
                           later: seq<In>, later': seq<In>)
    requires Fresh(p, s, t) && SameInputs(p, ins, jns)
    requires SameInput(p, read, read') && read.req && !read.we && !Any(read.addrT)
    requires SameWithoutReads(p, later, later')
    ensures SameOutput(Run(p, Next(p, Run(p, s, ins), read), later), Run(p, Next(p, Run(p, t, jns), read'), later'))
  {
    RunKeepsRelated(p, s, t, ins, jns);
    var s', t' := Run(p, s, ins), Run(p, t, jns);
    ReadAgrees(p, s', t', read, read');
    HeldStays(p, Next(p, s', read), Next(p, t', read'), later, later');
  }

  // ----- exactly where the flags fall short -----

  function Start(p: Params, m: map<BitVec, BitVec>): State {
    State(m, map[], Zeros(p.dataWidth), Zeros(p.dataWidth), false, false)
  }

  /** An access with untainted data at an address whose taint is mask. */
  function Access(p: Params, we: bool, a: BitVec, mask: BitVec, data: BitVec, be: BitVec): In {
    In(true, we, a, data, be, false, false, mask, Zeros(p.dataWidth), Zeros(p.WidthBytes()))
  }

  function Read(p: Params, a: BitVec, mask: BitVec): In {
    Access(p, false, a, mask, Zeros(p.dataWidth), Zeros(p.WidthBytes()))
  }

  function Idle(p: Params): In {
    Read(p, Zeros(p.addrWidth), Zeros(p.addrWidth)).(req := false)
  }

  function ReadThenIdle(p: Params, m: map<BitVec, BitVec>, a: BitVec, mask: BitVec): State
    requires |a| == |mask| == p.addrWidth
  {
    Next(p, Next(p, Start(p, m), Read(p, a, mask)), Idle(p))
  }

  /** The word is still protected one cycle later, for every memory and every two addresses
      that differ in tainted bits only. */
  ghost predicate StaleReadSafe(p: Params, mask: BitVec)
    requires |mask| == p.addrWidth
  {
    forall m: map<BitVec, BitVec>, a: BitVec, a': BitVec :: |a| == |a'| == p.addrWidth && Agree(a, a', mask) ==>
      SameOutput(ReadThenIdle(p, m, a, mask), ReadThenIdle(p, m, a', mask))
  }

  function Flipped(mask: BitVec, k: nat): (a: BitVec)
    requires k < |mask|
    ensures |a| == |mask|
  {
    Zeros(|mask|)[k := true]
  }

  /** Line 68 protects a read of a tainted address in the next cycle only: an idle cycle
      later it is safe exactly if its address was not tainted. */
  lemma StaleReadExactly(p: Params, mask: BitVec)
    requires |mask| == p.addrWidth && p.dataWidth > 0
    ensures StaleReadSafe(p, mask) <==> !Any(mask)
  {
    if Any(mask) {
      var k :| 0 <= k < |mask| && mask[k];
      var a, a' := Zeros(p.addrWidth), Flipped(mask, k);
      var m := map[a := Ones(p.dataWidth)];
      assert a[k] != a'[k] && Agree(a, a', mask);
      var s, t := ReadThenIdle(p, m, a, mask), ReadThenIdle(p, m, a', mask);
      assert s.rdata[0] && !t.rdata[0] && !OutTaint(s)[0];
      assert !SameOutput(s, t);
    } else {
      forall m: map<BitVec, BitVec>, a: BitVec, a': BitVec | |a| == |a'| == p.addrWidth && Agree(a, a', mask)
        ensures SameOutput(ReadThenIdle(p, m, a, mask), ReadThenIdle(p, m, a', mask))
      {
        UntaintedAddrsEqual(Read(p, a, mask), Read(p, a', mask));
      }
    }
  }

  function WriteThenRead(p: Params, m: map<BitVec, BitVec>, a: BitVec, mask: BitVec, data: BitVec, be: BitVec,
          r: BitVec): State
    requires |a| == |mask| == |r| == p.addrWidth && |data| == p.dataWidth && |be| == p.WidthBytes()
  {
    Next(p, Next(p, Start(p, m), Access(p, true, a, mask, data, be)), Read(p, r, Zeros(p.addrWidth)))
  }

  /** A read at an untainted address is safe after a write with that address taint and
      those byte enables. */
  ghost predicate TaintedWriteSafe(p: Params, mask: BitVec, be: BitVec)
    requires |mask| == p.addrWidth && |be| == p.WidthBytes()
  {
    forall m: map<BitVec, BitVec>, a: BitVec, a': BitVec, data: BitVec, r: BitVec ::
      |a| == |a'| == |r| == p.addrWidth && |data| == p.dataWidth && Agree(a, a', mask) ==>
        SameOutput(WriteThenRead(p, m, a, mask, data, be, r), WriteThenRead(p, m, a', mask, data, be, r))
  }

  /** Line 57 combines the byte enables with the address taint: a write is handled safely
      exactly if its address is untainted, or it writes nothing, or one of the enabled byte
      numbers is the number of a tainted address bit. */
  lemma TaintedWriteExactly(p: Params, mask: BitVec, be: BitVec)
    requires |mask| == p.addrWidth && |be| == p.WidthBytes()
    ensures TaintedWriteSafe(p, mask, be)
            <==> !Any(mask) || !Enables(be, p.dataWidth) || exists k :: 0 <= k < |be| && k < |mask| && be[k] && mask[k]
  {
    var seen := exists k :: 0 <= k < |be| && k < |mask| && be[k] && mask[k];
    if Any(mask) && Enables(be, p.dataWidth) && !seen {
      UnseenWriteUnsafe(p, mask, be);
    } else {
      forall m: map<BitVec, BitVec>, a: BitVec, a': BitVec, data: BitVec, r: BitVec
        | |a| == |a'| == |r| == p.addrWidth && |data| == p.dataWidth && Agree(a, a', mask)
        ensures SameOutput(WriteThenRead(p, m, a, mask, data, be, r), WriteThenRead(p, m, a', mask, data, be, r))
      {
        SeenWriteSafe(p, m, a, a', mask, data, be, r);
      }
    }
  }

  lemma SeenWriteSafe(p: Params, m: map<BitVec, BitVec>, a: BitVec, a': BitVec, mask: BitVec, data: BitVec, be: BitVec,
          r: BitVec)
    requires |a| == |a'| == |r| == |mask| == p.addrWidth && |data| == p.dataWidth && |be| == p.WidthBytes()
    requires Agree(a, a', mask)
    requires Any(mask) && Enables(be, p.dataWidth) ==> exists k :: 0 <= k < |be| && k < |mask| && be[k] && mask[k]
    ensures SameOutput(WriteThenRead(p, m, a, mask, data, be, r), WriteThenRead(p, m, a', mask, data, be, r))
  {
    var i, j := Access(p, true, a, mask, data, be), Access(p, true, a', mask, data, be);
    var read := Read(p, r, Zeros(p.addrWidth));
    if Any(mask) && Enables(be, p.dataWidth) {
      var k :| 0 <= k < |be| && k < |mask| && be[k] && mask[k];
      assert SeesTaint(i);
    }
    StepKeepsRelated(p, Start(p, m), Start(p, m), i, j);
    ReadAgrees(p, Next(p, Start(p, m), i), Next(p, Start(p, m), j), read, read);
  }

  lemma UnseenWriteUnsafe(p: Params, mask: BitVec, be: BitVec)
    requires |mask| == p.addrWidth && |be| == p.WidthBytes()
    requires Any(mask) && Enables(be, p.dataWidth)
    requires !exists k :: 0 <= k < |be| && k < |mask| && be[k] && mask[k]
    ensures !TaintedWriteSafe(p, mask, be)
  {
    var k :| 0 <= k < |mask| && mask[k];
    var b :| 0 <= b < p.dataWidth && be[b / 8];
    var a, a', data := Zeros(p.addrWidth), Flipped(mask, k), Ones(p.dataWidth);
    assert a[k] != a'[k] && Agree(a, a', mask);
    OnesReadBack(p, a, mask, be, b);
    ZeroReadBack(p, a', mask, be, a, b);
    assert !SameOutput(WriteThenRead(p, map[], a, mask, data, be, a), WriteThenRead(p, map[], a', mask, data, be, a));
  }

  lemma OnesReadBack(p: Params, a: BitVec, mask: BitVec, be: BitVec, b: nat)
    requires |a| == |mask| == p.addrWidth && |be| == p.WidthBytes()
    requires b < p.dataWidth && be[b / 8]
    requires !exists k :: 0 <= k < |be| && k < |mask| && be[k] && mask[k]
    ensures var s := WriteThenRead(p, map[], a, mask, Ones(p.dataWidth), be, a);
            |s.rdata| == |s.rtaint| == p.dataWidth && s.rdata[b] && !OutTaint(s)[b]
  {
    assert Enables(be, p.dataWidth);
  }

  lemma ZeroReadBack(p: Params, a: BitVec, mask: BitVec, be: BitVec, r: BitVec, b: nat)
    requires |a| == |r| == |mask| == p.addrWidth && a != r && |be| == p.WidthBytes() && b < p.dataWidth
    ensures var s := WriteThenRead(p, map[], a, mask, Ones(p.dataWidth), be, r);
            |s.rdata| == p.dataWidth && !s.rdata[b]
  {
  }
}
