/** The memory ift_sram when its controls are tainted: what its two flags cover, and what they
    do not. */
module SramControls {
  import opened Bits
  import opened Sram

  /** Inputs of two runs that differ on tainted ports and bits only, controls included. */
  ghost predicate SameUpToTaint(p: Params, i: In, j: In) {
    && Fits(p, i) && Fits(p, j)
    && i.reqT == j.reqT && i.weT == j.weT && i.addrT == j.addrT && i.wdataT == j.wdataT && i.beT == j.beT
    && (i.reqT || i.req == j.req) && (i.weT || i.we == j.we)
    && Agree(i.be, j.be, i.beT) && Agree(i.addr, j.addr, i.addrT) && Agree(i.wdata, j.wdata, i.wdataT)
  }

  /** A write may happen in one of two such runs. */
  predicate MayWrite(p: Params, i: In)
    requires Fits(p, i)
  {
    (i.req || i.reqT) && (i.we || i.weT) && Enables(Either(i.be, i.beT), p.dataWidth)
  }

  function Either(v: BitVec, t: BitVec): (r: BitVec)
    requires |v| == |t|
    ensures |r| == |v|
  {
    seq(|v|, k requires 0 <= k < |v| == |t| => v[k] || t[k])
  }

  /** What is written, or where, may differ between two such runs. */
  predicate MayDiffer(p: Params, i: In)
    requires Fits(p, i)
  {
    MayWrite(p, i) && (i.reqT || i.weT || Any(i.addrT) || Enables(i.beT, p.dataWidth))
  }

  lemma SameFlags(p: Params, i: In, j: In)
    requires SameUpToTaint(p, i, j)
    ensures FullyTaints(i) == FullyTaints(j) && AddrTainted(i) == AddrTainted(j)
  {
    if SeesTaint(i) {
      SameSeen(p, i, j);
    }
    if SeesTaint(j) {
      SameSeen(p, j, i);
    }
  }

  lemma SameSeen(p: Params, i: In, j: In)
    requires SameUpToTaint(p, i, j) && SeesTaint(i)
    ensures SeesTaint(j)
  {
    var k :| 0 <= k < |i.be| && k < |i.beT| && k < |i.addrT| && (i.be[k] || i.beT[k]) && i.addrT[k];
    assert j.be[k] || j.beT[k];
  }

  /** The memories stay in agreement, or the flag of line 57 gives them up: the two cases in
      which a cycle is handled safely. */
  predicate Covered(p: Params, i: In)
    requires Fits(p, i)
  {
    !MayDiffer(p, i) || SeesTaint(i)
  }

  lemma NoEnableTaint(p: Params, i: In)
    requires Fits(p, i) && !Enables(i.beT, p.dataWidth)
    ensures !Any(i.beT)
  {
    forall k | 0 <= k < |i.beT|
      ensures !i.beT[k]
    {
      assert (8 * k) / 8 == k && 8 * k < p.dataWidth;
    }
  }

  lemma EnabledEither(p: Params, i: In, j: In)
    requires SameUpToTaint(p, i, j) && Enables(j.be, p.dataWidth)
    ensures Enables(Either(i.be, i.beT), p.dataWidth)
  {
    var k :| 0 <= k < p.dataWidth && j.be[k / 8];
    assert Either(i.be, i.beT)[k / 8];
  }

  lemma NothingWritten(p: Params, s: State, i: In, j: In)
    requires SameUpToTaint(p, i, j) && !MayWrite(p, i)
    ensures Next(p, s, j).memory == s.memory && Next(p, s, j).taints == s.taints
  {
    if Enables(j.be, p.dataWidth) {
      EnabledEither(p, i, j);
    }
  }

  /** A covered cycle keeps two runs related, even if its controls are tainted. */
  lemma CoveredKeepsRelated(p: Params, s: State, t: State, i: In, j: In)
    requires Related(p, s, t) && SameUpToTaint(p, i, j) && Covered(p, i)
    ensures Related(p, Next(p, s, i), Next(p, t, j))
  {
    SameFlags(p, i, j);
    if !Next(p, s, i).fullyTainted {
      if !MayWrite(p, i) {
        NothingWritten(p, s, i, i);
        NothingWritten(p, t, i, j);
      } else if !MayDiffer(p, i) {
        NoEnableTaint(p, i);
        assert i.be == j.be;
        StepKeepsRelated(p, s, t, i, j);
      }
    }
  }

  /** What a read delivers agrees, whichever of its ports are tainted. */
  lemma TaintedReadAgrees(p: Params, s: State, t: State, i: In, j: In)
    requires Related(p, s, t) && SameUpToTaint(p, i, j) && i.req && !i.we
    ensures SameOutput(Next(p, s, i), Next(p, t, j))
  {
    SameFlags(p, i, j);
    if !AddrTainted(i) {
      UntaintedAddrsEqual(i, j);
    }
  }

  ghost predicate CoveredInputs(p: Params, ins: seq<In>, jns: seq<In>) {
    |ins| == |jns| && forall k :: 0 <= k < |ins| ==> SameUpToTaint(p, ins[k], jns[k]) && Covered(p, ins[k])
  }

  lemma {:induction false} CoveredRunRelated(p: Params, s: State, t: State, ins: seq<In>, jns: seq<In>)
    requires Related(p, s, t) && CoveredInputs(p, ins, jns)
    ensures Related(p, Run(p, s, ins), Run(p, t, jns))
    decreases |ins|
  {
    if ins != [] {
      CoveredKeepsRelated(p, s, t, ins[0], jns[0]);
      CoveredRunRelated(p, Next(p, s, ins[0]), Next(p, t, jns[0]), ins[1..], jns[1..]);
    }
  }

  /** Non-interference with tainted controls: after every pair of runs from reset that differ on
      tainted ports only and whose cycles are covered, the words a read delivers agree wherever the
      taint output is 0, whichever ports of that read are tainted. */
  lemma ControlNonInterference(p: Params, s: State, t: State, ins: seq<In>, jns: seq<In>, read: In, read': In)
    requires Fresh(p, s, t) && CoveredInputs(p, ins, jns)
    requires SameUpToTaint(p, read, read') && read.req && !read.we
    ensures SameOutput(Next(p, Run(p, s, ins), read), Next(p, Run(p, t, jns), read'))
  {
    CoveredRunRelated(p, s, t, ins, jns);
    TaintedReadAgrees(p, Run(p, s, ins), Run(p, t, jns), read, read');
  }

  // ----- no more than that -----

  function ThenRead(p: Params, m: map<BitVec, BitVec>, i: In, r: BitVec): State
    requires Fits(p, i) && |r| == p.addrWidth
  {
    Next(p, Next(p, Start(p, m), i), Read(p, r, Zeros(p.addrWidth)))
  }

  /** Whatever the tainted ports of this cycle are in a second run, a later read at an untainted
      address is safe. */
  ghost predicate CycleSafe(p: Params, i: In)
    requires Fits(p, i)
  {
    forall m: map<BitVec, BitVec>, j: In, r: BitVec :: SameUpToTaint(p, i, j) && |r| == p.addrWidth ==>
      SameOutput(ThenRead(p, m, i, r), ThenRead(p, m, j, r))
  }

  predicate WritesBit(i: In, a: BitVec, b: nat) {
    i.req && i.we && i.addr == a && b / 8 < |i.be| && i.be[b / 8]
  }

  /** If only one of two cycles writes a bit, a later read tells them apart. */
  lemma BitTellsApart(p: Params, w: In, n: In, b: nat)
    requires SameUpToTaint(p, w, n) && !FullyTaints(w) && !FullyTaints(n) && b < p.dataWidth
    requires WritesBit(w, w.addr, b) && !WritesBit(n, w.addr, b)
    ensures var m := map[w.addr := Not(w.wdata)];
            var s, t := ThenRead(p, m, w, w.addr), ThenRead(p, m, n, w.addr);
            !SameOutput(s, t) && !SameOutput(t, s)
  {
    var m := map[w.addr := Not(w.wdata)];
    var start := Start(p, m);
    var s, t := ThenRead(p, m, w, w.addr), ThenRead(p, m, n, w.addr);
    NextBit(p, start, w, w.addr, b);
    NextBit(p, start, n, w.addr, b);
    assert s.rdata[b] == w.wdata[b] && t.rdata[b] != w.wdata[b];
    assert OutTaint(s)[b] == w.wdataT[b] && !OutTaint(t)[b];
  }

  /** In every uncovered cycle two runs can differ in a written bit. */
  lemma UncoveredWitness(p: Params, i: In) returns (j: In, b: nat)
    requires Fits(p, i) && MayDiffer(p, i)
    ensures SameUpToTaint(p, i, j) && b < p.dataWidth
    ensures (WritesBit(i, i.addr, b) && !WritesBit(j, i.addr, b))
            || (WritesBit(j, j.addr, b) && !WritesBit(i, j.addr, b))
  {
    b :| 0 <= b < p.dataWidth && Either(i.be, i.beT)[b / 8];
    if i.req && i.we && Enables(i.be, p.dataWidth) {
      b :| 0 <= b < p.dataWidth && i.be[b / 8];
      if i.reqT {
        j := i.(req := false);
      } else if i.weT {
        j := i.(we := false);
      } else if Any(i.addrT) {
        var k :| 0 <= k < |i.addrT| && i.addrT[k];
        j := i.(addr := i.addr[k := !i.addr[k]]);
        assert j.addr[k] != i.addr[k];
      } else {
        b :| 0 <= b < p.dataWidth && i.beT[b / 8];
        j := i.(be := i.be[b / 8 := !i.be[b / 8]]);
      }
    } else {
      j := i.(req := true, we := true, be := i.be[b / 8 := true]);
    }
  }

  /** The flags cover exactly these cycles: every other one is unsafe, whatever its ports. */
  lemma CoveredExactly(p: Params, i: In)
    requires Fits(p, i)
    ensures CycleSafe(p, i) <==> Covered(p, i)
  {
    if Covered(p, i) {
      forall m: map<BitVec, BitVec>, j: In, r: BitVec | SameUpToTaint(p, i, j) && |r| == p.addrWidth
        ensures SameOutput(ThenRead(p, m, i, r), ThenRead(p, m, j, r))
      {
        var read := Read(p, r, Zeros(p.addrWidth));
        CoveredKeepsRelated(p, Start(p, m), Start(p, m), i, j);
        ReadAgrees(p, Next(p, Start(p, m), i), Next(p, Start(p, m), j), read, read);
      }
    } else {
      var j, b := UncoveredWitness(p, i);
      SameFlags(p, i, j);
      if WritesBit(i, i.addr, b) && !WritesBit(j, i.addr, b) {
        BitTellsApart(p, i, j, b);
      } else {
        BitTellsApart(p, j, i, b);
      }
    }
  }
}
