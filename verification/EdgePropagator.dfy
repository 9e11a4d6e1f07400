/** The edge propagator: a transmit flop, a three-stage synchroniser on the receive clock
    (pulp_sync_wedge), and a two-stage acknowledge synchroniser back on the transmit clock.
    The two clocks tick in any interleaving. */
module EdgePropagator {

  /** r_reg; r2 is filled from the input, r0 is the output. */
  datatype Wedge = Wedge(r2: bool, r1: bool, r0: bool) {
    predicate RisingEdge() {
      r1 && !r0
    }
  }

  datatype Regs = Regs(input: bool, wedge: Wedge, sync1: bool, sync0: bool)

  const RESET := Regs(false, Wedge(false, false, false), false, false)

  /** Which clock ticks; edge is edge_i, sampled by the transmit clock. */
  datatype Tick = Tx(edge: bool) | Rx | Both(edge: bool)

  predicate TxTicks(t: Tick) {
    !t.Rx?
  }

  predicate RxTicks(t: Tick) {
    !t.Tx?
  }

  predicate Raised(t: Tick) {
    !t.Rx? && t.edge
  }

  function NextWedge(w: Wedge, serial: bool, en: bool): Wedge {
    if en then Wedge(serial, w.r2, w.r1) else w
  }

  function Next(s: Regs, t: Tick): Regs {
    var s' := if TxTicks(t) then s.(input := t.edge || (s.input && !s.sync0), sync1 := s.wedge.r0, sync0 := s.sync1)
        else s;
    if RxTicks(t) then s'.(wedge := NextWedge(s.wedge, s.input, true)) else s'
  }

  class PulpSyncWedge {
    var r: Wedge

    constructor ()
      ensures r == Wedge(false, false, false)
    {
      r := Wedge(false, false, false);
    }

    method TickWedge(serial: bool, en: bool) returns (rEdge: bool, fEdge: bool, serialOut: bool)
      modifies this
      ensures r == NextWedge(old(r), serial, en)
      ensures rEdge == old(r).RisingEdge() && fEdge == (!old(r).r1 && old(r).r0) && serialOut == old(r).r0
    {
      rEdge, fEdge, serialOut := r.r1 && !r.r0, !r.r1 && r.r0, r.r0;
      if en {
        r := Wedge(serial, r.r2, r.r1);
      }
    }
  }

  class EdgePropagator {
    const uSync: PulpSyncWedge
    var rInputReg: bool
    var syncA1: bool
    var syncA0: bool

    ghost function State(): Regs
      reads this, uSync
    {
      Regs(rInputReg, uSync.r, syncA1, syncA0)
    }

    constructor ()
      ensures State() == RESET && fresh(uSync)
    {
      uSync := new PulpSyncWedge();
      rInputReg, syncA1, syncA0 := false, false, false;
    }

    /** A tick of one clock, or of both at the same time. */
    method TickClocks(t: Tick) returns (edgeOut: bool)
      modifies this, uSync
      ensures State() == Next(old(State()), t)
      ensures edgeOut == old(State()).wedge.RisingEdge()
    {
      var serial, syncB := rInputReg, uSync.r.r0;
      edgeOut := uSync.r.r1 && !uSync.r.r0;
      if TxTicks(t) {
        rInputReg := t.edge || (rInputReg && !syncA0);
        syncA1, syncA0 := syncB, syncA1;
      }
      if RxTicks(t) {
        var _, _, _ := uSync.TickWedge(serial, true);
      }
    }
  }

  // ----- runs -----

  function Run(s: Regs, ticks: seq<Tick>): Regs
    decreases |ticks|
  {
    if ticks == [] then s else Run(Next(s, ticks[0]), ticks[1..])
  }

  /** A pulse can be taken: the transmit flop is low, and no earlier one comes back now. */
  predicate Sendable(s: Regs) {
    !s.input && !s.sync1
  }

  /** edge_i is raised only while a pulse can be taken. */
  ghost predicate Polite(s: Regs, ticks: seq<Tick>)
    decreases |ticks|
  {
    ticks != [] ==> (Raised(ticks[0]) ==> Sendable(s)) && Polite(Next(s, ticks[0]), ticks[1..])
  }

  /** The number of raised pulses. */
  function Sent(ticks: seq<Tick>): nat {
    if ticks == [] then 0 else (if Raised(ticks[0]) then 1 else 0) + Sent(ticks[1..])
  }

  /** The number of receive cycles with edge_o high. */
  function Received(s: Regs, ticks: seq<Tick>): nat
    decreases |ticks|
  {
    if ticks == [] then 0
    else (if RxTicks(ticks[0]) && Next(s, ticks[0]).wedge.RisingEdge() then 1 else 0)
         + Received(Next(s, ticks[0]), ticks[1..])
  }

  function Differ(a: bool, b: bool): nat {
    if a == b then 0 else 1
  }

  /** The number of value changes along the six flops of the ring. */
  function Changes(s: Regs): nat {
    Differ(s.input, s.wedge.r2) + Differ(s.wedge.r2, s.wedge.r1) + Differ(s.wedge.r1, s.wedge.r0)
    + Differ(s.wedge.r0, s.sync1) + Differ(s.sync1, s.sync0)
  }

  predicate OneChange(s: Regs) {
    Changes(s) <= 1
  }

  /** The wave of a pulse has not reached the receiver's edge detector. */
  function InFlight(s: Regs): nat {
    if s.input && !s.wedge.r1 then 1 else 0
  }

  lemma TickKeepsWave(s: Regs, t: Tick)
    requires OneChange(s) && (Raised(t) ==> Sendable(s))
    ensures OneChange(Next(s, t))
    ensures var seen := if RxTicks(t) && Next(s, t).wedge.RisingEdge() then 1 else 0;
            InFlight(s) + (if Raised(t) then 1 else 0) == seen + InFlight(Next(s, t))
  {
  }

  /** Edge crossing: for every interleaving of the two clocks, the ring holds at most one
      value change, and every raised pulse is seen exactly once, up to the one in flight. */
  lemma {:induction false} EveryPulseSeenOnce(s: Regs, ticks: seq<Tick>)
    requires OneChange(s) && Polite(s, ticks)
    ensures OneChange(Run(s, ticks))
    ensures InFlight(s) + Sent(ticks) == Received(s, ticks) + InFlight(Run(s, ticks))
    decreases |ticks|
  {
    if ticks != [] {
      TickKeepsWave(s, ticks[0]);
      EveryPulseSeenOnce(Next(s, ticks[0]), ticks[1..]);
    }
  }

  /** From reset, every pulse but the one in flight has been seen. */
  lemma SeenFromReset(ticks: seq<Tick>)
    requires Polite(RESET, ticks)
    ensures Sent(ticks) == Received(RESET, ticks) + InFlight(Run(RESET, ticks))
  {
    EveryPulseSeenOnce(RESET, ticks);
  }

  function RxCount(ticks: seq<Tick>): nat {
    if ticks == [] then 0 else (if RxTicks(ticks[0]) then 1 else 0) + RxCount(ticks[1..])
  }

  /** How many receive ticks a pulse in flight needs. */
  function Distance(s: Regs): nat {
    if InFlight(s) == 0 then 0 else if s.wedge.r2 then 1 else 2
  }

  /** The pulse in flight arrives within two receive ticks, whatever the transmit clock does. */
  lemma {:induction false} PulseArrives(s: Regs, ticks: seq<Tick>)
    requires OneChange(s) && Polite(s, ticks) && RxCount(ticks) >= Distance(s)
    requires forall k :: 0 <= k < |ticks| ==> !Raised(ticks[k])
    ensures InFlight(Run(s, ticks)) == 0
    ensures Received(s, ticks) == InFlight(s)
    decreases |ticks|
  {
    EveryPulseSeenOnce(s, ticks);
    NothingSent(ticks);
    if ticks != [] {
      TickKeepsWave(s, ticks[0]);
      Approaches(s, ticks[0]);
      PulseArrives(Next(s, ticks[0]), ticks[1..]);
    }
  }

  lemma Approaches(s: Regs, t: Tick)
    requires OneChange(s) && !Raised(t)
    ensures Distance(Next(s, t)) <= if RxTicks(t) && Distance(s) > 0 then Distance(s) - 1 else Distance(s)
  {
  }

  lemma {:induction false} NothingSent(ticks: seq<Tick>)
    requires forall k :: 0 <= k < |ticks| ==> !Raised(ticks[k])
    ensures Sent(ticks) == 0
    decreases |ticks|
  {
    if ticks != [] {
      NothingSent(ticks[1..]);
    }
  }

  // ----- when a pulse can be raised -----

  /** After a pulse raised in s, no polite continuation loses or invents one. */
  ghost predicate PulseSafe(s: Regs) {
    forall ticks: seq<Tick> :: Polite(Next(s, Tx(true)), ticks) ==> Balanced(s, ticks)
  }

  predicate Balanced(s: Regs, ticks: seq<Tick>) {
    var s' := Next(s, Tx(true));
    InFlight(s) + 1 + Sent(ticks) == Received(s', ticks) + InFlight(Run(s', ticks))
  }

  /** The contract is exact: in every state of the wave a pulse may be raised if and only if
      the transmit flop and the first acknowledge flop are low. */
  lemma PulseSafeExactly(s: Regs)
    requires OneChange(s)
    ensures PulseSafe(s) <==> Sendable(s)
  {
    var s' := Next(s, Tx(true));
    if Sendable(s) {
      forall ticks: seq<Tick> | Polite(s', ticks)
        ensures Balanced(s, ticks)
      {
        TickKeepsWave(s, Tx(true));
        EveryPulseSeenOnce(s', ticks);
      }
    } else {
      UnsafePulse(s);
    }
  }

  /** Such a pulse is lost at once, or by the next transmit tick. */
  lemma UnsafePulse(s: Regs)
    requires OneChange(s) && !Sendable(s)
    ensures Polite(Next(s, Tx(true)), []) && Polite(Next(s, Tx(true)), [Tx(false)])
    ensures !Balanced(s, []) || !Balanced(s, [Tx(false)])
  {
    OneTick(Next(s, Tx(true)), Tx(false));
  }

  lemma OneTick(s: Regs, t: Tick)
    ensures Polite(s, []) && Run(s, []) == s && Received(s, []) == 0 && Sent([]) == 0
    ensures Run(s, [t]) == Next(s, t) && Sent([t]) == if Raised(t) then 1 else 0
    ensures Received(s, [t]) == if RxTicks(t) && Next(s, t).wedge.RisingEdge() then 1 else 0
    ensures Polite(s, [t]) <==> (Raised(t) ==> Sendable(s))
  {
    assert [t][1..] == [];
  }

  /** Waiting for both the flop and the last acknowledge flop is enough. */
  lemma AcknowledgedIsSendable(s: Regs)
    requires OneChange(s) && !s.input && !s.sync0
    ensures Sendable(s)
  {
  }

  // ----- and when again -----

  /** How many flops the wave has still to pass until a pulse can be taken. */
  function Rank(s: Regs): nat {
    if s.input then
      (if s.wedge.r2 then 0 else 1) + (if s.wedge.r1 then 0 else 1) + (if s.wedge.r0 then 0 else 1)
      + (if s.sync1 then 0 else 1) + (if s.sync0 then 0 else 1) + 5
    else
      (if s.wedge.r2 then 1 else 0) + (if s.wedge.r1 then 1 else 0) + (if s.wedge.r0 then 1 else 0)
      + if s.sync1 then 1 else 0
  }

  /** The receive clock moves the wave on. */
  predicate RxMoves(s: Regs) {
    if s.input then !s.wedge.r0 else s.wedge.r0
  }

  lemma TickMovesWave(s: Regs, t: Tick)
    requires OneChange(s) && !Raised(t)
    ensures OneChange(Next(s, t)) && (Sendable(s) <==> Rank(s) == 0)
    ensures Rank(Next(s, t)) <= Rank(s)
    ensures Rank(s) > 0 && (if RxMoves(s) then RxTicks(t) else TxTicks(t)) ==> Rank(Next(s, t)) < Rank(s)
    ensures Rank(Next(s, t)) == Rank(s) ==> RxMoves(Next(s, t)) == RxMoves(s)
  {
  }

  /** Both clocks tick, and no pulse is raised. */
  ghost predicate Round(ticks: seq<Tick>) {
    && (exists k :: 0 <= k < |ticks| && TxTicks(ticks[k])) && (exists k :: 0 <= k < |ticks| && RxTicks(ticks[k]))
    && forall k :: 0 <= k < |ticks| ==> !Raised(ticks[k])
  }

  lemma {:induction false} TicksMoveWave(s: Regs, ticks: seq<Tick>)
    requires OneChange(s) && forall k :: 0 <= k < |ticks| ==> !Raised(ticks[k])
    ensures OneChange(Run(s, ticks)) && Rank(Run(s, ticks)) <= Rank(s)
    ensures Rank(s) > 0 && (exists k :: 0 <= k < |ticks| && if RxMoves(s) then RxTicks(ticks[k]) else TxTicks(ticks[k]))
            ==> Rank(Run(s, ticks)) < Rank(s)
    decreases |ticks|
  {
    if ticks != [] {
      TickMovesWave(s, ticks[0]);
      TicksMoveWave(Next(s, ticks[0]), ticks[1..]);
      assert forall k :: 0 < k < |ticks| ==> ticks[k] == ticks[1..][k - 1];
    }
  }

  function Flat(rounds: seq<seq<Tick>>): seq<Tick> {
    if rounds == [] then [] else rounds[0] + Flat(rounds[1..])
  }

  lemma {:induction false} RunSplit(s: Regs, a: seq<Tick>, b: seq<Tick>)
    ensures Run(s, a + b) == Run(Run(s, a), b)
    decreases |a|
  {
    if a == [] {
      assert a + b == b;
    } else {
      RunSplit(Next(s, a[0]), a[1..], b);
      assert (a + b)[1..] == a[1..] + b;
    }
  }

  lemma RankBound(s: Regs)
    ensures Rank(s) <= 10
  {
  }

  /** The acknowledge comes back: from every state of the wave a pulse can be raised again after
      ten rounds in each of which both clocks tick, however often and in whatever order. */
  lemma {:induction false} SendableAgain(s: Regs, rounds: seq<seq<Tick>>)
    requires OneChange(s) && (|rounds| >= 10 || |rounds| >= Rank(s))
    requires forall k :: 0 <= k < |rounds| ==> Round(rounds[k])
    ensures Sendable(Run(s, Flat(rounds)))
    decreases |rounds|
  {
    RankBound(s);
    if rounds == [] {
      TickMovesWave(s, Rx);
    } else {
      assert Round(rounds[0]);
      TicksMoveWave(s, rounds[0]);
      RunSplit(s, rounds[0], Flat(rounds[1..]));
      SendableAgain(Run(s, rounds[0]), rounds[1..]);
    }
  }
}
