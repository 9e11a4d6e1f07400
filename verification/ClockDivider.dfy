/** The programmable clock divider: a counter and two toggles, one on each edge of the
    input clock, whose exclusive or is the divided clock. */
module ClockDivider {
  import opened Arith
  import opened Bits

  datatype Regs = Regs(counter: Byte, div1: bool, div2: bool, bypass: bool, clkCnt: Byte, isOdd: bool, validReg: bool)

  /** After reset, for the parameters BYPASS_INIT and DIV_INIT. */
  function Reset(bypassInit: bool, divInit: Byte): Regs {
    Regs(0, false, false, bypassInit, divInit, false, false)
  }

  function CountFor(div: Byte): Byte
    requires div >= 2
  {
    if div % 2 == 1 then div - 1 else if div == 2 then 0 else div / 2 - 1
  }

  function CounterNext(s: Regs, valid: bool): Byte {
    if valid || s.counter == s.clkCnt then 0 else (s.counter + 1) % 256
  }

  /** The flip-flops on the rising edge of the input clock. */
  function Rise(s: Regs, div: Byte, valid: bool): Regs {
    var s' := s.(counter := if s.bypass then s.counter else CounterNext(s, valid), validReg := valid);
    if !valid then
      s'.(div1 := if s.counter == 0 && !s.bypass then !s.div1 else s.div1)
    else if div < 2 then
      s'.(div1 := false, bypass := true, clkCnt := 0, isOdd := false)
    else
      s'.(div1 := false, bypass := false, clkCnt := CountFor(div), isOdd := div % 2 == 1)
  }

  /** The flip-flop on the falling edge. */
  function Fall(s: Regs, valid: bool): Regs {
    var en2 := !valid && s.counter == s.clkCnt / 2 + 1;
    s.(div2 := if s.validReg then false else if en2 && s.isOdd && !s.bypass then !s.div2 else s.div2)
  }

  /** clk_out, while the input clock is at level clk. */
  predicate ClkOut(s: Regs, clk: bool) {
    if s.bypass then clk else s.div1 != s.div2
  }

  class ClockDividerCounter {
    var counter: Byte
    var div1: bool
    var div2: bool
    var bypass: bool
    var clkCnt: Byte
    var isOdd: bool
    var validReg: bool

    ghost function State(): Regs
      reads this
    {
      Regs(counter, div1, div2, bypass, clkCnt, isOdd, validReg)
    }

    constructor (bypassInit: bool := true, divInit: Byte := 0xFF)
      ensures State() == Reset(bypassInit, divInit)
    {
      counter, div1, div2, bypass, clkCnt, isOdd, validReg := 0, false, false, bypassInit, divInit, false, false;
    }

    method TickRise(div: Byte, valid: bool)
      modifies this
      ensures State() == Rise(old(State()), div, valid)
    {
      var en1 := counter == 0;
      var running := !bypass;
      if running {
        counter := if valid then 0 else if counter == clkCnt then 0 else (counter + 1) % 256;
      }
      validReg := valid;
      if valid {
        Load(div);
      } else if en1 && running {
        div1 := !div1;
      }
    }

    method Load(div: Byte)
      modifies this`div1, this`bypass, this`clkCnt, this`isOdd
      ensures !div1 && bypass == (div < 2) && isOdd == (div >= 2 && div % 2 == 1)
      ensures clkCnt == if div < 2 then 0 else CountFor(div)
    {
      if div == 0 || div == 1 {
        bypass, clkCnt, isOdd := true, 0, false;
      } else {
        bypass, isOdd := false, div % 2 == 1;
        clkCnt := if isOdd then div - 1 else if div == 2 then 0 else div / 2 - 1;
      }
      div1 := false;
    }

    method TickFall(valid: bool)
      modifies this`div2
      ensures State() == Fall(old(State()), valid)
    {
      var en2 := !valid && counter == clkCnt / 2 + 1;
      if validReg {
        div2 := false;
      } else if en2 && isOdd && !bypass {
        div2 := !div2;
      }
    }
  }

  // ----- reachable states -----

  datatype Edge = Rising(div: Byte, valid: bool) | Falling(valid: bool)

  function Run(s: Regs, edges: seq<Edge>): Regs
    decreases |edges|
  {
    if edges == [] then s
    else Run(match edges[0] case Rising(d, v) => Rise(s, d, v) case Falling(v) => Fall(s, v), edges[1..])
  }

  /** While bypassed, the counter rests at zero: a load always starts a full period. */
  lemma {:induction false} BypassedCounterIsZero(s: Regs, edges: seq<Edge>)
    requires s.bypass ==> s.counter == 0
    ensures var e := Run(s, edges); e.bypass ==> e.counter == 0
    decreases |edges|
  {
    if edges != [] {
      BypassedCounterIsZero(match edges[0] case Rising(d, v) => Rise(s, d, v) case Falling(v) => Fall(s, v),
                            edges[1..]);
    }
  }

  // ----- the divided clock -----

  /** n half-cycles later, starting with a rising edge; no new divisor is loaded. */
  function After(s: Regs, n: nat): Regs {
    if n == 0 then s else HalfCycle(After(s, n - 1), n - 1)
  }

  /** The half-cycle h: a rising edge if h is even, a falling one if it is odd. */
  function HalfCycle(s: Regs, h: nat): Regs {
    if h % 2 == 0 then Rise(s, 0, false) else Fall(s, false)
  }

  /** The output in the half-cycle h. */
  predicate Level(s: Regs, h: nat) {
    ClkOut(After(s, h + 1), h % 2 == 0)
  }

  /** Just loaded: the rising edge that loads div, and the falling edge behind it. */
  function Loaded(s: Regs, div: Byte, valid: bool): Regs {
    Fall(Rise(s, div, true), valid)
  }

  predicate Parity(n: nat) {
    n % 2 == 1
  }

  /** After k whole periods and c more cycles of an odd division by n; e says whether the
      falling edge of the cycle has passed. */
  predicate OddState(s: Regs, n: Byte, k: nat, c: nat, e: nat) {
    && n % 2 == 1 && n >= 3 && c < n && e < 2
    && s.isOdd && !s.bypass && !s.validReg && s.clkCnt == n - 1 && s.counter == c
    && s.div1 == Parity(k + Bit(c >= 1))
    && s.div2 == Parity(k + Bit(c > (n + 1) / 2 || (c == (n + 1) / 2 && e == 1)))
  }

  /** The same for an even division by 2 * m. */
  predicate EvenState(s: Regs, m: nat, k: nat, c: nat) {
    && 1 <= m <= 256 && c < m
    && !s.isOdd && !s.bypass && !s.validReg && s.clkCnt == m - 1 && s.counter == c
    && !s.div2 && s.div1 == Parity(k + Bit(c >= 1))
  }

  lemma OddRise(s: Regs, n: Byte, k: nat, c: nat)
    requires OddState(s, n, k, c, 1)
    ensures var s' := Rise(s, 0, false);
            if c == n - 1 then OddState(s', n, k + 1, 0, 0) else OddState(s', n, k, c + 1, 0)
  {
  }

  lemma OddFall(s: Regs, n: Byte, k: nat, c: nat)
    requires OddState(s, n, k, c, 0)
    ensures OddState(Fall(s, false), n, k, c, 1)
  {
  }

  lemma OddStart(s: Regs, n: Byte, valid: bool)
    requires n % 2 == 1 && n >= 3 && (s.bypass ==> s.counter == 0)
    ensures OddState(After(Loaded(s, n, valid), 1), n, 0, 1, 0)
  {
    var s0 := Loaded(s, n, valid);
    assert After(s0, 1) == Rise(After(s0, 0), 0, false);
  }

  lemma OddStep(s: Regs, s': Regs, n: Byte, k: nat, c: nat, h: nat) returns (k': nat, c': nat)
    requires OddState(s, n, k, c, if h % 2 == 0 then 1 else 0) && s' == HalfCycle(s, h)
    requires Times(k, n) + c == (if h % 2 == 0 then h / 2 else h / 2 + 1)
    ensures OddState(s', n, k', c', h % 2)
    ensures Times(k', n) + c' == h / 2 + 1
  {
    if h % 2 == 0 {
      OddRise(s, n, k, c);
      k', c' := if c == n - 1 then k + 1 else k, if c == n - 1 then 0 else c + 1;
    } else {
      OddFall(s, n, k, c);
      k', c' := k, c;
    }
  }

  lemma {:induction false} OddRun(s0: Regs, n: Byte, h: nat) returns (k: nat, c: nat)
    requires OddState(After(s0, 1), n, 0, 1, 0)
    ensures OddState(After(s0, h + 1), n, k, c, h % 2)
    ensures Times(k, n) + c == h / 2 + 1
  {
    if h == 0 {
      k, c := 0, 1;
    } else {
      k, c := OddRun(s0, n, h - 1);
      k, c := OddStep(After(s0, h), After(s0, h + 1), n, k, c, h);
    }
  }

  lemma EvenRise(s: Regs, m: nat, k: nat, c: nat)
    requires EvenState(s, m, k, c)
    ensures var s' := Rise(s, 0, false);
            if c == m - 1 then EvenState(s', m, k + 1, 0) else EvenState(s', m, k, c + 1)
    ensures EvenState(Fall(s, false), m, k, c)
  {
  }

  lemma EvenStart(s: Regs, n: Byte, valid: bool)
    requires n % 2 == 0 && n >= 2 && (s.bypass ==> s.counter == 0)
    ensures var s1 := After(Loaded(s, n, valid), 1);
            if n == 2 then EvenState(s1, 1, 1, 0) else EvenState(s1, n / 2, 0, 1)
  {
    var s0 := Loaded(s, n, valid);
    assert After(s0, 1) == Rise(After(s0, 0), 0, false);
  }

  lemma EvenStep(s: Regs, s': Regs, m: nat, k: nat, c: nat, h: nat) returns (k': nat, c': nat)
    requires EvenState(s, m, k, c) && s' == HalfCycle(s, h)
    requires Times(k, m) + c == (if h % 2 == 0 then h / 2 else h / 2 + 1)
    ensures EvenState(s', m, k', c')
    ensures Times(k', m) + c' == h / 2 + 1
  {
    EvenRise(s, m, k, c);
    k', c' := k, c;
    if h % 2 == 0 {
      k', c' := if c == m - 1 then k + 1 else k, if c == m - 1 then 0 else c + 1;
    }
  }

  lemma {:induction false} EvenRun(s0: Regs, m: nat, h: nat) returns (k: nat, c: nat)
    requires if m == 1 then EvenState(After(s0, 1), 1, 1, 0) else EvenState(After(s0, 1), m, 0, 1)
    ensures EvenState(After(s0, h + 1), m, k, c)
    ensures Times(k, m) + c == h / 2 + 1
  {
    if h == 0 {
      assert Times(1, 1) == 1;
      k, c := if m == 1 then 1 else 0, if m == 1 then 0 else 1;
    } else {
      k, c := EvenRun(s0, m, h - 1);
      k, c := EvenStep(After(s0, h), After(s0, h + 1), m, k, c, h);
    }
  }

  lemma Half(h: nat, n: nat, q: nat, r: nat)
    requires r < n && h == Times(q, n) + r
    ensures h / n == q
  {
    TimesIsProduct(q, n);
    Commute(q, n);
    ModUnique(h, n, q, r);
  }

  lemma {:induction false} TimesTwice(k: nat, n: nat)
    ensures Times(2 * k, n) == 2 * Times(k, n)
    ensures Times(k, 2 * n) == 2 * Times(k, n)
  {
    if k > 0 {
      TimesTwice(k - 1, n);
      assert Times(2 * k, n) == n + Times(2 * k - 1, n);
    }
  }

  /** In which half period the half-cycle h falls. */
  lemma OddQuotient(n: nat, k: nat, c: nat, h: nat)
    requires n >= 2 && c < n && Times(k, n) + c == h / 2 + 1
    ensures c == 0 ==> k > 0
    ensures h / n == if c == 0 then 2 * k - 1 else 2 * k + Bit(2 * c - 2 + h % 2 >= n)
  {
    TimesTwice(k, n);
    if c == 0 {
      assert Times(2 * k, n) == n + Times(2 * k - 1, n);
      Half(h, n, 2 * k - 1, n - 2 + h % 2);
    } else if 2 * c - 2 + h % 2 < n {
      Half(h, n, 2 * k, 2 * c - 2 + h % 2);
    } else {
      Half(h, n, 2 * k + 1, 2 * c - 2 + h % 2 - n);
    }
  }

  lemma OddOutput(s: Regs, n: Byte, k: nat, c: nat, e: nat, q: nat)
    requires OddState(s, n, k, c, e)
    requires c == 0 ==> k > 0
    requires q == if c == 0 then 2 * k - 1 else 2 * k + Bit(2 * c - 2 + e >= n)
    ensures ClkOut(s, e == 0) <==> q % 2 == 0
  {
    assert Parity(k) != Parity(k + 1);
  }

  lemma OddLevel(s: Regs, n: Byte, k: nat, c: nat, h: nat)
    requires OddState(s, n, k, c, h % 2) && Times(k, n) + c == h / 2 + 1
    ensures ClkOut(s, h % 2 == 0) <==> (h / n) % 2 == 0
  {
    OddQuotient(n, k, c, h);
    OddOutput(s, n, k, c, h % 2, h / n);
  }

  lemma EvenQuotient(n: nat, k: nat, c: nat, h: nat)
    requires n >= 2 && n % 2 == 0 && c < n / 2 && Times(k, n / 2) + c == h / 2 + 1
    ensures c == 0 ==> k > 0
    ensures h / n == if c == 0 then k - 1 else k
  {
    TimesTwice(k, n / 2);
    assert 2 * (n / 2) == n;
    if c == 0 {
      assert Times(k, n) == n + Times(k - 1, n);
      Half(h, n, k - 1, n - 2 + h % 2);
    } else {
      Half(h, n, k, 2 * c - 2 + h % 2);
    }
  }

  lemma EvenOutput(s: Regs, m: nat, k: nat, c: nat, clk: bool, q: nat)
    requires EvenState(s, m, k, c) && (c == 0 ==> k > 0) && q == if c == 0 then k - 1 else k
    ensures ClkOut(s, clk) <==> q % 2 == 0
  {
    assert Parity(k) != Parity(k + 1);
  }

  lemma EvenLevel(s: Regs, n: nat, k: nat, c: nat, h: nat)
    requires n >= 2 && n % 2 == 0 && EvenState(s, n / 2, k, c) && Times(k, n / 2) + c == h / 2 + 1
    ensures ClkOut(s, h % 2 == 0) <==> (h / n) % 2 == 0
  {
    EvenQuotient(n, k, c, h);
    EvenOutput(s, n / 2, k, c, h % 2 == 0, h / n);
  }

  predicate EvenHalf(h: nat, n: nat)
    requires n > 0
  {
    (h / n) % 2 == 0
  }

  /** Exact division: once any divisor n >= 2 is loaded, in every half-cycle h from the
      next rising edge on the output is high exactly if h / n is even, for odd and even
      divisors alike. */
  lemma DividesExactly(s: Regs, n: Byte, valid: bool, h: nat)
    requires n >= 2 && (s.bypass ==> s.counter == 0)
    ensures Level(Loaded(s, n, valid), h) <==> EvenHalf(h, n)
  {
    var s0 := Loaded(s, n, valid);
    if n % 2 == 1 {
      OddStart(s, n, valid);
      var k, c := OddRun(s0, n, h);
      OddLevel(After(s0, h + 1), n, k, c, h);
    } else {
      EvenStart(s, n, valid);
      var k, c := EvenRun(s0, n / 2, h);
      EvenLevel(After(s0, h + 1), n, k, c, h);
    }
  }

  /** Loading 0 or 1 passes the input clock through until the next load. */
  lemma {:induction false} BypassPassesClock(s: Regs, n: Byte, valid: bool, h: nat)
    requires n < 2
    ensures After(Loaded(s, n, valid), h + 1).bypass
    ensures Level(Loaded(s, n, valid), h) <==> h % 2 == 0
  {
    if h > 0 {
      BypassPassesClock(s, n, valid, h - 1);
    } else {
      assert After(Loaded(s, n, valid), 0).bypass;
    }
  }

  /** From reset, until the first load: with BYPASS_INIT the input clock is passed through, and
      without it DIV_INIT is taken as the count of an even division, so that the divisor is
      2 * (DIV_INIT + 1). */
  lemma {:induction false} ResetLevel(bypassInit: bool, divInit: Byte, h: nat)
    ensures Level(Reset(bypassInit, divInit), h)
            <==> if bypassInit then h % 2 == 0 else EvenHalf(h, 2 * (divInit + 1))
  {
    var s0, m := Reset(bypassInit, divInit), divInit + 1;
    if bypassInit {
      StaysBypassed(s0, h + 1);
    } else {
      assert After(s0, 1) == Rise(After(s0, 0), 0, false);
      var k, c := EvenRun(s0, m, h);
      EvenLevel(After(s0, h + 1), 2 * m, k, c, h);
    }
  }

  lemma {:induction false} StaysBypassed(s: Regs, h: nat)
    requires s.bypass
    ensures After(s, h).bypass
  {
    if h > 0 {
      StaysBypassed(s, h - 1);
    }
  }

  lemma Decompose(h: nat, n: nat)
    requires n > 0
    ensures h == Times(h / n, n) + h % n
  {
    TimesIsProduct(h / n, n);
    Commute(h / n, n);
  }

  lemma ParityShifts(a: nat, b: nat, d: nat)
    requires b == a + d && d <= 2
    ensures b % 2 == 0 <==> ((a % 2 == 0) != (d == 1))
  {
  }

  lemma TwoHalvesLater(h: nat, n: nat)
    requires n > 0
    ensures EvenHalf(h + 2 * n, n) == EvenHalf(h, n)
  {
    Decompose(h, n);
    assert Times(h / n + 2, n) == n + Times(h / n + 1, n);
    Half(h + 2 * n, n, h / n + 2, h % n);
    ParityShifts(h / n, h / n + 2, 2);
  }

  /** The output repeats after n input cycles, that is 2 n half-cycles, for ever. */
  lemma PeriodIsDivisor(s: Regs, n: Byte, valid: bool, h: nat)
    requires n >= 2 && (s.bypass ==> s.counter == 0)
    ensures Level(Loaded(s, n, valid), h + 2 * n) == Level(Loaded(s, n, valid), h)
  {
    DividesExactly(s, n, valid, h);
    DividesExactly(s, n, valid, h + 2 * n);
    TwoHalvesLater(h, n);
  }

  /** How many of the len half-cycles from h on are high. */
  function HighCount(level: nat -> bool, h: nat, len: nat): nat
    decreases len
  {
    if len == 0 then 0 else Bit(level(h)) + HighCount(level, h + 1, len - 1)
  }

  lemma {:induction false} CountSplit(level: nat -> bool, h: nat, a: nat, b: nat)
    ensures HighCount(level, h, a + b) == HighCount(level, h, a) + HighCount(level, h + a, b)
    decreases a
  {
    if a > 0 {
      CountSplit(level, h + 1, a - 1, b);
    }
  }

  lemma {:induction false} CountConstant(level: nat -> bool, h: nat, len: nat, b: bool)
    requires forall j: nat :: h <= j < h + len ==> level(j) == b
    ensures HighCount(level, h, len) == if b then len else 0
    decreases len
  {
    if len > 0 {
      CountConstant(level, h + 1, len - 1, b);
    }
  }

  /** The rest of one half period, the whole next one, and the beginning of the third. */
  lemma CountPeriod(level: nat -> bool, n: nat, h: nat, rest: nat, b: bool)
    requires rest <= n
    requires forall j: nat :: h <= j < h + rest ==> level(j) == b
    requires forall j: nat :: h + rest <= j < h + rest + n ==> level(j) == !b
    requires forall j: nat :: h + rest + n <= j < h + 2 * n ==> level(j) == b
    ensures HighCount(level, h, 2 * n) == n
  {
    CountConstant(level, h, rest, b);
    CountConstant(level, h + rest, n, !b);
    CountConstant(level, h + rest + n, n - rest, b);
    CountSplit(level, h + rest, n, n - rest);
    CountSplit(level, h, rest, 2 * n - rest);
  }

  /** The half period in which j falls, counted from that of h. */
  lemma WhichHalf(n: nat, h: nat, j: nat)
    requires n > 0 && h <= j < h + 2 * n
    ensures j / n == h / n + if j < h + (n - h % n) then 0 else if j < h + (n - h % n) + n then 1 else 2
  {
    var q := h / n;
    Decompose(h, n);
    assert Times(q + 1, n) == n + Times(q, n);
    assert Times(q + 2, n) == n + Times(q + 1, n);
    if j < Times(q + 1, n) {
      Half(j, n, q, j - Times(q, n));
    } else if j < Times(q + 2, n) {
      Half(j, n, q + 1, j - Times(q + 1, n));
    } else {
      Half(j, n, q + 2, j - Times(q + 2, n));
    }
  }

  lemma HalvesAlternate(n: nat, h: nat, j: nat, rest: nat)
    requires n > 0 && h <= j < h + 2 * n && rest == n - h % n
    ensures EvenHalf(j, n) <==> (EvenHalf(h, n) != (h + rest <= j < h + rest + n))
  {
    WhichHalf(n, h, j);
    ParityShifts(h / n, j / n, if j < h + rest then 0 else if j < h + rest + n then 1 else 2);
  }

  /** A duty cycle of one half: of any 2 n consecutive half-cycles exactly n are high. */
  lemma HalfOfThePeriodHigh(s: Regs, n: Byte, valid: bool, h: nat, level: nat -> bool)
    requires n >= 2 && (s.bypass ==> s.counter == 0)
    requires forall j: nat :: level(j) == Level(Loaded(s, n, valid), j)
    ensures HighCount(level, h, 2 * n) == n
  {
    var rest, b := n - h % n, EvenHalf(h, n);
    forall j: nat | h <= j < h + 2 * n
      ensures level(j) == (b != (h + rest <= j < h + rest + n))
    {
      DividesExactly(s, n, valid, j);
      HalvesAlternate(n, h, j, rest);
    }
    CountPeriod(level, n, h, rest, b);
  }
}
