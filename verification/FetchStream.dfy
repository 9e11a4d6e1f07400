/** The realigner refines a sequential parser: whatever the timing of word arrivals and of
    the consumer, the accepted instructions are those a parser reads from memory. */
module FetchStream {
  import opened FetchFifo
  import opened Wrappers

  /** A memory image, read a word at a time at word-aligned addresses. */
  type Image = Addr -> Data

  function HalfAt(mem: Image, a: Addr): Half {
    if Unaligned(a) then mem(Align(a)).high else mem(Align(a)).low
  }

  /** Two bytes further, wrapping around at 2^32. */
  function NextHalf(a: Addr): Addr {
    if Unaligned(a) then Advance(Align(a)) else UpperHalf(a)
  }

  /** An instruction and its address; a compressed one has only its 16 bits. */
  datatype Instr = Short(addr: Addr, half: Half) | Long(addr: Addr, word: Data)

  /** Section 1.5 of the RISC-V Unprivileged ISA: two bytes unless the low two bits are 11. */
  function InstrAt(mem: Image, pc: Addr): Instr {
    var h := HalfAt(mem, pc);
    if Compressed(h) then Short(pc, h)
    else Long(pc, Data(h, HalfAt(mem, NextHalf(pc))))
  }

  function After(mem: Image, pc: Addr): Addr {
    if Compressed(HalfAt(mem, pc)) then NextHalf(pc) else NextHalf(NextHalf(pc))
  }

  /** The sequential parser: n instructions from pc on. */
  function Parse(mem: Image, pc: Addr, n: nat): (r: seq<Instr>)
    ensures |r| == n
    decreases n
  {
    if n == 0 then [] else [InstrAt(mem, pc)] + Parse(mem, After(mem, pc), n - 1)
  }

  /** The parser's state: where it reads, and where it goes after the current instruction. */
  datatype Reader = Reader(pc: Addr, redirect: Option<Addr>)

  datatype Event =
    | Accept
    | RedirectAfter(target: Addr)  // finish the current instruction, then go on at target
    | RedirectNow(target: Addr)    // none of the current instruction is there yet: go to target

  function ReadOn(mem: Image, r: Reader): Reader {
    match r.redirect
    case Some(target) => Reader(target, None)
    case None => Reader(After(mem, r.pc), None)
  }

  function React(mem: Image, r: Reader, e: Event): Reader {
    match e
    case Accept => ReadOn(mem, r)
    case RedirectAfter(target) => r.(redirect := Some(target))
    case RedirectNow(target) => Reader(target, None)
  }

  /** What the parser reads in the course of a list of events. */
  function ParseEvents(mem: Image, r: Reader, events: seq<Event>): seq<Instr>
    decreases |events|
  {
    if events == [] then []
    else (if events[0].Accept? then [InstrAt(mem, r.pc)] else [])
         + ParseEvents(mem, React(mem, r, events[0]), events[1..])
  }

  // ----- what the realigner does in a run -----

  /** The queue after a list of cycles. */
  function State(q: Queue, ins: seq<In>): Queue
    decreases |ins|
  {
    if ins == [] then q else State(Next(q, ins[0]), ins[1..])
  }

  datatype Emission = Emission(addr: Addr, rdata: Data)

  function Emitted(q: Queue, ins: seq<In>): seq<Emission>
    decreases |ins|
  {
    if ins == [] then []
    else (if Accepts(q, ins[0]) then [Emission(OutAddr(q, ins[0]), OutRdata(q, ins[0]))] else [])
         + Emitted(Next(q, ins[0]), ins[1..])
  }

  function RedirectEvents(q: Queue, i: In): seq<Event> {
    if !i.valid || !i.replace2 then []
    else if q.words == [] then [RedirectNow(i.addr)]
    else [RedirectAfter(i.addr)]
  }

  function CycleEvents(q: Queue, i: In): seq<Event> {
    RedirectEvents(q, i) + if Accepts(q, i) then [Accept] else []
  }

  function Events(q: Queue, ins: seq<In>): seq<Event>
    decreases |ins|
  {
    if ins == [] then [] else CycleEvents(q, ins[0]) + Events(Next(q, ins[0]), ins[1..])
  }

  /** A word holds an instruction: of a compressed one only the low half counts. */
  predicate Shows(w: Data, instr: Instr) {
    match instr
    case Short(_, half) => w.low == half
    case Long(_, word) => w == word
  }

  ghost predicate Matches(es: seq<Emission>, instrs: seq<Instr>) {
    |es| == |instrs| && forall k :: 0 <= k < |es| ==> es[k].addr == instrs[k].addr && Shows(es[k].rdata, instrs[k])
  }

  // ----- the environment -----

  /** The current instruction is buffered completely. */
  predicate Complete(q: Queue) {
    q.words != []
    && (q.redirect.Some? || !Unaligned(q.pc) || Compressed(q.words[0].high) || |q.words| > 1)
  }

  /** An address of a half-word. */
  predicate Even(a: Addr) {
    !a.odd
  }

  /** Words come from memory: in order, and none into a full queue; or flagged as a loop
      target that takes effect behind a complete instruction. `fetch` is the next address. */
  ghost predicate Obeys(mem: Image, q: Queue, fetch: Addr, i: In) {
    i.valid ==>
      && Even(i.addr)
      && i.rdata == mem(Align(i.addr))
      && (if i.replace2 then q.words != [] ==> i.isHwlp && Complete(q)
          else i.addr == fetch && |q.words| < DEPTH)
  }

  function NextFetch(fetch: Addr, i: In): Addr {
    if i.valid then Advance(Align(i.addr)) else fetch
  }

  /** Every cycle but the last, which may clear the queue, is free of clears. */
  ghost predicate Episode(mem: Image, q: Queue, fetch: Addr, ins: seq<In>)
    decreases |ins|
  {
    ins != [] ==>
      && Obeys(mem, q, fetch, ins[0])
      && (|ins| > 1 ==> !ins[0].clear)
      && Episode(mem, Next(q, ins[0]), NextFetch(fetch, ins[0]), ins[1..])
  }

  // ----- the invariant -----

  /** The words are those of memory from a on, and the next one is at fetch. */
  ghost predicate Follows(mem: Image, words: seq<Data>, a: Addr, fetch: Addr)
    decreases |words|
  {
    if words == [] then fetch == a else words[0] == mem(a) && Follows(mem, words[1..], Advance(a), fetch)
  }

  lemma {:induction false} FollowsAppend(mem: Image, words: seq<Data>, a: Addr, fetch: Addr)
    requires Follows(mem, words, a, fetch)
    ensures Follows(mem, words + [mem(fetch)], a, Advance(fetch))
    decreases |words|
  {
    if words == [] {
      assert (words + [mem(fetch)])[1..] == [];
    } else {
      FollowsAppend(mem, words[1..], Advance(a), fetch);
      assert (words + [mem(fetch)])[1..] == words[1..] + [mem(fetch)];
    }
  }

  ghost predicate Inv(mem: Image, q: Queue, r: Reader, fetch: Addr) {
    && Even(r.pc) && Even(fetch)
    && q.redirect == r.redirect
    && if q.words == [] then
      r.redirect.None? && fetch == r.pc
    else
      && q.pc == r.pc && Align(fetch) == fetch
      && match r.redirect
         case None => Follows(mem, q.words, Align(r.pc), fetch)
         case Some(target) =>
           && Even(target)
           && Shows(q.words[0], InstrAt(mem, r.pc))
           && |q.words| > 1
           && Follows(mem, q.words[1..], Align(target), fetch)
  }

  // ----- one cycle -----

  /** The words hold the instruction they start with. */
  lemma HeadShows(mem: Image, words: seq<Data>, pc: Addr, fetch: Addr)
    requires words != [] && Even(pc) && Follows(mem, words, Align(pc), fetch)
    ensures !Unaligned(pc) ==> Shows(words[0], InstrAt(mem, pc)) && HalfAt(mem, pc) == words[0].low
    ensures Unaligned(pc) ==> HalfAt(mem, pc) == words[0].high
    ensures Unaligned(pc) && |words| > 1 ==> Shows(Straddle(words[0], words[1]), InstrAt(mem, pc))
  {
    if |words| > 1 {
      assert words[1..][0] == mem(Advance(Align(pc)));
    }
  }

  lemma CompressedShows(mem: Image, pc: Addr, lo: Data, hi: Data)
    requires HalfAt(mem, pc) == lo.high && Compressed(lo.high)
    ensures Shows(Straddle(lo, hi), InstrAt(mem, pc))
  {
  }

  /** The reader after the redirect, if any, of a cycle. */
  function Redirected(mem: Image, r: Reader, q: Queue, i: In): Reader {
    if RedirectEvents(q, i) == [] then r else React(mem, r, RedirectEvents(q, i)[0])
  }

  lemma CompleteShows(mem: Image, q: Queue, r: Reader, fetch: Addr, i: In)
    requires Inv(mem, q, r, fetch) && Complete(q)
    ensures Shows(OutRdata(q, i), InstrAt(mem, r.pc))
  {
    if r.redirect.None? {
      HeadShows(mem, q.words, r.pc, fetch);
      if Unaligned(q.pc) && |q.words| == 1 {
        CompressedShows(mem, r.pc, q.words[0], i.rdata);
      }
    }
  }

  lemma FirstWordKeepsInv(mem: Image, q: Queue, r: Reader, fetch: Addr, i: In)
    requires Inv(mem, q, r, fetch) && Obeys(mem, q, fetch, i) && i.valid && q.words == []
    ensures Inv(mem, Pushed(q, i), Redirected(mem, r, q, i), NextFetch(fetch, i))
  {
    assert [i.rdata][1..] == [];
  }

  lemma OneFollows(mem: Image, a: Addr)
    ensures Follows(mem, [mem(a)], a, Advance(a))
  {
    assert [mem(a)][1..] == [];
  }

  lemma ReplacedInv(mem: Image, word: Data, pc: Addr, target: Addr, hwlp: bool)
    requires Even(pc) && Even(target) && Shows(word, InstrAt(mem, pc))
    ensures Inv(mem, Queue([word, mem(Align(target))], pc, Some(target), hwlp), Reader(pc, Some(target)),
                Advance(Align(target)))
  {
    var words := [word, mem(Align(target))];
    assert words[1..] == [mem(Align(target))];
    OneFollows(mem, Align(target));
  }

  lemma ReplaceKeepsInv(mem: Image, q: Queue, r: Reader, fetch: Addr, i: In)
    requires Inv(mem, q, r, fetch) && Obeys(mem, q, fetch, i) && i.valid && i.replace2 && q.words != []
    ensures Inv(mem, Pushed(q, i), Redirected(mem, r, q, i), NextFetch(fetch, i))
  {
    assert Shows(OutRdata(q, i), InstrAt(mem, r.pc)) by {
      CompleteShows(mem, q, r, fetch, i);
    }
    ReplacedInv(mem, OutRdata(q, i), r.pc, i.addr, q.headIsHwlp);
    assert Pushed(q, i) == Queue([OutRdata(q, i), i.rdata], r.pc, Some(i.addr), q.headIsHwlp);
    assert Redirected(mem, r, q, i) == Reader(r.pc, Some(i.addr));
  }

  lemma AppendKeepsInv(mem: Image, q: Queue, r: Reader, fetch: Addr, i: In)
    requires Inv(mem, q, r, fetch) && Obeys(mem, q, fetch, i) && i.valid && !i.replace2 && q.words != []
    ensures Inv(mem, Pushed(q, i), r, NextFetch(fetch, i))
  {
    var words := q.words + [i.rdata];
    assert i.rdata == mem(fetch);
    if r.redirect.None? {
      assert Follows(mem, words, Align(r.pc), NextFetch(fetch, i)) by {
        FollowsAppend(mem, q.words, Align(r.pc), fetch);
      }
    } else {
      var target := Align(r.redirect.value);
      assert Follows(mem, words[1..], target, NextFetch(fetch, i)) by {
        FollowsAppend(mem, q.words[1..], target, fetch);
        assert words[1..] == q.words[1..] + [mem(fetch)];
      }
    }
  }

  lemma PushKeepsInv(mem: Image, q: Queue, r: Reader, fetch: Addr, i: In)
    requires Inv(mem, q, r, fetch) && Obeys(mem, q, fetch, i)
    ensures Inv(mem, Pushed(q, i), Redirected(mem, r, q, i), NextFetch(fetch, i))
  {
    if i.valid {
      if q.words == [] {
        FirstWordKeepsInv(mem, q, r, fetch, i);
      } else if i.replace2 {
        ReplaceKeepsInv(mem, q, r, fetch, i);
      } else {
        AppendKeepsInv(mem, q, r, fetch, i);
      }
    }
  }

  /** An accepted instruction is the one the parser is at. */
  lemma AcceptIsRead(mem: Image, q: Queue, r: Reader, fetch: Addr, i: In)
    requires Inv(mem, q, r, fetch) && Obeys(mem, q, fetch, i) && Accepts(q, i)
    ensures var r' := Redirected(mem, r, q, i);
            OutAddr(q, i) == r'.pc && Shows(OutRdata(q, i), InstrAt(mem, r'.pc))
  {
    PushKeepsInv(mem, q, r, fetch, i);
    if q.redirect.None? {
      if i.valid && i.replace2 && q.words != [] {
        CompleteShows(mem, q, r, fetch, i);
      } else {
        var p := Pushed(q, i);
        HeadShows(mem, p.words, p.pc, NextFetch(fetch, i));
        if Unaligned(p.pc) && Compressed(p.words[0].high) {
          CompressedShows(mem, p.pc, p.words[0], if |q.words| > 1 then q.words[1] else i.rdata);
        }
      }
    }
  }

  /** The address computed on a pop is that of the next instruction. */
  lemma NextPc(mem: Image, pc: Addr, w: Data)
    requires Even(pc) && HalfAt(mem, pc) == if Unaligned(pc) then w.high else w.low
    ensures After(mem, pc) == if Unaligned(pc) then
                                if Compressed(w.high) then Advance(Align(pc)) else UpperHalf(Advance(pc))
                              else if Compressed(w.low) then UpperHalf(pc)
                              else Advance(Align(pc))
    ensures Align(After(mem, pc)) == if !Unaligned(pc) && Compressed(w.low) then Align(pc) else Advance(Align(pc))
    ensures Even(After(mem, pc))
  {
  }

  lemma PopPlain(mem: Image, p: Queue, r: Reader, fetch: Addr)
    requires Inv(mem, p, r, fetch) && p.words != [] && r.redirect.None?
    requires Unaligned(p.pc) && !Compressed(p.words[0].high) ==> |p.words| > 1
    ensures Inv(mem, Popped(p, p.words[0]), Reader(After(mem, r.pc), None), fetch)
  {
    HeadShows(mem, p.words, r.pc, fetch);
    NextPc(mem, r.pc, p.words[0]);
    assert Follows(mem, p.words[1..], Advance(Align(r.pc)), fetch);
  }

  lemma PopKeepsInv(mem: Image, p: Queue, r: Reader, fetch: Addr, rdata: Data)
    requires Inv(mem, p, r, fetch) && p.words != []
    requires r.redirect.None? ==> rdata == p.words[0]
    requires r.redirect.None? && Unaligned(p.pc) && !Compressed(rdata.high) ==> |p.words| > 1
    ensures Inv(mem, Popped(p, rdata), ReadOn(mem, r), fetch)
  {
    if r.redirect.None? {
      PopPlain(mem, p, r, fetch);
    }
  }

  lemma CycleKeepsInv(mem: Image, q: Queue, r: Reader, fetch: Addr, i: In)
    requires Inv(mem, q, r, fetch) && Obeys(mem, q, fetch, i) && !i.clear
    ensures var r' := Redirected(mem, r, q, i);
            Inv(mem, Next(q, i), if Accepts(q, i) then ReadOn(mem, r') else r', NextFetch(fetch, i))
  {
    PushKeepsInv(mem, q, r, fetch, i);
    if Accepts(q, i) {
      PopKeepsInv(mem, Pushed(q, i), Redirected(mem, r, q, i), NextFetch(fetch, i), Rdata(q, i));
    }
  }

  // ----- whole runs -----

  lemma MatchesAppend(a: seq<Emission>, b: seq<Emission>, c: seq<Instr>, d: seq<Instr>)
    requires Matches(a, c) && Matches(b, d)
    ensures Matches(a + b, c + d)
  {
  }

  /** One cycle adds the same to what is emitted and to what is parsed. */
  lemma {:induction false} CycleMatches(mem: Image, q: Queue, r: Reader, fetch: Addr, i: In, es: seq<Emission>,
          instrs: seq<Instr>)
    requires Inv(mem, q, r, fetch) && Obeys(mem, q, fetch, i) && Matches(es, instrs)
    ensures Accepts(q, i) ==>
              Matches([Emission(OutAddr(q, i), OutRdata(q, i))] + es,
                      [InstrAt(mem, Redirected(mem, r, q, i).pc)] + instrs)
  {
    if Accepts(q, i) {
      AcceptIsRead(mem, q, r, fetch, i);
      MatchesAppend([Emission(OutAddr(q, i), OutRdata(q, i))], es, [InstrAt(mem, Redirected(mem, r, q, i).pc)], instrs);
    }
  }

  lemma {:induction false} RunRefines(mem: Image, q: Queue, r: Reader, fetch: Addr, ins: seq<In>)
    requires Inv(mem, q, r, fetch) && Episode(mem, q, fetch, ins)
    ensures Matches(Emitted(q, ins), ParseEvents(mem, r, Events(q, ins)))
    decreases |ins|
  {
    if ins != [] {
      var i, q', fetch' := ins[0], Next(q, ins[0]), NextFetch(fetch, ins[0]);
      var r' := Redirected(mem, r, q, i);
      var r'' := if Accepts(q, i) then ReadOn(mem, r') else r';
      var rest := Events(q', ins[1..]);
      if |ins| > 1 {
        CycleKeepsInv(mem, q, r, fetch, i);
        RunRefines(mem, q', r'', fetch', ins[1..]);
      } else {
        assert ins[1..] == [];
      }
      CycleParse(mem, r, q, i, rest);
      CycleMatches(mem, q, r, fetch, i, Emitted(q', ins[1..]), ParseEvents(mem, r'', rest));
      EmittedStep(q, ins);
    }
  }

  lemma {:induction false} EmittedStep(q: Queue, ins: seq<In>)
    requires ins != []
    ensures var rest := Emitted(Next(q, ins[0]), ins[1..]);
            Emitted(q, ins) == if Accepts(q, ins[0]) then [Emission(OutAddr(q, ins[0]), OutRdata(q, ins[0]))] + rest
                               else rest
    ensures Events(q, ins) == CycleEvents(q, ins[0]) + Events(Next(q, ins[0]), ins[1..])
  {
  }

  lemma {:induction false} CycleParse(mem: Image, r: Reader, q: Queue, i: In, rest: seq<Event>)
    ensures var r' := Redirected(mem, r, q, i);
            ParseEvents(mem, r, CycleEvents(q, i) + rest)
            == if Accepts(q, i) then [InstrAt(mem, r'.pc)] + ParseEvents(mem, ReadOn(mem, r'), rest)
                 else ParseEvents(mem, r', rest)
  {
    var red, acc := RedirectEvents(q, i), if Accepts(q, i) then [Accept] else [];
    assert CycleEvents(q, i) + rest == red + (acc + rest);
    if red != [] {
      assert (red + (acc + rest))[1..] == acc + rest;
    } else {
      assert red + (acc + rest) == acc + rest;
    }
    if acc != [] {
      assert (acc + rest)[1..] == rest;
    } else {
      assert acc + rest == rest;
    }
  }

  /** Fetch stream: from an empty queue and for every even start address, memory image and
      timing, the accepted instructions are those the parser reads, redirects included; a
      clear in the last cycle leads back to an empty queue, where the next such run starts. */
  lemma {:induction false} StreamIsParse(mem: Image, start: Addr, ins: seq<In>)
    requires Even(start) && Episode(mem, EMPTY, start, ins)
    ensures Matches(Emitted(EMPTY, ins), ParseEvents(mem, Reader(start, None), Events(EMPTY, ins)))
    ensures ins != [] && ins[|ins| - 1].clear ==> State(EMPTY, ins) == EMPTY
  {
    RunRefines(mem, EMPTY, Reader(start, None), start, ins);
    if ins != [] && ins[|ins| - 1].clear {
      ClearedAtEnd(EMPTY, ins);
    }
  }

  lemma {:induction false} ClearedAtEnd(q: Queue, ins: seq<In>)
    requires ins != [] && ins[|ins| - 1].clear
    ensures State(q, ins) == EMPTY
    decreases |ins|
  {
    if |ins| > 1 {
      ClearedAtEnd(Next(q, ins[0]), ins[1..]);
    } else {
      assert ins[1..] == [];
    }
  }

  // ----- consequences -----

  ghost predicate OnlyAccepts(events: seq<Event>) {
    forall k :: 0 <= k < |events| ==> events[k] == Accept
  }

  lemma {:induction false} AcceptsParse(mem: Image, pc: Addr, events: seq<Event>)
    requires OnlyAccepts(events)
    ensures ParseEvents(mem, Reader(pc, None), events) == Parse(mem, pc, |events|)
    decreases |events|
  {
    if events != [] {
      AcceptsParse(mem, After(mem, pc), events[1..]);
    }
  }

  lemma {:induction false} NoRedirectEvents(q: Queue, ins: seq<In>)
    requires forall i :: i in ins ==> !i.replace2
    ensures OnlyAccepts(Events(q, ins))
    decreases |ins|
  {
    if ins != [] {
      assert ins[0] in ins;
      NoRedirectEvents(Next(q, ins[0]), ins[1..]);
    }
  }

  /** Without redirects: nothing lost, duplicated or torn. */
  lemma {:induction false} PlainStreamIsParse(mem: Image, start: Addr, ins: seq<In>)
    requires Even(start) && Episode(mem, EMPTY, start, ins) && forall i :: i in ins ==> !i.replace2
    ensures Matches(Emitted(EMPTY, ins), Parse(mem, start, |Emitted(EMPTY, ins)|))
  {
    StreamIsParse(mem, start, ins);
    NoRedirectEvents(EMPTY, ins);
    AcceptsParse(mem, start, Events(EMPTY, ins));
  }

  // ----- a redirect -----

  /** The address n instructions after pc. */
  function Skip(mem: Image, pc: Addr, n: nat): Addr
    decreases n
  {
    if n == 0 then pc else Skip(mem, After(mem, pc), n - 1)
  }

  lemma {:induction false} ParseOneMore(mem: Image, pc: Addr, n: nat)
    ensures Parse(mem, pc, n + 1) == Parse(mem, pc, n) + [InstrAt(mem, Skip(mem, pc, n))]
    decreases n
  {
    if n > 0 {
      ParseOneMore(mem, After(mem, pc), n - 1);
    }
  }

  lemma Regroup<T>(a: seq<T>, b: seq<T>, c: seq<T>)
    ensures a + (b + c) == (a + b) + c
  {
  }

  lemma {:induction false} ParseHead(mem: Image, r: Reader, e: Event, rest: seq<Event>)
    ensures ParseEvents(mem, r, [e] + rest)
            == (if e.Accept? then [InstrAt(mem, r.pc)] else []) + ParseEvents(mem, React(mem, r, e), rest)
  {
    assert ([e] + rest)[1..] == rest;
  }

  /** A parse of plain instructions, and then of anything else. */
  lemma {:induction false} AcceptsThen(mem: Image, pc: Addr, events: seq<Event>, rest: seq<Event>)
    requires OnlyAccepts(events)
    ensures ParseEvents(mem, Reader(pc, None), events + rest)
            == Parse(mem, pc, |events|) + ParseEvents(mem, Reader(Skip(mem, pc, |events|), None), rest)
    decreases |events|
  {
    if events == [] {
      assert events + rest == rest;
    } else {
      var next, back := After(mem, pc), Reader(Skip(mem, pc, |events|), None);
      AcceptsThen(mem, next, events[1..], rest);
      assert events + rest == [Accept] + (events[1..] + rest);
      ParseHead(mem, Reader(pc, None), Accept, events[1..] + rest);
      Regroup([InstrAt(mem, pc)], Parse(mem, next, |events| - 1), ParseEvents(mem, back, rest));
    }
  }

  /** What the parser reads once a redirect has been noted: the current instruction, unless
      none is there, and then from the target on. */
  lemma {:induction false} AfterRedirect(mem: Image, pc: Addr, e: Event, events: seq<Event>)
    requires OnlyAccepts(events) && !e.Accept?
    ensures ParseEvents(mem, Reader(pc, None), [e] + events)
            == if e.RedirectNow? then Parse(mem, e.target, |events|)
               else if events == [] then []
               else [InstrAt(mem, pc)] + Parse(mem, e.target, |events| - 1)
  {
    ParseHead(mem, Reader(pc, None), e, events);
    if e.RedirectNow? {
      AcceptsParse(mem, e.target, events);
    } else if events != [] {
      assert events == [Accept] + events[1..];
      ParseHead(mem, Reader(pc, Some(e.target)), Accept, events[1..]);
      AcceptsParse(mem, e.target, events[1..]);
    }
  }

  lemma {:induction false} EventsHead(q: Queue, i: In, rest: seq<In>)
    ensures Events(q, [i] + rest) == CycleEvents(q, i) + Events(Next(q, i), rest)
    ensures State(q, [i] + rest) == State(Next(q, i), rest)
  {
    assert ([i] + rest)[1..] == rest;
  }

  lemma {:induction false} EventsSplit(q: Queue, a: seq<In>, b: seq<In>)
    ensures Events(q, a + b) == Events(q, a) + Events(State(q, a), b)
    decreases |a|
  {
    if a == [] {
      assert a + b == b;
    } else {
      var i, rest, q' := a[0], a[1..], Next(q, a[0]);
      assert a == [i] + rest && a + b == [i] + (rest + b);
      EventsSplit(q', rest, b);
      EventsHead(q, i, rest + b);
      EventsHead(q, i, rest);
      Regroup(CycleEvents(q, i), Events(q', rest), Events(State(q', rest), b));
    }
  }

  lemma {:induction false} EmittedHead(q: Queue, i: In, rest: seq<In>)
    ensures Emitted(q, [i] + rest)
            == (if Accepts(q, i) then [Emission(OutAddr(q, i), OutRdata(q, i))] else []) + Emitted(Next(q, i), rest)
    ensures State(q, [i] + rest) == State(Next(q, i), rest)
  {
    assert ([i] + rest)[1..] == rest;
  }

  lemma {:induction false} EmittedSplit(q: Queue, a: seq<In>, b: seq<In>)
    ensures Emitted(q, a + b) == Emitted(q, a) + Emitted(State(q, a), b)
    decreases |a|
  {
    if a == [] {
      assert a + b == b;
    } else {
      var i, rest, q' := a[0], a[1..], Next(q, a[0]);
      assert a == [i] + rest && a + b == [i] + (rest + b);
      EmittedSplit(q', rest, b);
      EmittedHead(q, i, rest + b);
      EmittedHead(q, i, rest);
      Regroup(if Accepts(q, i) then [Emission(OutAddr(q, i), OutRdata(q, i))] else [],
              Emitted(q', rest), Emitted(State(q', rest), b));
    }
  }

  lemma {:induction false} AcceptsAreEmitted(q: Queue, ins: seq<In>)
    requires forall i :: i in ins ==> !i.replace2
    ensures |Emitted(q, ins)| == |Events(q, ins)|
    decreases |ins|
  {
    if ins != [] {
      assert ins[0] in ins;
      AcceptsAreEmitted(Next(q, ins[0]), ins[1..]);
      EmittedStep(q, ins);
    }
  }

  lemma {:induction false} AcceptsAppend(a: seq<Event>, b: seq<Event>)
    requires OnlyAccepts(a) && OnlyAccepts(b)
    ensures OnlyAccepts(a + b)
  {
  }

  /** The events of a run that begins with a redirect, and has no other. */
  lemma {:induction false} RedirectFirst(q: Queue, i: In, later: seq<In>) returns (back: seq<Event>)
    requires i.valid && i.replace2 && forall j :: j in later ==> !j.replace2
    ensures Events(q, [i] + later) == [RedirectEvents(q, i)[0]] + back && OnlyAccepts(back)
  {
    var acc, rest := if Accepts(q, i) then [Accept] else [], Events(Next(q, i), later);
    back := acc + rest;
    EventsHead(q, i, later);
    NoRedirectEvents(Next(q, i), later);
    AcceptsAppend(acc, rest);
    Regroup(RedirectEvents(q, i), acc, rest);
    assert RedirectEvents(q, i) == [RedirectEvents(q, i)[0]];
  }

  /** How many instructions from the start a redirect lets through: those accepted before it
      and, if anything is buffered then, the current one. */
  function Kept(before: seq<In>): nat {
    |Emitted(EMPTY, before)| + if State(EMPTY, before).words != [] then 1 else 0
  }

  /** The parse around a redirect behind n instructions. */
  lemma {:induction false} ParseAround(mem: Image, start: Addr, n: nat, e: Event, back: seq<Event>, k: nat, kept: nat)
    requires OnlyAccepts(back) && !e.Accept? && kept == (if e.RedirectNow? then n else n + 1)
    ensures var instrs := Parse(mem, start, n) + ParseEvents(mem, Reader(Skip(mem, start, n), None), [e] + back);
            k == |instrs| ==>
              instrs == if k <= kept then Parse(mem, start, k)
                  else Parse(mem, start, kept) + Parse(mem, e.target, k - kept)
  {
    var front := Parse(mem, start, n);
    AfterRedirect(mem, Skip(mem, start, n), e, back);
    assert front + [] == front;
    if e.RedirectAfter? {
      ParseOneMore(mem, start, n);
      var last := [InstrAt(mem, Skip(mem, start, n))];
      assert last + Parse(mem, e.target, 0) == last;
      if back != [] {
        var rest := Parse(mem, e.target, |back| - 1);
        assert front + (last + rest) == (front + last) + rest;
      }
    } else {
      assert front + Parse(mem, e.target, 0) == front;
    }
  }

  /** The stream around a redirect: in a run with a single one, at cycle i, the accepted
      instructions are the parse from the start up to and including the current instruction,
      and then the parse from the loop target, whether the pops come in that cycle or later. */
  lemma {:induction false} RedirectedStream(mem: Image, start: Addr, before: seq<In>, i: In, later: seq<In>)
    requires Even(start) && Episode(mem, EMPTY, start, before + ([i] + later))
    requires i.valid && i.replace2
    requires forall j :: j in before ==> !j.replace2
    requires forall j :: j in later ==> !j.replace2
    ensures var es, kept := Emitted(EMPTY, before + ([i] + later)), Kept(before);
            Matches(es, if |es| <= kept then Parse(mem, start, |es|)
                        else Parse(mem, start, kept) + Parse(mem, i.addr, |es| - kept))
  {
    var ins, q := before + ([i] + later), State(EMPTY, before);
    var front, e := Events(EMPTY, before), RedirectEvents(q, i)[0];
    StreamIsParse(mem, start, ins);
    EventsSplit(EMPTY, before, [i] + later);
    NoRedirectEvents(EMPTY, before);
    AcceptsAreEmitted(EMPTY, before);
    var back := RedirectFirst(q, i, later);
    AcceptsThen(mem, start, front, [e] + back);
    ParseAround(mem, start, |front|, e, back, |Emitted(EMPTY, ins)|, Kept(before));
  }

  /** The loop flag of each instruction read in the course of a list of events: it is the
      first one behind a redirect. */
  function LoopFlags(here: bool, pending: bool, events: seq<Event>): seq<bool>
    decreases |events|
  {
    if events == [] then []
    else match events[0]
      case Accept => [here] + LoopFlags(pending, false, events[1..])
      case RedirectAfter(_) => LoopFlags(here, true, events[1..])
      case RedirectNow(_) => LoopFlags(true, false, events[1..])
  }

  function EmittedFlags(q: Queue, ins: seq<In>): seq<bool>
    decreases |ins|
  {
    if ins == [] then []
    else (if Accepts(q, ins[0]) then [OutIsHwlp(q, ins[0])] else []) + EmittedFlags(Next(q, ins[0]), ins[1..])
  }

  predicate FlagInv(q: Queue) {
    && (q.words == [] ==> q.redirect.None? && !q.headIsHwlp)
    && (q.redirect.Some? ==> |q.words| > 1)
  }

  /** A replacement comes from a loop; the flag of any other word counts only if the word is
      passed on at once. */
  predicate FlagsMean(q: Queue, i: In) {
    i.valid ==> if i.replace2 then i.isHwlp else i.isHwlp ==> q.words != [] || !Accepts(q, i)
  }

  lemma {:induction false} CycleFlags(q: Queue, i: In, rest: seq<Event>)
    requires FlagInv(q) && !i.clear && FlagsMean(q, i)
    ensures var n := Next(q, i);
            FlagInv(n)
            && LoopFlags(q.headIsHwlp, q.redirect.Some?, CycleEvents(q, i) + rest)
               == (if Accepts(q, i) then [OutIsHwlp(q, i)] else []) + LoopFlags(n.headIsHwlp, n.redirect.Some?, rest)
  {
    var red, acc := RedirectEvents(q, i), if Accepts(q, i) then [Accept] else [];
    var events := red + (acc + rest);
    assert CycleEvents(q, i) + rest == events;
    if red == [] {
      assert events == acc + rest;
    } else {
      assert events[1..] == acc + rest;
    }
    if acc == [] {
      assert acc + rest == rest;
    } else {
      assert (acc + rest)[1..] == rest;
    }
  }

  ghost predicate AllFlagsMean(q: Queue, ins: seq<In>)
    decreases |ins|
  {
    ins != [] ==> !ins[0].clear && FlagsMean(q, ins[0]) && AllFlagsMean(Next(q, ins[0]), ins[1..])
  }

  /** Exactly the first instruction behind each redirect is marked as coming from a loop. */
  lemma {:induction false} LoopFlagsMarkTargets(q: Queue, ins: seq<In>)
    requires FlagInv(q) && AllFlagsMean(q, ins)
    ensures EmittedFlags(q, ins) == LoopFlags(q.headIsHwlp, q.redirect.Some?, Events(q, ins))
    decreases |ins|
  {
    if ins != [] {
      CycleFlags(q, ins[0], Events(Next(q, ins[0]), ins[1..]));
      LoopFlagsMarkTargets(Next(q, ins[0]), ins[1..]);
    }
  }

  /** No deadlock: an instruction is offered exactly when all its bytes are buffered or
      arriving. */
  lemma {:induction false} OfferedWhenThere(mem: Image, q: Queue, r: Reader, fetch: Addr, i: In)
    requires Inv(mem, q, r, fetch) && Obeys(mem, q, fetch, i) && !i.replace2
    ensures var bytes := 4 * (|q.words| + if i.valid then 1 else 0) - (if Unaligned(r.pc) then 2 else 0);
            OutValid(q, i)
            <==> r.redirect.Some?
                 || (bytes > 0 && bytes >= if InstrAt(mem, r.pc).Short? then 2 else 4)
  {
    if r.redirect.None? && (q.words != [] || i.valid) {
      var words := Pushed(q, i).words;
      assert HalfAt(mem, r.pc) == if Unaligned(r.pc) then words[0].high else words[0].low by {
        PushKeepsInv(mem, q, r, fetch, i);
        HeadShows(mem, words, r.pc, NextFetch(fetch, i));
      }
    }
  }

  /** For an unaligned instruction whose first half is there, the length flag tells its length. */
  lemma {:induction false} LengthFlagTells(mem: Image, q: Queue, r: Reader, fetch: Addr, i: In)
    requires Inv(mem, q, r, fetch) && Obeys(mem, q, fetch, i) && !i.replace2
    requires Unaligned(r.pc) && r.redirect.None? && (q.words != [] || i.valid)
    ensures UnalignedIsCompressed(q, i) <==> InstrAt(mem, r.pc).Short?
  {
    PushKeepsInv(mem, q, r, fetch, i);
    HeadShows(mem, Pushed(q, i).words, r.pc, NextFetch(fetch, i));
  }

  /** Whatever comes in, the four registers are enough; a word into a full queue is lost. */
  lemma {:induction false} CapacityKept(q: Queue, ins: seq<In>)
    requires |q.words| <= DEPTH
    ensures |State(q, ins).words| <= DEPTH
    decreases |ins|
  {
    if ins != [] {
      CapacityKept(Next(q, ins[0]), ins[1..]);
    }
  }

  // ----- progress -----

  function Length(mem: Image, pc: Addr): nat {
    if Compressed(HalfAt(mem, pc)) then 2 else 4
  }

  /** How many whole instructions from pc on lie in so many bytes. */
  function Whole(mem: Image, pc: Addr, bytes: nat): nat
    decreases bytes
  {
    if bytes < Length(mem, pc) then 0 else 1 + Whole(mem, After(mem, pc), bytes - Length(mem, pc))
  }

  /** The bytes that n buffered words hold from pc on. */
  function Bytes(n: nat, pc: Addr): nat {
    if n == 0 then 0 else 4 * n - if Unaligned(pc) then 2 else 0
  }

  /** How many instructions have arrived and wait to be accepted. */
  function Waiting(mem: Image, q: Queue): nat {
    match q.redirect
    case None => Whole(mem, q.pc, Bytes(|q.words|, q.pc))
    case Some(target) => 1 + Whole(mem, target, Bytes(if q.words == [] then 0 else |q.words| - 1, target))
  }

  lemma {:induction false} WholeMonotone(mem: Image, pc: Addr, bytes: nat, more: nat)
    requires bytes <= more
    ensures Whole(mem, pc, bytes) <= Whole(mem, pc, more)
    decreases bytes
  {
    if bytes >= Length(mem, pc) {
      WholeMonotone(mem, After(mem, pc), bytes - Length(mem, pc), more - Length(mem, pc));
    }
  }

  lemma {:induction false} WholeBound(mem: Image, pc: Addr, bytes: nat)
    ensures 2 * Whole(mem, pc, bytes) <= bytes
    decreases bytes
  {
    if bytes >= Length(mem, pc) {
      WholeBound(mem, After(mem, pc), bytes - Length(mem, pc));
    }
  }

  /** An instruction that waits is offered. */
  lemma {:induction false} WaitingIsOffered(mem: Image, q: Queue, r: Reader, fetch: Addr, i: In)
    requires Inv(mem, q, r, fetch) && Obeys(mem, q, fetch, i) && !i.replace2 && Waiting(mem, q) > 0
    ensures OutValid(q, i) && q.words != []
  {
    if r.redirect.None? && q.words != [] {
      HeadShows(mem, q.words, r.pc, fetch);
    }
  }

  /** Popping the head takes its length from the bytes buffered. */
  lemma {:induction false} PopTakesLength(mem: Image, p: Queue, r: Reader, fetch: Addr)
    requires Inv(mem, p, r, fetch) && p.words != [] && r.redirect.None?
    requires Bytes(|p.words|, p.pc) >= Length(mem, p.pc)
    ensures var p' := Popped(p, p.words[0]);
            && Bytes(|p'.words|, After(mem, p.pc)) == Bytes(|p.words|, p.pc) - Length(mem, p.pc)
            && p'.redirect.None? && (p'.words != [] ==> p'.pc == After(mem, p.pc))
  {
    HeadShows(mem, p.words, r.pc, fetch);
  }

  /** A ready cycle takes one instruction from those that wait, and at most one. */
  lemma {:induction false} OneLess(mem: Image, q: Queue, r: Reader, fetch: Addr, i: In)
    requires Inv(mem, q, r, fetch) && Obeys(mem, q, fetch, i) && !i.replace2 && !i.clear && i.outReady
    requires Waiting(mem, q) > 0
    ensures Accepts(q, i) && Inv(mem, Next(q, i), ReadOn(mem, r), NextFetch(fetch, i))
    ensures Waiting(mem, Next(q, i)) >= Waiting(mem, q) - 1
  {
    WaitingIsOffered(mem, q, r, fetch, i);
    CycleKeepsInv(mem, q, r, fetch, i);
    PushKeepsInv(mem, q, r, fetch, i);
    var p := Pushed(q, i);
    assert |p.words| >= |q.words| && p.words[0] == q.words[0] && Next(q, i) == Popped(p, q.words[0]);
    match q.redirect
    case None =>
      PopTakesLength(mem, p, r, NextFetch(fetch, i));
      WholeMonotone(mem, After(mem, q.pc), Bytes(|q.words|, q.pc) - Length(mem, q.pc),
                    Bytes(|p.words|, q.pc) - Length(mem, q.pc));
    case Some(target) =>
      WholeMonotone(mem, target, Bytes(|q.words| - 1, target), Bytes(|p.words| - 1, target));
  }

  lemma {:induction false} DrainsOnePerCycle(mem: Image, q: Queue, r: Reader, fetch: Addr, ins: seq<In>)
    requires Inv(mem, q, r, fetch) && Episode(mem, q, fetch, ins)
    requires forall i :: i in ins ==> i.outReady && !i.replace2 && !i.clear
    ensures |Emitted(q, ins)| >= if |ins| < Waiting(mem, q) then |ins| else Waiting(mem, q)
    decreases |ins|
  {
    if ins != [] && Waiting(mem, q) > 0 {
      assert ins[0] in ins;
      OneLess(mem, q, r, fetch, ins[0]);
      DrainsOnePerCycle(mem, Next(q, ins[0]), ReadOn(mem, r), NextFetch(fetch, ins[0]), ins[1..]);
      EmittedStep(q, ins);
    }
  }

  lemma {:induction false} AtMostTwoPerWord(mem: Image, q: Queue)
    requires q.redirect.Some? ==> q.words != []
    ensures Waiting(mem, q) <= 2 * |q.words|
  {
    match q.redirect
    case None => WholeBound(mem, q.pc, Bytes(|q.words|, q.pc));
    case Some(target) => WholeBound(mem, target, Bytes(|q.words| - 1, target));
  }

  /** The queue stays in step with memory up to the middle of an episode. */
  lemma {:induction false} MiddleInv(mem: Image, q: Queue, r: Reader, fetch: Addr, before: seq<In>, later: seq<In>)
    returns (r': Reader, fetch': Addr)
    requires Inv(mem, q, r, fetch) && Episode(mem, q, fetch, before + later) && later != []
    ensures Inv(mem, State(q, before), r', fetch') && Episode(mem, State(q, before), fetch', later)
    decreases |before|
  {
    if before == [] {
      assert before + later == later;
      r', fetch' := r, fetch;
    } else {
      var i, rest := before[0], before[1..];
      assert (before + later)[0] == i && (before + later)[1..] == rest + later;
      CycleKeepsInv(mem, q, r, fetch, i);
      var red := Redirected(mem, r, q, i);
      r', fetch' := MiddleInv(mem, Next(q, i), if Accepts(q, i) then ReadOn(mem, red) else red,
                              NextFetch(fetch, i), rest, later);
    }
  }

  /** Progress: in every run, from any cycle on in which the consumer is ready it takes an
      instruction in each cycle, whatever words arrive meanwhile, until all those have been
      taken that had arrived by then; these are at most two for each buffered word. */
  lemma {:induction false} ReadyConsumerDrains(mem: Image, start: Addr, before: seq<In>, later: seq<In>)
    requires Even(start) && Episode(mem, EMPTY, start, before + later) && later != []
    requires forall i :: i in later ==> i.outReady && !i.replace2 && !i.clear
    ensures var q := State(EMPTY, before); var n := Waiting(mem, q);
            && |Emitted(EMPTY, before + later)| >= |Emitted(EMPTY, before)| + (if |later| < n then |later| else n)
            && n <= 2 * |q.words|
  {
    var r, fetch := MiddleInv(mem, EMPTY, Reader(start, None), start, before, later);
    DrainsOnePerCycle(mem, State(EMPTY, before), r, fetch, later);
    EmittedSplit(EMPTY, before, later);
    AtMostTwoPerWord(mem, State(EMPTY, before));
  }

  /** in_ready_o promises room for one more word after the one now arriving. */
  lemma {:induction false} ReadyMeansRoom(q: Queue, i: In, later: seq<In>)
    requires |q.words| < DEPTH - 1 && forall j :: j in later ==> !j.valid
    ensures |State(Next(q, i), later).words| < DEPTH
    decreases |later|
  {
    assert |Next(q, i).words| < DEPTH;
    Drains(Next(q, i), later);
  }

  lemma {:induction false} Drains(q: Queue, ins: seq<In>)
    requires |q.words| < DEPTH && forall j :: j in ins ==> !j.valid
    ensures |State(q, ins).words| < DEPTH
    decreases |ins|
  {
    if ins != [] {
      assert ins[0] in ins;
      Drains(Next(q, ins[0]), ins[1..]);
    }
  }

  /** A prealigned instruction in front of a loop target is what is offered until accepted. */
  lemma {:induction false} OfferedUntilAccepted(q: Queue, ins: seq<In>)
    requires q.redirect.Some? && q.words != [] && forall j :: j in ins ==> !j.clear && !j.replace2
    ensures var es := Emitted(q, ins); es != [] ==> es[0] == Emission(q.pc, q.words[0])
    decreases |ins|
  {
    if ins != [] {
      assert ins[0] in ins;
      EmittedStep(q, ins);
      if !Accepts(q, ins[0]) {
        OfferedUntilAccepted(Next(q, ins[0]), ins[1..]);
      }
    }
  }

  /** What the contract of a redirect is for: a loop target that replaces the rest of an
      instruction of which only one half is buffered tears it. The next instruction accepted,
      in that cycle or later, has the right address, but the right contents exactly if the
      target's word happens to begin with the missing half. */
  lemma {:induction false} RedirectTearsExactly(mem: Image, q: Queue, r: Reader, fetch: Addr, i: In, later: seq<In>)
    requires Inv(mem, q, r, fetch) && q.words != [] && !Complete(q) && i.valid && i.replace2 && i.isHwlp && !i.clear
    requires forall j :: j in later ==> !j.clear && !j.replace2
    ensures var es := Emitted(q, [i] + later);
            es != [] ==>
              && es[0].addr == r.pc
              && (Shows(es[0].rdata, InstrAt(mem, r.pc)) <==> i.rdata.low == HalfAt(mem, NextHalf(r.pc)))
  {
    var torn := OutRdata(q, i);
    assert Shows(torn, InstrAt(mem, r.pc)) <==> i.rdata.low == HalfAt(mem, NextHalf(r.pc)) by {
      HeadShows(mem, q.words, r.pc, fetch);
    }
    EmittedStep(q, [i] + later);
    assert ([i] + later)[1..] == later;
    if !Accepts(q, i) {
      OfferedUntilAccepted(Next(q, i), later);
    }
  }

  /** The stored-only valid flag agrees with the valid flag of a cycle without input,
      except when nothing is buffered, the incoming address is unaligned, and the stale
      first register looks like a compressed instruction. */
  lemma StoredFlagExactly(q: Queue, i: In, rdata0: Data)
    requires (q.words != [] ==> rdata0 == q.words[0])
    ensures (OutValidStored(q, i, rdata0) <==> OutValid(q, i.(valid := false)))
            <==> !(q.words == [] && q.redirect.None? && Unaligned(i.addr) && Compressed(rdata0.high))
  {
  }

  /** Nor is it free of signals from outside: with the same registers it depends on the inputs
      of the cycle exactly when nothing is buffered and the stale first register looks like a
      compressed instruction; then the incoming address decides. */
  lemma StoredFlagDependsExactly(q: Queue, rdata0: Data)
    requires q.words != [] ==> rdata0 == q.words[0]
    ensures (forall i: In, j: In :: OutValidStored(q, i, rdata0) == OutValidStored(q, j, rdata0))
            <==> !(q.words == [] && q.redirect.None? && Compressed(rdata0.high))
  {
    if q.words == [] && q.redirect.None? && Compressed(rdata0.high) {
      var i := In(false, ZERO, rdata0, false, false, false, false);
      assert OutValidStored(q, i.(addr := UpperHalf(ZERO)), rdata0) != OutValidStored(q, i, rdata0);
    }
  }

  /** That exception is met in the very first cycle after reset, when the register is 0. */
  lemma StoredFlagWrongAfterReset(i: In)
    requires i.addr == UpperHalf(ZERO) && !i.valid
    ensures OutValidStored(EMPTY, i, Data(0, 0)) && !OutValid(EMPTY, i)
  {
  }
}
