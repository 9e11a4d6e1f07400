/** The ordered dictionary of ordereddict.py: a dictionary, and a circular doubly linked
    list of its keys with a sentinel, mutated in place. */
module OrderedDict {
  import opened Wrappers

  /** The value of an ordered dictionary: its keys in order, and its entries. */
  datatype Value<K, V> = Value(keys: seq<K>, entries: map<K, V>)

  function Index<K(==)>(keys: seq<K>, key: K): (i: nat)
    requires key in keys
    ensures i < |keys| && keys[i] == key
    ensures forall j :: 0 <= j < i ==> keys[j] != key
  {
    if keys[0] == key then 0 else 1 + Index(keys[1..], key)
  }

  function Without<K(==)>(keys: seq<K>, key: K): seq<K>
    requires key in keys
  {
    Cut(keys, Index(keys, key))
  }

  function Reverse<K>(keys: seq<K>): (r: seq<K>)
    ensures |r| == |keys|
    ensures forall i :: 0 <= i < |keys| ==> r[i] == keys[|keys| - 1 - i]
  {
    if keys == [] then [] else Reverse(keys[1..]) + [keys[0]]
  }

  function Set<K(==), V>(d: Value<K, V>, key: K, value: V): Value<K, V> {
    Value(if key in d.entries then d.keys else d.keys + [key], d.entries[key := value])
  }

  /** Deletion; a missing key is an error and changes nothing. */
  function Delete<K(==), V>(d: Value<K, V>, key: K): Value<K, V>
    requires key in d.entries ==> key in d.keys
  {
    if key in d.entries then Value(Without(d.keys, key), d.entries - {key}) else d
  }

  ghost predicate Distinct<T>(s: seq<T>) {
    s == [] || (s[0] !in s[1..] && Distinct(s[1..]))
  }

  lemma {:induction false} DistinctMeans<T>(s: seq<T>)
    ensures Distinct(s) <==> forall i, j :: 0 <= i < j < |s| ==> s[i] != s[j]
    decreases |s|
  {
    if s != [] {
      DistinctMeans(s[1..]);
      if forall i, j :: 0 <= i < j < |s| ==> s[i] != s[j] {
        forall i, j | 0 <= i < j < |s[1..]|
          ensures s[1..][i] != s[1..][j]
        {
          assert s[i + 1] != s[j + 1];
        }
      } else {
        var i, j :| 0 <= i < j < |s| && s[i] == s[j];
        if i == 0 {
          assert s[1..][j - 1] == s[0];
        } else {
          assert s[1..][i - 1] == s[1..][j - 1];
        }
      }
    }
  }

  lemma DistinctAppend<T>(s: seq<T>, x: T)
    requires Distinct(s) && x !in s
    ensures Distinct(s + [x])
  {
    DistinctMeans(s);
    DistinctMeans(s + [x]);
  }

  /** s without its k-th element. */
  function Cut<T>(s: seq<T>, k: nat): seq<T>
    requires k < |s|
  {
    s[..k] + s[k + 1..]
  }

  lemma DistinctWithout<T>(s: seq<T>, k: nat)
    requires Distinct(s) && k < |s|
    ensures Distinct(Cut(s, k)) && s[k] !in Cut(s, k)
  {
    DistinctMeans(s);
    DistinctMeans(Cut(s, k));
  }

  /** The neighbours of the k-th element in the ring that end closes. */
  function Before<T>(s: seq<T>, end: T, k: nat): T
    requires k < |s|
  {
    if k == 0 then end else s[k - 1]
  }

  function Behind<T>(s: seq<T>, end: T, k: nat): T
    requires k < |s|
  {
    if k == |s| - 1 then end else s[k + 1]
  }

  /** Where the elements and the former neighbours of the k-th stand after it is cut out. */
  lemma CutMeans<T>(s: seq<T>, end: T, k: nat)
    requires Distinct(s) && end !in s && k < |s|
    ensures var c := Cut(s, k);
            && Distinct(c) && end !in c
            && (forall i :: 0 <= i < |c| ==> c[i] == s[if i < k then i else i + 1])
            && (forall i :: 0 <= i < |c| ==> (c[i] == Before(s, end, k) <==> i == k - 1))
            && (forall i :: 0 <= i < |c| ==> (c[i] == Behind(s, end, k) <==> i == k))
  {
    var c := Cut(s, k);
    DistinctWithout(s, k);
    DistinctMeans(s);
    forall i | 0 <= i < |c|
      ensures c[i] == s[if i < k then i else i + 1]
      ensures c[i] == Before(s, end, k) <==> i == k - 1
      ensures c[i] == Behind(s, end, k) <==> i == k
    {
    }
  }

  ghost predicate Consistent<K(!new), V>(d: Value<K, V>) {
    Distinct(d.keys) && forall k :: k in d.entries <==> k in d.keys
  }

  /** A list cell: [key, prev, next]; the sentinel has no key. */
  class Cell<K> {
    const key: Option<K>
    var prev: Cell?<K>
    var next: Cell?<K>

    constructor (key: Option<K>, prev: Cell?<K>, next: Cell?<K>)
      ensures this.key == key && this.prev == prev && this.next == next
    {
      this.key, this.prev, this.next := key, prev, next;
    }
  }

  ghost predicate Carry<K>(cells: seq<Cell<K>>, keys: seq<K>, cellOf: map<K, Cell<K>>) {
    && |cells| == |keys|
    && forall i :: 0 <= i < |keys| ==> cells[i].key == Some(keys[i]) && keys[i] in cellOf && cellOf[keys[i]] == cells[i]
  }

  lemma CarryAppend<K>(cells: seq<Cell<K>>, keys: seq<K>, cellOf: map<K, Cell<K>>, cell: Cell<K>, key: K)
    requires Carry(cells, keys, cellOf) && key !in cellOf && cell.key == Some(key)
    ensures Carry(cells + [cell], keys + [key], cellOf[key := cell])
  {
  }

  lemma CarryWithout<K>(cells: seq<Cell<K>>, keys: seq<K>, cellOf: map<K, Cell<K>>, key: K)
    requires Carry(cells, keys, cellOf) && Distinct(keys) && key in keys
    ensures var k := Index(keys, key);
            Carry(Cut(cells, k), Without(keys, key), cellOf - {key})
  {
    DistinctMeans(keys);
    var k := Index(keys, key);
    var cells', keys' := Cut(cells, k), Without(keys, key);
    forall i | 0 <= i < |keys'|
      ensures cells'[i].key == Some(keys'[i]) && keys'[i] in cellOf - {key} && cellOf[keys'[i]] == cells'[i]
    {
      var j := if i < k then i else i + 1;
      assert keys'[i] == keys[j] && cells'[i] == cells[j];
    }
  }

  class OrderedDict<K(==, !new), V> {
    var end: Cell<K>
    var cellOf: map<K, Cell<K>>
    var dict: map<K, V>
    ghost var cells: seq<Cell<K>>
    ghost var keys: seq<K>

    ghost function Repr(): set<object>
      reads `end, `cells
    {
      {this, end} + set c | c in cells
    }

    /** From the sentinel through the cells and back along the next pointers. */
    ghost predicate Forward(s: seq<Cell<K>>)
      reads `end, end`next, s`next
    {
      && (s == [] ==> end.next == end)
      && (s != [] ==> end.next == s[0] && s[|s| - 1].next == end)
      && (forall i {:trigger s[i].next} :: 0 <= i < |s| - 1 ==> s[i].next == s[i + 1])
    }

    /** The same along the prev pointers. */
    ghost predicate Backward(s: seq<Cell<K>>)
      reads `end, end`prev, s`prev
    {
      && (s == [] ==> end.prev == end)
      && (s != [] ==> s[0].prev == end && end.prev == s[|s| - 1])
      && (forall i {:trigger s[i].prev} :: 1 <= i < |s| ==> s[i].prev == s[i - 1])
    }

    ghost predicate Linked()
      reads `end, `cells, end, cells
    {
      end !in cells && Distinct(cells) && Forward(cells) && Backward(cells)
    }

    /** The cells carry the keys, and are found by them. */
    ghost predicate Keyed()
      reads this
    {
      end.key.None? && cellOf.Keys == dict.Keys && Carry(cells, keys, cellOf)
    }

    ghost predicate Valid()
      reads this, end, cells
    {
      Linked() && Keyed() && Consistent(Contents())
    }

    ghost function Contents(): Value<K, V>
      reads this
    {
      Value(keys, dict)
    }

    constructor ()
      ensures Valid() && fresh(Repr()) && Contents() == Value([], map[])
    {
      var e := new Cell(None, null, null);
      end := e;
      cellOf, dict, cells, keys := map[], map[], [], [];
      new;
      e.prev, e.next := e, e;
    }

    method Clear()
      requires Valid()
      modifies this
      ensures Valid() && fresh(Repr() - {this}) && Contents() == Value([], map[])
    {
      var e := new Cell(None, null, null);
      e.prev, e.next := e, e;
      end := e;
      cellOf, dict, cells, keys := map[], map[], [], [];
    }

    /** Put a new cell before the sentinel. */
    method Link(key: K) returns (cell: Cell<K>)
      requires Linked()
      modifies this`cells, end, cells
      ensures fresh(cell) && cell.key == Some(key)
      ensures cells == old(cells) + [cell] && Linked()
      ensures Repr() == old(Repr()) + {cell}
    {
      DistinctMeans(cells);
      var curr := end.prev;
      cell := new Cell(Some(key), curr, end);
      curr.next := cell;
      end.prev := cell;
      DistinctAppend(cells, cell);
      cells := cells + [cell];
    }

    /** Take cell k out of the list. */
    method Unlink(cell: Cell<K>, ghost k: nat)
      requires Linked() && k < |cells| && cells[k] == cell
      modifies this`cells, end, cells
      ensures cells == Cut(old(cells), k) && Linked()
    {
      CutMeans(cells, end, k);
      var before, after := cell.prev, cell.next;
      BridgeForward(before, after, k);
      BridgeBackward(before, after, k);
      cells := Cut(cells, k);
    }

    /** The next pointer of the cell before the k-th skips it. */
    method BridgeForward(before: Cell<K>, after: Cell<K>, ghost k: nat)
      requires k < |cells| && Forward(cells) && Distinct(cells) && end !in cells
      requires before == Before(cells, end, k) && after == Behind(cells, end, k)
      modifies before`next
      ensures Forward(Cut(cells, k))
    {
      CutMeans(cells, end, k);
      before.next := after;
    }

    /** The prev pointer of the cell behind the k-th skips it. */
    method BridgeBackward(before: Cell<K>, after: Cell<K>, ghost k: nat)
      requires k < |cells| && Backward(cells) && Distinct(cells) && end !in cells
      requires before == Before(cells, end, k) && after == Behind(cells, end, k)
      modifies after`prev
      ensures Backward(Cut(cells, k))
    {
      CutMeans(cells, end, k);
      after.prev := before;
    }

    method SetItem(key: K, value: V)
      requires Valid()
      modifies this, end, cells
      ensures Valid() && fresh(Repr() - old(Repr()))
      ensures Contents() == Set(old(Contents()), key, value)
    {
      SetKeepsConsistent(Contents(), key, value);
      if key !in dict {
        Insert(key, value);
      } else {
        dict := dict[key := value];
      }
    }

    /** Assignment to a new key. */
    method Insert(key: K, value: V)
      requires Linked() && Keyed() && key !in dict
      modifies this, end, cells
      ensures Linked() && Keyed() && fresh(Repr() - old(Repr()))
      ensures dict == old(dict)[key := value] && keys == old(keys) + [key]
    {
      ghost var before := cells;
      var cell := Link(key);
      CarryAppend(before, keys, cellOf, cell, key);
      cellOf := cellOf[key := cell];
      keys := keys + [key];
      dict := dict[key := value];
    }

    /** False is the KeyError of a missing key. */
    method DelItem(key: K) returns (ok: bool)
      requires Valid()
      modifies this, end, cells
      ensures Valid() && Repr() <= old(Repr())
      ensures ok == (key in old(dict)) && Contents() == Delete(old(Contents()), key)
    {
      if key !in dict {
        return false;
      }
      DeleteKeepsConsistent(Contents(), key);
      Remove(key, Index(keys, key));
      return true;
    }

    /** Deletion of a present key, the k-th. */
    method Remove(key: K, ghost k: nat)
      requires Linked() && Keyed() && Distinct(keys) && key in keys && k == Index(keys, key)
      modifies this, end, cells
      ensures Linked() && Keyed() && Repr() <= old(Repr())
      ensures dict == old(dict) - {key} && keys == Without(old(keys), key)
    {
      CarryWithout(cells, keys, cellOf, key);
      var cell := cellOf[key];
      Unlink(cell, k);
      dict := dict - {key};
      cellOf := cellOf - {key};
      keys := Without(keys, key);
    }

    /** __iter__, run to its end. */
    method Iter() returns (r: seq<K>)
      requires Valid()
      ensures r == keys
    {
      r := [];
      var curr := end.next;
      while curr != end
        invariant |r| <= |keys| && r == keys[..|r|]
        invariant curr == if |r| < |cells| then cells[|r|] else end
        decreases |keys| - |r|
      {
        r := r + [curr.key.value];
        curr := curr.next;
      }
    }

    /** __reversed__, run to its end. */
    method Reversed() returns (r: seq<K>)
      requires Valid()
      ensures r == Reverse(keys)
    {
      r := [];
      var curr := end.prev;
      while curr != end
        invariant |r| <= |keys| && r == Reverse(keys)[..|r|]
        invariant curr == if |r| < |cells| then cells[|cells| - 1 - |r|] else end
        decreases |keys| - |r|
      {
        r := r + [curr.key.value];
        curr := curr.prev;
      }
    }

    /** None is the KeyError of an empty dictionary. */
    method PopItem(last: bool) returns (r: Option<(K, V)>)
      requires Valid()
      modifies this, end, cells
      ensures Valid() && Repr() <= old(Repr())
      ensures r == PopResult(old(Contents()), last) && Contents() == Pop(old(Contents()), last)
    {
      EmptyMeansNoKeys(Contents());
      if |dict| == 0 {
        return None;
      }
      var cell := if last then end.prev else end.next;
      var key := cell.key.value;
      var value := dict[key];
      var _ := DelItem(key);
      return Some((key, value));
    }
  }

  // ----- values -----

  function PopKey<K, V>(d: Value<K, V>, last: bool): K
    requires d.keys != []
  {
    if last then d.keys[|d.keys| - 1] else d.keys[0]
  }

  ghost function PopResult<K(!new), V>(d: Value<K, V>, last: bool): Option<(K, V)>
    requires Consistent(d)
  {
    if d.keys == [] then None else Some((PopKey(d, last), d.entries[PopKey(d, last)]))
  }

  ghost function Pop<K(!new), V>(d: Value<K, V>, last: bool): Value<K, V>
    requires Consistent(d)
  {
    if d.keys == [] then d else Delete(d, PopKey(d, last))
  }

  lemma EmptyMeansNoKeys<K(!new), V>(d: Value<K, V>)
    requires Consistent(d)
    ensures |d.entries| == 0 <==> d.keys == []
  {
    if d.keys != [] {
      assert d.keys[0] in d.entries;
    } else {
      assert forall k :: k !in d.entries;
    }
  }

  lemma SetKeepsConsistent<K(!new), V>(d: Value<K, V>, key: K, value: V)
    requires Consistent(d)
    ensures Consistent(Set(d, key, value))
  {
    if key !in d.entries {
      DistinctAppend(d.keys, key);
    }
  }

  lemma DeleteKeepsConsistent<K(!new), V>(d: Value<K, V>, key: K)
    requires Consistent(d)
    ensures Consistent(Delete(d, key))
  {
    if key in d.entries {
      var k, r := Index(d.keys, key), Without(d.keys, key);
      DistinctWithout(d.keys, k);
      forall x
        ensures x in r <==> x in d.keys && x != key
      {
        if x in d.keys && x != key {
          var i := Index(d.keys, x);
          assert r[if i < k then i else i - 1] == x;
        }
      }
    }
  }

  // ----- histories -----

  datatype Op<K, V> = SetOp(key: K, value: V) | DelOp(key: K) | ClearOp | PopOp(last: bool)

  ghost function Apply<K(!new), V>(d: Value<K, V>, op: Op<K, V>): (r: Value<K, V>)
    requires Consistent(d)
    ensures Consistent(r)
  {
    match op
    case SetOp(k, v) => SetKeepsConsistent(d, k, v); Set(d, k, v)
    case DelOp(k) => DeleteKeepsConsistent(d, k); Delete(d, k)
    case ClearOp => Value([], map[])
    case PopOp(last) =>
      if d.keys == [] then d
      else DeleteKeepsConsistent(d, PopKey(d, last)); Pop(d, last)
  }

  /** A dictionary together with the time at which each live key was last inserted. */
  datatype History<K, V> = History(d: Value<K, V>, born: map<K, nat>, now: nat)

  ghost function Observe<K(!new), V>(h: History<K, V>, op: Op<K, V>): History<K, V>
    requires Consistent(h.d)
  {
    var d := Apply(h.d, op);
    var born := if op.SetOp? && op.key !in h.d.entries then h.born[op.key := h.now] else h.born;
    History(d, born, h.now + 1)
  }

  /** Keys stand in the order of their insertion times. */
  ghost predicate InOrder<K(!new), V>(h: History<K, V>) {
    && Consistent(h.d)
    && (forall k :: k in h.d.entries ==> k in h.born && h.born[k] < h.now)
    && forall i, j :: 0 <= i < j < |h.d.keys| ==> h.born[h.d.keys[i]] < h.born[h.d.keys[j]]
  }

  ghost function Replay<K(!new), V>(h: History<K, V>, ops: seq<Op<K, V>>): History<K, V>
    requires Consistent(h.d)
    decreases |ops|
  {
    if ops == [] then h else Replay(Observe(h, ops[0]), ops[1..])
  }

  lemma DeleteKeepsOrder<K(!new), V>(h: History<K, V>, key: K)
    requires InOrder(h) && key in h.d.entries
    ensures InOrder(History(Delete(h.d, key), h.born, h.now + 1))
  {
    DeleteKeepsConsistent(h.d, key);
    var k, r := Index(h.d.keys, key), Without(h.d.keys, key);
    assert forall i :: 0 <= i < |r| ==> r[i] == h.d.keys[if i < k then i else i + 1];
  }

  lemma ObserveKeepsOrder<K(!new), V>(h: History<K, V>, op: Op<K, V>)
    requires InOrder(h)
    ensures InOrder(Observe(h, op))
  {
    match op
    case SetOp(k, v) => SetKeepsConsistent(h.d, k, v);
    case DelOp(k) => if k in h.d.entries { DeleteKeepsOrder(h, k); }
    case ClearOp =>
    case PopOp(last) => if h.d.keys != [] { DeleteKeepsOrder(h, PopKey(h.d, last)); }
  }

  /** After any sequence of operations the keys are the live keys, once each, in the order
      in which they were inserted; overwriting a key does not move it. */
  lemma {:induction false} KeysInInsertionOrder<K(!new), V>(h: History<K, V>, ops: seq<Op<K, V>>)
    requires InOrder(h)
    ensures InOrder(Replay(h, ops))
    decreases |ops|
  {
    if ops != [] {
      ObserveKeepsOrder(h, ops[0]);
      KeysInInsertionOrder(Observe(h, ops[0]), ops[1..]);
    }
  }

  // ----- a reference without a list -----

  /** An entry and the time at which its key was inserted. */
  datatype Entry<V> = Entry(born: nat, value: V)

  /** A map of entries that knows nothing of positions. */
  datatype Stamped<K, V> = Stamped(live: map<K, Entry<V>>, now: nat)

  /** Of all keys, k was inserted last or first. */
  ghost predicate Extreme<K(!new), V>(live: map<K, Entry<V>>, k: K, last: bool) {
    k in live && forall x :: x in live && x != k ==>
      if last then live[x].born < live[k].born else live[k].born < live[x].born
  }

  ghost predicate Step<K(!new), V>(s: Stamped<K, V>, op: Op<K, V>, s': Stamped<K, V>) {
    && s'.now == s.now + 1
    && match op
       case SetOp(k, v) => s'.live == s.live[k := Entry(if k in s.live then s.live[k].born else s.now, v)]
       case DelOp(k) => s'.live == s.live - {k}
       case ClearOp => s'.live == map[]
       case PopOp(last) =>
         if s.live == map[] then s'.live == map[]
         else exists k :: Extreme(s.live, k, last) && s'.live == s.live - {k}
  }

  /** The dictionary has the entries of the map, in the order of their times. */
  ghost predicate Matches<K(!new), V>(d: Value<K, V>, s: Stamped<K, V>) {
    && Consistent(d)
    && (forall k :: k in d.entries <==> k in s.live)
    && (forall k :: k in s.live ==> d.entries[k] == s.live[k].value && s.live[k].born < s.now)
    && forall i, j :: 0 <= i < j < |d.keys| ==> s.live[d.keys[i]].born < s.live[d.keys[j]].born
  }

  lemma SetMatches<K(!new), V>(d: Value<K, V>, s: Stamped<K, V>, key: K, value: V, s': Stamped<K, V>)
    requires Matches(d, s) && Step(s, SetOp(key, value), s')
    ensures Matches(Set(d, key, value), s')
  {
    SetKeepsConsistent(d, key, value);
  }

  lemma CutInOrder<K(!new), V>(keys: seq<K>, live: map<K, Entry<V>>, k: nat, live': map<K, Entry<V>>)
    requires Distinct(keys) && k < |keys| && live' == live - {keys[k]}
    requires forall i :: 0 <= i < |keys| ==> keys[i] in live
    requires forall i, j :: 0 <= i < j < |keys| ==> live[keys[i]].born < live[keys[j]].born
    ensures forall i :: 0 <= i < |Cut(keys, k)| ==> Cut(keys, k)[i] in live'
    ensures forall i, j :: 0 <= i < j < |Cut(keys, k)| ==> live'[Cut(keys, k)[i]].born < live'[Cut(keys, k)[j]].born
  {
    var r := Cut(keys, k);
    DistinctMeans(keys);
    forall i | 0 <= i < |r|
      ensures r[i] == keys[if i < k then i else i + 1] && r[i] in live' && live'[r[i]] == live[r[i]]
    {
    }
  }

  lemma WithoutMatches<K(!new), V>(d: Value<K, V>, s: Stamped<K, V>, key: K, d': Value<K, V>, s': Stamped<K, V>)
    requires Matches(d, s) && s'.live == s.live - {key} && s'.now == s.now + 1
    requires Consistent(d') && d'.entries == d.entries - {key}
    requires forall i :: 0 <= i < |d'.keys| ==> d'.keys[i] in s'.live
    requires forall i, j :: 0 <= i < j < |d'.keys| ==> s'.live[d'.keys[i]].born < s'.live[d'.keys[j]].born
    ensures Matches(d', s')
  {
  }

  lemma DeletePresent<K(!new), V>(d: Value<K, V>, s: Stamped<K, V>, k: nat, s': Stamped<K, V>)
    requires Matches(d, s) && k < |d.keys| && s'.live == s.live - {d.keys[k]} && s'.now == s.now + 1
    requires Consistent(Value(Cut(d.keys, k), d.entries - {d.keys[k]}))
    ensures Matches(Value(Cut(d.keys, k), d.entries - {d.keys[k]}), s')
  {
    CutInOrder(d.keys, s.live, k, s'.live);
    WithoutMatches(d, s, d.keys[k], Value(Cut(d.keys, k), d.entries - {d.keys[k]}), s');
  }

  lemma DeleteMatches<K(!new), V>(d: Value<K, V>, s: Stamped<K, V>, key: K, s': Stamped<K, V>)
    requires Matches(d, s) && s'.live == s.live - {key} && s'.now == s.now + 1
    ensures Matches(Delete(d, key), s')
  {
    DeleteKeepsConsistent(d, key);
    if key in d.entries {
      DeletePresent(d, s, Index(d.keys, key), s');
    } else {
      assert s'.live == s.live && Delete(d, key) == d;
    }
  }

  /** The key that is popped is the one inserted last, or first, with its value. */
  lemma PopsExtreme<K(!new), V>(d: Value<K, V>, s: Stamped<K, V>, last: bool)
    requires Matches(d, s)
    ensures PopResult(d, last).None? <==> s.live == map[]
    ensures PopResult(d, last).Some? ==>
              var (k, v) := PopResult(d, last).value;
              Extreme(s.live, k, last) && v == s.live[k].value
  {
    if d.keys == [] {
      assert forall k :: k !in s.live;
    } else {
      var k := PopKey(d, last);
      assert k in d.entries;
      forall x | x in s.live && x != k
        ensures if last then s.live[x].born < s.live[k].born else s.live[k].born < s.live[x].born
      {
        var i := Index(d.keys, x);
      }
    }
  }

  lemma OpMatches<K(!new), V>(d: Value<K, V>, s: Stamped<K, V>, op: Op<K, V>) returns (s': Stamped<K, V>)
    requires Matches(d, s)
    ensures Step(s, op, s') && Matches(Apply(d, op), s')
  {
    match op
    case SetOp(k, v) =>
      s' := Stamped(s.live[k := Entry(if k in s.live then s.live[k].born else s.now, v)], s.now + 1);
      SetMatches(d, s, k, v, s');
    case DelOp(k) =>
      s' := Stamped(s.live - {k}, s.now + 1);
      DeleteMatches(d, s, k, s');
    case ClearOp =>
      s' := Stamped(map[], s.now + 1);
    case PopOp(last) =>
      PopsExtreme(d, s, last);
      s' := Stamped(if d.keys == [] then s.live else s.live - {PopKey(d, last)}, s.now + 1);
      if d.keys != [] {
        DeleteMatches(d, s, PopKey(d, last), s');
      }
  }

  ghost function ApplyAll<K(!new), V>(d: Value<K, V>, ops: seq<Op<K, V>>): Value<K, V>
    requires Consistent(d)
    decreases |ops|
  {
    if ops == [] then d else ApplyAll(Apply(d, ops[0]), ops[1..])
  }

  /** The states the reference goes through. */
  ghost predicate Steps<K(!new), V>(ss: seq<Stamped<K, V>>, ops: seq<Op<K, V>>) {
    |ss| == |ops| + 1 && forall i :: 0 <= i < |ops| ==> Step(ss[i], ops[i], ss[i + 1])
  }

  /** Refinement: after any sequence of operations the dictionary has the entries of a map with
      insertion times, in the order of these times: an assignment keeps the time of a present
      key, a deletion takes its own key and no other, and popping takes the key inserted last
      or first. */
  lemma {:induction false} RefinesStamped<K(!new), V>(d: Value<K, V>, s: Stamped<K, V>, ops: seq<Op<K, V>>)
    returns (ss: seq<Stamped<K, V>>)
    requires Matches(d, s)
    ensures Steps(ss, ops) && ss[0] == s && Matches(ApplyAll(d, ops), ss[|ops|])
    decreases |ops|
  {
    if ops == [] {
      ss := [s];
    } else {
      var s' := OpMatches(d, s, ops[0]);
      var rest := RefinesStamped(Apply(d, ops[0]), s', ops[1..]);
      ss := [s] + rest;
      forall i | 0 <= i < |ops|
        ensures Step(ss[i], ops[i], ss[i + 1])
      {
        if i > 0 {
          assert Step(rest[i - 1], ops[1..][i - 1], rest[i]);
        }
      }
    }
  }
}
