/** The two bit-counting circuits of the ALU: the leading-one tree (alu_ff) for any
    vector length, and the adder tree that counts the ones of a word (alu_popcnt). */
module LeadingOne {
  import opened Arith
  import opened Bits

  /** One entry of sel_nodes and of index_nodes. */
  datatype Node = Node(sel: bool, index: nat)

  /** The entry 2^level - 1 + l of the node arrays of an alu_ff of length |b|. */
  function TreeNode(b: BitVec, level: nat, l: nat): Node
    requires |b| >= 2 && level < Clog2(|b|)
    decreases Clog2(|b|) - level
  {
    var levels := Clog2(|b|);
    if level == levels - 1 then
      if 2 * l < |b| - 1 then
        Node(b[2 * l] || b[2 * l + 1], IndexLut(b, if b[2 * l] then 2 * l else 2 * l + 1))
      else if 2 * l == |b| - 1 then
        Node(b[2 * l], IndexLut(b, 2 * l))
      else
        Node(false, 0)
    else
      var left, right := TreeNode(b, level + 1, 2 * l), TreeNode(b, level + 1, 2 * l + 1);
      Node(left.sel || right.sel, if left.sel then left.index else right.index)
  }

  /** index_lut[j], an entry of $clog2(LEN) bits. */
  function IndexLut(b: BitVec, j: nat): nat
    requires |b| >= 2
  {
    j % Pow2(Clog2(|b|))
  }

  function FirstOne(b: BitVec): nat
    requires |b| >= 2
  {
    TreeNode(b, 0, 0).index
  }

  predicate NoOnes(b: BitVec)
    requires |b| >= 2
  {
    !TreeNode(b, 0, 0).sel
  }

  /** Node n is right about positions lo to hi of b: it reports the least set one. */
  ghost predicate Covers(b: BitVec, n: Node, lo: nat, hi: nat) {
    if n.sel then
      && lo <= n.index < hi && n.index < |b| && b[n.index]
      && forall j :: lo <= j < n.index ==> !b[j]
    else
      forall j :: lo <= j < hi && j < |b| ==> !b[j]
  }

  lemma LeafCovers(b: BitVec, l: nat)
    requires |b| >= 2 && Clog2(|b|) > 0
    ensures Covers(b, TreeNode(b, Clog2(|b|) - 1, l), 2 * l, 2 * l + 2)
  {
    var levels := Clog2(|b|);
    if 2 * l < |b| {
      ModUnique(2 * l, Pow2(levels), 0, 2 * l);
    }
    if 2 * l + 1 < |b| {
      ModUnique(2 * l + 1, Pow2(levels), 0, 2 * l + 1);
    }
  }

  lemma {:induction false} TreeNodeCovers(b: BitVec, level: nat, l: nat, lo: nat, span: nat)
    requires |b| >= 2 && level < Clog2(|b|)
    requires span == Pow2(Clog2(|b|) - level) && lo == l * span
    ensures Covers(b, TreeNode(b, level, l), lo, lo + span)
    decreases Clog2(|b|) - level
  {
    var levels := Clog2(|b|);
    var half := Pow2(levels - level - 1);
    assert span == 2 * half;
    if level == levels - 1 {
      assert span == 2 && lo == 2 * l;
      LeafCovers(b, l);
    } else {
      Halve(l, half);
      TreeNodeCovers(b, level + 1, 2 * l, lo, half);
      TreeNodeCovers(b, level + 1, 2 * l + 1, lo + half, half);
    }
  }

  lemma Halve(l: nat, half: nat)
    ensures l * (2 * half) == (2 * l) * half
    ensures l * (2 * half) + half == (2 * l + 1) * half
  {
  }

  /** For every length of at least two, the tree raises no_ones_o exactly on the zero
      vector and otherwise returns the least set index. */
  lemma FirstOneIsLeast(b: BitVec)
    requires |b| >= 2
    ensures NoOnes(b) <==> Val(b) == 0
    ensures NoOnes(b) <==> forall j :: 0 <= j < |b| ==> !b[j]
    ensures !NoOnes(b) ==>
              && FirstOne(b) < |b| && b[FirstOne(b)]
              && forall j :: 0 <= j < FirstOne(b) ==> !b[j]
  {
    assert Clog2(|b|) > 0 by {
      assert Pow2(0) == 1;
    }
    TreeNodeCovers(b, 0, 0, 0, Pow2(Clog2(|b|)));
    if NoOnes(b) {
      AllClear(b);
    } else {
      SetBitIsNonzero(b, FirstOne(b));
    }
  }

  lemma {:induction false} SetBitIsNonzero(b: BitVec, k: nat)
    requires k < |b| && b[k]
    ensures Val(b) > 0
  {
    if k > 0 {
      SetBitIsNonzero(b[1..], k - 1);
    }
  }

  // ----- population count -----

  /** One level of the adder tree, with sums of the given width. */
  function PairSums(s: seq<nat>, width: nat): (r: seq<nat>)
    ensures |r| == |s| / 2
  {
    seq(|s| / 2, i requires 0 <= i < |s| / 2 => Adder(s[2 * i], s[2 * i + 1], width))
  }

  function Adder(x: nat, y: nat, width: nat): nat {
    (x + y) % Pow2(width)
  }

  function Leaves(b: BitVec): (r: seq<nat>)
    ensures |r| == |b|
  {
    seq(|b|, i requires 0 <= i < |b| => Bit(b[i]))
  }

  /** alu_popcnt: five levels of adders, two to six bits wide. */
  function Popcnt(b: BitVec): nat
    requires |b| == 32
  {
    var cntL1 := PairSums(Leaves(b), 2);
    var cntL2 := PairSums(cntL1, 3);
    var cntL3 := PairSums(cntL2, 4);
    var cntL4 := PairSums(cntL3, 5);
    Adder(cntL4[0], cntL4[1], 6)
  }

  function Sum(s: seq<nat>): nat {
    if s == [] then 0 else s[0] + Sum(s[1..])
  }

  ghost predicate Bounded(s: seq<nat>, m: nat) {
    forall i :: 0 <= i < |s| ==> s[i] <= m
  }

  /** A level wide enough for its sums neither drops nor invents a one. */
  lemma {:induction false} PairSumsKeepSum(s: seq<nat>, width: nat, m: nat)
    requires |s| % 2 == 0 && Bounded(s, m) && 2 * m < Pow2(width)
    ensures Sum(PairSums(s, width)) == Sum(s)
    ensures Bounded(PairSums(s, width), 2 * m)
  {
    var r := PairSums(s, width);
    if s != [] {
      forall i | 0 <= i < |r|
        ensures r[i] == s[2 * i] + s[2 * i + 1] <= 2 * m
      {
        ModUnique(s[2 * i] + s[2 * i + 1], Pow2(width), 0, s[2 * i] + s[2 * i + 1]);
      }
      assert r[1..] == PairSums(s[2..], width);
      PairSumsKeepSum(s[2..], width, m);
      assert s[1..][1..] == s[2..];
    }
  }

  function CountOnes(b: BitVec): nat {
    if b == [] then 0 else Bit(b[0]) + CountOnes(b[1..])
  }

  lemma {:induction false} SumOfLeaves(b: BitVec)
    ensures Sum(Leaves(b)) == CountOnes(b)
  {
    if b != [] {
      assert Leaves(b)[1..] == Leaves(b[1..]);
      SumOfLeaves(b[1..]);
    }
  }

  lemma UpperLevels(cntL1: seq<nat>)
    requires |cntL1| == 16 && Bounded(cntL1, 2)
    ensures var cntL4 := PairSums(PairSums(PairSums(cntL1, 3), 4), 5);
            Adder(cntL4[0], cntL4[1], 6) == Sum(cntL1)
  {
    var cntL2 := PairSums(cntL1, 3);
    var cntL3 := PairSums(cntL2, 4);
    var cntL4 := PairSums(cntL3, 5);
    assert Sum(cntL2) == Sum(cntL1) && Bounded(cntL2, 4) by {
      SmallPowers();
      PairSumsKeepSum(cntL1, 3, 2);
    }
    assert Sum(cntL3) == Sum(cntL2) && Bounded(cntL3, 8) by {
      SmallPowers();
      PairSumsKeepSum(cntL2, 4, 4);
    }
    assert Sum(cntL4) == Sum(cntL3) && Bounded(cntL4, 16) by {
      SmallPowers();
      PairSumsKeepSum(cntL3, 5, 8);
    }
    SumOfTwo(cntL4);
    LastAdder(cntL4[0], cntL4[1]);
  }

  lemma LastAdder(x: nat, y: nat)
    requires x <= 16 && y <= 16
    ensures Adder(x, y, 6) == x + y
  {
    SmallPowers();
  }

  /** The adder tree counts the ones, and is zero exactly for the zero word. */
  lemma PopcntCountsOnes(b: BitVec)
    requires |b| == 32
    ensures Popcnt(b) == CountOnes(b)
    ensures Popcnt(b) == 0 <==> Val(b) == 0
  {
    SmallPowers();
    PairSumsKeepSum(Leaves(b), 2, 1);
    UpperLevels(PairSums(Leaves(b), 2));
    SumOfLeaves(b);
    CountZero(b);
  }

  lemma SmallPowers()
    ensures Pow2(2) == 4 && Pow2(3) == 8 && Pow2(4) == 16 && Pow2(5) == 32 && Pow2(6) == 64
  {
    assert Pow2(2) == 4;
    assert Pow2(4) == 4 * Pow2(2);
    assert Pow2(6) == 4 * Pow2(4);
  }

  lemma SumOfTwo(s: seq<nat>)
    requires |s| == 2
    ensures Sum(s) == s[0] + s[1]
  {
    assert Sum(s[1..]) == s[1] + Sum(s[1..][1..]);
  }

  lemma {:induction false} CountZero(b: BitVec)
    ensures CountOnes(b) == 0 <==> Val(b) == 0
  {
    if b != [] {
      CountZero(b[1..]);
    }
  }
}
