/** The dependency tree of IPTreeNode.py: its flattening, and the table of possibly
    conflicting versions that get_conflicts makes of it. */
module Conflicts {
  import opened OrderedDict

  /** A node of the tree; its id stands for the identity of the object. */
  datatype Node = Node(id: nat, name: string, commit: string, children: seq<Node>)

  // ----- flattening -----

  /** The descendants below a list of siblings, each after its own descendants. */
  function PostOrder(siblings: seq<Node>): seq<Node>
    decreases siblings
  {
    if siblings == [] then []
    else PostOrder(siblings[..|siblings| - 1]) + PostOrder(siblings[|siblings| - 1].children)
         + [siblings[|siblings| - 1]]
  }

  method FlattenizeChildren(node: Node) returns (flat: seq<Node>)
    ensures flat == PostOrder(node.children)
    decreases node
  {
    flat := [];
    var cs := node.children;
    for k := 0 to |cs|
      invariant flat == PostOrder(cs[..k])
    {
      var below := FlattenizeChildren(cs[k]);
      assert cs[..k + 1][..k] == cs[..k];
      flat := flat + below;
      flat := flat + [cs[k]];
    }
    assert cs[..|cs|] == cs;
  }

  /** How often a node occurs below a list of siblings. */
  function Occurrences(siblings: seq<Node>, n: Node): nat
    decreases siblings
  {
    if siblings == [] then 0
    else
      var last := siblings[|siblings| - 1];
      Occurrences(siblings[..|siblings| - 1], n) + Occurrences(last.children, n) + if last == n then 1 else 0
  }

  /** Flattening neither loses nor repeats a descendant. */
  lemma {:induction false} PostOrderComplete(siblings: seq<Node>, n: Node)
    ensures multiset(PostOrder(siblings))[n] == Occurrences(siblings, n)
    decreases siblings
  {
    if siblings != [] {
      PostOrderComplete(siblings[..|siblings| - 1], n);
      PostOrderComplete(siblings[|siblings| - 1].children, n);
    }
  }

  /** The descendants of the i-th node stand right before it. */
  ghost predicate BelowBefore(f: seq<Node>, i: nat)
    requires i < |f|
  {
    var below := PostOrder(f[i].children);
    |below| <= i && f[i - |below|..i] == below
  }

  lemma {:induction false} BelowBeforeIn(a: seq<Node>, b: seq<Node>, c: seq<Node>, f: seq<Node>, i: nat)
    requires i < |b| && BelowBefore(b, i) && f == a + b + c
    ensures BelowBefore(f, |a| + i)
  {
    var n := |PostOrder(b[i].children)|;
    assert f[|a| + i] == b[i];
    assert f[|a| + i - n..|a| + i] == b[i - n..i];
  }

  lemma {:induction false} BelowLast(a: seq<Node>, last: Node, f: seq<Node>)
    requires f == a + PostOrder(last.children) + [last]
    ensures BelowBefore(f, |a| + |PostOrder(last.children)|)
  {
    var n := |PostOrder(last.children)|;
    assert f[|a| + n] == last;
    assert f[|a|..|a| + n] == PostOrder(last.children);
  }

  lemma {:induction false} BelowFront(a: seq<Node>, c: seq<Node>, f: seq<Node>, i: nat)
    requires i < |a| && BelowBefore(a, i) && f == a + c
    ensures BelowBefore(f, i)
  {
    var n := |PostOrder(a[i].children)|;
    assert f[i] == a[i];
    assert f[i - n..i] == a[i - n..i];
  }

  lemma Reassociate(a: seq<Node>, b: seq<Node>, c: seq<Node>)
    ensures a + b + c == a + (b + c)
  {
  }

  /** Every node comes right after its own descendants. */
  lemma {:induction false} PostOrderBelow(siblings: seq<Node>, i: nat)
    requires i < |PostOrder(siblings)|
    ensures BelowBefore(PostOrder(siblings), i)
    decreases siblings
  {
    var front, last := siblings[..|siblings| - 1], siblings[|siblings| - 1];
    var a, b, f := PostOrder(front), PostOrder(last.children), PostOrder(siblings);
    assert f == a + b + [last];
    if i < |a| {
      PostOrderBelow(front, i);
      Reassociate(a, b, [last]);
      BelowFront(a, b + [last], f, i);
    } else if i < |a| + |b| {
      PostOrderBelow(last.children, i - |a|);
      BelowBeforeIn(a, b, [last], f, i - |a|);
    } else {
      BelowLast(a, last, f);
    }
  }

  lemma {:induction false} PostOrderAppend(front: seq<Node>, back: seq<Node>)
    ensures PostOrder(front + back) == PostOrder(front) + PostOrder(back)
    decreases |back|
  {
    if back == [] {
      assert front + back == front;
    } else {
      var last, most := back[|back| - 1], back[..|back| - 1];
      assert (front + back)[..|front + back| - 1] == front + most;
      PostOrderAppend(front, most);
      Reassociate(PostOrder(front), PostOrder(most), PostOrder(last.children));
      Reassociate(PostOrder(front), PostOrder(most) + PostOrder(last.children), [last]);
    }
  }

  /** Siblings keep their order: a node and its descendants come behind its elder siblings and
      theirs, and before its younger ones. */
  lemma {:induction false} SiblingsInOrder(elder: seq<Node>, n: Node, younger: seq<Node>)
    ensures PostOrder(elder + [n] + younger)
            == PostOrder(elder) + (PostOrder(n.children) + [n]) + PostOrder(younger)
  {
    PostOrderAppend(elder + [n], younger);
    PostOrderAppend(elder, [n]);
    assert [n][..0] == [];
    assert PostOrder([n]) == PostOrder(n.children) + [n];
  }

  // ----- the specification of the table -----

  /** Some of the first j nodes has this name and commit. */
  predicate Seen(flat: seq<Node>, name: string, commit: string, j: nat)
    requires j <= |flat|
  {
    exists k :: 0 <= k < j && flat[k].name == name && flat[k].commit == commit
  }

  /** Of the nodes with a name among the first j, the first one of each distinct commit. */
  function FirstVersions(flat: seq<Node>, name: string, j: nat): seq<Node>
    requires j <= |flat|
  {
    if j == 0 then []
    else FirstVersions(flat, name, j - 1)
         + if flat[j - 1].name == name && !Seen(flat, name, flat[j - 1].commit, j - 1) then [flat[j - 1]] else []
  }

  /** The names among the first j nodes, in the order of their first occurrence. */
  function Names(flat: seq<Node>, j: nat): seq<string>
    requires j <= |flat|
  {
    if j == 0 then []
    else Names(flat, j - 1) + if flat[j - 1].name in Names(flat, j - 1) then [] else [flat[j - 1].name]
  }

  ghost predicate IsConflictTable(flat: seq<Node>, d: Value<string, seq<Node>>) {
    && d.keys == Names(flat, |flat|)
    && Consistent(d)
    && forall name :: name in d.entries ==> d.entries[name] == FirstVersions(flat, name, |flat|)
  }

  // ----- populating -----

  /** The distinct nodes with a name among the first j. */
  function Group(flat: seq<Node>, name: string, j: nat): seq<Node>
    requires j <= |flat|
  {
    if j == 0 then []
    else
      var g := Group(flat, name, j - 1);
      if flat[j - 1].name == name && flat[j - 1] !in g then g + [flat[j - 1]] else g
  }

  lemma {:induction false} GroupMembers(flat: seq<Node>, name: string, j: nat)
    requires j <= |flat|
    ensures forall k :: 0 <= k < j && flat[k].name == name ==> flat[k] in Group(flat, name, j)
    ensures forall n :: n in Group(flat, name, j) ==> exists k :: 0 <= k < j && flat[k] == n && n.name == name
    ensures Distinct(Group(flat, name, j))
  {
    if j > 0 {
      GroupMembers(flat, name, j - 1);
      var g := Group(flat, name, j - 1);
      if flat[j - 1] !in g {
        DistinctAppend(g, flat[j - 1]);
      }
    }
  }

  lemma {:induction false} NamesMembers(flat: seq<Node>, j: nat)
    requires j <= |flat|
    ensures forall k :: 0 <= k < j ==> flat[k].name in Names(flat, j)
    ensures forall name :: name in Names(flat, j) ==> exists k :: 0 <= k < j && flat[k].name == name
    ensures Distinct(Names(flat, j))
  {
    if j > 0 {
      NamesMembers(flat, j - 1);
      if flat[j - 1].name !in Names(flat, j - 1) {
        DistinctAppend(Names(flat, j - 1), flat[j - 1].name);
      } else {
        assert Names(flat, j) == Names(flat, j - 1);
      }
    }
  }

  lemma {:induction false} NoGroup(flat: seq<Node>, name: string, j: nat)
    requires j <= |flat| && forall k :: 0 <= k < j ==> flat[k].name != name
    ensures Group(flat, name, j) == []
  {
    if j > 0 {
      NoGroup(flat, name, j - 1);
    }
  }

  /** Some of the first j nodes has this name. */
  predicate NameIn(flat: seq<Node>, name: string, j: nat)
    requires j <= |flat|
  {
    j > 0 && (flat[j - 1].name == name || NameIn(flat, name, j - 1))
  }

  lemma {:induction false} NameInMeans(flat: seq<Node>, name: string, j: nat)
    requires j <= |flat|
    ensures NameIn(flat, name, j) <==> exists k :: 0 <= k < j && flat[k].name == name
  {
    if j > 0 {
      NameInMeans(flat, name, j - 1);
    }
  }

  /** The list while the inner loop of the i-th node has handled j nodes. */
  ghost predicate Growing(flat: seq<Node>, i: nat, j: nat, r: seq<Node>)
    requires i < |flat| && j <= |flat|
  {
    r == if NameIn(flat, flat[i].name, i) then Group(flat, flat[i].name, |flat|)
         else if j <= i then [flat[i]]
         else Group(flat, flat[i].name, j)
  }

  lemma {:induction false} GrowStart(flat: seq<Node>, i: nat, list: seq<Node>)
    requires i < |flat|
    requires list == if NameIn(flat, flat[i].name, i) then Group(flat, flat[i].name, |flat|) else []
    ensures Growing(flat, i, 0, if flat[i] !in list then list + [flat[i]] else list)
  {
    GroupMembers(flat, flat[i].name, |flat|);
  }

  lemma {:induction false} GrowStep(flat: seq<Node>, i: nat, j: nat, r: seq<Node>)
    requires i < |flat| && j < |flat| && Growing(flat, i, j, r)
    ensures var f, g := flat[i], flat[j];
            Growing(flat, i, j + 1, if f != g && f.name == g.name && g !in r then r + [g] else r)
  {
    var f, g, name := flat[i], flat[j], flat[i].name;
    if NameIn(flat, name, i) {
      GroupMembers(flat, name, |flat|);
    } else if j < i {
      NameInMeans(flat, name, i);
      assert g.name != name;
    } else if j == i {
      NameInMeans(flat, name, i);
      NoGroup(flat, name, i);
    } else {
      GroupMembers(flat, name, j);
    }
  }

  /** The list of the name of the i-th node after that node has been handled: unchanged if
      it was complete already, complete if it was empty. */
  method PopulateOne(flat: seq<Node>, i: nat, list: seq<Node>) returns (r: seq<Node>)
    requires i < |flat|
    requires list == if NameIn(flat, flat[i].name, i) then Group(flat, flat[i].name, |flat|) else []
    ensures r == Group(flat, flat[i].name, |flat|)
  {
    r := FirstEntry(flat, i, list);
    r := Grow(flat, i, r);
    GrownIsGroup(flat, i, r);
  }

  /** The inner loop. */
  method Grow(flat: seq<Node>, i: nat, first: seq<Node>) returns (r: seq<Node>)
    requires i < |flat| && Growing(flat, i, 0, first)
    ensures Growing(flat, i, |flat|, r)
  {
    r := first;
    for j := 0 to |flat|
      invariant Growing(flat, i, j, r)
    {
      r := Consider(flat, i, j, r);
    }
  }

  lemma {:induction false} GrownIsGroup(flat: seq<Node>, i: nat, r: seq<Node>)
    requires i < |flat| && Growing(flat, i, |flat|, r)
    ensures r == Group(flat, flat[i].name, |flat|)
  {
  }

  /** Before the inner loop: the node itself. */
  method FirstEntry(flat: seq<Node>, i: nat, list: seq<Node>) returns (r: seq<Node>)
    requires i < |flat|
    requires list == if NameIn(flat, flat[i].name, i) then Group(flat, flat[i].name, |flat|) else []
    ensures Growing(flat, i, 0, r)
  {
    GrowStart(flat, i, list);
    r := list;
    if flat[i] !in r {
      r := r + [flat[i]];
    }
  }

  /** One turn of the inner loop. */
  method Consider(flat: seq<Node>, i: nat, j: nat, list: seq<Node>) returns (r: seq<Node>)
    requires i < |flat| && j < |flat| && Growing(flat, i, j, list)
    ensures Growing(flat, i, j + 1, r)
  {
    var f, g := flat[i], flat[j];
    GrowStep(flat, i, j, list);
    r := list;
    if f != g && f.name == g.name {
      if g !in r {
        r := r + [g];
      }
    }
  }

  // ----- collapsing -----

  predicate CommitIn(c: seq<Node>, commit: string, j: nat)
    requires j <= |c|
  {
    exists k :: 0 <= k < j && c[k].commit == commit
  }

  /** The nodes of c that are not in `removed`, up to the j-th. */
  function Rest(c: seq<Node>, removed: seq<Node>, j: nat): seq<Node>
    requires j <= |c|
  {
    if j == 0 then [] else Rest(c, removed, j - 1) + if c[j - 1] in removed then [] else [c[j - 1]]
  }

  lemma {:induction false} RestMembers(c: seq<Node>, removed: seq<Node>, j: nat)
    requires j <= |c|
    ensures forall n :: n in Rest(c, removed, j) <==> n !in removed && n in c[..j]
  {
    if j > 0 {
      RestMembers(c, removed, j - 1);
      assert c[..j] == c[..j - 1] + [c[j - 1]];
    }
  }

  lemma {:induction false} IndexAppend(s: seq<Node>, t: seq<Node>, x: Node)
    requires x in s
    ensures Without(s + t, x) == Without(s, x) + t
    ensures Index(s + t, x) == Index(s, x)
    decreases |s|
  {
    if s[0] == x {
      assert (s + t)[1..] == s[1..] + t;
    } else {
      IndexAppend(s[1..], t, x);
      assert (s + t)[1..] == s[1..] + t;
    }
    assert (s + t)[..Index(s, x)] == s[..Index(s, x)];
    assert (s + t)[Index(s, x) + 1..] == s[Index(s, x) + 1..] + t;
  }

  lemma {:induction false} RestUntouched(c: seq<Node>, removed: seq<Node>, x: Node, j: nat)
    requires j <= |c| && x !in c[..j]
    ensures Rest(c, removed + [x], j) == Rest(c, removed, j)
  {
    if j > 0 {
      assert c[j - 1] in c[..j];
      assert forall n :: n in c[..j - 1] ==> n in c[..j];
      RestUntouched(c, removed, x, j - 1);
    }
  }

  lemma {:induction false} RemoveLast(c: seq<Node>, removed: seq<Node>, x: Node, j: nat)
    requires 0 < j <= |c| && c[j - 1] == x && x !in c[..j - 1] && x !in removed
    ensures x in Rest(c, removed, j)
    ensures Without(Rest(c, removed, j), x) == Rest(c, removed + [x], j)
  {
    var front := Rest(c, removed, j - 1);
    assert x !in front by {
      RestMembers(c, removed, j - 1);
    }
    assert Rest(c, removed + [x], j - 1) == front by {
      RestUntouched(c, removed, x, j - 1);
    }
    LastWithout(front, x);
    assert Rest(c, removed, j) == front + [x];
    assert Rest(c, removed + [x], j) == front + [];
  }

  /** Removing one more node in place. */
  lemma {:induction false} RemoveOne(c: seq<Node>, removed: seq<Node>, x: Node, j: nat)
    requires j <= |c| && Distinct(c) && x in c[..j] && x !in removed
    ensures x in Rest(c, removed, j)
    ensures Without(Rest(c, removed, j), x) == Rest(c, removed + [x], j)
  {
    var front, y := Rest(c, removed, j - 1), c[j - 1];
    LastOrBefore(c, x, j);
    if y == x {
      RemoveLast(c, removed, x, j);
    } else {
      RemoveOne(c, removed, x, j - 1);
      IndexAppend(front, if y in removed then [] else [y], x);
    }
  }

  lemma LastOrBefore(c: seq<Node>, x: Node, j: nat)
    requires 0 < j <= |c| && Distinct(c) && x in c[..j]
    ensures x in c[..j - 1] <==> c[j - 1] != x
  {
    DistinctMeans(c);
    assert c[..j] == c[..j - 1] + [c[j - 1]];
  }

  lemma {:induction false} LastWithout(s: seq<Node>, x: Node)
    requires x !in s
    ensures Without(s + [x], x) == s
  {
    assert Index(s + [x], x) == |s|;
  }

  /** Later nodes of a commit. */
  method Duplicates(list: seq<Node>) returns (toRemove: seq<Node>)
    requires Distinct(list)
    ensures Distinct(toRemove)
    ensures forall n :: n in toRemove ==> n in list
    ensures forall i :: 0 <= i < |list| ==> (list[i] in toRemove <==> CommitIn(list, list[i].commit, i))
  {
    toRemove := [];
    var commits: seq<string> := [];
    DistinctMeans(list);
    for k := 0 to |list|
      invariant forall m :: m in commits <==> CommitIn(list, m, k)
      invariant Distinct(toRemove)
      invariant forall n :: n in toRemove ==> n in list[..k]
      invariant forall i :: 0 <= i < k ==> (list[i] in toRemove <==> CommitIn(list, list[i].commit, i))
    {
      var ip := list[k];
      assert ip !in list[..k];
      if ip.commit in commits {
        DistinctAppend(toRemove, ip);
        toRemove := toRemove + [ip];
      } else {
        commits := commits + [ip.commit];
      }
    }
  }

  /** The list with every later node of a commit taken out, in place. */
  method Collapse(list: seq<Node>) returns (c: seq<Node>)
    requires Distinct(list)
    ensures c == Kept(list, |list|)
  {
    var toRemove := Duplicates(list);
    c := list;
    RestAll(list, |list|);
    assert list[..|list|] == list;
    for k := 0 to |toRemove|
      invariant c == Rest(list, toRemove[..k], |list|)
    {
      RemoveNext(list, toRemove, k);
      c := Without(c, toRemove[k]);
    }
    assert toRemove[..|toRemove|] == toRemove;
    RestIsKept(list, toRemove, |list|);
  }

  lemma {:induction false} RemoveNext(list: seq<Node>, toRemove: seq<Node>, k: nat)
    requires Distinct(list) && Distinct(toRemove) && k < |toRemove| && toRemove[k] in list
    ensures var c := Rest(list, toRemove[..k], |list|);
            toRemove[k] in c && Without(c, toRemove[k]) == Rest(list, toRemove[..k + 1], |list|)
  {
    assert toRemove[k] !in toRemove[..k] by {
      DistinctMeans(toRemove);
    }
    assert list[..|list|] == list;
    RemoveOne(list, toRemove[..k], toRemove[k], |list|);
    assert toRemove[..k + 1] == toRemove[..k] + [toRemove[k]];
  }

  lemma {:induction false} RestAll(c: seq<Node>, j: nat)
    requires j <= |c|
    ensures Rest(c, [], j) == c[..j]
  {
    if j > 0 {
      RestAll(c, j - 1);
      assert c[..j] == c[..j - 1] + [c[j - 1]];
    }
  }

  /** The first node of each distinct commit among the first j. */
  function Kept(c: seq<Node>, j: nat): seq<Node>
    requires j <= |c|
  {
    if j == 0 then [] else Kept(c, j - 1) + if CommitIn(c, c[j - 1].commit, j - 1) then [] else [c[j - 1]]
  }

  lemma {:induction false} RestIsKept(c: seq<Node>, removed: seq<Node>, j: nat)
    requires j <= |c| && forall i :: 0 <= i < |c| ==> (c[i] in removed <==> CommitIn(c, c[i].commit, i))
    ensures Rest(c, removed, j) == Kept(c, j)
  {
    if j > 0 {
      RestIsKept(c, removed, j - 1);
    }
  }

  lemma {:induction false} KeptOfPrefix(c: seq<Node>, x: Node, j: nat)
    requires j <= |c|
    ensures Kept(c + [x], j) == Kept(c, j)
  {
    if j > 0 {
      KeptOfPrefix(c, x, j - 1);
      assert forall k :: 0 <= k < j ==> (c + [x])[k] == c[k];
      assert CommitIn(c + [x], c[j - 1].commit, j - 1) == CommitIn(c, c[j - 1].commit, j - 1);
    }
  }

  lemma {:induction false} KeptAppend(c: seq<Node>, x: Node)
    ensures Kept(c + [x], |c| + 1) == Kept(c, |c|) + if CommitIn(c, x.commit, |c|) then [] else [x]
  {
    KeptOfPrefix(c, x, |c|);
    assert forall k :: 0 <= k < |c| ==> (c + [x])[k] == c[k];
    assert CommitIn(c + [x], x.commit, |c|) == CommitIn(c, x.commit, |c|);
  }

  lemma MemberSeen(c: seq<Node>, x: Node)
    requires x in c
    ensures CommitIn(c, x.commit, |c|)
  {
    var k :| 0 <= k < |c| && c[k] == x;
  }

  /** Grouping and collapsing keeps exactly the first node of each name and commit. */
  lemma {:induction false} KeptGroup(flat: seq<Node>, name: string, j: nat)
    requires j <= |flat|
    ensures var g := Group(flat, name, j); Kept(g, |g|) == FirstVersions(flat, name, j)
  {
    if j > 0 {
      var g, x := Group(flat, name, j - 1), flat[j - 1];
      KeptGroup(flat, name, j - 1);
      assert FirstVersions(flat, name, j - 1) + [] == FirstVersions(flat, name, j - 1);
      if x.name == name {
        SeenInGroup(flat, name, x.commit, j - 1);
        if x in g {
          MemberSeen(g, x);
        } else {
          KeptAppend(g, x);
        }
      }
    }
  }

  lemma SeenInGroup(flat: seq<Node>, name: string, commit: string, j: nat)
    requires j <= |flat|
    ensures var g := Group(flat, name, j); CommitIn(g, commit, |g|) <==> Seen(flat, name, commit, j)
  {
    var g := Group(flat, name, j);
    GroupMembers(flat, name, j);
    if Seen(flat, name, commit, j) {
      var k :| 0 <= k < j && flat[k].name == name && flat[k].commit == commit;
      assert flat[k] in g;
    }
    if CommitIn(g, commit, |g|) {
      var k :| 0 <= k < |g| && g[k].commit == commit;
      assert g[k] in g;
    }
  }

  // ----- the whole table -----

  /** First pass: an empty list for every name. */
  method EmptyTable(flat: seq<Node>) returns (d: Value<string, seq<Node>>)
    ensures d.keys == Names(flat, |flat|) && Consistent(d)
    ensures forall name :: name in d.entries ==> d.entries[name] == []
  {
    d := Value([], map[]);
    for k := 0 to |flat|
      invariant d.keys == Names(flat, k) && Consistent(d)
      invariant forall name :: name in d.entries ==> d.entries[name] == []
    {
      SetKeepsConsistent(d, flat[k].name, []);
      d := Set(d, flat[k].name, []);
    }
  }

  /** After the second pass has handled the first i nodes. */
  ghost predicate Populated(flat: seq<Node>, d: Value<string, seq<Node>>, i: nat)
    requires i <= |flat|
  {
    && d.keys == Names(flat, |flat|) && Consistent(d)
    && forall name :: name in d.entries ==>
         d.entries[name] == if NameIn(flat, name, i) then Group(flat, name, |flat|) else []
  }

  lemma PopulateStep(flat: seq<Node>, d: Value<string, seq<Node>>, i: nat)
    requires i < |flat| && Populated(flat, d, i) && flat[i].name in d.entries
    ensures Populated(flat, Set(d, flat[i].name, Group(flat, flat[i].name, |flat|)), i + 1)
  {
  }

  /** Second pass: all nodes of each name. */
  method Populate(flat: seq<Node>, empty: Value<string, seq<Node>>) returns (d: Value<string, seq<Node>>)
    requires Populated(flat, empty, 0)
    ensures Populated(flat, d, |flat|)
  {
    d := empty;
    for i := 0 to |flat|
      invariant Populated(flat, d, i)
    {
      assert flat[i].name in d.entries by {
        NamesMembers(flat, |flat|);
      }
      PopulateStep(flat, d, i);
      var r := PopulateOne(flat, i, d.entries[flat[i].name]);
      d := Set(d, flat[i].name, r);
    }
  }

  lemma {:induction false} PopulatedGroups(flat: seq<Node>, d: Value<string, seq<Node>>, name: string)
    requires Populated(flat, d, |flat|) && name in d.entries
    ensures d.entries[name] == Group(flat, name, |flat|) != []
  {
    NamesMembers(flat, |flat|);
    GroupMembers(flat, name, |flat|);
    NameInMeans(flat, name, |flat|);
  }

  /** Third pass: evict the names whose list is empty; there are none. */
  method Evict(flat: seq<Node>, table: Value<string, seq<Node>>) returns (d: Value<string, seq<Node>>)
    requires Populated(flat, table, |flat|)
    ensures d == table
  {
    d := table;
    var toRemove: seq<string> := [];
    for k := 0 to |table.keys|
      invariant forall n :: n in toRemove ==> n in table.entries && table.entries[n] == []
    {
      var name := table.keys[k];
      assert name in table.entries;
      if |table.entries[name]| < 1 {
        toRemove := toRemove + [name];
      }
    }
    for k := 0 to |toRemove|
      invariant Consistent(d) && (k == 0 ==> d == table)
    {
      DeleteKeepsConsistent(d, toRemove[k]);
      d := Delete(d, toRemove[k]);
    }
    if toRemove != [] {
      PopulatedGroups(flat, table, toRemove[0]);
    }
  }

  /** After the last pass has collapsed the first k lists. */
  ghost predicate Collapsed(flat: seq<Node>, d: Value<string, seq<Node>>, k: nat) {
    && d.keys == Names(flat, |flat|) && Consistent(d) && k <= |d.keys|
    && forall i :: 0 <= i < |d.keys| ==>
         && d.keys[i] in d.entries
         && d.entries[d.keys[i]] == if i < k then FirstVersions(flat, d.keys[i], |flat|)
                                    else Group(flat, d.keys[i], |flat|)
  }

  lemma {:induction false} CollapseStep(flat: seq<Node>, d: Value<string, seq<Node>>, k: nat)
    requires Collapsed(flat, d, k) && k < |d.keys|
    ensures Collapsed(flat, Set(d, d.keys[k], FirstVersions(flat, d.keys[k], |flat|)), k + 1)
  {
    var d' := Set(d, d.keys[k], FirstVersions(flat, d.keys[k], |flat|));
    assert d'.keys == d.keys && Consistent(d') by {
      SetKeepsConsistent(d, d.keys[k], FirstVersions(flat, d.keys[k], |flat|));
    }
    forall i | 0 <= i < |d.keys|
      ensures d.keys[i] in d'.entries
      ensures d'.entries[d.keys[i]] == if i < k + 1 then FirstVersions(flat, d.keys[i], |flat|)
                                       else Group(flat, d.keys[i], |flat|)
    {
      if i != k {
        DistinctMeans(d.keys);
        assert d.keys[i] != d.keys[k];
      }
    }
  }

  /** Last pass: collapse every list. */
  method CollapseAll(flat: seq<Node>, table: Value<string, seq<Node>>) returns (d: Value<string, seq<Node>>)
    requires Collapsed(flat, table, 0)
    ensures Collapsed(flat, d, |d.keys|)
  {
    d := table;
    for k := 0 to |table.keys|
      invariant d.keys == table.keys && Collapsed(flat, d, k)
    {
      var name := d.keys[k];
      GroupMembers(flat, name, |flat|);
      KeptGroup(flat, name, |flat|);
      CollapseStep(flat, d, k);
      var c := Collapse(d.entries[name]);
      d := Set(d, name, c);
    }
  }

  lemma PopulatedIsUncollapsed(flat: seq<Node>, d: Value<string, seq<Node>>)
    requires Populated(flat, d, |flat|)
    ensures Collapsed(flat, d, 0)
  {
    forall i | 0 <= i < |d.keys|
      ensures d.keys[i] in d.entries && d.entries[d.keys[i]] == Group(flat, d.keys[i], |flat|)
    {
      assert d.keys[i] in d.keys;
      PopulatedGroups(flat, d, d.keys[i]);
    }
  }

  lemma CollapsedIsTable(flat: seq<Node>, d: Value<string, seq<Node>>)
    requires Collapsed(flat, d, |d.keys|)
    ensures IsConflictTable(flat, d)
  {
    forall name | name in d.entries
      ensures d.entries[name] == FirstVersions(flat, name, |flat|)
    {
      assert d.keys[Index(d.keys, name)] == name;
    }
  }

  /** get_conflicts: for every dependency tree, each name of a descendant with the
      first descendant of each of its distinct commits, in post-order. */
  method GetConflicts(node: Node) returns (d: Value<string, seq<Node>>)
    ensures IsConflictTable(PostOrder(node.children), d)
  {
    var flat := FlattenizeChildren(node);
    var empty := EmptyTable(flat);
    var full := Populate(flat, empty);
    d := Evict(flat, full);
    PopulatedIsUncollapsed(flat, d);
    d := CollapseAll(flat, d);
    CollapsedIsTable(flat, d);
  }
}
