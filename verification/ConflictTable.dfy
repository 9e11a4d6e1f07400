/** What the table of get_conflicts means: which nodes of the flat list its lists hold, and in
    which order they and the names stand. */
module ConflictTable {
  import opened Conflicts
  import opened OrderedDict

  /** r holds the elements of s at some places, in their order. */
  ghost predicate Picks<T>(s: seq<T>, at: seq<nat>, r: seq<T>) {
    && |at| == |r|
    && (forall i :: 0 <= i < |at| ==> at[i] < |s| && s[at[i]] == r[i])
    && forall i, k :: 0 <= i < k < |at| ==> at[i] < at[k]
  }

  lemma PicksOneMore<T>(s: seq<T>, at: seq<nat>, r: seq<T>, x: T)
    requires Picks(s, at, r)
    ensures Picks(s + [x], at, r) && Picks(s + [x], at + [|s|], r + [x])
  {
  }

  lemma InAppend(at: seq<nat>, k: nat)
    ensures forall m :: m in at + [k] <==> m in at || m == k
  {
  }

  /** No node before the k-th has its name and commit. */
  ghost predicate FirstOfVersion(flat: seq<Node>, k: nat)
    requires k < |flat|
  {
    forall i :: 0 <= i < k ==> flat[i].name != flat[k].name || flat[i].commit != flat[k].commit
  }

  /** No node before the k-th has its name. */
  ghost predicate FirstOfName(flat: seq<Node>, k: nat)
    requires k < |flat|
  {
    forall i :: 0 <= i < k ==> flat[i].name != flat[k].name
  }

  lemma {:induction false} OneMoreVersion(flat: seq<Node>, name: string, k: nat)
    requires k < |flat|
    ensures FirstVersions(flat, name, k + 1)
            == if flat[k].name == name && FirstOfVersion(flat, k) then FirstVersions(flat, name, k) + [flat[k]]
               else FirstVersions(flat, name, k)
  {
    assert FirstVersions(flat, name, k) + [] == FirstVersions(flat, name, k);
  }

  /** The places of the first versions of a name among the first j nodes. */
  ghost predicate VersionPlaces(flat: seq<Node>, name: string, at: seq<nat>, j: nat)
    requires j <= |flat|
  {
    forall k :: k in at <==> 0 <= k < j && flat[k].name == name && FirstOfVersion(flat, k)
  }

  lemma OneMorePlace(flat: seq<Node>, name: string, at: seq<nat>, k: nat)
    requires k < |flat| && VersionPlaces(flat, name, at, k)
    ensures VersionPlaces(flat, name, if flat[k].name == name && FirstOfVersion(flat, k) then at + [k] else at, k + 1)
  {
    InAppend(at, k);
  }

  lemma {:induction false} FirstVersionsPicks(flat: seq<Node>, name: string, j: nat) returns (at: seq<nat>)
    requires j <= |flat|
    ensures Picks(flat[..j], at, FirstVersions(flat, name, j)) && VersionPlaces(flat, name, at, j)
  {
    at := [];
    if j > 0 {
      var k := j - 1;
      at := FirstVersionsPicks(flat, name, k);
      assert flat[..j] == flat[..k] + [flat[k]];
      PicksOneMore(flat[..k], at, FirstVersions(flat, name, k), flat[k]);
      OneMoreVersion(flat, name, k);
      OneMorePlace(flat, name, at, k);
      if flat[k].name == name && FirstOfVersion(flat, k) {
        at := at + [k];
      }
    }
  }

  function NamesOf(flat: seq<Node>): (r: seq<string>)
    ensures |r| == |flat|
  {
    seq(|flat|, k requires 0 <= k < |flat| => flat[k].name)
  }

  lemma NewName(flat: seq<Node>, k: nat)
    requires k < |flat|
    ensures FirstOfName(flat, k) <==> flat[k].name !in Names(flat, k)
  {
    NamesMembers(flat, k);
  }

  lemma {:induction false} NamesPick(flat: seq<Node>, j: nat) returns (at: seq<nat>)
    requires j <= |flat|
    ensures Picks(NamesOf(flat[..j]), at, Names(flat, j))
    ensures forall k :: k in at <==> 0 <= k < j && FirstOfName(flat, k)
  {
    if j == 0 {
      at := [];
    } else {
      at := NamesPick(flat, j - 1);
      PicksOneMore(NamesOf(flat[..j - 1]), at, Names(flat, j - 1), flat[j - 1].name);
      assert NamesOf(flat[..j]) == NamesOf(flat[..j - 1]) + [flat[j - 1].name];
      assert Names(flat, j - 1) + [] == Names(flat, j - 1);
      NewName(flat, j - 1);
      if FirstOfName(flat, j - 1) {
        InAppend(at, j - 1);
        at := at + [j - 1];
      }
    }
  }

  /** The table in terms of the flat list: its names stand in the order of the first node of
      each, and the list of a name holds, in the order of the flat list, exactly the nodes of that
      name before which no node has the same name and commit. */
  lemma {:induction false} TableMeans(flat: seq<Node>, d: Value<string, seq<Node>>, name: string)
    returns (names: seq<nat>, versions: seq<nat>)
    requires IsConflictTable(flat, d)
    ensures Picks(NamesOf(flat), names, d.keys)
    ensures forall k :: k in names <==> 0 <= k < |flat| && FirstOfName(flat, k)
    ensures name in d.entries <==> exists k :: 0 <= k < |flat| && flat[k].name == name
    ensures name in d.entries ==> Picks(flat, versions, d.entries[name])
    ensures VersionPlaces(flat, name, versions, |flat|)
  {
    names := NamesPick(flat, |flat|);
    versions := FirstVersionsPicks(flat, name, |flat|);
    assert flat[..|flat|] == flat;
    NamesMembers(flat, |flat|);
  }
}
