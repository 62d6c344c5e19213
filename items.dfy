/** The rows of one list view and the list surgery KdbListModel performs on them:
    insertion at the group boundary, renaming by id and removal by id. */
module Items {

  /** The kind tag of a row. The worker sends it as an integer; every value other
      than the entry code takes the group path on insertion, and such a row is kept
      here as Unknown. */
  datatype ItemType = Group | Entry | Unknown

  /** One row: display title, subtitle, database id and kind. */
  datatype Item = Item(name: string, subtitle: string, id: int, itemType: ItemType)

  /** Every group row comes before every row of another kind. */
  predicate GroupsFirst(s: seq<Item>)
  {
    forall i, j :: 0 <= i < j < |s| && s[j].itemType == Group ==> s[i].itemType == Group
  }

  // ---------------------------------------------------------------------------
  // Kind filters: the reference description of a groups-first list
  // ---------------------------------------------------------------------------

  /** The group rows of `s`, in order. */
  function GroupsOf(s: seq<Item>): seq<Item>
  {
    if s == [] then []
    else (if s[0].itemType == Group then [s[0]] else []) + GroupsOf(s[1..])
  }

  /** The rows of `s` that are not groups, in order. */
  function NonGroupsOf(s: seq<Item>): seq<Item>
  {
    if s == [] then []
    else (if s[0].itemType == Group then [] else [s[0]]) + NonGroupsOf(s[1..])
  }

  lemma {:induction false} FiltersAppend(a: seq<Item>, b: seq<Item>)
    ensures GroupsOf(a + b) == GroupsOf(a) + GroupsOf(b)
    ensures NonGroupsOf(a + b) == NonGroupsOf(a) + NonGroupsOf(b)
  {
    if a == [] {
      assert a + b == b;
    } else {
      var t := a[1..];
      assert (a + b)[0] == a[0] && (a + b)[1..] == t + b;
      FiltersAppend(t, b);
      var g := if a[0].itemType == Group then [a[0]] else [];
      var n := if a[0].itemType == Group then [] else [a[0]];
      assert GroupsOf(a + b) == g + (GroupsOf(t) + GroupsOf(b));
      SeqAssoc(g, GroupsOf(t), GroupsOf(b));
      assert NonGroupsOf(a + b) == n + (NonGroupsOf(t) + NonGroupsOf(b));
      SeqAssoc(n, NonGroupsOf(t), NonGroupsOf(b));
    }
  }

  lemma SeqAssoc<T>(a: seq<T>, b: seq<T>, c: seq<T>)
    ensures a + (b + c) == (a + b) + c
  {
  }

  lemma {:induction false} AllGroupsFilters(s: seq<Item>)
    requires forall i :: 0 <= i < |s| ==> s[i].itemType == Group
    ensures GroupsOf(s) == s && NonGroupsOf(s) == []
  {
    if s != [] {
      AllGroupsFilters(s[1..]);
    }
  }

  lemma {:induction false} NoGroupsFilters(s: seq<Item>)
    requires forall i :: 0 <= i < |s| ==> s[i].itemType != Group
    ensures GroupsOf(s) == [] && NonGroupsOf(s) == s
  {
    if s != [] {
      NoGroupsFilters(s[1..]);
    }
  }

  // ---------------------------------------------------------------------------
  // Insertion (slot_addItemToListModel, accepted case)
  // ---------------------------------------------------------------------------

  /** Length of the leading run of group rows: the first index the scan of the
      source stops at. */
  function GroupRunLength(s: seq<Item>): (k: nat)
    ensures k <= |s|
    ensures forall i :: 0 <= i < k ==> s[i].itemType == Group
    ensures k < |s| ==> s[k].itemType != Group
  {
    if s == [] || s[0].itemType != Group then 0 else 1 + GroupRunLength(s[1..])
  }

  /** The scan of the source, stopping at the first row that is not a group,
      stops exactly at GroupRunLength. */
  lemma GroupRunLengthIsFirstNonGroup(s: seq<Item>, i: nat)
    requires i <= |s|
    requires forall k :: 0 <= k < i ==> s[k].itemType == Group
    requires i < |s| ==> s[i].itemType != Group
    ensures i == GroupRunLength(s)
  {
  }

  /** A groups-first list is its groups followed by everything else, and the
      boundary is the leading group run. */
  lemma GroupsFirstSplit(s: seq<Item>)
    requires GroupsFirst(s)
    ensures GroupsOf(s) == s[..GroupRunLength(s)]
    ensures NonGroupsOf(s) == s[GroupRunLength(s)..]
  {
    var k := GroupRunLength(s);
    assert s == s[..k] + s[k..];
    RunFilters(s);
    FiltersAppend(s[..k], s[k..]);
  }

  /** The kind filters of the two halves around the leading group run. */
  lemma RunFilters(s: seq<Item>)
    requires GroupsFirst(s)
    ensures GroupsOf(s[..GroupRunLength(s)]) == s[..GroupRunLength(s)] && NonGroupsOf(s[..GroupRunLength(s)]) == []
    ensures GroupsOf(s[GroupRunLength(s)..]) == [] && NonGroupsOf(s[GroupRunLength(s)..]) == s[GroupRunLength(s)..]
  {
    var k := GroupRunLength(s);
    AllGroupsFilters(s[..k]);
    NoGroupAfterRun(s, k);
    NoGroupsFilters(s[k..]);
  }

  /** In a groups-first list nothing after the leading group run is a group. */
  lemma NoGroupAfterRun(s: seq<Item>, k: nat)
    requires GroupsFirst(s) && k == GroupRunLength(s)
    ensures forall i :: 0 <= i < |s[k..]| ==> s[k..][i].itemType != Group
  {
    forall i | 0 <= i < |s[k..]|
      ensures s[k..][i].itemType != Group
    {
      assert s[k..][i] == s[k + i];
    }
  }

  /** Where an accepted row goes: an entry at the end, anything else right after
      the leading run of groups. */
  function InsertionIndex(s: seq<Item>, x: Item): (k: nat)
    ensures k <= |s|
    ensures x.itemType == Entry ==> k == |s|
    ensures x.itemType != Entry ==> forall i :: 0 <= i < k ==> s[i].itemType == Group
    ensures x.itemType != Entry && k < |s| ==> s[k].itemType != Group
  {
    if x.itemType == Entry then |s| else GroupRunLength(s)
  }

  /** The list after an accepted add of row `x`. */
  function Inserted(s: seq<Item>, x: Item): (r: seq<Item>)
    ensures |r| == |s| + 1
    ensures r[InsertionIndex(s, x)] == x
    ensures r[..InsertionIndex(s, x)] + r[InsertionIndex(s, x) + 1..] == s
    ensures GroupsFirst(s) ==> GroupsFirst(r)
  {
    var k := InsertionIndex(s, x);
    var r := s[..k] + [x] + s[k..];
    assert r[..k] + r[k + 1..] == s[..k] + s[k..];
    assert s[..k] + s[k..] == s;
    r
  }

  /** An add loses no row and adds exactly the new one. */
  lemma InsertedAddsOneRow(s: seq<Item>, x: Item)
    ensures multiset(Inserted(s, x)) == multiset(s) + multiset{x}
  {
    var k := InsertionIndex(s, x);
    var r := Inserted(s, x);
    assert r == r[..k] + [x] + r[k + 1..];
    assert multiset(r) == multiset(r[..k]) + multiset{x} + multiset(r[k + 1..]);
    assert multiset(r[..k] + r[k + 1..]) == multiset(r[..k]) + multiset(r[k + 1..]);
  }

  /** Seen through the kind filters: a new group joins the end of the group run,
      a new entry the end of the list, and a row of unknown kind the head of the
      non-group run. */
  lemma InsertedByKind(s: seq<Item>, x: Item)
    requires GroupsFirst(s)
    ensures x.itemType == Group ==>
      GroupsOf(Inserted(s, x)) == GroupsOf(s) + [x] && NonGroupsOf(Inserted(s, x)) == NonGroupsOf(s)
    ensures x.itemType == Entry ==>
      GroupsOf(Inserted(s, x)) == GroupsOf(s) && NonGroupsOf(Inserted(s, x)) == NonGroupsOf(s) + [x]
    ensures x.itemType == Unknown ==>
      GroupsOf(Inserted(s, x)) == GroupsOf(s) && NonGroupsOf(Inserted(s, x)) == [x] + NonGroupsOf(s)
  {
    if x.itemType == Entry {
      InsertedEntryFilters(s, x);
    } else if x.itemType == Group {
      InsertedGroupFilters(s, x);
    } else {
      InsertedUnknownFilters(s, x);
    }
  }

  lemma InsertedEntryFilters(s: seq<Item>, x: Item)
    requires x.itemType == Entry
    ensures GroupsOf(Inserted(s, x)) == GroupsOf(s) && NonGroupsOf(Inserted(s, x)) == NonGroupsOf(s) + [x]
  {
    SingletonFilters(x);
    assert Inserted(s, x) == s + [x];
    FiltersAppend(s, [x]);
    EmptyConcat(GroupsOf(s));
  }

  lemma InsertedGroupFilters(s: seq<Item>, x: Item)
    requires GroupsFirst(s) && x.itemType == Group
    ensures GroupsOf(Inserted(s, x)) == GroupsOf(s) + [x] && NonGroupsOf(Inserted(s, x)) == NonGroupsOf(s)
  {
    SingletonFilters(x);
    InsertedAtGroupBoundary(s, x);
    EmptyConcat(NonGroupsOf(s));
  }

  lemma InsertedUnknownFilters(s: seq<Item>, x: Item)
    requires GroupsFirst(s) && x.itemType == Unknown
    ensures GroupsOf(Inserted(s, x)) == GroupsOf(s) && NonGroupsOf(Inserted(s, x)) == [x] + NonGroupsOf(s)
  {
    SingletonFilters(x);
    InsertedAtGroupBoundary(s, x);
    EmptyConcat(GroupsOf(s));
  }

  lemma InsertedAtGroupBoundary(s: seq<Item>, x: Item)
    requires GroupsFirst(s) && x.itemType != Entry
    ensures GroupsOf(Inserted(s, x)) == GroupsOf(s) + GroupsOf([x])
    ensures NonGroupsOf(Inserted(s, x)) == NonGroupsOf([x]) + NonGroupsOf(s)
  {
    SplitFilters(s, x, GroupRunLength(s), Inserted(s, x));
    GroupsFirstSplit(s);
    RunFilters(s);
    EmptyConcat(NonGroupsOf([x]));
    EmptyConcat(GroupsOf(s) + GroupsOf([x]));
  }

  lemma EmptyConcat<T>(a: seq<T>)
    ensures [] + a == a && a + [] == a
  {
  }

  lemma SplitFilters(s: seq<Item>, x: Item, k: nat, r: seq<Item>)
    requires k <= |s| && r == s[..k] + [x] + s[k..]
    ensures GroupsOf(r) == GroupsOf(s[..k]) + GroupsOf([x]) + GroupsOf(s[k..])
    ensures NonGroupsOf(r) == NonGroupsOf(s[..k]) + NonGroupsOf([x]) + NonGroupsOf(s[k..])
  {
    FiltersAppend(s[..k] + [x], s[k..]);
    FiltersAppend(s[..k], [x]);
  }

  lemma SingletonFilters(x: Item)
    ensures GroupsOf([x]) == if x.itemType == Group then [x] else []
    ensures NonGroupsOf([x]) == if x.itemType == Group then [] else [x]
  {
    assert [x][1..] == [];
  }

  // ---------------------------------------------------------------------------
  // Renaming (slot_updateItemInListModel, matching model id)
  // ---------------------------------------------------------------------------

  /** Row `x` after a rename of `id`: a matching row takes the new title and
      subtitle, any other row is left as it is. */
  function Renamed(x: Item, id: int, title: string, subtitle: string): Item
  {
    if x.id == id then x.(name := title, subtitle := subtitle) else x
  }

  /** The list after a rename of every row whose id is `id`. */
  function Updated(s: seq<Item>, id: int, title: string, subtitle: string): (r: seq<Item>)
    ensures |r| == |s|
    ensures forall k :: 0 <= k < |s| ==> r[k].id == s[k].id && r[k].itemType == s[k].itemType
    ensures forall k :: 0 <= k < |s| && s[k].id != id ==> r[k] == s[k]
    ensures forall k :: 0 <= k < |s| && s[k].id == id ==> r[k].name == title && r[k].subtitle == subtitle
    ensures (forall k :: 0 <= k < |s| ==> s[k].id != id) ==> r == s
    ensures GroupsFirst(s) ==> GroupsFirst(r)
  {
    seq(|s|, k requires 0 <= k < |s| => Renamed(s[k], id, title, subtitle))
  }

  /** Renaming twice with the same arguments is renaming once. */
  lemma UpdatedIdempotent(s: seq<Item>, id: int, title: string, subtitle: string)
    ensures Updated(Updated(s, id, title, subtitle), id, title, subtitle) == Updated(s, id, title, subtitle)
  {
    var once := Updated(s, id, title, subtitle);
    var twice := Updated(once, id, title, subtitle);
    forall k | 0 <= k < |s|
      ensures twice[k] == once[k]
    {
      assert once[k] == Renamed(s[k], id, title, subtitle);
    }
  }

  // ---------------------------------------------------------------------------
  // Removal (slot_deleteItem)
  // ---------------------------------------------------------------------------

  /** Reference definition: every row with id `id` removed, the others in order. */
  function WithoutId(t: seq<Item>, id: int): seq<Item>
  {
    if t == [] then []
    else (if t[0].id == id then [] else [t[0]]) + WithoutId(t[1..], id)
  }

  /** The rows the removal loop of the source leaves behind, in closed form: a
      matching row is removed and the index still advances, so the row that slid
      into its place is never examined and stays, whatever its id. */
  function DeleteAsWritten(t: seq<Item>, id: int): (r: seq<Item>)
    ensures |r| <= |t|
  {
    if t == [] then []
    else if t[0].id == id then
      if |t| == 1 then [] else
        [t[1]] + DeleteAsWritten(t[2..], id)
    else
      [t[0]] + DeleteAsWritten(t[1..], id)
  }

  /** The state of the removal loop at index `i` over the current rows `cur`:
      the rows before `i` are final and DeleteAsWritten of the rest completes
      the result; the index one past the end means the loop ran off a removal
      at the last row. */
  ghost predicate DeleteProgress(orig: seq<Item>, id: int, cur: seq<Item>, i: int)
  {
    0 <= i <= |cur| + 1 && |cur| <= |orig|
    && (i <= |cur| ==> cur[..i] + DeleteAsWritten(cur[i..], id) == DeleteAsWritten(orig, id))
    && (i == |cur| + 1 ==> cur == DeleteAsWritten(orig, id))
  }

  lemma DeleteProgressStart(s: seq<Item>, id: int)
    ensures DeleteProgress(s, id, s, 0)
  {
    assert s[..0] == [] && s[0..] == s;
  }

  lemma DeleteAsWrittenSkips(t: seq<Item>, id: int)
    requires |t| >= 2 && t[0].id == id
    ensures DeleteAsWritten(t, id) == [t[1]] + DeleteAsWritten(t[2..], id)
  {
  }

  lemma DeleteAsWrittenKeeps(t: seq<Item>, id: int)
    requires t != [] && t[0].id != id
    ensures DeleteAsWritten(t, id) == [t[0]] + DeleteAsWritten(t[1..], id)
  {
  }

  /** A turn that removes row `i` and moves past the row that slid into it. */
  lemma DeleteProgressRemove(orig: seq<Item>, id: int, cur: seq<Item>, i: nat)
    requires DeleteProgress(orig, id, cur, i) && i < |cur| && cur[i].id == id
    ensures DeleteProgress(orig, id, cur[..i] + cur[i + 1..], i + 1)
  {
    var next := cur[..i] + cur[i + 1..];
    var tail := cur[i..];
    if i + 1 < |cur| {
      assert tail[0] == cur[i] && tail[1] == cur[i + 1] && tail[2..] == cur[i + 2..];
      DeleteAsWrittenSkips(tail, id);
      assert next[..i + 1] == cur[..i] + [cur[i + 1]];
      assert next[i + 1..] == cur[i + 2..];
      SeqAssoc(cur[..i], [cur[i + 1]], DeleteAsWritten(cur[i + 2..], id));
    } else {
      assert tail == [cur[i]];
      assert next == cur[..i];
    }
  }

  /** A turn that keeps row `i`. */
  lemma DeleteProgressKeep(orig: seq<Item>, id: int, cur: seq<Item>, i: nat)
    requires DeleteProgress(orig, id, cur, i) && i < |cur| && cur[i].id != id
    ensures DeleteProgress(orig, id, cur, i + 1)
  {
    var tail := cur[i..];
    assert tail[0] == cur[i] && tail[1..] == cur[i + 1..];
    DeleteAsWrittenKeeps(tail, id);
    assert cur[..i + 1] == cur[..i] + [cur[i]];
    SeqAssoc(cur[..i], [cur[i]], DeleteAsWritten(cur[i + 1..], id));
  }

  /** When the loop stops, the rows are DeleteAsWritten of the original ones. */
  lemma DeleteProgressDone(orig: seq<Item>, id: int, cur: seq<Item>, i: int)
    requires DeleteProgress(orig, id, cur, i) && i >= |cur|
    ensures cur == DeleteAsWritten(orig, id)
  {
    if i == |cur| {
      assert cur[..i] == cur && cur[i..] == [];
    }
  }

  /** The loop only ever removes rows: whatever it leaves was there before. */
  lemma {:induction false} DeleteAsWrittenOnlyRemoves(t: seq<Item>, id: int)
    ensures forall y :: y in DeleteAsWritten(t, id) ==> y in t
  {
    if t == [] {
    } else if t[0].id == id {
      if |t| > 1 {
        DeleteAsWrittenOnlyRemoves(t[2..], id);
        DeleteAsWrittenSkips(t, id);
        assert forall y :: y in t[2..] ==> y in t;
      }
    } else {
      DeleteAsWrittenOnlyRemoves(t[1..], id);
      DeleteAsWrittenKeeps(t, id);
      assert forall y :: y in t[1..] ==> y in t;
    }
  }

  /** Some row has id `id`. */
  predicate HasId(t: seq<Item>, id: int)
  {
    exists k :: 0 <= k < |t| && t[k].id == id
  }

  /** The first row with id `id` is always removed: the rows before it stay,
      and the row after it is the one the loop passes over. */
  lemma {:induction false} DeleteRemovesFirstMatch(t: seq<Item>, id: int, j: nat)
    requires j < |t| && t[j].id == id
    requires forall i :: 0 <= i < j ==> t[i].id != id
    ensures DeleteAsWritten(t, id) == t[..j] + (if j + 1 < |t| then [t[j + 1]] + DeleteAsWritten(t[j + 2..], id) else [])
    decreases j
  {
    if j == 0 {
      if |t| > 1 {
        DeleteAsWrittenSkips(t, id);
      }
      EmptyConcat(DeleteAsWritten(t, id));
    } else {
      var u := t[1..];
      DeleteRemovesFirstMatch(u, id, j - 1);
      DeleteAsWrittenKeeps(t, id);
      assert u[..j - 1] == t[1..j] && u[j - 1] == t[j];
      if j + 1 < |t| {
        assert u[j] == t[j + 1] && u[j + 1..] == t[j + 2..];
      }
      assert t[..j] == [t[0]] + t[1..j];
      SeqAssoc([t[0]], t[1..j], if j + 1 < |t| then [t[j + 1]] + DeleteAsWritten(t[j + 2..], id) else []);
    }
  }

  /** Deleting an id that some row has removes at least one row. */
  lemma {:induction false} DeleteRemovesWhenPresent(t: seq<Item>, id: int)
    ensures HasId(t, id) ==> |DeleteAsWritten(t, id)| < |t|
  {
    if t != [] && t[0].id != id {
      if HasId(t, id) {
        var k :| 0 <= k < |t| && t[k].id == id;
        assert t[1..][k - 1].id == id;
        DeleteRemovesWhenPresent(t[1..], id);
        DeleteAsWrittenKeeps(t, id);
      }
    }
  }

  /** Deleting an id that no row has leaves the list as it is. */
  lemma {:induction false} DeleteAbsentIsNoOp(t: seq<Item>, id: int)
    requires forall k :: 0 <= k < |t| ==> t[k].id != id
    ensures DeleteAsWritten(t, id) == t
  {
    if t != [] {
      DeleteAbsentIsNoOp(t[1..], id);
    }
  }

  /** Every row with another id survives, and they keep their relative order. */
  lemma {:induction false} DeleteKeepsOthers(t: seq<Item>, id: int)
    ensures WithoutId(DeleteAsWritten(t, id), id) == WithoutId(t, id)
  {
    if t == [] {
    } else if t[0].id == id {
      if |t| > 1 {
        DeleteKeepsOthers(t[2..], id);
        var rest := DeleteAsWritten(t[2..], id);
        assert ([t[1]] + rest)[1..] == rest;
        assert t[1..][1..] == t[2..];
      }
    } else {
      DeleteKeepsOthers(t[1..], id);
      assert ([t[0]] + DeleteAsWritten(t[1..], id))[1..] == DeleteAsWritten(t[1..], id);
    }
  }

  lemma NoGroupsInSubset(a: seq<Item>, b: seq<Item>)
    requires forall y :: y in a ==> y in b
    requires forall k :: 0 <= k < |b| ==> b[k].itemType != Group
    ensures forall k :: 0 <= k < |a| ==> a[k].itemType != Group
  {
    forall k | 0 <= k < |a|
      ensures a[k].itemType != Group
    {
      assert a[k] in a;
    }
  }

  /** Removal keeps groups before entries. */
  lemma {:induction false} DeleteKeepsGroupsFirst(t: seq<Item>, id: int)
    requires GroupsFirst(t)
    ensures GroupsFirst(DeleteAsWritten(t, id))
  {
    if t == [] {
    } else if t[0].id == id {
      if |t| > 1 {
        assert GroupsFirst(t[2..]);
        DeleteKeepsGroupsFirst(t[2..], id);
        var rest := DeleteAsWritten(t[2..], id);
        if t[1].itemType != Group {
          DeleteAsWrittenOnlyRemoves(t[2..], id);
          NoGroupsInSubset(rest, t[2..]);
        }
      }
    } else {
      assert GroupsFirst(t[1..]);
      DeleteKeepsGroupsFirst(t[1..], id);
      var rest := DeleteAsWritten(t[1..], id);
      if t[0].itemType != Group {
        DeleteAsWrittenOnlyRemoves(t[1..], id);
        NoGroupsInSubset(rest, t[1..]);
      }
    }
  }

  /** No two neighbouring rows both carry the id. */
  predicate NoAdjacentPair(t: seq<Item>, id: int)
  {
    forall k :: 0 <= k < |t| - 1 ==> !(t[k].id == id && t[k + 1].id == id)
  }

  /** When no two neighbouring rows share the id, the loop as written removes
      every matching row: it agrees with the reference definition. */
  lemma {:induction false} DeleteRemovesAllWithoutAdjacentPair(t: seq<Item>, id: int)
    requires NoAdjacentPair(t, id)
    ensures DeleteAsWritten(t, id) == WithoutId(t, id)
  {
    if t == [] {
    } else if t[0].id == id {
      if |t| > 1 {
        assert t[1].id != id;
        assert NoAdjacentPair(t[2..], id);
        DeleteRemovesAllWithoutAdjacentPair(t[2..], id);
        assert t[1..][1..] == t[2..];
      }
    } else {
      assert NoAdjacentPair(t[1..], id);
      DeleteRemovesAllWithoutAdjacentPair(t[1..], id);
    }
  }

  /** The skip, exhibited: of two neighbouring rows with the deleted id, the
      second survives. */
  lemma AdjacentDuplicateSurvives(x: Item, y: Item)
    requires x.id == y.id
    ensures DeleteAsWritten([x, y], x.id) == [y]
    ensures WithoutId([x, y], x.id) == []
  {
    assert [x, y][2..] == [];
    assert [x, y][1..] == [y];
    assert [y][1..] == [];
    assert WithoutId([y], x.id) == [] + WithoutId([], x.id);
    assert WithoutId([x, y], x.id) == [] + WithoutId([y], x.id);
  }
}
