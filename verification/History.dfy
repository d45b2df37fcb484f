/** The rows of the `entries` table and the order the history lists them in. */
module History {
  import opened Entries

  datatype Entry = Entry(
    createdAt: Millis, lastUsedAt: Millis, kind: EntryKind, preview: string, hash: string,
    pinned: bool, sensitive: bool)

  /** The `entries` table, by primary key. */
  type Table = map<int, Entry>

  predicate Newer(entries: Table, a: int, b: int)
    requires a in entries && b in entries
  {
    || entries[a].lastUsedAt > entries[b].lastUsedAt
    || (entries[a].lastUsedAt == entries[b].lastUsedAt && a > b)
  }

  predicate IsNewest(entries: Table, id: int) {
    id in entries && forall other <- entries.Keys :: other == id || Newer(entries, id, other)
  }

  lemma {:induction false} SomeEntryIsNewest(entries: Table)
    requires entries != map[]
    ensures exists id :: IsNewest(entries, id)
    decreases entries.Keys
  {
    assert exists id :: id in entries by {
      assert (forall id :: id !in entries) ==> entries == map[];
    }
    var id :| id in entries;
    var rest := entries - {id};
    assert rest.Keys == entries.Keys - {id};
    assert forall other <- entries.Keys :: other == id || other in rest;
    if rest == map[] {
      assert IsNewest(entries, id);
    } else {
      SomeEntryIsNewest(rest);
      var top :| IsNewest(rest, top);
      assert entries.Keys == rest.Keys + {id};
      if Newer(entries, top, id) {
        assert IsNewest(entries, top);
      } else {
        assert IsNewest(entries, id);
      }
    }
  }

  /** The ids by last use and then by id, both descending. */
  function Listing(entries: Table): (ids: seq<int>)
    decreases entries.Keys
  {
    if entries == map[] then []
    else
      SomeEntryIsNewest(entries);
      var id :| IsNewest(entries, id);
      assert (entries - {id}).Keys == entries.Keys - {id};
      [id] + Listing(entries - {id})
  }

  /** Newest first, no id twice. */
  ghost predicate InOrder(entries: Table, ids: seq<int>) {
    && (forall i | 0 <= i < |ids| :: ids[i] in entries)
    && (forall i, j | 0 <= i < j < |ids| :: Newer(entries, ids[i], ids[j]))
  }

  ghost predicate Lists(entries: Table, ids: seq<int>) {
    InOrder(entries, ids) && (forall id <- entries.Keys :: id in ids)
  }

  lemma {:induction false} NewestFirst(entries: Table, id: int, ids: seq<int>)
    requires IsNewest(entries, id) && Lists(entries - {id}, ids)
    ensures Lists(entries, [id] + ids)
  {
    var rest, all := entries - {id}, [id] + ids;
    forall i, j | 0 <= i < j < |all| ensures Newer(entries, all[i], all[j]) {
      if i > 0 {
        assert Newer(rest, ids[i - 1], ids[j - 1]);
      } else {
        assert all[j] == ids[j - 1] && ids[j - 1] in rest;
      }
    }
    forall other <- entries.Keys ensures other in all {
      assert other != id ==> other in rest.Keys;
    }
  }

  lemma {:induction false} ListingLists(entries: Table)
    ensures Lists(entries, Listing(entries))
    ensures |Listing(entries)| == |entries|
    decreases entries.Keys
  {
    if entries == map[] {
      assert Listing(entries) == [];
    } else {
      SomeEntryIsNewest(entries);
      var id, rest := Listing(entries)[0], entries - {Listing(entries)[0]};
      assert entries.Keys == rest.Keys + {id};
      ListingLists(rest);
      NewestFirst(entries, id, Listing(rest));
    }
  }

  /** Order and contents determine the list. */
  lemma {:induction false} OnlyOneListing(entries: Table, ids: seq<int>)
    requires Lists(entries, ids)
    ensures ids == Listing(entries)
  {
    ListingLists(entries);
    SameListing(entries, ids, Listing(entries));
  }

  lemma {:induction false} SameListing(entries: Table, a: seq<int>, b: seq<int>)
    requires InOrder(entries, a) && InOrder(entries, b)
    requires forall id :: id in a <==> id in b
    ensures a == b
  {
    if a != [] {
      var first := a[0];
      assert first in a && first in b;
    }
    if b != [] {
      var first := b[0];
      assert first in b && first in a;
    }
    if a != [] {
      assert a[0] in b && b[0] in a;
      assert a[0] == b[0];
      forall id ensures id in a[1..] <==> id in b[1..] {
        TailHasTheOthers(entries, a, id);
        TailHasTheOthers(entries, b, id);
      }
      SameListing(entries, a[1..], b[1..]);
      assert a == [a[0]] + a[1..] && b == [b[0]] + b[1..];
    }
  }

  lemma {:induction false} TailHasTheOthers(entries: Table, ids: seq<int>, id: int)
    requires InOrder(entries, ids) && ids != []
    ensures id in ids[1..] <==> id in ids && id != ids[0]
  {
    assert ids == [ids[0]] + ids[1..];
    if id in ids[1..] {
      var j :| 0 <= j < |ids| - 1 && ids[1..][j] == id;
      assert Newer(entries, ids[0], ids[j + 1]);
    }
  }

  /** `SELECT ... WHERE keep`. */
  function Only(entries: Table, keep: int -> bool): Table {
    map id | id in entries && keep(id) :: entries[id]
  }

  function FilterIds(ids: seq<int>, keep: int -> bool): seq<int> {
    if ids == [] then [] else (if keep(ids[0]) then [ids[0]] else []) + FilterIds(ids[1..], keep)
  }

  lemma {:induction false} FilterIdsKeepsOrder(entries: Table, ids: seq<int>, keep: int -> bool)
    requires InOrder(entries, ids)
    ensures InOrder(entries, FilterIds(ids, keep))
    ensures forall id :: id in FilterIds(ids, keep) <==> id in ids && keep(id)
  {
    if ids != [] {
      var rest := FilterIds(ids[1..], keep);
      FilterIdsKeepsOrder(entries, ids[1..], keep);
      assert ids == [ids[0]] + ids[1..];
      forall j | 0 <= j < |rest| ensures Newer(entries, ids[0], rest[j]) {
        assert rest[j] in rest;
        var k :| 0 <= k < |ids[1..]| && ids[1..][k] == rest[j];
        assert ids[k + 1] == rest[j];
      }
    }
  }

  /** Selecting rows and listing them gives the list with the other rows left out. */
  lemma {:induction false} ListingOfASelection(entries: Table, keep: int -> bool)
    ensures Listing(Only(entries, keep)) == FilterIds(Listing(entries), keep)
  {
    hide Listing;
    hide FilterIds;
    var ids, some := Listing(entries), Only(entries, keep);
    ListingLists(entries);
    FilterIdsKeepsOrder(entries, ids, keep);
    var kept := FilterIds(ids, keep);
    forall i | 0 <= i < |kept| ensures kept[i] in some {
      var id := kept[i];
      assert id in kept && id in ids && keep(id);
    }
    assert Lists(some, kept);
    OnlyOneListing(some, kept);
  }

  function First<T>(n: nat, rows: seq<T>): seq<T> {
    if n < |rows| then rows[..n] else rows
  }

  /** `LIMIT limit OFFSET offset` of a list. */
  function Slice<T>(rows: seq<T>, limit: nat, offset: nat): seq<T> {
    First(limit, if offset < |rows| then rows[offset..] else [])
  }
}
