/** The sweep: unpinned entries go by age and by number, pinned ones stay. */
module Retention {
  import opened Strings
  import opened Entries
  import opened History

  /** `maxAge` is in milliseconds; `None` is no age limit. */
  datatype Policy = Policy(maxEntries: nat, maxAge: Option<nat>)

  predicate IsExpired(entry: Entry, policy: Policy, now: Millis) {
    policy.maxAge.Some? && entry.lastUsedAt < SaturatingSub(now, policy.maxAge.value)
  }

  function Limit(policy: Policy): nat {
    if policy.maxEntries > I64_MAX then I64_MAX else policy.maxEntries
  }

  function Unpinned(entries: Table): Table {
    Only(entries, id => id in entries && !entries[id].pinned)
  }

  /** The first statement of a sweep: unpinned entries used before the cutoff go. */
  function WithoutExpired(entries: Table, policy: Policy, now: Millis): Table {
    Only(entries, id => id in entries && (entries[id].pinned || !IsExpired(entries[id], policy, now)))
  }

  /** The second: of the unpinned entries the newest stay, as many as the limit says. */
  function WithinCapacity(entries: Table, policy: Policy): Table {
    var newest := First(Limit(policy), Listing(Unpinned(entries)));
    Only(entries, id => id in entries && (entries[id].pinned || id in newest))
  }

  /** Both deletes, in the order the sweep runs them. */
  function Swept(entries: Table, policy: Policy, now: Millis): Table {
    WithinCapacity(WithoutExpired(entries, policy, now), policy)
  }

  function IsFresh(entries: Table, policy: Policy, now: Millis): int -> bool {
    id => id in entries && !entries[id].pinned && !IsExpired(entries[id], policy, now)
  }

  function IsUnexpired(entries: Table, policy: Policy, now: Millis): int -> bool {
    id => id in entries && !IsExpired(entries[id], policy, now)
  }

  /** The ids of the history as it is listed that the limits apply to and that are not too old. */
  function FreshListing(entries: Table, policy: Policy, now: Millis): seq<int> {
    FilterIds(Listing(entries), IsFresh(entries, policy, now))
  }

  ghost predicate WithinLimits(entries: Table, policy: Policy, now: Millis) {
    && |Unpinned(entries)| <= policy.maxEntries
    && forall id <- entries.Keys | !entries[id].pinned :: !IsExpired(entries[id], policy, now)
  }

  lemma {:induction false} UnpinnedOfTheUnexpired(entries: Table, policy: Policy, now: Millis)
    ensures Listing(Unpinned(WithoutExpired(entries, policy, now))) == FreshListing(entries, policy, now)
  {
    hide Listing;
    assert Unpinned(WithoutExpired(entries, policy, now)) == Only(entries, IsFresh(entries, policy, now));
    ListingOfASelection(entries, IsFresh(entries, policy, now));
  }

  lemma {:induction false} FreshIsFresh(entries: Table, policy: Policy, now: Millis)
    ensures InOrder(entries, FreshListing(entries, policy, now))
    ensures forall id :: id in FreshListing(entries, policy, now) <==> IsFresh(entries, policy, now)(id)
  {
    ListingLists(entries);
    FilterIdsKeepsOrder(entries, Listing(entries), IsFresh(entries, policy, now));
  }

  lemma {:induction false} FirstIsAPrefix(n: nat, ids: seq<int>)
    ensures First(n, ids) <= ids && |First(n, ids)| <= n
    ensures forall id <- First(n, ids) :: id in ids
  {
  }

  /** Trimming to capacity leaves the front of the list of unpinned entries. */
  lemma {:induction false} CapacityKeepsTheFront(entries: Table, policy: Policy)
    ensures Listing(Unpinned(WithinCapacity(entries, policy))) == First(Limit(policy), Listing(Unpinned(entries)))
  {
    hide Listing;
    var all := Listing(Unpinned(entries));
    var kept := First(Limit(policy), all);
    ListingLists(Unpinned(entries));
    FirstIsAPrefix(Limit(policy), all);
    var trimmed := Unpinned(WithinCapacity(entries, policy));
    forall i | 0 <= i < |kept| ensures kept[i] in trimmed {
      assert kept[i] in kept && kept[i] == all[i];
    }
    forall i, j | 0 <= i < j < |kept| ensures Newer(trimmed, kept[i], kept[j]) {
      assert Newer(Unpinned(entries), all[i], all[j]);
    }
    OnlyOneListing(trimmed, kept);
  }

  /** The sweep leaves every pinned entry, and of the others exactly the first `max_entries` of the
      unexpired ones in the order `list` shows them; what stays, stays as it was. */
  lemma {:induction false} SweepKeepsAPrefixOfTheList(entries: Table, policy: Policy, now: Millis)
    ensures var kept := First(Limit(policy), FreshListing(entries, policy, now));
            && (forall id :: id in Swept(entries, policy, now) <==>
                  id in entries && (entries[id].pinned || id in kept))
            && Listing(Unpinned(Swept(entries, policy, now))) == kept
    ensures forall id <- Swept(entries, policy, now).Keys ::
              id in entries && Swept(entries, policy, now)[id] == entries[id]
  {
    hide Listing;
    hide FreshListing;
    var kept := First(Limit(policy), FreshListing(entries, policy, now));
    UnpinnedOfTheUnexpired(entries, policy, now);
    CapacityKeepsTheFront(WithoutExpired(entries, policy, now), policy);
    FreshIsFresh(entries, policy, now);
    FirstIsAPrefix(Limit(policy), FreshListing(entries, policy, now));
  }

  /** Afterwards the unpinned entries meet both limits, however many are pinned. */
  lemma {:induction false} SweptIsWithinLimits(entries: Table, policy: Policy, now: Millis)
    ensures WithinLimits(Swept(entries, policy, now), policy, now)
  {
    hide Listing;
    hide FreshListing;
    hide Swept;
    SweepKeepsAPrefixOfTheList(entries, policy, now);
    FreshIsFresh(entries, policy, now);
    FirstIsAPrefix(Limit(policy), FreshListing(entries, policy, now));
    ListingLists(Unpinned(Swept(entries, policy, now)));
  }

  /** A table within its limits is left alone. */
  lemma {:induction false} SweepOfWhatIsWithinLimits(entries: Table, policy: Policy, now: Millis)
    requires WithinLimits(entries, policy, now) && |entries| <= I64_MAX
    ensures Swept(entries, policy, now) == entries
  {
    hide Listing;
    forall id <- entries.Keys ensures id in WithoutExpired(entries, policy, now) {}
    assert WithoutExpired(entries, policy, now) == entries;
    ListingLists(Unpinned(entries));
    FewerKeys(Unpinned(entries), entries);
    assert First(Limit(policy), Listing(Unpinned(entries))) == Listing(Unpinned(entries));
    forall id <- entries.Keys ensures id in WithinCapacity(entries, policy) {
      assert entries[id].pinned || id in Unpinned(entries).Keys;
    }
  }

  lemma {:induction false} FewerKeys(some: Table, all: Table)
    requires some.Keys <= all.Keys
    ensures |some| <= |all|
  {
    assert all.Keys == some.Keys + (all.Keys - some.Keys);
    assert |all.Keys| == |some.Keys| + |all.Keys - some.Keys|;
    assert |some.Keys| == |some| && |all.Keys| == |all|;
  }

  /** A second sweep at the same time deletes nothing. */
  lemma {:induction false} SweepIsIdempotent(entries: Table, policy: Policy, now: Millis)
    requires |entries| <= I64_MAX
    ensures Swept(Swept(entries, policy, now), policy, now) == Swept(entries, policy, now)
  {
    hide Swept;
    SweptIsWithinLimits(entries, policy, now);
    SweepKeepsAPrefixOfTheList(entries, policy, now);
    assert forall id <- Swept(entries, policy, now).Keys :: id in entries.Keys;
    FewerKeys(Swept(entries, policy, now), entries);
    SweepOfWhatIsWithinLimits(Swept(entries, policy, now), policy, now);
  }

  lemma {:induction false} NothingKept(ids: seq<int>, keep: int -> bool)
    requires forall id <- ids :: !keep(id)
    ensures FilterIds(ids, keep) == []
  {
    if ids != [] {
      var first := ids[0];
      assert first in ids && forall id <- ids[1..] :: id in ids;
      NothingKept(ids[1..], keep);
    }
  }

  /** What is too old comes after everything that is not. */
  lemma {:induction false} ExpiredComeLast(entries: Table, ids: seq<int>, policy: Policy, now: Millis)
    requires InOrder(entries, ids)
    ensures FilterIds(ids, IsUnexpired(entries, policy, now)) <= ids
  {
    var unexpired := IsUnexpired(entries, policy, now);
    if ids != [] {
      if unexpired(ids[0]) {
        ExpiredComeLast(entries, ids[1..], policy, now);
      } else {
        forall id <- ids[1..] ensures !unexpired(id) {
          var j :| 0 <= j < |ids| - 1 && ids[1..][j] == id;
          assert Newer(entries, ids[0], ids[j + 1]);
        }
        NothingKept(ids[1..], unexpired);
      }
    }
  }

  lemma {:induction false} FirstOfAPrefix(n: nat, prefix: seq<int>, ids: seq<int>, id: int)
    requires prefix <= ids && (forall i, j | 0 <= i < j < |ids| :: ids[i] != ids[j])
    ensures id in First(n, prefix) <==> id in First(n, ids) && id in prefix
  {
    if id in First(n, prefix) {
      var i :| 0 <= i < |First(n, prefix)| && First(n, prefix)[i] == id;
      assert First(n, ids)[i] == id && prefix[i] == id;
    }
    if id in First(n, ids) && id in prefix {
      var i :| 0 <= i < |First(n, ids)| && First(n, ids)[i] == id;
      var j :| 0 <= j < |prefix| && prefix[j] == id;
      assert ids[i] == ids[j];
      assert First(n, prefix)[i] == id;
    }
  }

  /** The unexpired unpinned entries are the front of the list of all unpinned ones. */
  lemma {:induction false} UnexpiredAreTheFront(entries: Table, policy: Policy, now: Millis)
    ensures var all := Listing(Unpinned(entries));
            var recent := Listing(Unpinned(WithoutExpired(entries, policy, now)));
            && recent <= all
            && (forall i, j | 0 <= i < j < |all| :: all[i] != all[j])
            && forall id :: id in recent <==> id in all && id in entries && !IsExpired(entries[id], policy, now)
  {
    hide Listing;
    var all := Listing(Unpinned(entries));
    var unexpired := IsUnexpired(Unpinned(entries), policy, now);
    assert Unpinned(WithoutExpired(entries, policy, now)) == Only(Unpinned(entries), unexpired);
    ListingOfASelection(Unpinned(entries), unexpired);
    ListingLists(Unpinned(entries));
    FilterIdsKeepsOrder(Unpinned(entries), all, unexpired);
    ExpiredComeLast(Unpinned(entries), all, policy, now);
    forall i, j | 0 <= i < j < |all| ensures all[i] != all[j] {
      assert Newer(Unpinned(entries), all[i], all[j]);
    }
  }

  /** The two deletes commute. */
  lemma {:induction false} DeletesCommute(entries: Table, policy: Policy, now: Millis)
    ensures WithoutExpired(WithinCapacity(entries, policy), policy, now) ==
            WithinCapacity(WithoutExpired(entries, policy, now), policy)
  {
    hide Listing;
    var all := Listing(Unpinned(entries));
    var recent := Listing(Unpinned(WithoutExpired(entries, policy, now)));
    ListingLists(Unpinned(entries));
    UnexpiredAreTheFront(entries, policy, now);
    FirstIsAPrefix(Limit(policy), all);
    forall id | id in entries && !entries[id].pinned
      ensures id in First(Limit(policy), recent) <==>
              id in First(Limit(policy), all) && !IsExpired(entries[id], policy, now)
    {
      FirstOfAPrefix(Limit(policy), recent, all, id);
    }
  }
}
