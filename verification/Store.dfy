/** The history database: its two tables, and every statement that changes them. */
module Stores {
  import opened Strings
  import opened Entries
  import opened Ranked
  import opened Dedup
  import opened History
  import opened Retention
  import opened Storage

  datatype InsertResult = Created(id: int) | Bumped(id: int) | ImageTooLarge(mime: string, bytes: nat, cap: nat)

  datatype Sweep = Sweep(expired: nat, overCapacity: nat)

  /** Everything that ever happened to one entry that is still in the history: the copies that made
      and bumped it, oldest first, and the flavors the first of them was stored with. `birth` is the
      place of its row among all that were ever inserted: a row id comes back, a birth does not. */
  datatype Life = Life(birth: nat, captures: seq<NewEntry>, stored: seq<Flavor>)

  ghost predicate AnySensitive(captures: seq<NewEntry>) {
    exists c <- captures :: c.sensitive
  }

  /** The preview of the last sensitive copy, or of the first copy if none was sensitive. */
  function ShownPreview(captures: seq<NewEntry>): string
    requires captures != []
  {
    var last := captures[|captures| - 1];
    if |captures| == 1 || last.sensitive then last.preview else ShownPreview(captures[..|captures| - 1])
  }

  /** A row says what its life says: nothing but its copies decides what is in it. */
  ghost predicate Explains(life: Life, entry: Entry) {
    && life.captures != []
    && (forall c <- life.captures :: c.hash == entry.hash)
    && entry.kind == life.captures[0].kind
    && entry.createdAt == life.captures[0].createdAt
    && (entry.sensitive <==> AnySensitive(life.captures))
    && entry.preview == ShownPreview(life.captures)
    && DistinctMimes(life.stored)
  }

  /** What a sensitive entry shows is always a preview that came with a sensitive copy of it. */
  lemma {:induction false} SensitiveEntriesShowAMask(life: Life, entry: Entry)
    requires Explains(life, entry) && entry.sensitive
    ensures exists c <- life.captures :: c.sensitive && c.preview == entry.preview && c.hash == entry.hash
  {
    LastMask(life.captures);
  }

  lemma {:induction false} LastMask(captures: seq<NewEntry>)
    requires captures != [] && AnySensitive(captures)
    ensures exists c <- captures :: c.sensitive && c.preview == ShownPreview(captures)
  {
    var init, last := captures[..|captures| - 1], captures[|captures| - 1];
    assert captures == init + [last];
    if last.sensitive || |captures| == 1 {
      assert last in captures;
    } else {
      LastMask(init);
      var c :| c in init && c.sensitive && c.preview == ShownPreview(init);
      assert c in captures;
    }
  }

  function NewRow(copy: NewEntry): Entry {
    Entry(copy.createdAt, copy.createdAt, copy.kind, copy.preview, copy.hash, false, copy.sensitive)
  }

  function BumpedBy(entry: Entry, copy: NewEntry): Entry {
    entry.(lastUsedAt := copy.createdAt,
           preview := if copy.sensitive then copy.preview else entry.preview,
           sensitive := entry.sensitive || copy.sensitive)
  }

  /** One entry's life with one more copy of it. */
  function WithCopy(lives: map<int, Life>, id: int, copy: NewEntry): map<int, Life> {
    if id in lives then lives[id := lives[id].(captures := lives[id].captures + [copy])] else lives
  }

  lemma {:induction false} BumpIsExplained(life: Life, entry: Entry, copy: NewEntry)
    requires Explains(life, entry) && copy.hash == entry.hash
    ensures Explains(life.(captures := life.captures + [copy]), BumpedBy(entry, copy))
  {
    var all := life.captures + [copy];
    assert all[..|all| - 1] == life.captures;
    if AnySensitive(life.captures) {
      var c :| c in life.captures && c.sensitive;
      assert c in all;
    }
    if copy.sensitive {
      assert copy in all;
    }
  }

  predicate IsLargest(ids: set<int>, id: int) {
    id in ids && forall other <- ids :: other <= id
  }

  lemma {:induction false} SomeIdIsLargest(ids: set<int>)
    requires ids != {}
    ensures exists id :: IsLargest(ids, id)
  {
    assert exists id :: id in ids by {
      assert (forall id :: id !in ids) ==> ids == {};
    }
    var id :| id in ids;
    var rest := ids - {id};
    if rest == {} {
      assert ids == {id};
      assert IsLargest(ids, id);
    } else {
      SomeIdIsLargest(rest);
      var top :| IsLargest(rest, top);
      assert ids == rest + {id};
      assert IsLargest(ids, if top < id then id else top);
    }
  }

  /** The row id SQLite gives the next row. */
  function NextId(entries: Table): (next: int)
    ensures forall id <- entries.Keys :: id < next
    ensures next == 1 || next - 1 in entries
  {
    if entries.Keys == {} then 1
    else
      SomeIdIsLargest(entries.Keys);
      var id :| IsLargest(entries.Keys, id);
      id + 1
  }

  /** What every reachable database is: no hash twice, no flavor without its entry, and every row
      and its flavors explained by the entry's life. */
  ghost predicate Consistent(entries: Table, flavors: seq<FlavorRow>, lives: map<int, Life>) {
    && (forall a, b | a in entries && b in entries && entries[a].hash == entries[b].hash :: a == b)
    && (forall r <- flavors :: r.entry in entries)
    && lives.Keys == entries.Keys
    && (forall id <- entries.Keys :: Explains(lives[id], entries[id]) && FlavorsOf(flavors, id) == lives[id].stored)
  }

  /** Every entry's canonical flavor is among its stored flavors and hashes to the entry's hash. */
  ghost predicate AllIdentified(blake3: Blake3, entries: Table, flavors: seq<FlavorRow>) {
    forall id <- entries.Keys :: Hash(blake3, entries[id].kind, FlavorsOf(flavors, id)) == Some(entries[id].hash)
  }

  /** An entry that is in the history before and after is the same copy with the same bytes, has
      only gained copies, and has not stopped being sensitive. */
  ghost predicate SameEntry(before: Entry, past: Life, after: Entry, life: Life) {
    && after.createdAt == before.createdAt && after.kind == before.kind && after.hash == before.hash
    && (before.sensitive ==> after.sensitive)
    && life.birth == past.birth && life.stored == past.stored && past.captures <= life.captures
  }

  ghost predicate Unbroken(entries: Table, lives: map<int, Life>, after: Table, livesAfter: map<int, Life>) {
    forall id | id in entries && id in after && id in lives && id in livesAfter ::
      SameEntry(entries[id], lives[id], after[id], livesAfter[id])
  }

  lemma {:induction false} EveryEntryHasALife(entries: Table, flavors: seq<FlavorRow>, lives: map<int, Life>)
    requires Consistent(entries, flavors, lives)
    ensures lives.Keys == entries.Keys
  {
  }

  lemma {:induction false} UnbrokenTwice(
    entries: Table, lives: map<int, Life>, between: Table, livesBetween: map<int, Life>, after: Table,
    livesAfter: map<int, Life>)
    requires livesBetween.Keys == between.Keys
    requires Unbroken(entries, lives, between, livesBetween) && Unbroken(between, livesBetween, after, livesAfter)
    requires forall id | id in entries && id in after :: id in between
    ensures Unbroken(entries, lives, after, livesAfter)
  {
  }

  lemma {:induction false} EveryEntryIsItself(entries: Table, lives: map<int, Life>)
    ensures Unbroken(entries, lives, entries, lives)
  {
  }

  lemma {:induction false} TheSameEntry(
    id: int, entries: Table, lives: map<int, Life>, flavors: seq<FlavorRow>, after: Table, livesAfter: map<int, Life>,
    flavorsAfter: seq<FlavorRow>)
    requires Consistent(entries, flavors, lives) && Consistent(after, flavorsAfter, livesAfter)
    requires Unbroken(entries, lives, after, livesAfter) && id in entries && id in after
    ensures after[id].hash == entries[id].hash && after[id].kind == entries[id].kind
    ensures entries[id].sensitive ==> after[id].sensitive
    ensures FlavorsOf(flavorsAfter, id) == FlavorsOf(flavors, id)
  {
  }

  /** The lives of the entries that are kept. */
  function Surviving(lives: map<int, Life>, kept: Table): map<int, Life> {
    map id | id in kept && id in lives :: lives[id]
  }

  lemma {:induction false} SurvivingTwice(lives: map<int, Life>, some: Table, fewer: Table)
    requires fewer.Keys <= some.Keys
    ensures Surviving(Surviving(lives, some), fewer) == Surviving(lives, fewer)
  {
  }

  /** Every life began before now. */
  ghost predicate Numbered(lives: map<int, Life>, born: nat) {
    forall id <- lives.Keys :: lives[id].birth < born
  }

  lemma {:induction false} DeletingIsSound(
      blake3: Blake3, entries: Table, flavors: seq<FlavorRow>, lives: map<int, Life>, kept: Table)
    requires Consistent(entries, flavors, lives)
    requires kept.Keys <= entries.Keys && forall id <- kept.Keys :: kept[id] == entries[id]
    ensures Consistent(kept, Cascade(flavors, kept), Surviving(lives, kept))
    ensures AllIdentified(blake3, entries, flavors) ==> AllIdentified(blake3, kept, Cascade(flavors, kept))
    ensures Unbroken(entries, lives, kept, Surviving(lives, kept))
  {
    hide Cascade;
    hide FlavorsOf;
    hide Hash;
    hide Explains;
    CascadeLeavesNoOrphans(flavors, kept);
    forall id <- kept.Keys ensures FlavorsOf(Cascade(flavors, kept), id) == FlavorsOf(flavors, id) {
      FlavorsAfterCascade(flavors, kept, id);
    }
  }

  lemma {:induction false} FlavorsWithOneMoreEntry(flavors: seq<FlavorRow>, id: int, stored: seq<Flavor>, other: int)
    requires forall r <- flavors :: r.entry != id
    ensures FlavorsOf(flavors + RowsFor(id, stored), other) == if other == id then stored else FlavorsOf(flavors, other)
  {
    FlavorsOfNobody(flavors, id);
    FlavorsOfAppended(flavors, id, stored, other);
    assert FlavorsOf(flavors, other) + [] == FlavorsOf(flavors, other);
    assert [] + stored == stored;
  }

  lemma {:induction false} FirstCopyIsExplained(birth: nat, copy: NewEntry, stored: seq<Flavor>)
    requires DistinctMimes(stored)
    ensures Explains(Life(birth, [copy], stored), NewRow(copy))
  {
    assert copy in [copy];
  }

  lemma {:induction false} InsertingIsSound(
    blake3: Blake3, entries: Table, flavors: seq<FlavorRow>, lives: map<int, Life>, id: int, birth: nat,
    copy: NewEntry, stored: seq<Flavor>)
    requires Consistent(entries, flavors, lives) && id !in entries && DistinctMimes(stored)
    requires forall other <- entries.Keys :: entries[other].hash != copy.hash
    ensures Consistent(entries[id := NewRow(copy)], flavors + RowsFor(id, stored),
                       lives[id := Life(birth, [copy], stored)])
    ensures AllIdentified(blake3, entries, flavors) && Hash(blake3, copy.kind, stored) == Some(copy.hash) ==>
              AllIdentified(blake3, entries[id := NewRow(copy)], flavors + RowsFor(id, stored))
    ensures Unbroken(entries, lives, entries[id := NewRow(copy)], lives[id := Life(birth, [copy], stored)])
  {
    hide FlavorsOf;
    hide Hash;
    hide Explains;
    FirstCopyIsExplained(birth, copy, stored);
    forall r <- flavors + RowsFor(id, stored) ensures r.entry in entries || r.entry == id {}
    forall other
      ensures FlavorsOf(flavors + RowsFor(id, stored), other) ==
              if other == id then stored else FlavorsOf(flavors, other)
    {
      FlavorsWithOneMoreEntry(flavors, id, stored, other);
    }
  }

  /** A row may change as long as its life, changed along with it, goes on explaining it. */
  lemma {:induction false} UpdatingIsSound(
    blake3: Blake3, entries: Table, flavors: seq<FlavorRow>, lives: map<int, Life>, id: int, entry: Entry, life: Life)
    requires Consistent(entries, flavors, lives) && id in entries
    requires Explains(life, entry) && SameEntry(entries[id], lives[id], entry, life)
    ensures Consistent(entries[id := entry], flavors, lives[id := life])
    ensures AllIdentified(blake3, entries, flavors) ==> AllIdentified(blake3, entries[id := entry], flavors)
    ensures Unbroken(entries, lives, entries[id := entry], lives[id := life])
  {
    hide FlavorsOf;
    hide Hash;
    hide Explains;
  }

  datatype Operation =
    | Insert(copy: NewEntry)
    | Delete(id: int)
    | Clear(includePinned: bool)
    | SetPinned(id: int, pinned: bool)
    | Touch(id: int, at: Millis)
    | EnforceRetention(now: Millis)
    | Configure(retention: Policy, maxImageBytes: nat)

  /** The gestures by which the user lets go of a pinned entry. */
  predicate LetsGo(operation: Operation, id: int) {
    || operation == SetPinned(id, false)
    || operation == Delete(id)
    || operation == Clear(true)
  }

  /** None of them does. */
  predicate KeepsHold(operations: seq<Operation>, id: int) {
    forall o <- operations :: !LetsGo(o, id)
  }

  /** The history, and what is known of where each row came from. */
  datatype Books = Books(entries: Table, lives: map<int, Life>, born: nat)

  ghost predicate InOrderOfBirth(books: Books) {
    books.lives.Keys == books.entries.Keys && Numbered(books.lives, books.born)
  }

  /** The copy is one that some entry had been given. */
  ghost predicate WasGiven(copy: NewEntry, lives: map<int, Life>) {
    exists id <- lives.Keys :: copy in lives[id].captures
  }

  /** The same row of the history at two times, not another that came to have its id. */
  ghost predicate IsStill(id: int, before: Books, after: Books) {
    && id in before.entries && id in after.entries && id in before.lives && id in after.lives
    && after.lives[id].birth == before.lives[id].birth
  }

  /** What any run of operations does. A row that is still there is the same copy with the same bytes
      and no less sensitive; every other row was inserted since; nothing is in any life but what
      was there before or an insert of the run gave it; and a pinned row is still there, pinned,
      unless the run holds a gesture that lets go of it. */
  ghost predicate RunOf(operations: seq<Operation>, before: Books, after: Books) {
    && before.born <= after.born
    && (forall id | IsStill(id, before, after) ::
          SameEntry(before.entries[id], before.lives[id], after.entries[id], after.lives[id]))
    && (forall id <- after.lives.Keys :: IsStill(id, before, after) || after.lives[id].birth >= before.born)
    && (forall id <- after.lives.Keys, c <- after.lives[id].captures ::
          WasGiven(c, before.lives) || Insert(c) in operations)
    && (forall id <- before.entries.Keys | before.entries[id].pinned && KeepsHold(operations, id) ::
          IsStill(id, before, after) && after.entries[id].pinned)
  }

  lemma {:induction false} NothingHappened(books: Books)
    requires InOrderOfBirth(books)
    ensures RunOf([], books, books)
  {
    forall id <- books.lives.Keys, c <- books.lives[id].captures ensures WasGiven(c, books.lives) {
    }
  }

  /** One run after another is a run. */
  lemma {:induction false} RunAfterRun(
    operations: seq<Operation>, more: seq<Operation>, before: Books, between: Books, after: Books)
    requires InOrderOfBirth(before) && InOrderOfBirth(between) && InOrderOfBirth(after)
    requires RunOf(operations, before, between) && RunOf(more, between, after)
    ensures RunOf(operations + more, before, after)
  {
    var all := operations + more;
    assert forall o <- operations :: o in all;
    assert forall o <- more :: o in all;
    forall id | IsStill(id, before, after)
      ensures IsStill(id, before, between) && IsStill(id, between, after)
    {
      assert before.lives[id].birth < before.born <= between.born;
    }
    forall id <- after.lives.Keys, c <- after.lives[id].captures
      ensures WasGiven(c, before.lives) || Insert(c) in all
    {
      if WasGiven(c, between.lives) {
        var other :| other in between.lives && c in between.lives[other].captures;
        assert WasGiven(c, before.lives) || Insert(c) in operations;
      }
    }
  }

  /** Deleting is such a run, as long as what it deletes is not pinned or is let go of. */
  lemma {:induction false} DeletingIsARun(operations: seq<Operation>, before: Books, kept: Table)
    requires InOrderOfBirth(before)
    requires kept.Keys <= before.entries.Keys && forall id <- kept.Keys :: kept[id] == before.entries[id]
    requires forall id <- before.entries.Keys |
               before.entries[id].pinned && KeepsHold(operations, id) :: id in kept
    ensures RunOf(operations, before, Books(kept, Surviving(before.lives, kept), before.born))
  {
    forall id <- kept.Keys, c <- before.lives[id].captures ensures WasGiven(c, before.lives) {
    }
  }

  /** So is changing one row that stays what it is. */
  lemma {:induction false} UpdatingIsARun(operations: seq<Operation>, before: Books, id: int, entry: Entry)
    requires InOrderOfBirth(before) && id in before.entries
    requires SameEntry(before.entries[id], before.lives[id], entry, before.lives[id])
    requires before.entries[id].pinned && !entry.pinned ==> !KeepsHold(operations, id)
    ensures RunOf(operations, before, Books(before.entries[id := entry], before.lives, before.born))
  {
    forall other <- before.lives.Keys, c <- before.lives[other].captures ensures WasGiven(c, before.lives) {
    }
  }

  lemma {:induction false} CreatingIsARun(before: Books, id: int, copy: NewEntry, stored: seq<Flavor>)
    requires InOrderOfBirth(before) && id !in before.entries
    ensures RunOf([Insert(copy)], before,
                  Books(before.entries[id := NewRow(copy)], before.lives[id := Life(before.born, [copy], stored)],
                        before.born + 1))
  {
    var lives := before.lives[id := Life(before.born, [copy], stored)];
    forall other <- lives.Keys, c <- lives[other].captures ensures WasGiven(c, before.lives) || c == copy {
      assert other != id ==> c in before.lives[other].captures;
    }
    assert Insert(copy) in [Insert(copy)];
  }

  lemma {:induction false} BumpingIsARun(before: Books, id: int, copy: NewEntry)
    requires InOrderOfBirth(before) && id in before.entries
    ensures RunOf([Insert(copy)], before,
                  Books(before.entries[id := BumpedBy(before.entries[id], copy)], WithCopy(before.lives, id, copy),
                        before.born))
  {
    var lives := WithCopy(before.lives, id, copy);
    forall other <- lives.Keys, c <- lives[other].captures ensures WasGiven(c, before.lives) || c == copy {
      assert c != copy ==> c in before.lives[other].captures;
    }
    assert Insert(copy) in [Insert(copy)];
  }

  /** What is inserted is swept at once, and the sweep lets go of nothing that is pinned. */
  lemma {:induction false} SweepingIsARun(
    operations: seq<Operation>, before: Books, between: Books, policy: Policy, now: Millis)
    requires InOrderOfBirth(before) && InOrderOfBirth(between) && RunOf(operations, before, between)
    ensures var swept := Swept(between.entries, policy, now);
            RunOf(operations, before, Books(swept, Surviving(between.lives, swept), between.born))
  {
    hide RunOf;
    hide Swept;
    var swept := Swept(between.entries, policy, now);
    SweepKeepsAPrefixOfTheList(between.entries, policy, now);
    assert forall id <- swept.Keys :: id in between.entries && swept[id] == between.entries[id];
    assert forall id <- between.entries.Keys | between.entries[id].pinned :: id in swept;
    DeletingIsARun([], between, swept);
    var after := Books(swept, Surviving(between.lives, swept), between.born);
    assert InOrderOfBirth(after);
    RunAfterRun(operations, [], before, between, after);
    assert operations + [] == operations;
  }

  class Store {
    const blake3: Blake3
    const thumbnailer: Thumbnailer
    var entries: Table
    var flavors: seq<FlavorRow>
    var retention: Policy
    var maxImageBytes: nat
    ghost var lives: map<int, Life>
    /** How many rows were ever inserted. */
    ghost var born: nat

    ghost predicate Valid()
      reads this
    {
      Consistent(entries, flavors, lives) && Numbered(lives, born)
    }

    ghost predicate Identified()
      reads this
    {
      AllIdentified(blake3, entries, flavors)
    }

    /** The caller passed the dedup hash of the copy. */
    ghost predicate IsKeyed(copy: NewEntry) {
      Hash(blake3, copy.kind, copy.flavors) == Some(copy.hash)
    }

    twostate predicate Evolved()
      reads this
    {
      Unbroken(old(entries), old(lives), entries, lives)
    }

    constructor (blake3: Blake3, thumbnailer: Thumbnailer, retention: Policy, maxImageBytes: nat)
      ensures Valid() && Identified() && entries == map[] && flavors == []
      ensures this.blake3 == blake3 && this.thumbnailer == thumbnailer
      ensures this.retention == retention && this.maxImageBytes == maxImageBytes
    {
      this.blake3, this.thumbnailer := blake3, thumbnailer;
      this.retention, this.maxImageBytes := retention, maxImageBytes;
      entries, flavors, lives, born := map[], [], map[], 0;
    }

    method SetConfig(retention: Policy, maxImageBytes: nat)
      requires Valid()
      modifies this`retention, this`maxImageBytes
      ensures Valid() && (old(Identified()) ==> Identified())
      ensures this.retention == retention && this.maxImageBytes == maxImageBytes
    {
      this.retention, this.maxImageBytes := retention, maxImageBytes;
    }

    /** `DELETE FROM entries`, all but `kept`, with the cascade to their flavors. */
    method DeleteAllBut(kept: Table) returns (deleted: nat)
      requires Valid()
      requires kept.Keys <= entries.Keys && forall id <- kept.Keys :: kept[id] == entries[id]
      modifies this`entries, this`flavors, this`lives
      ensures Valid() && (old(Identified()) ==> Identified()) && Evolved()
      ensures entries == kept && flavors == Cascade(old(flavors), kept)
      ensures lives == Surviving(old(lives), kept)
      ensures deleted == |old(entries)| - |kept|
    {
      hide Consistent;
      hide AllIdentified;
      hide Unbroken;
      EveryEntryHasALife(entries, flavors, lives);
      DeletingIsSound(blake3, entries, flavors, lives, kept);
      FewerKeys(kept, entries);
      deleted := |entries| - |kept|;
      lives := Surviving(lives, kept);
      entries, flavors := kept, Cascade(flavors, kept);
    }

    /** Both retention deletes. */
    method SweepNow(now: Millis) returns (swept: Sweep)
      requires Valid()
      modifies this`entries, this`flavors, this`lives
      ensures Valid() && (old(Identified()) ==> Identified()) && Evolved()
      ensures entries == Swept(old(entries), retention, now) && flavors == Cascade(old(flavors), entries)
      ensures lives == Surviving(old(lives), entries)
      ensures WithinLimits(entries, retention, now)
      ensures swept.expired + swept.overCapacity == |old(entries)| - |entries|
      ensures swept.expired == |old(entries)| - |WithoutExpired(old(entries), retention, now)|
    {
      hide Listing;
      hide Consistent;
      hide AllIdentified;
      hide Unbroken;
      hide Cascade;
      var unexpired := WithoutExpired(entries, retention, now);
      var expired := DeleteAllBut(unexpired);
      EveryEntryHasALife(entries, flavors, lives);
      label between:
      var overCapacity := DeleteAllBut(WithinCapacity(unexpired, retention));
      SweptIsWithinLimits(old(entries), retention, now);
      CascadeTwice(old(flavors), unexpired, entries);
      SurvivingTwice(old(lives), unexpired, entries);
      UnbrokenTwice(old(entries), old(lives), unexpired, old@between(lives), entries, lives);
      swept := Sweep(expired, overCapacity);
    }

    method StorableFlavorsOf(copy: NewEntry) returns (storable: Storable)
      ensures storable == StorableFlavors(copy.kind, copy.flavors, maxImageBytes)
    {
      var distinct := DistinctFlavors(copy.flavors);
      var canonical := FirstBest(RankingFor(copy.kind), distinct);
      if canonical.Some? && IsOverImageCap(canonical.value, maxImageBytes) {
        return TooLarge(canonical.value.mime, |canonical.value.data|, maxImageBytes);
      }
      return Storable(Filter(distinct, FitsImageCap(maxImageBytes)));
    }

    /** `INSERT INTO entries`, and one `INSERT INTO flavors` for each flavor. */
    method InsertRows(copy: NewEntry, stored: seq<Flavor>) returns (id: int)
      requires Valid() && forall other <- entries.Keys :: entries[other].hash != copy.hash
      requires DistinctMimes(stored)
      modifies this`entries, this`flavors, this`lives, this`born
      ensures Valid() && Evolved()
      ensures old(Identified()) && Hash(blake3, copy.kind, stored) == Some(copy.hash) ==> Identified()
      ensures id == NextId(old(entries)) && entries == old(entries)[id := NewRow(copy)]
      ensures flavors == old(flavors) + RowsFor(id, stored)
      ensures lives == old(lives)[id := Life(old(born), [copy], stored)] && born == old(born) + 1
    {
      hide AllIdentified;
      hide Unbroken;
      hide FlavorsOf;
      hide Hash;
      id := NextId(entries);
      InsertingIsSound(blake3, entries, flavors, lives, id, born, copy, stored);
      lives, born := lives[id := Life(born, [copy], stored)], born + 1;
      entries, flavors := entries[id := NewRow(copy)], flavors + RowsFor(id, stored);
    }

    /** `UPDATE entries` for a copy the history already has. */
    method Bump(id: int, copy: NewEntry)
      requires Valid() && id in entries && entries[id].hash == copy.hash
      modifies this`entries, this`lives
      ensures Valid() && (old(Identified()) ==> Identified()) && Evolved()
      ensures entries == old(entries)[id := BumpedBy(old(entries)[id], copy)]
      ensures lives == WithCopy(old(lives), id, copy)
    {
      hide FlavorsOf;
      hide Hash;
      hide AllIdentified;
      hide Unbroken;
      ghost var life := lives[id].(captures := lives[id].captures + [copy]);
      BumpIsExplained(lives[id], entries[id], copy);
      UpdatingIsSound(blake3, entries, flavors, lives, id, BumpedBy(entries[id], copy), life);
      lives := WithCopy(lives, id, copy);
      entries := entries[id := BumpedBy(entries[id], copy)];
    }

    /** What the `hash UNIQUE` constraint decides: a new row, or a bump of the row it collides with. */
    method InsertOrBump(copy: NewEntry, stored: seq<Flavor>) returns (result: InsertResult)
      requires Valid() && DistinctMimes(stored)
      modifies this`entries, this`flavors, this`lives, this`born
      ensures Valid() && Evolved()
      ensures old(Identified()) && (Hash(blake3, copy.kind, stored) == Some(copy.hash)) ==> Identified()
      ensures match result
              case Created(id) =>
                && (forall other <- old(entries).Keys :: old(entries)[other].hash != copy.hash)
                && id == NextId(old(entries)) && entries == old(entries)[id := NewRow(copy)]
                && flavors == old(flavors) + RowsFor(id, stored)
                && lives == old(lives)[id := Life(old(born), [copy], stored)] && born == old(born) + 1
              case Bumped(id) =>
                && id in old(entries) && old(entries)[id].hash == copy.hash
                && entries == old(entries)[id := BumpedBy(old(entries)[id], copy)] && flavors == old(flavors)
                && lives == WithCopy(old(lives), id, copy) && born == old(born)
              case ImageTooLarge(_, _, _) => false
    {
      hide Consistent;
      hide AllIdentified;
      hide Unbroken;
      hide Hash;
      if exists id <- entries.Keys :: entries[id].hash == copy.hash {
        var id :| id in entries && entries[id].hash == copy.hash;
        Bump(id, copy);
        result := Bumped(id);
      } else {
        var id := InsertRows(copy, stored);
        result := Created(id);
      }
    }

    /** Write a copy with these flavors, and sweep. */
    method Write(copy: NewEntry, stored: seq<Flavor>) returns (result: InsertResult)
      requires Valid() && DistinctMimes(stored)
      modifies this`entries, this`flavors, this`lives, this`born
      ensures Valid() && Evolved()
      ensures old(Identified()) && Hash(blake3, copy.kind, stored) == Some(copy.hash) ==> Identified()
      ensures match result
              case Created(id) =>
                && (forall other <- old(entries).Keys :: old(entries)[other].hash != copy.hash)
                && id == NextId(old(entries))
                && entries == Swept(old(entries)[id := NewRow(copy)], retention, copy.createdAt)
                && flavors == Cascade(old(flavors) + RowsFor(id, stored), entries)
                && lives == Surviving(old(lives)[id := Life(old(born), [copy], stored)], entries)
                && born == old(born) + 1
              case Bumped(id) =>
                && id in old(entries) && old(entries)[id].hash == copy.hash
                && entries == Swept(old(entries)[id := BumpedBy(old(entries)[id], copy)], retention, copy.createdAt)
                && flavors == Cascade(old(flavors), entries)
                && lives == Surviving(WithCopy(old(lives), id, copy), entries) && born == old(born)
              case ImageTooLarge(_, _, _) => false
      ensures WithinLimits(entries, retention, copy.createdAt)
      ensures forall id <- old(entries).Keys | old(entries)[id].pinned :: id in entries && entries[id].pinned
    {
      hide Surviving;
      hide WithCopy;
      hide Cascade;
      hide Swept;
      hide FreshListing;
      hide Consistent;
      hide Numbered;
      hide AllIdentified;
      hide Unbroken;
      hide RowsFor;
      hide WithinLimits;
      hide DistinctMimes;
      hide Hash;
      result := InsertOrBump(copy, stored);
      EveryEntryHasALife(entries, flavors, lives);
      label written:
      var swept := SweepNow(copy.createdAt);
      PinsOutliveASweep(old(entries), old@written(entries), retention, copy.createdAt);
      UnbrokenTwice(old(entries), old(lives), old@written(entries), old@written(lives), entries, lives);
    }

    /** Keep a capture, as a new entry or as one more use of the entry that holds the same content. */
    method Insert(copy: NewEntry) returns (result: InsertResult)
      requires Valid()
      modifies this`entries, this`flavors, this`lives, this`born
      ensures Valid() && Evolved()
      ensures old(Identified()) && IsKeyed(copy) ==> Identified()
      ensures var storable := StorableFlavors(copy.kind, copy.flavors, maxImageBytes);
              match result
              case ImageTooLarge(mime, bytes, cap) =>
                && storable == TooLarge(mime, bytes, cap)
                && entries == old(entries) && flavors == old(flavors) && lives == old(lives) && born == old(born)
              case Created(id) =>
                && storable.Storable?
                && (forall other <- old(entries).Keys :: old(entries)[other].hash != copy.hash)
                && id == NextId(old(entries))
                && entries == Swept(old(entries)[id := NewRow(copy)], retention, copy.createdAt)
                && flavors == Cascade(
                     old(flavors) +
                       RowsFor(id, storable.flavors + ThumbnailFor(thumbnailer, copy.kind, storable.flavors)), entries)
                && lives == Surviving(
                     old(lives)[id := Life(old(born), [copy],
                                           storable.flavors + ThumbnailFor(thumbnailer, copy.kind, storable.flavors))],
                     entries)
                && born == old(born) + 1
              case Bumped(id) =>
                && storable.Storable?
                && id in old(entries) && old(entries)[id].hash == copy.hash
                && entries == Swept(old(entries)[id := BumpedBy(old(entries)[id], copy)], retention, copy.createdAt)
                && flavors == Cascade(old(flavors), entries)
                && lives == Surviving(WithCopy(old(lives), id, copy), entries) && born == old(born)
      ensures !result.ImageTooLarge? ==> WithinLimits(entries, retention, copy.createdAt)
      ensures forall id <- old(entries).Keys | old(entries)[id].pinned :: id in entries && entries[id].pinned
    {
      hide Surviving;
      hide WithCopy;
      hide ThumbnailFor;
      hide StorableFlavors;
      hide Cascade;
      hide Swept;
      hide Canonical;
      hide Consistent;
      hide Numbered;
      hide AllIdentified;
      hide Unbroken;
      hide RowsFor;
      hide WithinLimits;
      hide DistinctMimes;
      var storable := StorableFlavorsOf(copy);
      if storable.TooLarge? {
        EveryEntryIsItself(entries, lives);
        return ImageTooLarge(storable.mime, storable.bytes, storable.cap);
      }
      StoringKeepsTheCanonicalFlavor(copy.kind, copy.flavors, maxImageBytes, thumbnailer);
      result := Write(copy, storable.flavors + ThumbnailFor(thumbnailer, copy.kind, storable.flavors));
    }

    /** Delete one entry, pinned or not, with its flavors. */
    method Delete(id: int) returns (deleted: bool)
      requires Valid()
      modifies this`entries, this`flavors, this`lives
      ensures Valid() && (old(Identified()) ==> Identified()) && Evolved()
      ensures deleted <==> id in old(entries)
      ensures entries == old(entries) - {id} && flavors == Cascade(old(flavors), entries)
      ensures lives == Surviving(old(lives), entries)
    {
      deleted := id in entries;
      var _ := DeleteAllBut(entries - {id});
    }

    method Clear(includePinned: bool) returns (deleted: nat)
      requires Valid()
      modifies this`entries, this`flavors, this`lives
      ensures Valid() && (old(Identified()) ==> Identified()) && Evolved()
      ensures entries == map id | id in old(entries) && !includePinned && old(entries)[id].pinned :: old(entries)[id]
      ensures flavors == Cascade(old(flavors), entries) && lives == Surviving(old(lives), entries)
      ensures deleted == |old(entries)| - |entries|
    {
      deleted := DeleteAllBut(map id | id in entries && !includePinned && entries[id].pinned :: entries[id]);
    }

    method SetPinned(id: int, pinned: bool) returns (updated: bool)
      requires Valid()
      modifies this`entries
      ensures Valid() && (old(Identified()) ==> Identified()) && Evolved()
      ensures updated <==> id in old(entries)
      ensures entries == if updated then old(entries)[id := old(entries)[id].(pinned := pinned)] else old(entries)
    {
      hide FlavorsOf;
      hide Hash;
      hide AllIdentified;
      updated := id in entries;
      if updated {
        UpdatingIsSound(blake3, entries, flavors, lives, id, entries[id].(pinned := pinned), lives[id]);
        assert lives[id := lives[id]] == lives;
        entries := entries[id := entries[id].(pinned := pinned)];
      }
    }

    /** Set when an entry was last used, and nothing else. */
    method Touch(id: int, at: Millis) returns (updated: bool)
      requires Valid()
      modifies this`entries
      ensures Valid() && (old(Identified()) ==> Identified()) && Evolved()
      ensures updated <==> id in old(entries)
      ensures entries == if updated then old(entries)[id := old(entries)[id].(lastUsedAt := at)] else old(entries)
    {
      hide FlavorsOf;
      hide Hash;
      hide AllIdentified;
      updated := id in entries;
      if updated {
        UpdatingIsSound(blake3, entries, flavors, lives, id, entries[id].(lastUsedAt := at), lives[id]);
        assert lives[id := lives[id]] == lives;
        entries := entries[id := entries[id].(lastUsedAt := at)];
      }
    }

    /** A page of the listing, each id with its entry. */
    method List(limit: nat, offset: nat) returns (page: seq<(int, Entry)>)
      requires Valid()
      ensures var ids := Slice(Listing(entries), limit, offset);
              |page| == |ids| && forall k | 0 <= k < |ids| :: ids[k] in entries && page[k] == (ids[k], entries[ids[k]])
    {
      hide Listing;
      hide Consistent;
      ListingLists(entries);
      var ids := Slice(Listing(entries), limit, offset);
      assert forall k | 0 <= k < |ids| :: ids[k] in entries;
      page := seq(|ids|, k requires 0 <= k < |ids| && ids[k] in entries reads this => (ids[k], entries[ids[k]]));
    }

    /** One entry with the flavors its first copy stored, every type once; the canonical one among them
        has the entry's hash. */
    method Get(id: int) returns (found: Option<(Entry, seq<Flavor>)>)
      requires Valid()
      ensures found.Some? <==> id in entries
      ensures found.Some? ==> found.value == (entries[id], lives[id].stored) && DistinctMimes(found.value.1)
      ensures found.Some? ==> lives[id].stored == FlavorsOf(flavors, id)
      ensures found.Some? && Identified() ==>
                Hash(blake3, found.value.0.kind, found.value.1) == Some(found.value.0.hash)
    {
      found := if id in entries then Some((entries[id], FlavorsOf(flavors, id))) else None;
    }

    ghost function Now(): Books
      reads this
    {
      Books(entries, lives, born)
    }

    /** One operation is a run of one. */
    method Perform(operation: Operation)
      requires Valid()
      modifies this`entries, this`flavors, this`lives, this`born, this`retention, this`maxImageBytes
      ensures Valid() && RunOf([operation], old(Now()), Now())
      ensures (operation.Insert? ==> IsKeyed(operation.copy)) && old(Identified()) ==> Identified()
    {
      hide Consistent;
      hide Numbered;
      hide AllIdentified;
      hide RunOf;
      ghost var before := Now();
      BooksAreInOrder();
      match operation {
        case Insert(copy) => PerformInsert(copy);
        case Delete(id) => PerformDelete(id);
        case Clear(includePinned) => PerformClear(includePinned);
        case SetPinned(id, pinned) => PerformPin(id, pinned);
        case Touch(id, at) => PerformTouch(id, at);
        case EnforceRetention(now) => PerformSweep(now);
        case Configure(policy, cap) =>
          SetConfig(policy, cap);
          DeletingNothing([operation], before);
      }
    }

    method PerformDelete(id: int)
      requires Valid()
      modifies this`entries, this`flavors, this`lives
      ensures Valid() && RunOf([Operation.Delete(id)], old(Now()), Now()) && (old(Identified()) ==> Identified())
    {
      hide Consistent;
      hide AllIdentified;
      hide Unbroken;
      hide Cascade;
      hide Surviving;
      hide RunOf;
      ghost var before := Now();
      BooksAreInOrder();
      var _ := Delete(id);
      ghost var operations := [Operation.Delete(id)];
      assert operations[0] in operations;
      DeletingIsARun(operations, before, entries);
    }

    method PerformClear(includePinned: bool)
      requires Valid()
      modifies this`entries, this`flavors, this`lives
      ensures Valid() && RunOf([Operation.Clear(includePinned)], old(Now()), Now())
      ensures old(Identified()) ==> Identified()
    {
      hide Consistent;
      hide AllIdentified;
      hide Unbroken;
      hide Cascade;
      hide Surviving;
      hide RunOf;
      ghost var before := Now();
      BooksAreInOrder();
      var _ := Clear(includePinned);
      ghost var operations := [Operation.Clear(includePinned)];
      assert operations[0] in operations;
      DeletingIsARun(operations, before, entries);
    }

    method PerformPin(id: int, pinned: bool)
      requires Valid()
      modifies this`entries
      ensures Valid() && RunOf([Operation.SetPinned(id, pinned)], old(Now()), Now())
      ensures old(Identified()) ==> Identified()
    {
      hide Consistent;
      hide AllIdentified;
      hide Unbroken;
      hide RunOf;
      ghost var before, operations := Now(), [Operation.SetPinned(id, pinned)];
      BooksAreInOrder();
      var updated := SetPinned(id, pinned);
      assert operations[0] in operations;
      if updated {
        UpdatingIsARun(operations, before, id, before.entries[id].(pinned := pinned));
      } else {
        DeletingNothing(operations, before);
      }
    }

    method PerformTouch(id: int, at: Millis)
      requires Valid()
      modifies this`entries
      ensures Valid() && RunOf([Operation.Touch(id, at)], old(Now()), Now())
      ensures old(Identified()) ==> Identified()
    {
      hide Consistent;
      hide AllIdentified;
      hide Unbroken;
      hide RunOf;
      ghost var before, operations := Now(), [Operation.Touch(id, at)];
      BooksAreInOrder();
      var updated := Touch(id, at);
      if updated {
        UpdatingIsARun(operations, before, id, before.entries[id].(lastUsedAt := at));
      } else {
        DeletingNothing(operations, before);
      }
    }

    method PerformSweep(now: Millis)
      requires Valid()
      modifies this`entries, this`flavors, this`lives
      ensures Valid() && RunOf([EnforceRetention(now)], old(Now()), Now()) && (old(Identified()) ==> Identified())
    {
      hide Consistent;
      hide AllIdentified;
      hide Unbroken;
      hide Cascade;
      hide Swept;
      hide Surviving;
      hide WithinLimits;
      hide RunOf;
      ghost var before := Now();
      BooksAreInOrder();
      var _ := SweepNow(now);
      DeletingNothing([EnforceRetention(now)], before);
      SweepingIsARun([EnforceRetention(now)], before, before, retention, now);
    }

    lemma {:induction false} BooksAreInOrder()
      requires Valid()
      ensures InOrderOfBirth(Now())
    {
      EveryEntryHasALife(entries, flavors, lives);
    }

    method PerformInsert(copy: NewEntry)
      requires Valid()
      modifies this`entries, this`flavors, this`lives, this`born
      ensures Valid() && RunOf([Operation.Insert(copy)], old(Now()), Now())
      ensures IsKeyed(copy) && old(Identified()) ==> Identified()
    {
      hide Swept;
      hide Cascade;
      hide Consistent;
      hide AllIdentified;
      hide Unbroken;
      hide StorableFlavors;
      hide ThumbnailFor;
      hide WithinLimits;
      hide RunOf;
      hide Surviving;
      hide WithCopy;
      ghost var before, storable := Now(), StorableFlavors(copy.kind, copy.flavors, maxImageBytes);
      ghost var operations := [Operation.Insert(copy)];
      BooksAreInOrder();
      var result := Insert(copy);
      match result {
        case ImageTooLarge(_, _, _) => DeletingNothing(operations, before);
        case Created(id) =>
          ghost var stored := storable.flavors + ThumbnailFor(thumbnailer, copy.kind, storable.flavors);
          CreatingIsARun(before, id, copy, stored);
          SweepingIsARun(
            operations, before,
            Books(before.entries[id := NewRow(copy)], before.lives[id := Life(before.born, [copy], stored)],
                  before.born + 1),
            retention, copy.createdAt);
        case Bumped(id) =>
          BumpingIsARun(before, id, copy);
          BumpedInOrder(before, id, copy);
          SweepingIsARun(
            operations, before,
            Books(before.entries[id := BumpedBy(before.entries[id], copy)], WithCopy(before.lives, id, copy),
                  before.born),
            retention, copy.createdAt);
      }
    }

    /** Any run of operations, from any history: what `RunOf` says of it, and that every sensitive entry
        shows a preview that came with a sensitive copy of it, inserted by the run or before it. */
    method Run(operations: seq<Operation>)
      requires Valid()
      modifies this`entries, this`flavors, this`lives, this`born, this`retention, this`maxImageBytes
      ensures Valid() && RunOf(operations, old(Now()), Now())
      ensures forall id | IsStill(id, old(Now()), Now()) ::
                && entries[id].hash == old(entries)[id].hash && entries[id].kind == old(entries)[id].kind
                && entries[id].createdAt == old(entries)[id].createdAt
                && (old(entries)[id].sensitive ==> entries[id].sensitive)
                && FlavorsOf(flavors, id) == FlavorsOf(old(flavors), id)
      ensures forall id <- entries.Keys | entries[id].sensitive ::
                exists c: NewEntry ::
                  && (WasGiven(c, old(lives)) || Operation.Insert(c) in operations)
                  && c.sensitive && c.preview == entries[id].preview && c.hash == entries[id].hash
      ensures (forall o <- operations | o.Insert? :: IsKeyed(o.copy)) && old(Identified()) ==> Identified()
    {
      hide Consistent;
      hide AllIdentified;
      hide RunOf;
      hide FlavorsOf;
      ghost var before := Now();
      BooksAreInOrder();
      NothingHappened(before);
      for k := 0 to |operations|
        invariant Valid() && RunOf(operations[..k], before, Now())
        invariant (forall o <- operations | o.Insert? :: IsKeyed(o.copy)) && old(Identified()) ==> Identified()
      {
        assert operations[k] in operations;
        ghost var between := Now();
        BooksAreInOrder();
        Perform(operations[k]);
        BooksAreInOrder();
        RunAfterRun(operations[..k], [operations[k]], before, between, Now());
        assert operations[..k] + [operations[k]] == operations[..k + 1];
      }
      assert operations[..|operations|] == operations;
      RunKeepsTheBytes(operations, before, old(flavors), entries, lives, born, flavors);
      RunShowsMasks(operations, before, entries, lives, born, flavors);
    }

    /** An entry that is pinned is still there after any run that does not let go of it. */
    method RunPinned(operations: seq<Operation>, ghost id: int)
      requires Valid() && id in entries && entries[id].pinned
      requires KeepsHold(operations, id)
      modifies this`entries, this`flavors, this`lives, this`born, this`retention, this`maxImageBytes
      ensures Valid() && IsStill(id, old(Now()), Now()) && entries[id].pinned
      ensures entries[id].hash == old(entries[id].hash) && FlavorsOf(flavors, id) == FlavorsOf(old(flavors), id)
    {
      hide Consistent;
      hide AllIdentified;
      hide FlavorsOf;
      Run(operations);
    }
  }

  lemma {:induction false} DeletingNothing(operations: seq<Operation>, before: Books)
    requires InOrderOfBirth(before)
    ensures RunOf(operations, before, before)
  {
    hide RunOf;
    DeletingIsARun(operations, before, before.entries);
    assert Surviving(before.lives, before.entries) == before.lives;
  }

  lemma {:induction false} BumpedInOrder(before: Books, id: int, copy: NewEntry)
    requires InOrderOfBirth(before) && id in before.entries
    ensures InOrderOfBirth(Books(before.entries[id := BumpedBy(before.entries[id], copy)],
                                 WithCopy(before.lives, id, copy), before.born))
  {
  }

  lemma {:induction false} RunKeepsTheBytes(
    operations: seq<Operation>, before: Books, rowsBefore: seq<FlavorRow>, entries: Table, lives: map<int, Life>,
    born: nat, rows: seq<FlavorRow>)
    requires Consistent(before.entries, rowsBefore, before.lives) && Consistent(entries, rows, lives)
    requires RunOf(operations, before, Books(entries, lives, born))
    ensures forall id | IsStill(id, before, Books(entries, lives, born)) ::
              && entries[id].hash == before.entries[id].hash && entries[id].kind == before.entries[id].kind
              && entries[id].createdAt == before.entries[id].createdAt
              && (before.entries[id].sensitive ==> entries[id].sensitive)
              && FlavorsOf(rows, id) == FlavorsOf(rowsBefore, id)
  {
    hide FlavorsOf;
    hide Explains;
  }

  lemma {:induction false} RunShowsMasks(
    operations: seq<Operation>, before: Books, entries: Table, lives: map<int, Life>, born: nat, rows: seq<FlavorRow>)
    requires Consistent(entries, rows, lives) && RunOf(operations, before, Books(entries, lives, born))
    ensures forall id <- entries.Keys | entries[id].sensitive ::
              exists c: NewEntry ::
                && (WasGiven(c, before.lives) || Insert(c) in operations)
                && c.sensitive && c.preview == entries[id].preview && c.hash == entries[id].hash
  {
    hide FlavorsOf;
    hide Explains;
    forall id <- entries.Keys | entries[id].sensitive
      ensures exists c: NewEntry ::
                && (WasGiven(c, before.lives) || Insert(c) in operations)
                && c.sensitive && c.preview == entries[id].preview && c.hash == entries[id].hash
    {
      SensitiveEntriesShowAMask(lives[id], entries[id]);
      var c :| c in lives[id].captures && c.sensitive && c.preview == entries[id].preview && c.hash == entries[id].hash;
    }
  }

  lemma {:induction false} PinsOutliveASweep(entries: Table, written: Table, policy: Policy, now: Millis)
    requires forall id <- entries.Keys :: id in written && written[id].pinned == entries[id].pinned
    ensures Swept(written, policy, now).Keys <= written.Keys
    ensures forall id <- entries.Keys | entries[id].pinned ::
              id in Swept(written, policy, now) && Swept(written, policy, now)[id].pinned
  {
    hide Swept;
    SweepKeepsAPrefixOfTheList(written, policy, now);
    forall id <- entries.Keys | entries[id].pinned
      ensures id in Swept(written, policy, now) && Swept(written, policy, now)[id].pinned
    {
      assert id in written && written[id].pinned;
    }
    assert forall id <- Swept(written, policy, now).Keys :: id in written;
  }

  lemma {:induction false} CascadeTwice(rows: seq<FlavorRow>, some: Table, fewer: Table)
    requires fewer.Keys <= some.Keys
    ensures Cascade(Cascade(rows, some), fewer) == Cascade(rows, fewer)
  {
    if rows != [] {
      var init, last := rows[..|rows| - 1], rows[|rows| - 1];
      CascadeTwice(init, some, fewer);
      var kept := Cascade(init, some);
      assert (kept + [last])[..|kept|] == kept;
      assert kept + [] == kept;
    }
  }

  lemma {:induction false} NewestComesFirst(entries: Table, ids: seq<int>, id: int)
    requires InOrder(entries, ids) && id in ids
    requires forall other <- ids :: other == id || entries[other].lastUsedAt < entries[id].lastUsedAt
    ensures ids[0] == id
  {
    var first := ids[0];
    assert first in ids;
  }

  /** A copy made strictly later than every use so far is in the history afterwards, and first. */
  lemma {:induction false} NewestSurvivesInFront(entries: Table, policy: Policy, now: Millis, id: int)
    requires id in entries && entries[id].lastUsedAt == now && policy.maxEntries >= 1
    requires forall other <- entries.Keys | other != id :: entries[other].lastUsedAt < now
    ensures id in Swept(entries, policy, now) && Listing(Swept(entries, policy, now))[..1] == [id]
  {
    hide Swept;
    hide Listing;
    hide FreshListing;
    SweepKeepsAPrefixOfTheList(entries, policy, now);
    var swept := Swept(entries, policy, now);
    var recent := FreshListing(entries, policy, now);
    FreshIsFresh(entries, policy, now);
    if !entries[id].pinned {
      assert IsFresh(entries, policy, now)(id);
      NewestComesFirst(entries, recent, id);
      assert First(Limit(policy), recent)[0] == id;
    }
    ListingLists(swept);
    NewestComesFirst(swept, Listing(swept), id);
  }
}
