/** The daemon around the store: what a capture does, what a copy-back does, and how they meet. */
module Daemons {
  import opened Strings
  import opened Entries
  import opened Dedup
  import opened History
  import opened Retention
  import opened Storage
  import opened Stores
  import opened Echo
  import opened EchoGuards
  import opened CopyBack
  import opened Loopback
  import Watcher

  /** What a selection is stored as; `None` if nothing in it has an identity. Masking is not part of
      this model: the preview and the mark come with the capture. */
  function NewCopy(
    blake3: Blake3, flavors: seq<Flavor>, now: Millis, preview: string, sensitive: bool): Option<NewEntry>
  {
    match ForFlavors(flavors)
    case None => None
    case Some(kind) =>
      match Hash(blake3, kind, flavors)
      case None => None
      case Some(hash) => Some(NewEntry(now, kind, preview, hash, sensitive, flavors))
  }

  datatype CaptureOutcome = Skipped | OwnEcho | WhilePaused | Recorded(result: InsertResult)

  datatype CopyOutcome = NoSuchEntry | NothingToOffer | NotAccepted | Copied

  /** What the daemon says to a request. */
  datatype Reply = OnCapture(capture: CaptureOutcome) | OnCopy(copy: CopyOutcome) | Done

  /** How many captures were taken for clippo's own copy-back. */
  function OwnEchoes(replies: seq<Reply>): nat {
    if replies == [] then 0
    else
      var last := replies[|replies| - 1];
      OwnEchoes(replies[..|replies| - 1]) + if last.OnCapture? && last.capture.OwnEcho? then 1 else 0
  }

  /** How many entries the clipboard took. */
  function Accepted(replies: seq<Reply>): nat {
    if replies == [] then 0
    else
      var last := replies[|replies| - 1];
      Accepted(replies[..|replies| - 1]) + if last.OnCopy? && last.copy.Copied? then 1 else 0
  }

  lemma {:induction false} RepliesAddUp(replies: seq<Reply>, more: seq<Reply>)
    ensures OwnEchoes(replies + more) == OwnEchoes(replies) + OwnEchoes(more)
    ensures Accepted(replies + more) == Accepted(replies) + Accepted(more)
  {
    if more == [] {
      assert replies + more == replies;
    } else {
      RepliesAddUp(replies, more[..|more| - 1]);
      assert (replies + more)[..|replies + more| - 1] == replies + more[..|more| - 1];
    }
  }

  /** Everything in the history can be put back on the clipboard and be recognised. */
  ghost predicate AllComeHome(blake3: Blake3, entries: Table, flavors: seq<FlavorRow>, cap: nat) {
    forall id <- entries.Keys :: ComesHome(blake3, entries[id].kind, entries[id].hash, FlavorsOf(flavors, id), cap)
  }

  lemma {:induction false} HomesKept(
    blake3: Blake3, cap: nat, entries: Table, lives: map<int, Life>, flavors: seq<FlavorRow>, after: Table,
    livesAfter: map<int, Life>, flavorsAfter: seq<FlavorRow>, id: int)
    requires Consistent(entries, flavors, lives) && Consistent(after, flavorsAfter, livesAfter)
    requires Unbroken(entries, lives, after, livesAfter) && AllComeHome(blake3, entries, flavors, cap)
    requires forall other <- after.Keys :: other in entries || other == id
    requires id in after && id !in entries ==>
               ComesHome(blake3, after[id].kind, after[id].hash, FlavorsOf(flavorsAfter, id), cap)
    ensures AllComeHome(blake3, after, flavorsAfter, cap)
  {
    hide ComesHome;
    hide Consistent;
    hide Unbroken;
    hide FlavorsOf;
    forall other <- after.Keys
      ensures ComesHome(blake3, after[other].kind, after[other].hash, FlavorsOf(flavorsAfter, other), cap)
    {
      if other in entries {
        TheSameEntry(other, entries, lives, flavors, after, livesAfter, flavorsAfter);
      }
    }
  }

  /** What the insert of a new copy leaves under its id. */
  lemma {:induction false} FlavorsOfTheNewEntry(entries: Table, flavors: seq<FlavorRow>, lives: map<int, Life>, id: int,
                                                stored: seq<Flavor>, after: Table)
    requires Consistent(entries, flavors, lives) && id !in entries && id in after
    ensures FlavorsOf(Cascade(flavors + RowsFor(id, stored), after), id) == stored
  {
    hide Cascade;
    hide FlavorsOf;
    hide RowsFor;
    FlavorsAfterCascade(flavors + RowsFor(id, stored), after, id);
    FlavorsOfAppended(flavors, id, stored, id);
    FlavorsOfNobody(flavors, id);
  }

  class Daemon {
    const store: Store
    const guard: EchoGuard
    /** The watcher's cap on one flavor. */
    const readCap: nat

    ghost predicate Valid()
      reads this, store, guard
    {
      store.Valid() && guard.Valid() && AllComeHome(store.blake3, store.entries, store.flavors, readCap)
    }

    constructor (store: Store, guard: EchoGuard, readCap: nat)
      requires store.Valid() && guard.Valid() && store.entries == map[]
      ensures Valid() && this.store == store && this.guard == guard && this.readCap == readCap
    {
      this.store, this.guard, this.readCap := store, guard, readCap;
    }

    /** What storing a copy did to the entries. */
    twostate predicate StoredAs(copy: NewEntry, result: InsertResult)
      reads store
    {
      match result
      case ImageTooLarge(_, _, _) => store.entries == old(store.entries) && store.flavors == old(store.flavors)
      case Created(id) =>
        && id !in old(store.entries)
        && store.entries == Swept(old(store.entries)[id := NewRow(copy)], store.retention, copy.createdAt)
      case Bumped(id) =>
        && id in old(store.entries) && old(store.entries)[id].hash == copy.hash
        && store.entries ==
           Swept(old(store.entries)[id := BumpedBy(old(store.entries)[id], copy)], store.retention, copy.createdAt)
    }

    /** Store a copy of what the watcher captured. It comes home, and so does everything that stays. */
    method Record(copy: NewEntry) returns (result: InsertResult)
      requires store.Valid() && AllComeHome(store.blake3, store.entries, store.flavors, readCap)
      requires IsWatched(copy.flavors, readCap) && ForFlavors(copy.flavors) == Some(copy.kind)
      requires Hash(store.blake3, copy.kind, copy.flavors) == Some(copy.hash)
      modifies store`entries, store`flavors, store`lives, store`born
      ensures store.Valid() && AllComeHome(store.blake3, store.entries, store.flavors, readCap)
      ensures StoredAs(copy, result)
    {
      hide Consistent;
      hide AllComeHome;
      hide ComesHome;
      hide ForFlavors;
      hide HashFlavor;
      hide Canonical;
      hide IsWatched;
      hide StorableFlavors;
      hide ThumbnailFor;
      hide Swept;
      hide Cascade;
      hide FlavorsOf;
      hide Unbroken;
      hide WithinLimits;
      ghost var entries, flavors, lives := store.entries, store.flavors, store.lives;
      result := store.Insert(copy);
      match result {
        case ImageTooLarge(_, _, _) =>
        case Bumped(id) =>
          SweepKeepsAPrefixOfTheList(entries[id := BumpedBy(entries[id], copy)], store.retention, copy.createdAt);
          HomesKept(store.blake3, readCap, entries, lives, flavors, store.entries, store.lives, store.flavors, id);
        case Created(id) =>
          SweepKeepsAPrefixOfTheList(entries[id := NewRow(copy)], store.retention, copy.createdAt);
          var stored := StoredFlavors(copy.kind, copy.flavors, store.maxImageBytes, store.thumbnailer);
          WatchedComesHome(store.blake3, store.thumbnailer, copy.kind, copy.flavors, store.maxImageBytes, readCap);
          if id in store.entries {
            FlavorsOfTheNewEntry(entries, flavors, lives, id, stored, store.entries);
          }
          HomesKept(store.blake3, readCap, entries, lives, flavors, store.entries, store.lives, store.flavors, id);
      }
    }

    /** Record what was captured, unless it is clippo's own copy-back. The guard is spent first, even
        while paused; a selection without an identity does not spend it. */
    method Capture(flavors: seq<Flavor>, now: Millis, preview: string, sensitive: bool, paused: bool)
      returns (outcome: CaptureOutcome)
      requires Valid() && IsWatched(flavors, readCap)
      modifies store`entries, store`flavors, store`lives, store`born, guard
      ensures Valid()
      ensures var copy := NewCopy(store.blake3, flavors, now, preview, sensitive);
              match outcome
              case Skipped => copy.None? && unchanged(guard)
              case OwnEcho => copy.Some? && old(guard.armed) == Some(copy.value.hash) && guard.armed.None?
              case WhilePaused => copy.Some? && old(guard.armed) != Some(copy.value.hash) && paused && guard.armed.None?
              case Recorded(result) =>
                && copy.Some? && old(guard.armed) != Some(copy.value.hash) && !paused && guard.armed.None?
                && StoredAs(copy.value, result)
      ensures !outcome.Recorded? ==> store.entries == old(store.entries) && store.flavors == old(store.flavors)
    {
      hide Consistent;
      hide AllComeHome;
      hide ForFlavors;
      hide Hash;
      hide IsWatched;
      hide Swept;
      var copy := NewCopy(store.blake3, flavors, now, preview, sensitive);
      if copy.None? {
        return Skipped;
      }
      var echo := guard.IsEcho(copy.value.hash);
      if echo {
        return OwnEcho;
      }
      if paused {
        return WhilePaused;
      }
      var result := Record(copy.value);
      outcome := Recorded(result);
    }

    /** Offer an entry's flavors. The guard is armed with its hash first, and disarmed if the clipboard
        did not accept them. */
    method Copy(id: int, now: Millis, accepted: bool) returns (outcome: CopyOutcome, offerable: seq<Flavor>)
      requires Valid()
      modifies store`entries, guard
      ensures Valid()
      ensures outcome.NoSuchEntry? <==> id !in old(store.entries)
      ensures id in old(store.entries) ==> offerable == Filter(FlavorsOf(store.flavors, id), MayBeOffered)
      ensures !outcome.NothingToOffer?
      ensures outcome.NoSuchEntry? ==> store.entries == old(store.entries) && unchanged(guard)
      ensures outcome.NotAccepted? ==> !accepted && store.entries == old(store.entries) && guard.armed.None?
      ensures outcome.Copied? ==>
                && accepted && id in old(store.entries) && guard.armed == Some(old(store.entries)[id].hash)
                && store.entries == old(store.entries)[id := old(store.entries)[id].(lastUsedAt := now)]
    {
      hide Consistent;
      hide AllComeHome;
      hide ComesHome;
      hide FlavorsOf;
      hide Filter;
      offerable := [];
      var found := store.Get(id);
      if found.None? {
        return NoSuchEntry, [];
      }
      var (entry, stored) := found.value;
      offerable := Filter(stored, MayBeOffered);
      ItComesHome(id);
      WhatComesHomeIsRecognised(store.blake3, entry.kind, entry.hash, stored, readCap);
      if offerable == [] {
        return NothingToOffer, offerable;
      }
      guard.Arm(entry.hash);
      if !accepted {
        var _ := guard.Clear();
        return NotAccepted, offerable;
      }
      ghost var entries, lives := store.entries, store.lives;
      var _ := store.Touch(id, now);
      HomesKept(store.blake3, readCap, entries, lives, store.flavors, store.entries, store.lives, store.flavors, id);
      outcome := Copied;
    }

    lemma {:induction false} ItComesHome(id: int)
      requires AllComeHome(store.blake3, store.entries, store.flavors, readCap) && id in store.entries
      ensures ComesHome(store.blake3, store.entries[id].kind, store.entries[id].hash, FlavorsOf(store.flavors, id),
                        readCap)
    {
    }

    /** The round trip: an entry is put back on the clipboard, and what the watcher then reads off
        clippo's own offer is captured. All it leaves in the history is the later use of the entry. */
    method CopyAndReadBack(
      id: int, now: Millis, later: Millis, preview: string, sensitive: bool, paused: bool)
      requires Valid() && id in store.entries
      modifies store`entries, store`flavors, store`lives, store`born, guard
      ensures Valid() && guard.armed.None?
      ensures store.entries == old(store.entries)[id := old(store.entries)[id].(lastUsedAt := now)]
      ensures store.flavors == old(store.flavors)
    {
      hide Consistent;
      hide AllComeHome;
      hide ComesHome;
      hide FlavorsOf;
      hide Filter;
      hide Recaptured;
      hide IsWatched;
      hide ForFlavors;
      hide Hash;
      ghost var entry, stored := store.entries[id], FlavorsOf(store.flavors, id);
      ItComesHome(id);
      WhatComesHomeIsRecognised(store.blake3, entry.kind, entry.hash, stored, readCap);
      ReadBackIsWatched(stored, readCap);
      var outcome, offerable := Copy(id, now, true);
      var back := Recaptured(FlavorsOf(store.flavors, id), readCap);
      var second := Capture(back, later, preview, sensitive, paused);
    }

    /** The same with the bytes on their way: what the watcher captures is what the pipes brought. As long
        as every paste of the offer gets through, the history is as it was but for the entry's last use. */
    method CopyAndReadBackThroughPipes(
      id: int, now: Millis, later: Millis, preview: string, sensitive: bool, paused: bool, links: nat -> Link)
      requires Valid() && id in store.entries && AllCarried(FlavorsOf(store.flavors, id), links)
      modifies store`entries, store`flavors, store`lives, store`born, guard
      ensures Valid() && guard.armed.None?
      ensures store.entries == old(store.entries)[id := old(store.entries)[id].(lastUsedAt := now)]
      ensures store.flavors == old(store.flavors)
    {
      hide Consistent;
      hide AllComeHome;
      hide ComesHome;
      hide FlavorsOf;
      hide Filter;
      hide Recaptured;
      hide IsWatched;
      hide ForFlavors;
      hide Hash;
      hide AllCarried;
      hide ReadOff;
      hide Asked;
      hide Answering;
      ghost var entry, stored := store.entries[id], FlavorsOf(store.flavors, id);
      ItComesHome(id);
      WhatComesHomeIsRecognised(store.blake3, entry.kind, entry.hash, stored, readCap);
      ReadBackIsWatched(stored, readCap);
      var outcome, offerable := Copy(id, now, true);
      var slots := ReadBackOwn(FlavorsOf(store.flavors, id), readCap, links);
      var second := Capture(Flavors.Captured(slots), later, preview, sensitive, paused);
    }

    /** Any run of what the bus, the watcher and the clock ask of the daemon: afterwards everything in
        the history can be put back on the clipboard and be recognised, and no more captures were taken
        for clippo's own than copies the clipboard had accepted. */
    method Run(requests: seq<Request>) returns (replies: seq<Reply>)
      requires Valid()
      requires forall r <- requests | r.Captures? :: IsWatched(r.flavors, readCap)
      modifies store`entries, store`flavors, store`lives, store`born, guard
      ensures Valid() && |replies| == |requests|
      ensures OwnEchoes(replies) + Ready() <= Accepted(replies) + old(Ready())
    {
      replies := [];
      for k := 0 to |requests|
        invariant Valid() && |replies| == k
        invariant OwnEchoes(replies) + Ready() <= Accepted(replies) + old(Ready())
      {
        assert requests[k] in requests;
        var reply := Handle(requests[k]);
        assert (replies + [reply])[..k] == replies;
        replies := replies + [reply];
      }
    }

    /** One if the next capture may be taken for clippo's own. */
    function Ready(): nat
      reads guard
    {
      if guard.armed.Some? then 1 else 0
    }

    /** An accepted copy makes the guard ready once, and a capture taken for clippo's own spends it. */
    method Handle(request: Request) returns (reply: Reply)
      requires Valid() && (request.Captures? ==> IsWatched(request.flavors, readCap))
      modifies store`entries, store`flavors, store`lives, store`born, guard
      ensures Valid()
      ensures request.Captures? <==> reply.OnCapture?
      ensures request.Copies? <==> reply.OnCopy?
      ensures OwnEchoes([reply]) + Ready() <= Accepted([reply]) + old(Ready())
      ensures reply.OnCapture? && reply.capture.OwnEcho? ==> old(guard.armed.Some?) && guard.armed.None?
      ensures reply.OnCopy? && reply.copy.Copied? ==>
                request.accepted && request.id in old(store.entries) &&
                guard.armed == Some(old(store.entries)[request.id].hash)
      ensures !reply.OnCapture? && !(reply.OnCopy? && reply.copy.Copied?) ==>
                guard.armed == old(guard.armed) || guard.armed.None?
    {
      hide Consistent;
      hide AllComeHome;
      hide IsWatched;
      hide Swept;
      hide Cascade;
      hide FlavorsOf;
      hide Unbroken;
      hide StoredAs;
      hide NewCopy;
      hide Filter;
      ghost var entries, flavors, lives := store.entries, store.flavors, store.lives;
      reply := Done;
      match request {
        case Captures(captured, now, preview, sensitive, paused) =>
          var outcome := Capture(captured, now, preview, sensitive, paused);
          return OnCapture(outcome);
        case Copies(id, now, accepted) =>
          var outcome, _ := Copy(id, now, accepted);
          return OnCopy(outcome);
        case Loses =>
          var _ := guard.Clear();
          return Done;
        case Deletes(id) =>
          var _ := store.Delete(id);
        case Clears(includePinned) =>
          var _ := store.Clear(includePinned);
        case Pins(id, pinned) =>
          var _ := store.SetPinned(id, pinned);
        case Sweeps(now) =>
          SweepKeepsAPrefixOfTheList(store.entries, store.retention, now);
          var _ := store.SweepNow(now);
      }
      HomesKept(store.blake3, readCap, entries, lives, flavors, store.entries, store.lives, store.flavors, 0);
    }
  }

  datatype Request =
    | Captures(flavors: seq<Flavor>, now: Millis, preview: string, sensitive: bool, paused: bool)
    | Copies(id: int, now: Millis, accepted: bool)
    | Loses
    | Deletes(id: int)
    | Clears(includePinned: bool)
    | Pins(id: int, pinned: bool)
    | Sweeps(now: Millis)

  /** The watcher in front and the daemon behind it. Whatever happens to the clipboard, and whatever is
      asked of the daemon between one capture and the next, every entry that is then in the history can be
      offered again and be recognised, and no more captures were taken for clippo's own than copies were
      accepted. `describe` is the masking, which is not modelled. */
  method WatchAndRecord(
    config: Watcher.Config, happenings: seq<Watcher.Happening>, batch: nat, daemon: Daemon,
    asked: seq<seq<Request>>, now: nat -> Millis, describe: seq<Flavor> -> (string, bool), paused: nat -> bool)
    returns (replies: seq<Reply>)
    requires daemon.Valid() && daemon.readCap == config.maxFlavorBytes
    requires forall requests <- asked, r <- requests :: !r.Captures?
    modifies daemon.store`entries, daemon.store`flavors, daemon.store`lives, daemon.store`born, daemon.guard
    ensures daemon.Valid()
    ensures OwnEchoes(replies) + daemon.Ready() <= Accepted(replies) + old(daemon.Ready())
  {
    hide IsWatched;
    hide OwnEchoes;
    hide Accepted;
    var watcher, _ := Watcher.Run(config, happenings, batch);
    var selections := Watcher.CapturesOf(watcher.delivered);
    replies := [];
    NoReplies();
    for i := 0 to |selections|
      invariant daemon.Valid()
      invariant OwnEchoes(replies) + daemon.Ready() <= Accepted(replies) + old(daemon.Ready())
    {
      var (preview, sensitive) := describe(selections[i].flavors);
      var reply := daemon.Handle(Captures(selections[i].flavors, now(i), preview, sensitive, paused(i)));
      RepliesAddUp(replies, [reply]);
      replies := replies + [reply];
      if i < |asked| {
        assert asked[i] in asked;
        var more := daemon.Run(asked[i]);
        RepliesAddUp(replies, more);
        replies := replies + more;
      }
    }
  }

  lemma {:induction false} NoReplies()
    ensures OwnEchoes([]) == Accepted([]) == 0
  {
  }
}
