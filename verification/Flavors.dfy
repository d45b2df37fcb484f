/** A slot for each wanted type, filled chunk by chunk up to a cap, and the selection that comes of
    the slots once none is being read. */
module Flavors {
  import opened Strings
  import opened Entries

  datatype SelectionKind = Clipboard | Primary

  datatype DropReason = OverCap(cap: nat) | Io(error: string) | Stalled | Setup(reason: string)

  datatype DroppedFlavor = DroppedFlavor(mime: string, reason: DropReason)

  /** Every interesting flavor of one copy, captured together. */
  datatype Selection = Selection(
    kind: SelectionKind, advertised: seq<string>, flavors: seq<Flavor>, dropped: seq<DroppedFlavor>)

  datatype Push = Accepted | PastCap | Closed

  datatype FlavorBuffer = FlavorBuffer(mime: string, cap: nat, data: Bytes)

  datatype Slot = Reading(buffer: FlavorBuffer) | Done(flavor: Flavor) | Dropped(mime: string, reason: DropReason)

  /** A slot after a chunk has been handed to it: a buffer that would pass its cap is released. */
  function AfterChunk(slot: Slot, chunk: Bytes): Slot {
    match slot
    case Reading(b) =>
      if |b.data| + |chunk| > b.cap then Dropped(b.mime, OverCap(b.cap)) else Reading(b.(data := b.data + chunk))
    case _ => slot
  }

  /** A slot whose pipe reached its end. */
  function AtEnd(slot: Slot): Slot {
    match slot
    case Reading(b) => Done(Flavor(b.mime, b.data))
    case _ => slot
  }

  /** A slot that is given up. */
  function GivenUp(slot: Slot, reason: DropReason): Slot {
    match slot
    case Reading(b) => Slot.Dropped(b.mime, reason)
    case _ => slot
  }

  function MimeOf(slot: Slot): string {
    match slot
    case Reading(buffer) => buffer.mime
    case Done(flavor) => flavor.mime
    case Dropped(mime, _) => mime
  }

  function MimesOf(slots: seq<Slot>): seq<string> {
    seq(|slots|, i requires 0 <= i < |slots| => MimeOf(slots[i]))
  }

  function CountReading(slots: seq<Slot>): nat {
    if slots == [] then 0 else (if slots[0].Reading? then 1 else 0) + CountReading(slots[1..])
  }

  function Concatenated(chunks: seq<Bytes>): Bytes {
    if chunks == [] then [] else Concatenated(chunks[..|chunks| - 1]) + chunks[|chunks| - 1]
  }

  function AfterChunks(slot: Slot, chunks: seq<Bytes>): Slot {
    if chunks == [] then slot else AfterChunk(AfterChunks(slot, chunks[..|chunks| - 1]), chunks[|chunks| - 1])
  }

  /** However a blob is cut into chunks, a slot that has seen them all holds exactly the blob, or
      has been dropped because the blob is over the cap. */
  lemma {:induction false} ChunkingDoesNotMatter(mime: string, cap: nat, chunks: seq<Bytes>)
    ensures var slot := AfterChunks(Reading(FlavorBuffer(mime, cap, [])), chunks);
            var blob := Concatenated(chunks);
            if |blob| <= cap
            then slot == Reading(FlavorBuffer(mime, cap, blob)) && AtEnd(slot) == Done(Flavor(mime, blob))
            else AtEnd(slot) == slot == Slot.Dropped(mime, OverCap(cap))
  {
    if chunks != [] {
      ChunkingDoesNotMatter(mime, cap, chunks[..|chunks| - 1]);
    }
  }

  lemma {:induction false} CountReadingAfterUpdate(slots: seq<Slot>, i: nat, slot: Slot)
    requires i < |slots|
    ensures CountReading(slots[i := slot]) ==
            CountReading(slots) - (if slots[i].Reading? then 1 else 0) + (if slot.Reading? then 1 else 0)
  {
    if i == 0 {
      assert slots[0 := slot][1..] == slots[1..];
    } else {
      CountReadingAfterUpdate(slots[1..], i - 1, slot);
      assert slots[i := slot][1..] == slots[1..][i - 1 := slot];
    }
  }

  lemma {:induction false} CountReadingAppended(slots: seq<Slot>, slot: Slot)
    ensures CountReading(slots + [slot]) == CountReading(slots) + if slot.Reading? then 1 else 0
  {
    if slots != [] {
      CountReadingAppended(slots[1..], slot);
      assert (slots + [slot])[1..] == slots[1..] + [slot];
    }
  }

  lemma {:induction false} NoneOpenMeansNoneReading(slots: seq<Slot>)
    ensures CountReading(slots) == 0 <==> forall s <- slots :: !s.Reading?
  {
    if slots != [] {
      NoneOpenMeansNoneReading(slots[1..]);
      assert slots == [slots[0]] + slots[1..];
    }
  }

  function Captured(slots: seq<Slot>): seq<Flavor> {
    if slots == [] then []
    else Captured(slots[..|slots| - 1]) + (match slots[|slots| - 1] case Done(f) => [f] case _ => [])
  }

  function Lost(slots: seq<Slot>): seq<DroppedFlavor> {
    if slots == [] then []
    else
      Lost(slots[..|slots| - 1]) +
      (match slots[|slots| - 1] case Dropped(mime, reason) => [DroppedFlavor(mime, reason)] case _ => [])
  }

  /** The slots of one copy, with the number still open. */
  class PendingSelection {
    const generation: nat
    const kind: SelectionKind
    const advertised: seq<string>
    var slots: seq<Slot>
    var open: nat

    ghost predicate Valid()
      reads this
    {
      && open == CountReading(slots)
      && forall s <- slots | s.Reading? :: |s.buffer.data| <= s.buffer.cap
    }

    constructor (generation: nat, kind: SelectionKind, advertised: seq<string>)
      ensures Valid() && slots == []
      ensures this.generation == generation && this.kind == kind && this.advertised == advertised
    {
      this.generation, this.kind, this.advertised := generation, kind, advertised;
      slots, open := [], 0;
    }

    /** Append an empty slot, which is open. */
    method ExpectFlavor(mime: string, cap: nat) returns (slot: nat)
      requires Valid()
      modifies this
      ensures Valid()
      ensures slot == |old(slots)| && slots == old(slots) + [Reading(FlavorBuffer(mime, cap, []))]
    {
      slot := |slots|;
      CountReadingAppended(slots, Reading(FlavorBuffer(mime, cap, [])));
      slots := slots + [Reading(FlavorBuffer(mime, cap, []))];
      open := open + 1;
    }

    /** Append a chunk to one slot, which is dropped if that takes it over its cap. */
    method Push(slot: nat, chunk: Bytes) returns (outcome: Push)
      requires Valid()
      modifies this
      ensures Valid()
      ensures slot < |old(slots)| ==> slots == old(slots)[slot := AfterChunk(old(slots)[slot], chunk)]
      ensures slot >= |old(slots)| ==> slots == old(slots)
      ensures outcome == if slot >= |slots| || !old(slots)[slot].Reading? then Closed
                         else if slots[slot].Reading? then Accepted else PastCap
    {
      if slot >= |slots| || !slots[slot].Reading? {
        return Closed;
      }
      var buffer := slots[slot].buffer;
      if |buffer.data| + |chunk| > buffer.cap {
        Resolve(slot, Slot.Dropped(buffer.mime, OverCap(buffer.cap)));
        return PastCap;
      }
      var more := Reading(buffer.(data := buffer.data + chunk));
      CountReadingAfterUpdate(slots, slot, more);
      slots := slots[slot := more];
      return Accepted;
    }

    /** Close one open slot with what became of it. */
    method Resolve(slot: nat, resolved: Slot)
      requires Valid() && slot < |slots| && slots[slot].Reading? && !resolved.Reading?
      modifies this
      ensures Valid() && slots == old(slots)[slot := resolved] && open == old(open) - 1
    {
      CountReadingAfterUpdate(slots, slot, resolved);
      slots := slots[slot := resolved];
      open := open - 1;
    }

    method Finish(slot: nat)
      requires Valid()
      modifies this
      ensures Valid()
      ensures slots == if slot < |old(slots)| then old(slots)[slot := AtEnd(old(slots)[slot])] else old(slots)
    {
      if slot < |slots| && slots[slot].Reading? {
        Resolve(slot, AtEnd(slots[slot]));
      }
    }

    method DropFlavor(slot: nat, reason: DropReason)
      requires Valid()
      modifies this
      ensures Valid()
      ensures slots == if slot < |old(slots)| then old(slots)[slot := GivenUp(old(slots)[slot], reason)] else old(slots)
    {
      if slot < |slots| && slots[slot].Reading? {
        Resolve(slot, GivenUp(slots[slot], reason));
      }
    }

    /** Drop all open slots for one reason; the result counts them. */
    method AbandonOpen(reason: DropReason) returns (stalled: nat)
      requires Valid()
      modifies this
      ensures Valid() && open == 0 && stalled == old(open)
      ensures |slots| == |old(slots)|
      ensures forall i | 0 <= i < |slots| :: slots[i] == GivenUp(old(slots)[i], reason)
    {
      stalled := open;
      for i := 0 to |slots|
        invariant Valid() && |slots| == |old(slots)|
        invariant forall k | 0 <= k < i :: slots[k] == GivenUp(old(slots)[k], reason)
        invariant forall k | i <= k < |slots| :: slots[k] == old(slots)[k]
      {
        DropFlavor(i, reason);
      }
      NoneOpenMeansNoneReading(slots);
    }

    predicate IsComplete()
      requires Valid()
      reads this
      ensures IsComplete() <==> forall s <- slots :: !s.Reading?
    {
      NoneOpenMeansNoneReading(slots);
      open == 0
    }

    /** The finished selection: what was read in full and what was not, in the order asked for. */
    method IntoSelection() returns (selection: Selection)
      requires Valid()
      ensures selection == Selection(kind, advertised, Captured(slots), Lost(slots))
    {
      var flavors, dropped := [], [];
      for i := 0 to |slots|
        invariant flavors == Captured(slots[..i]) && dropped == Lost(slots[..i])
      {
        assert slots[..i + 1][..i] == slots[..i];
        match slots[i] {
          case Done(flavor) => flavors := flavors + [flavor];
          case Dropped(mime, reason) => dropped := dropped + [DroppedFlavor(mime, reason)];
          case Reading(_) =>
        }
      }
      assert slots[..|slots|] == slots;
      selection := Selection(kind, advertised, flavors, dropped);
    }
  }

  /** Nothing asked for goes missing from a finished selection: each slot is reported once, as a
      flavor or as a loss. */
  lemma {:induction false} EverySlotIsReported(slots: seq<Slot>)
    ensures |Captured(slots)| + |Lost(slots)| + CountReading(slots) == |slots|
  {
    if slots != [] {
      var n := |slots| - 1;
      EverySlotIsReported(slots[..n]);
      CountReadingAppended(slots[..n], slots[n]);
      assert slots == slots[..n] + [slots[n]];
    }
  }
}
