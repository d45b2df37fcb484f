/** The watcher reading clippo's own offer: every wanted type through a pipe of its own, from the paste
    that writes it to the slot that takes it. */
module Loopback {
  import opened Strings
  import opened Mime
  import opened Entries
  import opened Flavors
  import opened Delivery
  import opened Offer
  import opened Advertised
  import opened Echo

  /** What one paste runs into: its pipe, whose turn it is when, and when it is given up. */
  datatype Link = Link(capacity: nat, interruptions: nat, sound: bool, turns: seq<bool>, patience: nat)

  /** A blob of this size gets through: nothing fails, the paste is not given up, it has a round for
      each pipeful, and the reader comes last. */
  predicate Carries(link: Link, size: nat) {
    && link.sound && |link.turns| <= link.patience
    && link.turns != [] && !link.turns[|link.turns| - 1]
    && Rounds(link.turns) >= 1 && size <= Rounds(link.turns) * link.capacity
  }

  /** What the watcher asks of an entry that clippo offers. */
  function Asked(stored: seq<Flavor>): seq<string> {
    Wanted(Mimes(Offered(Filter(stored, MayBeOffered))))
  }

  /** The blob that answers it. */
  function Answering(stored: seq<Flavor>, mime: string): Option<Bytes> {
    BlobFor(Offered(Filter(stored, MayBeOffered)), mime)
  }

  /** Every paste gets through. */
  ghost predicate AllCarried(stored: seq<Flavor>, links: nat -> Link) {
    forall i: nat | i < |Asked(stored)| ::
      Answering(stored, Asked(stored)[i]).Some? ==> Carries(links(i), |Answering(stored, Asked(stored)[i]).value|)
  }

  /** A slot that was read off one paste: a prefix of the blob at most, and if it was carried the blob. */
  ghost predicate ReadOff(slot: Slot, link: Link, mime: string, cap: nat, blob: Bytes) {
    && (slot.Done? ==> slot.flavor.mime == mime && slot.flavor.data <= blob)
    && (Carries(link, |blob|) ==> slot == Delivered(mime, cap, blob))
  }

  /** The types of an offer are answered, all of them. */
  lemma {:induction false} AskedIsAnswered(stored: seq<Flavor>, mime: string)
    requires mime in Asked(stored)
    ensures Answering(stored, mime).Some?
  {
    var offered := Offered(Filter(stored, MayBeOffered));
    WantedIsAmong(Mimes(offered), mime);
    var k :| 0 <= k < |offered| && offered[k].mime == mime;
    NoTypeTwice(Filter(Filter(stored, MayBeOffered), HasMimeType));
    BlobForItsOwnType(offered, k);
  }

  lemma {:induction false} WantedIsAmong(advertised: seq<string>, mime: string)
    requires mime in Wanted(advertised)
    ensures mime in advertised
  {
    var init, last := advertised[..|advertised| - 1], advertised[|advertised| - 1];
    assert advertised == init + [last];
    if mime in Wanted(init) {
      WantedIsAmong(init, mime);
    }
  }

  /** What slots that hold the blobs capture is what the round trip says. */
  lemma {:induction false} DeliveredIsReadBack(offered: seq<Flavor>, wanted: seq<string>, cap: nat, slots: seq<Slot>)
    requires |slots| == |wanted|
    requires forall i | 0 <= i < |wanted| ::
               && BlobFor(offered, wanted[i]).Some?
               && slots[i] == Delivered(wanted[i], cap, BlobFor(offered, wanted[i]).value)
    ensures Flavors.Captured(slots) == ReadBack(offered, wanted, cap)
  {
    hide BlobFor;
    if wanted != [] {
      var n := |wanted| - 1;
      DeliveredIsReadBack(offered, wanted[..n], cap, slots[..n]);
    }
  }

  lemma {:induction false} CarriedIsRecaptured(stored: seq<Flavor>, cap: nat, links: nat -> Link, slots: seq<Slot>)
    requires AllCarried(stored, links) && |slots| == |Asked(stored)|
    requires forall i: nat | i < |slots| ::
               && Answering(stored, Asked(stored)[i]).Some?
               && ReadOff(slots[i], links(i), Asked(stored)[i], cap, Answering(stored, Asked(stored)[i]).value)
    ensures Flavors.Captured(slots) == Recaptured(stored, cap)
  {
    hide BlobFor;
    hide Offered;
    hide Recorded;
    hide Wanted;
    hide Carries;
    hide Delivered;
    hide MayBeOffered;
    var offered := Offered(Filter(stored, MayBeOffered));
    BoundedListLosesNothing(Mimes(offered));
    DeliveredIsReadBack(offered, Asked(stored), cap, slots);
  }

  /** An entry is offered, what its offer advertises is recorded, what is interesting of that is asked
      for, and each answer goes through its pipe. Whatever happens on the way no slot holds anything but
      a prefix of its blob; and if every paste gets through, what is captured is the recapture. */
  method ReadBackOwn(stored: seq<Flavor>, cap: nat, links: nat -> Link) returns (slots: seq<Slot>)
    ensures |slots| == |Asked(stored)|
    ensures forall i: nat | i < |slots| ::
              && Answering(stored, Asked(stored)[i]).Some?
              && ReadOff(slots[i], links(i), Asked(stored)[i], cap, Answering(stored, Asked(stored)[i]).value)
    ensures AllCarried(stored, links) ==> Flavors.Captured(slots) == Recaptured(stored, cap)
  {
    hide IsInteresting;
    hide MayBeOffered;
    hide Wanted;
    hide Carries;
    hide ReadOff;
    hide BlobFor;
    hide Offered;
    hide Recorded;
    var offered := OfferedFlavors(Filter(stored, MayBeOffered));
    var recorded := new AdvertisedMimes();
    for i := 0 to |offered|
      invariant fresh(recorded) && recorded.Valid() && recorded.arrived == Mimes(offered)[..i]
    {
      assert Mimes(offered)[..i + 1] == Mimes(offered)[..i] + [offered[i].mime];
      recorded.Push(offered[i].mime);
    }
    assert Mimes(offered)[..|offered|] == Mimes(offered);
    BoundedListLosesNothing(Mimes(offered));
    var wanted, _ := InterestingFlavors(recorded.mimes);
    slots := [];
    for i := 0 to |wanted|
      invariant |slots| == i
      invariant forall k: nat | k < i ::
                  && Answering(stored, wanted[k]).Some?
                  && ReadOff(slots[k], links(k), wanted[k], cap, Answering(stored, wanted[k]).value)
    {
      AskedIsAnswered(stored, wanted[i]);
      var slot := ReadOffPipe(links(i), wanted[i], cap, BlobFor(offered, wanted[i]).value);
      slots := slots + [slot];
    }
    if AllCarried(stored, links) {
      CarriedIsRecaptured(stored, cap, links, slots);
    }
  }

  method ReadOffPipe(link: Link, mime: string, cap: nat, blob: Bytes) returns (slot: Slot)
    ensures ReadOff(slot, link, mime, cap, blob)
  {
    hide Rounds;
    var progress, received, inPipe, written;
    slot, progress, received, inPipe, written := Deliver(
      blob, mime, cap, link.capacity, link.interruptions, link.sound, link.turns, link.patience);
  }
}
