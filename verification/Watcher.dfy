/** The watcher: one event loop that captures selections, owns at most one itself, and answers the
    pastes of what it owns. */
module Watcher {
  import opened Strings
  import opened Entries
  import opened Flavors
  import opened Pipes
  import opened Delivery
  import opened Advertised
  import opened Offer
  import opened CopyBack
  import opened EventLoops
  import opened Protocol

  datatype Config = Config(primary: bool, maxFlavorBytes: nat, maxPendingPastes: nat)

  /** The selection being read, and what it has in the loop. */
  datatype Pending = Pending(
    selection: PendingSelection, offer: OfferId, readTokens: map<nat, Token>, timeoutToken: Option<Token>)

  /** The source in use and the flavors it answers with. */
  datatype OwnedOffer = OwnedOffer(source: SourceId, flavors: seq<Flavor>)

  /** A parked paste: its cursor, its pipe and its registrations. */
  datatype PendingWrite = PendingWrite(
    mime: string, writer: BlobWriter, pipe: Pipe, token: Token, timeout: Option<Token>)

  /** What became of a selection whose reads were started. */
  datatype Fate = Captured(selection: Selection) | Abandoned

  /** How a request for one of clippo's flavors ends, as far as the request itself goes. */
  datatype Paste = Refused | Unprepared | Sent | BrokenOff | Unplaced | Waiting

  /** A paste that is over: whose offer it was asked of, for which type, and what went into its pipe. */
  datatype Served = Served(origin: OwnedOffer, mime: string, entered: Bytes)

  datatype WatchEvent = SelectionCaptured(selection: Selection) | SelectionLost

  /** How starting one read went. */
  datatype Setup = Started | NoPipe(reason: string) | NotRegistered(reason: string)

  function SetupOf(setups: seq<Setup>, i: nat): Setup {
    if i < |setups| then setups[i] else Started
  }

  /** The slot a wanted type begins with: a read that cannot start is lost from the beginning. */
  function FirstSlot(mime: string, setup: Setup, cap: nat): Slot {
    match setup
    case Started => Reading(FlavorBuffer(mime, cap, []))
    case NoPipe(reason) => Dropped(mime, DropReason.Setup(reason))
    case NotRegistered(reason) => Dropped(mime, DropReason.Setup(reason))
  }

  function FirstSlots(wanted: seq<string>, setups: seq<Setup>, cap: nat): seq<Slot> {
    seq(|wanted|, i requires 0 <= i < |wanted| => FirstSlot(wanted[i], SetupOf(setups, i), cap))
  }

  /** The requests for the wanted types, one for each that got a pipe. */
  function Requests(offer: OfferId, wanted: seq<string>, setups: seq<Setup>): Trace {
    if wanted == [] then []
    else
      var n := |wanted| - 1;
      Requests(offer, wanted[..n], setups) + if SetupOf(setups, n).NoPipe? then [] else [Receive(offer, wanted[n])]
  }

  /** What giving up on a pending selection says: its offer is destroyed. */
  function Abandonment(pending: Option<Pending>): Trace {
    match pending case None => [] case Some(p) => [DestroyOffer(p.offer)]
  }

  /** Exactly these offers are destroyed, each once, and nothing else is said. */
  ghost predicate Destroys(said: Trace, gone: set<OfferId>) {
    && |said| == |gone|
    && (forall m <- said :: m.DestroyOffer? && m.offer in gone)
    && (forall o <- gone :: DestroyOffer(o) in said)
  }

  /** The selection that its first slots already make, no read having started. */
  function AllAtOnce(kind: SelectionKind, advertised: seq<string>, slots: seq<Slot>): Selection {
    Selection(kind, advertised, Flavors.Captured(slots), Lost(slots))
  }

  // ---- The loop's registrations against the watcher's tables ----

  ghost predicate TableMatches(
    live: map<Token, Registration>, generation: nat, tokens: map<nat, Token>, timeout: Option<Token>)
  {
    && (forall s <- tokens.Keys :: tokens[s] in live && live[tokens[s]] == ReadSource(generation, s))
    && (timeout.Some? ==> timeout.value in live && live[timeout.value] == ReadTimer(generation))
    && (forall t <- live.Keys | live[t].ReadSource? ::
          live[t].generation == generation && live[t].slot in tokens && tokens[live[t].slot] == t)
    && (forall t <- live.Keys | live[t].ReadTimer? :: live[t].generation == generation && timeout == Some(t))
  }

  /** The reads in the loop are exactly those of the pending selection. */
  ghost predicate ReadsMatch(live: map<Token, Registration>, pending: Option<Pending>) {
    match pending
    case None => TableMatches(live, 0, map[], None)
    case Some(p) => TableMatches(live, p.selection.generation, p.readTokens, p.timeoutToken)
  }

  /** The writes in the loop are exactly the parked pastes. */
  ghost predicate WritesMatch(live: map<Token, Registration>, writes: map<nat, PendingWrite>) {
    && (forall id <- writes.Keys ::
          && writes[id].token in live && live[writes[id].token] == WriteSource(id)
          && (writes[id].timeout.Some? ==>
                writes[id].timeout.value in live && live[writes[id].timeout.value] == WriteTimer(id)))
    && (forall t <- live.Keys | live[t].WriteSource? :: live[t].id in writes && writes[live[t].id].token == t)
    && (forall t <- live.Keys | live[t].WriteTimer? :: live[t].id in writes && writes[live[t].id].timeout == Some(t))
  }

  // ---- The pending selection ----

  ghost predicate SlotsAgree(slots: seq<Slot>, tokens: map<nat, Token>) {
    forall i: nat {:trigger i in tokens} :: i in tokens <==> i < |slots| && slots[i].Reading?
  }

  ghost predicate SlotsFit(slots: seq<Slot>, cap: nat) {
    forall s <- slots :: (s.Reading? ==> s.buffer.cap == cap) && (s.Done? ==> |s.flavor.data| <= cap)
  }

  /** The slots are those of the wanted types, and the tokens are exactly those still reading. */
  ghost predicate PendingFits(pending: Option<Pending>, cap: nat)
    reads if pending.Some? then {pending.value.selection} else {}
  {
    pending.Some? ==>
      var s := pending.value.selection;
      && s.Valid() && SlotsAgree(s.slots, pending.value.readTokens) && SlotsFit(s.slots, cap)
      && MimesOf(s.slots) == Wanted(s.advertised)
  }

  /** Every started generation but the pending one has met one fate. */
  ghost predicate FatesFit(fates: map<nat, Fate>, generation: nat, pending: Option<Pending>) {
    && (pending.Some? ==> pending.value.selection.generation == generation >= 1)
    && forall g: nat {:trigger g in fates} ::
         g in fates <==> 1 <= g <= generation && !(pending.Some? && g == generation)
  }

  /** The captured generations, once each, in order. */
  ghost predicate PublishedFits(published: seq<nat>, fates: map<nat, Fate>) {
    && (forall i, j | 0 <= i < j < |published| :: published[i] < published[j])
    && forall g: nat {:trigger g in published} :: g in published <==> g in fates && fates[g].Captured?
  }

  /** The selections handed to the daemon, in order. */
  function CapturesOf(events: seq<WatchEvent>): seq<Selection> {
    if events == [] then []
    else
      CapturesOf(events[..|events| - 1]) +
      match events[|events| - 1] case SelectionCaptured(selection) => [selection] case SelectionLost => []
  }

  /** `few` is `all` with some of it left out. */
  ghost predicate IsSubsequence<T>(few: seq<T>, all: seq<T>) {
    if few == [] then true
    else if all == [] then false
    else
      var rest := all[..|all| - 1];
      || IsSubsequence(few, rest)
      || (few[|few| - 1] == all[|all| - 1] && IsSubsequence(few[..|few| - 1], rest))
  }

  lemma {:induction false} SubsequenceGrows<T>(few: seq<T>, all: seq<T>, more: T)
    requires IsSubsequence(few, all)
    ensures IsSubsequence(few, all + [more]) && IsSubsequence(few + [more], all + [more])
  {
    assert (all + [more])[..|all|] == all;
    assert (few + [more])[..|few|] == few;
  }

  /** Losing events on the way loses selections, and changes none. */
  lemma {:induction false} DeliveredCaptures(delivered: seq<WatchEvent>, emitted: seq<WatchEvent>)
    requires IsSubsequence(delivered, emitted)
    ensures IsSubsequence(CapturesOf(delivered), CapturesOf(emitted))
  {
    if delivered != [] && emitted != [] {
      var rest, last := emitted[..|emitted| - 1], emitted[|emitted| - 1];
      assert last.SelectionLost? ==> CapturesOf(emitted) == CapturesOf(rest);
      if IsSubsequence(delivered, rest) {
        DeliveredCaptures(delivered, rest);
        if last.SelectionCaptured? {
          SubsequenceGrows(CapturesOf(delivered), CapturesOf(rest), last.selection);
        }
      } else {
        var fewer := delivered[..|delivered| - 1];
        assert last.SelectionLost? ==> CapturesOf(delivered) == CapturesOf(fewer);
        DeliveredCaptures(fewer, rest);
        if last.SelectionCaptured? {
          SubsequenceGrows(CapturesOf(fewer), CapturesOf(rest), last.selection);
        }
      }
    }
  }

  lemma {:induction false} SubsequenceElements<T>(few: seq<T>, all: seq<T>)
    requires IsSubsequence(few, all)
    ensures forall x <- few :: x in all
  {
    if few != [] && all != [] {
      var rest := all[..|all| - 1];
      if IsSubsequence(few, rest) {
        SubsequenceElements(few, rest);
      } else {
        SubsequenceElements(few[..|few| - 1], rest);
        assert few == few[..|few| - 1] + [few[|few| - 1]];
      }
    }
  }

  lemma {:induction false} DeliveredIsWatched(delivered: seq<WatchEvent>, emitted: seq<WatchEvent>, cap: nat)
    requires IsSubsequence(delivered, emitted) && AllWatched(emitted, cap)
    ensures AllWatched(delivered, cap) && IsSubsequence(CapturesOf(delivered), CapturesOf(emitted))
  {
    hide IsWatched;
    DeliveredCaptures(delivered, emitted);
    SubsequenceElements(CapturesOf(delivered), CapturesOf(emitted));
    forall i | 0 <= i < |CapturesOf(delivered)| ensures IsWatched(CapturesOf(delivered)[i].flavors, cap) {
      assert CapturesOf(delivered)[i] in CapturesOf(emitted);
    }
  }

  /** Every selection among the events is one the watcher is meant to read. */
  ghost predicate AllWatched(emitted: seq<WatchEvent>, cap: nat) {
    forall i | 0 <= i < |CapturesOf(emitted)| :: IsWatched(CapturesOf(emitted)[i].flavors, cap)
  }

  /** What was handed to the daemon is what was captured, one event for each captured generation. */
  ghost predicate EmittedFits(emitted: seq<WatchEvent>, published: seq<nat>, fates: map<nat, Fate>) {
    && |CapturesOf(emitted)| == |published|
    && forall i | 0 <= i < |published| ::
         published[i] in fates && fates[published[i]] == Fate.Captured(CapturesOf(emitted)[i])
  }

  /** A fate, once met, is final; what was published stays published. */
  ghost predicate Grew(fates: map<nat, Fate>, more: map<nat, Fate>, published: seq<nat>, longer: seq<nat>) {
    published <= longer && forall g <- fates.Keys :: g in more && more[g] == fates[g]
  }

  lemma {:induction false} NothingGrew(fates: map<nat, Fate>, published: seq<nat>)
    ensures Grew(fates, fates, published, published)
  {
  }

  /** Neither the pending generation nor a later one has met its fate. */
  lemma {:induction false} LaterGenerations(fates: map<nat, Fate>, generation: nat, pending: Option<Pending>)
    requires FatesFit(fates, generation, pending)
    ensures generation + 1 !in fates && (pending.Some? ==> generation !in fates)
  {
  }

  // ---- Parked pastes ----

  /** Ids in the order they started, and exactly the parked ones. */
  ghost predicate QueueFits(order: seq<nat>, writes: map<nat, PendingWrite>, next: nat) {
    && (forall i, j | 0 <= i < j < |order| :: order[i] < order[j])
    && (forall id: nat {:trigger id in order} :: id in order <==> id in writes)
    && (forall id <- writes.Keys :: id < next)
  }

  /** A parked paste has put into its pipe exactly what its cursor says, and writes the blob of the
      offer that owned the clipboard when it was asked. */
  ghost predicate PasteFits(write: PendingWrite, origin: OwnedOffer)
    reads write.writer, write.pipe
  {
    && write.writer.Valid() && write.pipe.Valid()
    && write.pipe.entered == write.writer.data[..write.writer.written]
    && BlobFor(origin.flavors, write.mime) == Some(write.writer.data)
  }

  ghost predicate ParkedFits(writes: map<nat, PendingWrite>, origins: map<nat, OwnedOffer>)
    reads set id | id in writes :: writes[id].writer
    reads set id | id in writes :: writes[id].pipe
  {
    forall id <- writes.Keys :: id in origins && PasteFits(writes[id], origins[id])
  }

  /** No two parked pastes share a cursor or a pipe. */
  ghost predicate Separate(writes: map<nat, PendingWrite>) {
    forall a, b | a in writes && b in writes && a != b ::
      writes[a].writer != writes[b].writer && writes[a].pipe != writes[b].pipe
  }

  // ---- Whose bytes a paste gets ----

  /** What a happening puts on the clipboard for clippo. */
  function Puts(happening: Happening, source: SourceId): seq<OwnedOffer> {
    if happening.Copies? && Offered(happening.flavors) != [] then [OwnedOffer(source, Offered(happening.flavors))]
    else []
  }

  /** Everything clippo put on the clipboard, each under the source that came to own it. */
  function OwnedAfter(happenings: seq<Happening>): seq<OwnedOffer> {
    if happenings == [] then []
    else
      var before := OwnedAfter(happenings[..|happenings| - 1]);
      before + Puts(happenings[|happenings| - 1], |before|)
  }

  /** The type was asked of the source. */
  ghost predicate Requested(source: SourceId, mime: string, happenings: seq<Happening>) {
    exists h <- happenings :: h.Sends? && h.source == source && h.mime == mime
  }

  /** A paste that is over got a prefix of the blob its offer has for the type, and nothing else. */
  ghost predicate WasAnswered(r: Served, owned: seq<OwnedOffer>) {
    && r.origin in owned && BlobFor(r.origin.flavors, r.mime).Some?
    && r.entered <= BlobFor(r.origin.flavors, r.mime).value
  }

  /** Every source has one offer, and every paste, parked or over, belongs to one of them. */
  ghost predicate Attributed(
    owned: seq<OwnedOffer>, next: SourceId, offered: Option<OwnedOffer>, writes: map<nat, PendingWrite>,
    origins: map<nat, OwnedOffer>, served: seq<Served>)
  {
    && |owned| == next && (forall s | 0 <= s < |owned| :: owned[s].source == s)
    && (offered.Some? ==> offered.value in owned)
    && (forall id <- writes.Keys :: id in origins && origins[id] in owned)
    && (forall r <- served :: WasAnswered(r, owned))
  }

  /** A parked paste was parked before, with the same origin, or was asked just now of the offer that
      owns the clipboard. */
  ghost predicate PastesKept(
    happening: Happening, offered: Option<OwnedOffer>, writes: map<nat, PendingWrite>,
    origins: map<nat, OwnedOffer>, after: map<nat, PendingWrite>, originsAfter: map<nat, OwnedOffer>)
  {
    forall id <- after.Keys ::
      && id in originsAfter
      && (|| (id in writes && id in origins && after[id] == writes[id] && originsAfter[id] == origins[id])
          || (id !in writes && Asks(happening, offered, originsAfter[id], after[id].mime)))
  }

  /** This happening is a request for that type, of the offer that owns the clipboard. */
  ghost predicate Asks(happening: Happening, offered: Option<OwnedOffer>, origin: OwnedOffer, mime: string) {
    && happening.Sends? && offered == Some(origin)
    && happening.source == origin.source && happening.mime == mime
  }

  /** A paste that has just ended was parked until now, or was asked just now. */
  ghost predicate JustEnded(
    happening: Happening, offered: Option<OwnedOffer>, writes: map<nat, PendingWrite>,
    origins: map<nat, OwnedOffer>, after: map<nat, PendingWrite>, r: Served)
  {
    || Asks(happening, offered, r.origin, r.mime)
    || (exists id <- writes.Keys ::
          id in origins && id !in after && r.origin == origins[id] && r.mime == writes[id].mime)
  }

  /** Every paste that has left the tables is on record, with what went into its pipe. */
  ghost predicate LeaversRecorded(
    writes: map<nat, PendingWrite>, origins: map<nat, OwnedOffer>, after: map<nat, PendingWrite>, served: seq<Served>)
    reads set id | id in writes :: writes[id].pipe
  {
    forall id <- writes.Keys | id !in after ::
      id in origins && Served(origins[id], writes[id].mime, writes[id].pipe.entered) in served
  }

  /** The record of the paste that made room for another, if one did. */
  ghost function MadeRoom(
    order: seq<nat>, writes: map<nat, PendingWrite>, origins: map<nat, OwnedOffer>, after: map<nat, PendingWrite>):
    seq<Served>
    requires order != [] ==> order[0] in writes && order[0] in origins
    reads set id | id in writes :: writes[id].pipe
  {
    if order == [] || order[0] in after then []
    else [Served(origins[order[0]], writes[order[0]].mime, writes[order[0]].pipe.entered)]
  }

  /** Every paste, parked or over, is one that was asked for. */
  ghost predicate AllRequested(
    writes: map<nat, PendingWrite>, origins: map<nat, OwnedOffer>, served: seq<Served>, happenings: seq<Happening>)
  {
    && (forall id <- writes.Keys :: id in origins && Requested(origins[id].source, writes[id].mime, happenings))
    && (forall r <- served :: Requested(r.origin.source, r.mime, happenings))
  }

  lemma {:induction false} RequestsGrow(happenings: seq<Happening>, happening: Happening)
    ensures forall source: SourceId, mime: string ::
              Requested(source, mime, happenings) ==> Requested(source, mime, happenings + [happening])
    ensures happening.Sends? ==> Requested(happening.source, happening.mime, happenings + [happening])
  {
    var all := happenings + [happening];
    assert all[|happenings|] == happening;
    assert forall h <- happenings :: h in all;
  }

  lemma {:induction false} StillRequested(
    happenings: seq<Happening>, happening: Happening, offered: Option<OwnedOffer>, writes: map<nat, PendingWrite>,
    origins: map<nat, OwnedOffer>, served: seq<Served>, after: map<nat, PendingWrite>,
    originsAfter: map<nat, OwnedOffer>, more: seq<Served>)
    requires AllRequested(writes, origins, served, happenings)
    requires PastesKept(happening, offered, writes, origins, after, originsAfter)
    requires forall r <- more :: JustEnded(happening, offered, writes, origins, after, r)
    ensures AllRequested(after, originsAfter, served + more, happenings + [happening])
  {
    hide Requested;
    RequestsGrow(happenings, happening);
  }

  lemma {:induction false} OwnedOfOneMore(happenings: seq<Happening>, happening: Happening)
    ensures OwnedAfter(happenings + [happening]) ==
            OwnedAfter(happenings) + Puts(happening, |OwnedAfter(happenings)|)
  {
    assert (happenings + [happening])[..|happenings|] == happenings;
  }

  // ---- Tracked offers ----

  ghost predicate OffersFit(offers: map<OfferId, AdvertisedMimes>)
    reads set o | o in offers :: offers[o]
  {
    forall o <- offers.Keys :: offers[o].Valid()
  }

  /** No two offers share a list. */
  ghost predicate OffersSeparate(offers: map<OfferId, AdvertisedMimes>) {
    forall a, b | a in offers && b in offers && a != b :: offers[a] != offers[b]
  }

  lemma {:induction false} AddingAnOffer(offers: map<OfferId, AdvertisedMimes>, offer: OfferId, mimes: AdvertisedMimes)
    requires OffersSeparate(offers) && forall o <- offers.Keys :: offers[o] != mimes
    ensures OffersSeparate(offers[offer := mimes])
  {
  }

  function OfferOf(pending: Option<Pending>): Option<OfferId> {
    match pending case None => None case Some(p) => Some(p.offer)
  }

  function SourceOf(offered: Option<OwnedOffer>): Option<SourceId> {
    match offered case None => None case Some(o) => Some(o.source)
  }

  /** Pastes come and go, and stay attributed. */
  lemma {:induction false} StillAttributed(
    happening: Happening, owned: seq<OwnedOffer>, next: SourceId, offered: Option<OwnedOffer>,
    writes: map<nat, PendingWrite>, origins: map<nat, OwnedOffer>, served: seq<Served>,
    after: map<nat, PendingWrite>, originsAfter: map<nat, OwnedOffer>, more: seq<Served>)
    requires Attributed(owned, next, offered, writes, origins, served)
    requires PastesKept(happening, offered, writes, origins, after, originsAfter)
    requires forall r <- more :: WasAnswered(r, owned)
    ensures Attributed(owned, next, offered, after, originsAfter, served + more)
  {
    hide WasAnswered;
  }

  lemma {:induction false} NothingPassed(
    happening: Happening, offered: Option<OwnedOffer>, writes: map<nat, PendingWrite>, origins: map<nat, OwnedOffer>)
    requires forall id <- writes.Keys :: id in origins
    ensures PastesKept(happening, offered, writes, origins, writes, origins)
  {
  }

  lemma {:induction false} NobodyLeft(
    writes: map<nat, PendingWrite>, origins: map<nat, OwnedOffer>, served: seq<Served>)
    ensures LeaversRecorded(writes, origins, writes, served)
  {
  }

  lemma {:induction false} PasteWasAnswered(write: PendingWrite, origin: OwnedOffer, owned: seq<OwnedOffer>)
    requires PasteFits(write, origin) && origin in owned
    ensures WasAnswered(Served(origin, write.mime, write.pipe.entered), owned)
  {
    hide BlobFor;
  }

  /** What a request leaves behind: the pastes that are now over, with what went into their pipes. */
  lemma {:induction false} AfterARequest(
    happening: Happening, outcome: Paste, blob: Bytes, pipe: Pipe, origin: OwnedOffer, owned: seq<OwnedOffer>,
    order: seq<nat>, next: nat, writes: map<nat, PendingWrite>, origins: map<nat, OwnedOffer>,
    after: map<nat, PendingWrite>, originsAfter: map<nat, OwnedOffer>, served: seq<Served>, ended: seq<Served>)
    requires happening.Sends? && happening.source == origin.source
    requires forall id <- writes.Keys :: id in origins && origins[id] in owned && PasteFits(writes[id], origins[id])
    requires origin in owned && BlobFor(origin.flavors, happening.mime) == Some(blob) && pipe.entered <= blob
    requires order != [] ==> order[0] in writes
    requires forall id <- after.Keys ::
               || (id in writes && after[id] == writes[id])
               || (outcome.Waiting? && id == next && id !in writes && after[id].mime == happening.mime)
    requires forall id <- writes.Keys | id !in after :: order != [] && id == order[0]
    requires next !in writes && originsAfter == if outcome.Waiting? then origins[next := origin] else origins
    requires ended == MadeRoom(order, writes, origins, after) +
                        if outcome.Waiting? then [] else [Served(origin, happening.mime, pipe.entered)]
    ensures PastesKept(happening, Some(origin), writes, origins, after, originsAfter)
    ensures forall r <- ended ::
              WasAnswered(r, owned) && JustEnded(happening, Some(origin), writes, origins, after, r)
    ensures LeaversRecorded(writes, origins, after, served + ended)
  {
    hide BlobFor;
    hide PasteFits;
    if order != [] && order[0] !in after {
      var oldest := order[0];
      PasteWasAnswered(writes[oldest], origins[oldest], owned);
      assert ended[0] == Served(origins[oldest], writes[oldest].mime, writes[oldest].pipe.entered);
      assert ended[0] in served + ended;
    }
  }

  /** One paste at most has left, and it is the one that is on record. */
  lemma {:induction false} LeavingPasses(
    happening: Happening, offered: Option<OwnedOffer>, writes: map<nat, PendingWrite>, origins: map<nat, OwnedOffer>,
    id: nat, served: seq<Served>, after: map<nat, PendingWrite>, ended: seq<Served>)
    requires id in writes && forall other <- writes.Keys :: other in origins
    requires after == writes || after == Fewer(writes, id)
    requires ended == if id in after then [] else [Served(origins[id], writes[id].mime, writes[id].pipe.entered)]
    ensures PastesKept(happening, offered, writes, origins, after, origins)
    ensures forall r <- ended :: JustEnded(happening, offered, writes, origins, after, r)
    ensures LeaversRecorded(writes, origins, after, served + ended)
  {
    if id !in after {
      assert ended[0] in served + ended;
    }
  }

  lemma {:induction false} OldestIsParked(order: seq<nat>, writes: map<nat, PendingWrite>, next: nat)
    requires QueueFits(order, writes, next) && order != []
    ensures order[0] in writes
  {
    assert order[0] in order;
  }

  lemma {:induction false} NothingOwned(
    owned: seq<OwnedOffer>, next: SourceId, offered: Option<OwnedOffer>, writes: map<nat, PendingWrite>,
    origins: map<nat, OwnedOffer>, served: seq<Served>)
    requires Attributed(owned, next, offered, writes, origins, served)
    ensures Attributed(owned, next, None, writes, origins, served)
  {
    hide WasAnswered;
  }

  /** Owning one thing more changes nothing for the pastes there are. */
  lemma {:induction false} OwnedGrows(
    owned: seq<OwnedOffer>, more: seq<OwnedOffer>, next: SourceId, offered: Option<OwnedOffer>,
    writes: map<nat, PendingWrite>, origins: map<nat, OwnedOffer>, served: seq<Served>)
    requires Attributed(owned, next, offered, writes, origins, served)
    requires more == [] || (|more| == 1 && more[0].source == next)
    ensures Attributed(owned + more, next + |more|, if more == [] then offered else Some(more[0]), writes, origins,
                       served)
  {
    hide BlobFor;
    var all := owned + more;
    assert forall o <- owned :: o in all;
    assert more != [] ==> all[|owned|] == more[0];
  }

  // ---- Removing registrations ----

  lemma {:induction false} RemovingARead(
    live: map<Token, Registration>, generation: nat, tokens: map<nat, Token>, timeout: Option<Token>,
    writes: map<nat, PendingWrite>, slot: nat)
    requires TableMatches(live, generation, tokens, timeout) && WritesMatch(live, writes) && slot in tokens
    ensures TableMatches(live - {tokens[slot]}, generation, tokens - {slot}, timeout)
    ensures WritesMatch(live - {tokens[slot]}, writes)
  {
  }

  lemma {:induction false} RemovingTheReadTimer(
    live: map<Token, Registration>, generation: nat, tokens: map<nat, Token>, timeout: Token, writes: map<nat,
    PendingWrite>)
    requires TableMatches(live, generation, tokens, Some(timeout)) && WritesMatch(live, writes)
    ensures TableMatches(live - {timeout}, generation, tokens, None) && WritesMatch(live - {timeout}, writes)
  {
  }

  lemma {:induction false} NoReadsAnyGeneration(live: map<Token, Registration>, a: nat, b: nat)
    requires TableMatches(live, a, map[], None)
    ensures TableMatches(live, b, map[], None)
  {
  }

  /** A paste leaves the tables with both of its registrations. */
  lemma {:induction false} RemovingAWrite(
    live: map<Token, Registration>, pending: Option<Pending>, writes: map<nat, PendingWrite>, id: nat)
    requires ReadsMatch(live, pending) && WritesMatch(live, writes) && id in writes
    ensures var fewer := Unregistered(live, writes[id]);
            ReadsMatch(fewer, pending) && WritesMatch(fewer, Fewer(writes, id))
  {
  }

  lemma {:induction false} AddingAWrite(
    live: map<Token, Registration>, pending: Option<Pending>, writes: map<nat, PendingWrite>, id: nat,
    write: PendingWrite)
    requires ReadsMatch(live, pending) && WritesMatch(live, writes) && id !in writes
    requires write.token !in live && write.timeout.None?
    ensures ReadsMatch(live[write.token := WriteSource(id)], pending)
    ensures WritesMatch(live[write.token := WriteSource(id)], writes[id := write])
  {
  }

  lemma {:induction false} AddingAWriteTimer(
    live: map<Token, Registration>, pending: Option<Pending>, writes: map<nat, PendingWrite>, id: nat, token: Token)
    requires ReadsMatch(live, pending) && WritesMatch(live, writes) && id in writes
    requires token !in live && writes[id].timeout.None?
    ensures ReadsMatch(live[token := WriteTimer(id)], pending)
    ensures WritesMatch(live[token := WriteTimer(id)], writes[id := writes[id].(timeout := Some(token))])
  {
  }

  lemma {:induction false} AddingARead(
    live: map<Token, Registration>, generation: nat, tokens: map<nat, Token>, writes: map<nat, PendingWrite>,
    slot: nat, token: Token)
    requires TableMatches(live, generation, tokens, None) && WritesMatch(live, writes)
    requires slot !in tokens && token !in live
    ensures TableMatches(live[token := ReadSource(generation, slot)], generation, tokens[slot := token], None)
    ensures WritesMatch(live[token := ReadSource(generation, slot)], writes)
  {
  }

  lemma {:induction false} AddingTheReadTimer(
    live: map<Token, Registration>, generation: nat, tokens: map<nat, Token>, writes: map<nat, PendingWrite>,
    token: Token)
    requires TableMatches(live, generation, tokens, None) && WritesMatch(live, writes) && token !in live
    ensures TableMatches(live[token := ReadTimer(generation)], generation, tokens, Some(token))
    ensures WritesMatch(live[token := ReadTimer(generation)], writes)
  {
  }

  // ---- What one message does to the books ----

  lemma {:induction false} BooksAfterSelecting(trace: Trace, tracked: set<OfferId>, offer: OfferId)
    requires LedgerShows(LedgerAfter(trace), tracked, None)
    ensures LedgerShows(LedgerAfter(trace + [OfferSelected(offer)]), tracked - {offer}, Some(offer))
    ensures offer in tracked && LedgerAfter(trace).Ledger? ==> LedgerAfter(trace + [OfferSelected(offer)]).Ledger?
  {
    hide LedgerAfter;
    hide SourcesAfter;
    OneMoreMessage(trace, OfferSelected(offer));
  }

  lemma {:induction false} BooksAfterIntroducing(
      trace: Trace, tracked: set<OfferId>, inUse: Option<OfferId>, offer: OfferId)
    requires LedgerShows(LedgerAfter(trace), tracked, inUse)
    ensures LedgerShows(LedgerAfter(trace + [OfferIntroduced(offer)]), tracked + {offer}, inUse)
  {
    hide LedgerAfter;
    hide SourcesAfter;
    OneMoreMessage(trace, OfferIntroduced(offer));
  }

  lemma {:induction false} BooksAfterRetiring(
      trace: Trace, tracked: set<OfferId>, inUse: Option<OfferId>, offer: OfferId)
    requires LedgerShows(LedgerAfter(trace), tracked, inUse) && offer in tracked
    ensures LedgerShows(LedgerAfter(trace + [DestroyOffer(offer)]), tracked - {offer}, inUse)
    ensures SourcesAfter(trace + [DestroyOffer(offer)]) == SourcesAfter(trace)
  {
    hide LedgerAfter;
    hide SourcesAfter;
    OneMoreMessage(trace, DestroyOffer(offer));
  }

  lemma {:induction false} BooksAfterFinishing(trace: Trace, tracked: set<OfferId>, offer: OfferId)
    requires LedgerShows(LedgerAfter(trace), tracked, Some(offer))
    ensures LedgerShows(LedgerAfter(trace + [DestroyOffer(offer)]), tracked, None)
    ensures SourcesAfter(trace + [DestroyOffer(offer)]) == SourcesAfter(trace)
  {
    hide LedgerAfter;
    hide SourcesAfter;
    OneMoreMessage(trace, DestroyOffer(offer));
    FinishingAnOffer(LedgerAfter(trace), tracked, offer);
  }

  lemma {:induction false} FinishingAnOffer(ledger: Ledger, tracked: set<OfferId>, offer: OfferId)
    requires LedgerShows(ledger, tracked, Some(offer))
    ensures LedgerShows(LedgerAfterMessage(ledger, DestroyOffer(offer)), tracked, None)
  {
    if ledger.Ledger? {
      assert offer in ledger.offers && ledger.offers[offer].InUse? && offer !in tracked;
      var after := LedgerAfterMessage(ledger, DestroyOffer(offer));
      forall o: OfferId
        ensures o in after.offers && after.offers[o].Tracked? <==> o in tracked
        ensures !(o in after.offers && after.offers[o].InUse?)
      {
        assert o in ledger.offers || o !in tracked;
      }
    }
  }

  lemma {:induction false} BooksAfterReceiving(trace: Trace, tracked: set<OfferId>, offer: OfferId, mime: string)
    requires LedgerShows(LedgerAfter(trace), tracked, Some(offer))
    ensures LedgerShows(LedgerAfter(trace + [Receive(offer, mime)]), tracked, Some(offer))
  {
    hide LedgerAfter;
    hide SourcesAfter;
    OneMoreMessage(trace, Receive(offer, mime));
  }

  class WatchState {
    const config: Config
    const handle: EventLoop
    var offers: map<OfferId, AdvertisedMimes>
    var pending: Option<Pending>
    var generation: nat
    var offered: Option<OwnedOffer>
    var nextSource: SourceId
    var writes: map<nat, PendingWrite>
    var writeOrder: seq<nat>
    var nextWrite: nat
    var stopped: bool
    var deviceAlive: bool
    /** What the daemon's channel took. */
    var delivered: seq<WatchEvent>
    /** What was sent into it, whether there was room or not. */
    ghost var emitted: seq<WatchEvent>
    ghost var trace: Trace
    ghost var fates: map<nat, Fate>
    ghost var published: seq<nat>
    ghost var origins: map<nat, OwnedOffer>
    /** What clippo put on the clipboard so far, and the pastes that are over. */
    ghost var owned: seq<OwnedOffer>
    ghost var served: seq<Served>
    /** The source that is running its callback and will be removed by what it returns. */
    ghost var detached: set<Token>

    ghost predicate LoopFits()
      reads this`pending, this`writes, this`detached, handle`live, handle`nextToken
    {
      && handle.Valid() && detached <= handle.live.Keys
      && ReadsMatch(handle.live - detached, pending) && WritesMatch(handle.live - detached, writes)
    }

    ghost predicate ReadingFits()
      reads this`pending, this`generation, this`fates, this`published, this`emitted, this`delivered
      reads if pending.Some? then {pending.value.selection} else {}
    {
      && PendingFits(pending, config.maxFlavorBytes)
      && FatesFit(fates, generation, pending) && PublishedFits(published, fates)
      && EmittedFits(emitted, published, fates) && AllWatched(emitted, config.maxFlavorBytes)
      && IsSubsequence(delivered, emitted)
    }

    ghost predicate PastesFit()
      reads this`writes, this`writeOrder, this`nextWrite, this`origins
      reads set id | id in writes :: writes[id].writer
      reads set id | id in writes :: writes[id].pipe
    {
      && QueueFits(writeOrder, writes, nextWrite) && ParkedFits(writes, origins) && Separate(writes)
      && |writes| <= if config.maxPendingPastes == 0 then 1 else config.maxPendingPastes
    }

    ghost predicate WireFits()
      reads this`trace, this`offers, this`pending, this`offered, this`nextSource, this`deviceAlive
    {
      && LedgerShows(LedgerAfter(trace), offers.Keys, OfferOf(pending))
      && SourcesShow(SourcesAfter(trace), SourceOf(offered), nextSource, deviceAlive)
    }

    ghost predicate Valid()
      reads this`offers, this`pending, this`generation, this`offered, this`nextSource, this`writes, this`writeOrder
      reads this`nextWrite, this`deviceAlive, this`emitted, this`delivered, this`trace, this`fates, this`published
      reads this`origins, this`detached, handle`live, handle`nextToken
      reads if pending.Some? then {pending.value.selection} else {}
      reads set id | id in writes :: writes[id].writer
      reads set id | id in writes :: writes[id].pipe
      reads set o | o in offers :: offers[o]
    {
      LoopFits() && ReadingFits() && PastesFit() && WireFits() && OffersFit(offers) && OffersSeparate(offers)
    }

    /** Every paste so far belongs to something clippo put on the clipboard. */
    ghost predicate Accounted()
      reads this`owned, this`nextSource, this`offered, this`writes, this`origins, this`served
    {
      Attributed(owned, nextSource, offered, writes, origins, served)
    }

    /** Nothing happened to the pastes or to what clippo owns. */
    twostate predicate PastesUntouched()
      reads this`owned, this`nextSource, this`offered, this`writes, this`origins, this`served
    {
      && owned == old(owned) && nextSource == old(nextSource) && offered == old(offered)
      && writes == old(writes) && origins == old(origins) && served == old(served)
    }

    /** What one happening does to the pastes: those that are parked now were, or were just asked for,
        and so were those that are now over. */
    twostate predicate PastesPass(happening: Happening)
      reads this`offered, this`writes, this`origins, this`served
    {
      && PastesKept(happening, old(offered), old(writes), old(origins), writes, origins)
      && old(served) <= served
      && forall r <- served[|old(served)|..] ::
           JustEnded(happening, old(offered), old(writes), old(origins), writes, r)
    }

    /** Between callbacks no source is running and no complete selection is left unpublished. */
    ghost predicate Quiet()
      reads this`detached, this`pending, handle`dispatching, if pending.Some? then {pending.value.selection} else {}
    {
      && handle.dispatching.None? && detached == {}
      && (pending.Some? ==> pending.value.selection.open > 0)
    }

    /** If a source is running, it is one that removes itself. */
    ghost predicate RunsDetached()
      reads this, handle
    {
      handle.dispatching.Some? ==> handle.dispatching.value in detached
    }

    /** Objects of different kinds are different objects. */
    lemma {:induction false} Elsewhere(o: object)
      ensures !(o is PendingSelection) ==> (pending.Some? ==> pending.value.selection as object != o)
      ensures !(o is BlobWriter) ==> forall id <- writes.Keys :: writes[id].writer as object != o
      ensures !(o is Pipe) ==> forall id <- writes.Keys :: writes[id].pipe as object != o
      ensures !(o is AdvertisedMimes) ==> forall id <- offers.Keys :: offers[id] as object != o
      ensures !(o is EventLoop) ==> handle as object != o
      ensures !(o is WatchState) ==> this as object != o
    {
    }

    constructor (config: Config)
      ensures Valid() && Quiet() && fresh(handle) && !stopped
      ensures Accounted() && owned == [] && served == [] && origins == map[]
      ensures this.config == config && generation == 0 && pending.None? && offered.None? && deviceAlive
      ensures offers == map[] && writes == map[] && trace == [] && fates == map[] && handle.selfRemovals == []
    {
      hide TableMatches;
      hide WritesMatch;
      hide LedgerShows;
      hide LedgerAfter;
      hide SourcesShow;
      hide SourcesAfter;
      hide FatesFit;
      hide PublishedFits;
      hide EmittedFits;
      hide AllWatched;
      hide QueueFits;
      hide ParkedFits;
      hide Separate;
      hide OffersFit;
      hide OffersSeparate;
      this.config := config;
      handle := new EventLoop();
      offers, pending, generation, offered, nextSource := map[], None, 0, None, 0;
      writes, writeOrder, nextWrite, stopped, deviceAlive := map[], [], 0, false, true;
      trace, fates, published, origins, detached := [], map[], [], map[], {};
      emitted, delivered, owned, served := [], [], [], [];
      new;
      AtFirst();
      NothingTracked(offers);
      assert handle.live - detached == map[];
    }

    /** Send one event without waiting. A full channel loses it, and a closed one stops the watcher. */
    method Emit(event: WatchEvent)
      requires IsSubsequence(delivered, emitted)
      modifies this`stopped, this`emitted, this`delivered
      ensures emitted == old(emitted) + [event]
      ensures delivered == old(delivered) || delivered == old(delivered) + [event]
      ensures IsSubsequence(delivered, emitted)
      ensures stopped != old(stopped) ==> stopped && delivered == old(delivered)
    {
      SubsequenceGrows(delivered, emitted, event);
      emitted := emitted + [event];
      if * {
        delivered := delivered + [event];
      } else if * {
        stopped := true;
      }
    }

    /** Remove the pending selection's reads and timer from the loop; a running source is not touched. */
    method ClearSources(p: Pending)
      requires handle.Valid() && detached <= handle.live.Keys && RunsDetached()
      requires ReadsMatch(handle.live - detached, Some(p)) && WritesMatch(handle.live - detached, writes)
      modifies handle`live, handle`selfRemovals
      ensures handle.Valid() && detached <= handle.live.Keys
      ensures ReadsMatch(handle.live - detached, None) && WritesMatch(handle.live - detached, writes)
      ensures handle.selfRemovals == old(handle.selfRemovals)
    {
      hide TableMatches;
      hide WritesMatch;
      var tokens := p.readTokens;
      while tokens != map[]
        invariant handle.Valid() && detached <= handle.live.Keys && RunsDetached()
        invariant TableMatches(handle.live - detached, p.selection.generation, tokens, p.timeoutToken)
        invariant WritesMatch(handle.live - detached, writes)
        invariant handle.selfRemovals == old(handle.selfRemovals)
        decreases tokens.Keys
      {
        assert exists s :: s in tokens by {
          assert (forall s :: s !in tokens) ==> tokens == map[];
        }
        var slot :| slot in tokens;
        RegisteredRead(handle.live - detached, p.selection.generation, tokens, p.timeoutToken, slot);
        RemovingARead(handle.live - detached, p.selection.generation, tokens, p.timeoutToken, writes, slot);
        assert (handle.live - {tokens[slot]}) - detached == (handle.live - detached) - {tokens[slot]};
        handle.Remove(tokens[slot]);
        assert (tokens - {slot}).Keys == tokens.Keys - {slot};
        tokens := tokens - {slot};
      }
      if p.timeoutToken.Some? {
        var token := p.timeoutToken.value;
        RegisteredTimer(handle.live - detached, p.selection.generation, tokens, token);
        RemovingTheReadTimer(handle.live - detached, p.selection.generation, tokens, token, writes);
        assert (handle.live - {token}) - detached == (handle.live - detached) - {token};
        handle.Remove(token);
      }
      NoReadsAnyGeneration(handle.live - detached, p.selection.generation, 0);
    }

    /** Take the pending selection, every flavor of which is in, and hand it to the daemon. */
    method HandOver()
      requires ReadingFits() && pending.Some? && pending.value.selection.open == 0
      modifies this`pending, this`fates, this`published, this`emitted, this`delivered, this`stopped
      ensures ReadingFits() && pending.None?
      ensures PublishedNow(old(pending), old(fates), old(published), old(emitted))
      ensures Grew(old(fates), fates, old(published), published)
    {
      hide FatesFit;
      hide PublishedFits;
      hide EmittedFits;
      hide AllWatched;
      hide IsSubsequence;
      hide IsWatched;
      hide Wanted;
      hide MimesOf;
      hide SlotsFit;
      hide SlotsAgree;
      hide Lost;
      hide Flavors.Captured;
      hide CountReading;
      PendingIsCurrent(fates, generation, pending);
      LaterGenerations(fates, generation, pending);
      var selection := pending.value.selection.IntoSelection();
      CapturedIsWatched(pending.value.selection, config.maxFlavorBytes);
      PublishingFits(published, fates, generation, pending, selection);
      EmittingACapture(emitted, published, fates, generation, selection, config.maxFlavorBytes);
      fates, published := fates[generation := Captured(selection)], published + [generation];
      pending := None;
      Emit(SelectionCaptured(selection));
    }

    /** If no slot is open, the offer is destroyed and the selection captured and sent to the daemon. */
    method EmitIfComplete()
      requires LoopFits() && ReadingFits() && WireFits() && RunsDetached()
      modifies this`pending, this`fates, this`published, this`emitted, this`delivered
      modifies this`trace, this`stopped
      modifies handle`live, handle`selfRemovals
      ensures LoopFits() && ReadingFits() && WireFits() && RunsDetached()
      ensures pending == old(pending) || pending.None?
      ensures pending.Some? ==> pending.value.selection.open > 0
      ensures Grew(old(fates), fates, old(published), published)
      ensures handle.selfRemovals == old(handle.selfRemovals)
      ensures old(pending).Some? && pending.None? ==>
                && old(pending.value.selection.open) == 0
                && PublishedNow(old(pending), old(fates), old(published), old(emitted))
      ensures pending == old(pending) ==>
                fates == old(fates) && published == old(published) && emitted == old(emitted) &&
                trace == old(trace) && handle.live == old(handle.live)
      ensures pending != old(pending) ==> trace == old(trace) + [DestroyOffer(old(pending).value.offer)]
      ensures SourcesAfter(trace) == SourcesAfter(old(trace))
    {
      hide TableMatches;
      hide WritesMatch;
      hide LedgerShows;
      hide SourcesShow;
      hide FatesFit;
      hide PublishedFits;
      hide EmittedFits;
      hide AllWatched;
      hide IsSubsequence;
      hide SlotsAgree;
      hide SlotsFit;
      hide MimesOf;
      hide Wanted;
      hide PublishedNow;
      hide LedgerAfter;
      hide SourcesAfter;
      hide CountReading;
      if pending.None? || !pending.value.selection.IsComplete() {
        return;
      }
      var p := pending.value;
      ClearSources(p);
      BooksAfterFinishing(trace, offers.Keys, p.offer);
      trace := trace + [DestroyOffer(p.offer)];
      Elsewhere(this);
      HandOver();
    }

    /** The pending selection has been handed over, whole: every slot is reported once, and what was
        read is what the watcher is meant to read. */
    ghost predicate PublishedNow(
      was: Option<Pending>, fatesBefore: map<nat, Fate>, publishedBefore: seq<nat>, emittedBefore: seq<WatchEvent>)
      requires was.Some?
      reads this, was.value.selection
    {
      var s := was.value.selection;
      var selection := Selection(s.kind, s.advertised, Flavors.Captured(s.slots), Lost(s.slots));
      && fates == fatesBefore[generation := Captured(selection)] && published == publishedBefore + [generation]
      && emitted == emittedBefore + [SelectionCaptured(selection)]
      && IsWatched(selection.flavors, config.maxFlavorBytes)
      && |selection.flavors| + |selection.dropped| == |Wanted(selection.advertised)|
    }

    /** The pending selection, if any, meets its fate uncaptured, and its offer is destroyed. */
    method AbandonPending()
      requires LoopFits() && ReadingFits() && WireFits() && RunsDetached()
      modifies this`pending, this`fates, this`trace, handle`live, handle`selfRemovals
      ensures LoopFits() && ReadingFits() && WireFits() && RunsDetached() && pending.None?
      ensures trace == old(trace) + Abandonment(old(pending))
      ensures fates == if old(pending).Some? then old(fates)[generation := Abandoned] else old(fates)
      ensures Grew(old(fates), fates, published, published)
      ensures handle.selfRemovals == old(handle.selfRemovals)
      ensures SourcesAfter(trace) == SourcesAfter(old(trace))
    {
      hide TableMatches;
      hide WritesMatch;
      hide LedgerShows;
      hide SourcesShow;
      hide FatesFit;
      hide PublishedFits;
      hide EmittedFits;
      hide AllWatched;
      hide IsSubsequence;
      hide IsWatched;
      hide Wanted;
      hide MimesOf;
      hide SlotsFit;
      hide SlotsAgree;
      hide LedgerAfter;
      hide SourcesAfter;
      hide Lost;
      hide Flavors.Captured;
      hide CountReading;
      PendingIsCurrent(fates, generation, pending);
      if pending.None? {
        return;
      }
      var p := pending.value;
      ClearSources(p);
      BooksAfterFinishing(trace, offers.Keys, p.offer);
      trace := trace + [DestroyOffer(p.offer)];
      LaterGenerations(fates, generation, pending);
      AbandoningFits(published, fates, generation, pending);
      EmittedStays(emitted, published, fates, generation);
      fates := fates[generation := Abandoned];
      pending := None;
    }

    /** An offer is tracked from the moment the compositor introduces it. */
    method OfferCreated(offer: OfferId)
      requires WireFits() && OffersFit(offers) && OffersSeparate(offers)
      modifies this`offers, this`trace
      ensures WireFits() && OffersFit(offers) && OffersSeparate(offers)
      ensures trace == old(trace) + [OfferIntroduced(offer)]
      ensures offers.Keys == old(offers).Keys + {offer} && fresh(offers[offer]) && offers[offer].arrived == []
      ensures forall o <- old(offers).Keys | o != offer :: offers[o] == old(offers)[o]
    {
      hide LedgerShows;
      hide LedgerAfter;
      hide SourcesShow;
      hide SourcesAfter;
      hide Recorded;
      hide OffersSeparate;
      var mimes := new AdvertisedMimes();
      BooksAfterIntroducing(trace, offers.Keys, OfferOf(pending), offer);
      SourcesIgnoreOffers(trace, OfferIntroduced(offer));
      trace := trace + [OfferIntroduced(offer)];
      forall o <- offers.Keys ensures offers[o].Valid() && offers[o] != mimes {
        var tracked: AdvertisedMimes := offers[o];
        assert old(tracked.Valid());
      }
      AddingAnOffer(offers, offer, mimes);
      offers := offers[offer := mimes];
      assert offers.Keys == old(offers).Keys + {offer};
    }

    method OfferMime(offer: OfferId, mime: string)
      requires Valid() && Quiet()
      modifies if offer in offers then {offers[offer]} else {}
      ensures Valid() && Quiet()
      ensures offer in offers ==> offers[offer].arrived == old(offers[offer].arrived) + [mime]
      ensures forall o <- offers.Keys | o != offer :: offers[o].arrived == old(offers[o].arrived)
    {
      hide LoopFits;
      hide ReadingFits;
      hide PastesFit;
      hide WireFits;
      hide Recorded;
      if offer in offers {
        Elsewhere(offers[offer]);
        offers[offer].Push(mime);
      }
    }

    /** One tracked offer is destroyed, and the books follow. */
    method DestroyTracked(offer: OfferId, ghost tracked: set<OfferId>, ghost inUse: Option<OfferId>)
      requires LedgerShows(LedgerAfter(trace), tracked, inUse) && offer in tracked
      modifies this`trace
      ensures trace == old(trace) + [DestroyOffer(offer)]
      ensures LedgerShows(LedgerAfter(trace), tracked - {offer}, inUse)
      ensures SourcesAfter(trace) == SourcesAfter(old(trace))
    {
      BooksAfterRetiring(trace, tracked, inUse, offer);
      trace := trace + [DestroyOffer(offer)];
    }

    /** No offer is tracked afterwards; all but `keep` are destroyed, and its recorded types are the
        result. */
    method RetireOffers(keep: Option<OfferId>, ghost inUse: Option<OfferId>)
      returns (kept: seq<string>, ghost said: Trace)
      requires OffersFit(offers)
      requires LedgerShows(LedgerAfter(trace), Due(offers.Keys, keep), inUse)
      modifies this`offers, this`trace
      ensures offers == map[] && LedgerShows(LedgerAfter(trace), {}, inUse)
      ensures SourcesAfter(trace) == SourcesAfter(old(trace))
      ensures trace == old(trace) + said && Destroys(said, Due(old(offers).Keys, keep))
      ensures kept == if keep.Some? && keep.value in old(offers) then Recorded(old(offers[keep.value].arrived)) else []
    {
      hide LedgerShows;
      hide LedgerAfter;
      hide SourcesAfter;
      hide Destroys;
      hide Due;
      hide DestroysAllBut;
      hide Recorded;
      kept := [];
      var rest := offers;
      ghost var all := Due(offers.Keys, keep);
      said := [];
      DestroysNothing(all);
      offers := map[];
      while rest != map[]
        modifies this`trace
        invariant rest.Keys <= old(offers).Keys && (forall o <- rest.Keys :: rest[o] == old(offers)[o])
        invariant LedgerShows(LedgerAfter(trace), Due(rest.Keys, keep), inUse)
        invariant SourcesAfter(trace) == SourcesAfter(old(trace))
        invariant trace == old(trace) + said && DestroysAllBut(said, all, Due(rest.Keys, keep))
        invariant kept == if keep.Some? && keep.value in old(offers) && keep.value !in rest
                          then Recorded(old(offers[keep.value].arrived)) else []
        decreases rest.Keys
      {
        SomeOffer(rest);
        var offer :| offer in rest;
        OneFewer(rest, offer, keep);
        if keep == Some(offer) {
          assert old(offers[offer].Valid());
          kept := rest[offer].mimes;
        } else {
          DestroyTracked(offer, Due(rest.Keys, keep), inUse);
          DestroysOneMore(said, all, rest, keep, offer);
          said := said + [DestroyOffer(offer)];
        }
        rest := rest - {offer};
      }
      NoneLeft(said, all, keep);
      assert rest.Keys == {};
    }

    /** Ask the offer for one type and register the read end; `None` if that failed on the way, which
        may be before the request or after it. */
    method BeginRead(
      ghost tokens: map<nat, Token>, generation: nat, offer: OfferId, mime: string, slot: nat, setup: Setup)
      returns (token: Option<Token>)
      requires handle.Valid() && handle.dispatching.None? && slot !in tokens
      requires TableMatches(handle.live, generation, tokens, None) && WritesMatch(handle.live, writes)
      requires LedgerShows(LedgerAfter(trace), offers.Keys, Some(offer))
      modifies this`trace, handle`live, handle`nextToken
      ensures handle.Valid() && (token.Some? <==> setup.Started?)
      ensures TableMatches(handle.live, generation, if token.Some? then tokens[slot := token.value] else tokens, None)
      ensures WritesMatch(handle.live, writes)
      ensures LedgerShows(LedgerAfter(trace), offers.Keys, Some(offer))
      ensures SourcesAfter(trace) == SourcesAfter(old(trace))
      ensures trace == old(trace) + if setup.NoPipe? then [] else [Receive(offer, mime)]
    {
      hide TableMatches;
      hide WritesMatch;
      hide LedgerShows;
      hide LedgerAfter;
      hide SourcesAfter;
      token := None;
      if setup.NoPipe? {
        return;
      }
      BooksAfterReceiving(trace, offers.Keys, offer, mime);
      SourcesIgnoreOffers(trace, Receive(offer, mime));
      trace := trace + [Receive(offer, mime)];
      if setup.Started? {
        label inserting:
        var inserted := handle.Insert(ReadSource(generation, slot));
        AddingARead(old@inserting(handle.live), generation, tokens, writes, slot, inserted);
        token := Some(inserted);
      }
    }

    /** Reserve a slot for every wanted type, in order; one whose read cannot start is lost at once,
        with the reason, and has nothing in the loop. */
    method BeginReads(selection: PendingSelection, offer: OfferId, wanted: seq<string>, setups: seq<Setup>)
      returns (readTokens: map<nat, Token>)
      requires selection.Valid() && selection.slots == []
      requires handle.Valid() && handle.dispatching.None?
      requires TableMatches(handle.live, selection.generation, map[], None) && WritesMatch(handle.live, writes)
      requires LedgerShows(LedgerAfter(trace), offers.Keys, Some(offer))
      modifies this`trace, selection, handle`live, handle`nextToken
      ensures selection.Valid() && selection.slots == FirstSlots(wanted, setups, config.maxFlavorBytes)
      ensures SlotsAgree(selection.slots, readTokens)
      ensures handle.Valid()
      ensures TableMatches(handle.live, selection.generation, readTokens, None) && WritesMatch(handle.live, writes)
      ensures LedgerShows(LedgerAfter(trace), offers.Keys, Some(offer))
      ensures SourcesAfter(trace) == SourcesAfter(old(trace))
      ensures trace == old(trace) + Requests(offer, wanted, setups)
    {
      hide TableMatches;
      hide WritesMatch;
      hide LedgerShows;
      hide LedgerAfter;
      hide SourcesAfter;
      hide CountReading;
      hide FirstSlots;
      hide Requests;
      readTokens := map[];
      FirstSlotsOfNothing(offer, setups, config.maxFlavorBytes);
      assert wanted[..0] == [];
      for i := 0 to |wanted|
        invariant selection.Valid() && |selection.slots| == i
        invariant selection.slots == FirstSlots(wanted[..i], setups, config.maxFlavorBytes)
        invariant SlotsAgree(selection.slots, readTokens)
        invariant handle.Valid() && handle.dispatching.None?
        invariant TableMatches(handle.live, selection.generation, readTokens, None) && WritesMatch(handle.live, writes)
        invariant LedgerShows(LedgerAfter(trace), offers.Keys, Some(offer))
        invariant SourcesAfter(trace) == SourcesAfter(old(trace))
        invariant trace == old(trace) + Requests(offer, wanted[..i], setups)
      {
        OneMoreFirstSlot(offer, wanted, setups, i, config.maxFlavorBytes);
        var slot := selection.ExpectFlavor(wanted[i], config.maxFlavorBytes);
        var setup := SetupOf(setups, i);
        var token := BeginRead(readTokens, selection.generation, offer, wanted[i], slot, setup);
        if token.Some? {
          readTokens := readTokens[slot := token.value];
        } else {
          selection.DropFlavor(slot, DropReason.Setup(setup.reason));
        }
      }
      assert wanted[..|wanted|] == wanted;
    }

    /** Open one pipe per wanted type, and arm a timer if anything is left open. */
    method OpenReads(
      kind: SelectionKind, offer: OfferId, advertised: seq<string>, wanted: seq<string>,
      setups: seq<Setup>, timerFails: bool)
      requires pending.None? && LoopFits() && ReadingFits() && Quiet() && wanted == Wanted(advertised)
      requires LedgerShows(LedgerAfter(trace), offers.Keys, Some(offer))
      modifies this`pending, this`generation, this`trace
      modifies handle`live, handle`nextToken
      ensures LoopFits() && ReadingFits()
      ensures pending.Some? && pending.value.offer == offer && fresh(pending.value.selection)
      ensures MimesOf(pending.value.selection.slots) == wanted
      ensures pending.value.selection.slots == FirstSlots(wanted, setups, config.maxFlavorBytes)
      ensures pending.value.selection.kind == kind && pending.value.selection.advertised == advertised
      ensures pending.value.timeoutToken.Some? <==> pending.value.selection.open > 0 && !timerFails
      ensures generation == old(generation) + 1
      ensures trace == old(trace) + Requests(offer, wanted, setups)
      ensures LedgerShows(LedgerAfter(trace), offers.Keys, Some(offer)) &&
              SourcesAfter(trace) == SourcesAfter(old(trace))
      ensures wanted == [] ==> pending.value.selection.open == 0
    {
      hide TableMatches;
      hide WritesMatch;
      hide LedgerShows;
      hide LedgerAfter;
      hide SourcesAfter;
      hide FatesFit;
      hide PublishedFits;
      hide EmittedFits;
      hide AllWatched;
      hide IsSubsequence;
      hide Wanted;
      hide MimesOf;
      hide SlotsFit;
      hide SlotsAgree;
      hide CountReading;
      hide FirstSlots;
      hide Requests;
      StartingFits(fates, generation);
      assert handle.live - detached == handle.live;
      NoReadsAnyGeneration(handle.live, 0, generation + 1);
      generation := generation + 1;
      var selection := new PendingSelection(generation, kind, advertised);
      var readTokens := BeginReads(selection, offer, wanted, setups);
      FirstSlotsFit(wanted, setups, config.maxFlavorBytes);
      NoSlotsForNothing(selection.slots, wanted);
      var timeoutToken: Option<Token> := None;
      if !selection.IsComplete() && !timerFails {
        label arming:
        var token := handle.Insert(ReadTimer(generation));
        AddingTheReadTimer(old@arming(handle.live), generation, readTokens, writes, token);
        timeoutToken := Some(token);
      }
      pending := Some(Pending(selection, offer, readTokens, timeoutToken));
      assert handle.live - detached == handle.live;
      StartingFitsPending(fates, generation, pending);
    }

    /** Drive every wanted type's read from the loop; a selection with nothing to read is complete
        at once. */
    method StartReads(
      kind: SelectionKind, offer: OfferId, advertised: seq<string>, wanted: seq<string>,
      setups: seq<Setup>, timerFails: bool)
      requires pending.None? && LoopFits() && ReadingFits() && Quiet() && wanted == Wanted(advertised)
      requires LedgerShows(LedgerAfter(trace), offers.Keys, Some(offer))
      requires SourcesShow(SourcesAfter(trace), SourceOf(offered), nextSource, deviceAlive)
      modifies this`pending, this`generation, this`fates, this`published, this`emitted, this`delivered
      modifies this`trace, this`stopped
      modifies handle`live, handle`nextToken, handle`selfRemovals
      ensures LoopFits() && ReadingFits() && WireFits() && Quiet()
      ensures generation == old(generation) + 1
      ensures pending.Some? ==>
                && fresh(pending.value.selection) && pending.value.offer == offer
                && MimesOf(pending.value.selection.slots) == wanted && wanted != []
                && pending.value.selection.slots == FirstSlots(wanted, setups, config.maxFlavorBytes)
                && (pending.value.timeoutToken.Some? <==> !timerFails)
                && trace == old(trace) + Requests(offer, wanted, setups)
                && fates == old(fates) && published == old(published) && emitted == old(emitted)
      ensures pending.None? ==>
                && CapturedLast(old(fates), old(published), old(emitted))
                && fates[generation].selection ==
                   AllAtOnce(kind, advertised, FirstSlots(wanted, setups, config.maxFlavorBytes))
                && trace == old(trace) + Requests(offer, wanted, setups) + [DestroyOffer(offer)]
      ensures handle.selfRemovals == old(handle.selfRemovals)
    {
      hide LoopFits;
      hide ReadingFits;
      hide LedgerShows;
      hide LedgerAfter;
      hide SourcesShow;
      hide SourcesAfter;
      hide Wanted;
      hide IsWatched;
      hide MimesOf;
      hide Grew;
      hide FirstSlots;
      hide Requests;
      hide Lost;
      hide Flavors.Captured;
      OpenReads(kind, offer, advertised, wanted, setups, timerFails);
      EmitIfComplete();
    }

    /** The current generation has just been captured, and nothing else happened to the records. */
    ghost predicate CapturedLast(fatesBefore: map<nat, Fate>, publishedBefore: seq<nat>, emittedBefore: seq<WatchEvent>)
      reads this
    {
      && generation in fates && fates[generation].Captured? && fates == fatesBefore[generation := fates[generation]]
      && published == publishedBefore + [generation]
      && emitted == emittedBefore + [SelectionCaptured(fates[generation].selection)]
    }

    /** No offer is worth keeping: the selection was cleared, or is one clippo does not read. */
    method RetireAll() returns (ghost said: Trace)
      requires WireFits() && OffersFit(offers)
      modifies this`trace, this`offers
      ensures trace == old(trace) + said && Destroys(said, old(offers).Keys)
      ensures WireFits() && offers == map[] && offers.Keys == {} && SourcesAfter(trace) == SourcesAfter(old(trace))
    {
      hide LedgerShows;
      hide LedgerAfter;
      hide SourcesAfter;
      hide SourcesShow;
      hide OffersFit;
      hide Destroys;
      var kept;
      kept, said := RetireOffers(None, OfferOf(pending));
      NothingTracked(offers);
    }

    /** The next generation has met no fate yet. */
    lemma {:induction false} CurrentlyNothing()
      requires ReadingFits()
      ensures generation + 1 !in fates
    {
      LaterGenerations(fates, generation, pending);
    }

    lemma {:induction false} CapturingGrows(
      fatesBefore: map<nat, Fate>, publishedBefore: seq<nat>, emittedBefore: seq<WatchEvent>)
      requires generation !in fatesBefore
      ensures CapturedLast(fatesBefore, publishedBefore, emittedBefore) || (fates == fatesBefore &&
              published == publishedBefore) ==>
                Grew(fatesBefore, fates, publishedBefore, published)
    {
    }

    /** What a tracked offer advertised; nothing of one that is not. */
    ghost function Arrived(offer: OfferId): seq<string>
      reads this`offers, set o | o in offers :: offers[o]
    {
      if offer in offers then offers[offer].arrived else []
    }

    /** The selected offer is taken out of the table with what it advertised, and the rest retired. */
    method TakeUp(offer: OfferId) returns (advertised: seq<string>, wanted: seq<string>, ghost said: Trace)
      requires WireFits() && OffersFit(offers) && pending.None?
      modifies this`trace, this`offers
      ensures offers == map[] && offers.Keys == {} && LedgerShows(LedgerAfter(trace), offers.Keys, Some(offer))
      ensures trace == old(trace) + [OfferSelected(offer)] + said && Destroys(said, old(offers).Keys - {offer})
      ensures SourcesAfter(trace) == SourcesAfter(old(trace)) && wanted == Wanted(advertised)
      ensures advertised == Recorded(old(Arrived(offer))) && wanted == Wanted(old(Arrived(offer)))
    {
      hide OffersFit;
      hide LedgerShows;
      hide LedgerAfter;
      hide SourcesShow;
      hide SourcesAfter;
      hide Recorded;
      hide Wanted;
      hide Destroys;
      BooksAfterSelecting(trace, offers.Keys, offer);
      SourcesIgnoreOffers(trace, OfferSelected(offer));
      trace := trace + [OfferSelected(offer)];
      advertised, said := RetireOffers(Some(offer), Some(offer));
      NothingTracked(offers);
      var refused;
      wanted, refused := InterestingFlavors(advertised);
      NothingWanted([]);
      if offer in old(offers) {
        BoundedListLosesNothing(old(offers[offer].arrived));
      }
    }

    /** Read what a newly selected offer advertised; every other tracked offer is retired. */
    method Adopt(kind: SelectionKind, offer: OfferId, setups: seq<Setup>, timerFails: bool)
      returns (ghost said: Trace)
      requires Valid() && Quiet() && pending.None?
      modifies this`pending, this`generation, this`fates, this`published, this`emitted, this`delivered
      modifies this`trace, this`stopped
      modifies this`offers
      modifies handle`live, handle`nextToken, handle`selfRemovals
      ensures Valid() && Quiet() && offers == map[] && generation == old(generation) + 1
      ensures Destroys(said, old(offers).Keys - {offer})
      ensures trace == old(trace) + [OfferSelected(offer)] + said +
                       Requests(offer, Wanted(old(Arrived(offer))), setups) +
                       if pending.None? then [DestroyOffer(offer)] else []
      ensures pending.Some? ==>
                && fresh(pending.value.selection) && pending.value.offer == offer
                && fates == old(fates) && published == old(published) && emitted == old(emitted)
                && Wanted(old(Arrived(offer))) != []
                && pending.value.selection.slots ==
                   FirstSlots(Wanted(old(Arrived(offer))), setups, config.maxFlavorBytes)
      ensures pending.None? ==>
                && CapturedLast(old(fates), old(published), old(emitted))
                && fates[generation].selection ==
                   AllAtOnce(kind, Recorded(old(Arrived(offer))),
                             FirstSlots(Wanted(old(Arrived(offer))), setups, config.maxFlavorBytes))
      ensures Grew(old(fates), fates, old(published), published)
      ensures handle.selfRemovals == old(handle.selfRemovals)
    {
      hide LoopFits;
      hide ReadingFits;
      hide LedgerShows;
      hide LedgerAfter;
      hide SourcesShow;
      hide SourcesAfter;
      hide PastesFit;
      hide OffersFit;
      hide OffersSeparate;
      hide CapturedLast;
      hide Grew;
      hide Wanted;
      hide Recorded;
      hide MimesOf;
      hide Destroys;
      hide FirstSlots;
      hide Requests;
      hide AllAtOnce;
      Elsewhere(this);
      CurrentlyNothing();
      var advertised, wanted;
      advertised, wanted, said := TakeUp(offer);
      NothingTracked(offers);
      StartReads(kind, offer, advertised, wanted, setups, timerFails);
      CapturingGrows(old(fates), old(published), old(emitted));
    }

    /** A selection changed: the one being read is abandoned, every other tracked offer is retired,
        and the new one's reads begin. A primary selection that is not wanted only retires. */
    method SelectionChanged(kind: SelectionKind, offer: Option<OfferId>, setups: seq<Setup>, timerFails: bool)
      returns (ghost said: Trace)
      requires Valid() && Quiet()
      modifies this`pending, this`generation, this`fates, this`published, this`emitted, this`delivered
      modifies this`trace, this`stopped
      modifies this`offers
      modifies handle`live, handle`nextToken, handle`selfRemovals
      ensures Valid() && Quiet() && offers == map[]
      ensures handle.selfRemovals == old(handle.selfRemovals)
      ensures Grew(old(fates), fates, old(published), published)
      ensures kind.Primary? && !config.primary ==>
                && pending == old(pending) && generation == old(generation)
                && fates == old(fates) && published == old(published) && emitted == old(emitted)
                && trace == old(trace) + said && Destroys(said, old(offers).Keys)
      ensures kind.Clipboard? || config.primary ==>
                && (old(pending).Some? ==> old(generation) in fates && fates[old(generation)] == Abandoned)
                && generation == old(generation) + (if offer.Some? then 1 else 0)
                && (offer.None? ==>
                      && pending.None? && published == old(published) && emitted == old(emitted)
                      && trace == old(trace) + Abandonment(old(pending)) + said && Destroys(said, old(offers).Keys))
                && (offer.Some? ==>
                      && Destroys(said, old(offers).Keys - {offer.value})
                      && trace == old(trace) + Abandonment(old(pending)) + [OfferSelected(offer.value)] + said +
                                  Requests(offer.value, Wanted(old(Arrived(offer.value))), setups) +
                                  if pending.None? then [DestroyOffer(offer.value)] else [])
      ensures (kind.Clipboard? || config.primary) && offer.Some? && pending.None? ==>
                && generation in fates && published == old(published) + [generation]
                && fates[generation] ==
                   Captured(AllAtOnce(kind, Recorded(old(Arrived(offer.value))),
                                      FirstSlots(Wanted(old(Arrived(offer.value))), setups, config.maxFlavorBytes)))
                && emitted == old(emitted) + [SelectionCaptured(fates[generation].selection)]
      ensures (kind.Clipboard? || config.primary) && offer.Some? && offer.value !in old(offers) ==>
                && pending.None? && generation in fates && fates[generation] == Captured(Selection(kind, [], [], []))
                && trace[|trace| - 1] == DestroyOffer(offer.value)
      ensures (kind.Clipboard? || config.primary) && pending.Some? ==>
                && fresh(pending.value.selection) && offer == Some(pending.value.offer) && offer.value in old(offers)
                && published == old(published) && emitted == old(emitted)
                && pending.value.selection.slots ==
                   FirstSlots(Wanted(old(Arrived(offer.value))), setups, config.maxFlavorBytes)
    {
      hide LoopFits;
      hide ReadingFits;
      hide PastesFit;
      hide WireFits;
      hide OffersFit;
      hide OffersSeparate;
      hide Wanted;
      hide Recorded;
      hide Destroys;
      hide Abandonment;
      hide FirstSlots;
      hide Requests;
      hide AllAtOnce;
      Elsewhere(this);
      if kind.Primary? && !config.primary {
        said := RetireAll();
        NothingTracked(offers);
        return;
      }
      AbandonPending();
      if offer.None? {
        said := RetireAll();
        NothingTracked(offers);
        return;
      }
      said := Adopt(kind, offer.value, setups, timerFails);
      NothingAdvertised(kind, setups, config.maxFlavorBytes);
    }

    /** A callback for `generation` is about the selection being read. */
    predicate IsCurrent(generation: nat)
      reads this`pending
    {
      pending.Some? && pending.value.selection.generation == generation
    }

    /** What one drain did to the slots of the selection being read: only that slot moved, by what
        was taken off the pipe. */
    twostate predicate SlotDrained(selection: PendingSelection, slot: nat, pipe: Pipe, action: PostAction)
      reads selection, pipe
    {
      && IsReading(old(selection.slots), slot)
      && old(pipe.left) <= pipe.left && pipe.entered == old(pipe.entered)
      && Drained(old(selection.slots), slot, pipe.left[|old(pipe.left)|..], selection.slots, action,
                 pipe.buffer == [] && !pipe.writerOpen, pipe.broken)
      && (action.Continue? ==> pipe.buffer == [] && pipe.writerOpen)
    }

    /** Drain one slot of the selection being read. A slot that resolved leaves the table, and its
        source is about to be removed by what its callback returns. */
    method DrainSlot(slot: nat, pipe: Pipe) returns (action: PostAction)
      requires LoopFits() && ReadingFits() && detached == {} && pending.Some? && pipe.Valid()
      requires handle.dispatching.Some? && handle.dispatching.value in handle.live
      requires handle.live[handle.dispatching.value] == ReadSource(pending.value.selection.generation, slot)
      modifies this`pending, this`detached, pending.value.selection, pipe
      ensures LoopFits() && ReadingFits() && RunsDetached() == action.Remove? && pipe.Valid()
      ensures pending.Some? && pending.value.selection == old(pending).value.selection
      ensures pending.value.offer == old(pending).value.offer
      ensures detached == if action.Remove? then {handle.dispatching.value} else {}
      ensures action.Continue? ==> pending == old(pending) && pending.value.selection.open > 0
      ensures SlotDrained(pending.value.selection, slot, pipe, action)
    {
      hide TableMatches;
      hide WritesMatch;
      hide FatesFit;
      hide PublishedFits;
      hide EmittedFits;
      hide AllWatched;
      hide IsSubsequence;
      hide Drained;
      hide SlotsAgree;
      hide SlotsFit;
      hide MimesOf;
      hide Wanted;
      hide CountReading;
      Elsewhere(pipe);
      var p := pending.value;
      ghost var before := p.selection.slots;
      assert handle.live - detached == handle.live;
      ReadIsRegistered(handle.live, p.selection.generation, p.readTokens, p.timeoutToken, handle.dispatching.value,
                       slot);
      SlotIsReading(before, p.readTokens, slot);
      Elsewhere(p.selection);
      ghost var taken, chunks;
      action, taken, chunks := ReadFlavor(p.selection, slot, pipe);
      assert pipe.left[|old(pipe.left)|..] == taken;
      AfterDraining(before, p.selection.slots, p.readTokens, slot, pipe.left[|old(pipe.left)|..], action,
                    pipe.buffer == [] && !pipe.writerOpen, pipe.broken, config.maxFlavorBytes);
      if action.Remove? {
        RemovingARead(handle.live, p.selection.generation, p.readTokens, p.timeoutToken, writes, slot);
        pending := Some(p.(readTokens := p.readTokens - {slot}));
        detached := {handle.dispatching.value};
        SameFates(fates, generation, old(pending), pending);
      } else {
        StillReading(before, slot, pipe.left[|old(pipe.left)|..], p.selection.slots,
                     pipe.buffer == [] && !pipe.writerOpen, pipe.broken);
      }
    }

    /** The callback of a read: drain its slot, and publish if that was the last one. A read of an
        earlier generation touches nothing. */
    method OnFlavorReadable(generation: nat, slot: nat, pipe: Pipe) returns (action: PostAction)
      requires LoopFits() && ReadingFits() && WireFits() && detached == {} && (pending.Some? ==>
               pending.value.selection.open > 0)
      requires IsCurrent(generation) <==> handle.dispatching.Some?
      requires handle.dispatching.Some? ==>
                 handle.dispatching.value in handle.live &&
                 handle.live[handle.dispatching.value] == ReadSource(generation, slot)
      requires pipe.Valid()
      modifies this`pending, this`fates, this`published, this`emitted, this`delivered
      modifies this`trace, this`stopped, this`detached
      modifies if pending.Some? then {pending.value.selection} else {}
      modifies pipe, handle`live, handle`selfRemovals
      ensures LoopFits() && ReadingFits() && WireFits() && pipe.Valid() && RunsDetached() == action.Remove?
      ensures pending.Some? ==> pending.value.selection.open > 0
      ensures handle.selfRemovals == old(handle.selfRemovals)
      ensures Grew(old(fates), fates, old(published), published)
      ensures detached == if action.Remove? && handle.dispatching.Some? then {handle.dispatching.value} else {}
      ensures !old(IsCurrent(generation)) ==>
                && action.Remove? && pending == old(pending) && fates == old(fates) && published == old(published)
                && emitted == old(emitted) && trace == old(trace) && handle.live == old(handle.live) && unchanged(pipe)
                && (pending.Some? ==> unchanged(pending.value.selection))
      ensures old(IsCurrent(generation)) ==> SlotDrained(old(pending).value.selection, slot, pipe, action)
      ensures pending.Some? && old(pending).Some? ==>
                && pending.value.selection == old(pending).value.selection
                && fates == old(fates) && published == old(published) && emitted == old(emitted) && trace == old(trace)
      ensures pending.None? && old(pending).Some? ==>
                && action.Remove? && old(pending).value.selection.open == 0
                && PublishedNow(old(pending), old(fates), old(published), old(emitted))
    {
      hide LoopFits;
      hide ReadingFits;
      hide SlotDrained;
      hide LedgerShows;
      hide LedgerAfter;
      hide SourcesShow;
      Elsewhere(this);
      Elsewhere(pipe);
      action := Remove;
      if IsCurrent(generation) {
        Elsewhere(pending.value.selection);
        action := DrainSlot(slot, pipe);
      }
      label drained:
      if action.Remove? {
        EmitIfComplete();
      }
    }

    /** Every slot still being read is given up as stalled, and its source leaves the loop. The timer
        itself is removed by what its callback returns. */
    method GiveUpOnStalled()
      requires LoopFits() && ReadingFits() && detached == {} && pending.Some?
      requires handle.dispatching.Some? && handle.dispatching.value in handle.live
      requires handle.live[handle.dispatching.value] == ReadTimer(pending.value.selection.generation)
      modifies this`pending, this`detached, pending.value.selection, handle`live, handle`selfRemovals
      ensures LoopFits() && ReadingFits() && RunsDetached() && detached == {handle.dispatching.value}
      ensures pending.Some? && pending.value.selection == old(pending).value.selection &&
              pending.value.selection.open == 0
      ensures pending.value.offer == old(pending).value.offer
      ensures pending.value.readTokens == map[] && pending.value.timeoutToken.None?
      ensures handle.selfRemovals == old(handle.selfRemovals)
      ensures var s := pending.value.selection;
              && |s.slots| == |old(pending.value.selection.slots)|
              && forall i | 0 <= i < |s.slots| :: s.slots[i] == GivenUp(old(pending.value.selection.slots)[i], Stalled)
    {
      hide TableMatches;
      hide WritesMatch;
      hide FatesFit;
      hide PublishedFits;
      hide EmittedFits;
      hide AllWatched;
      hide IsSubsequence;
      hide SlotsAgree;
      hide SlotsFit;
      hide MimesOf;
      hide Wanted;
      hide CountReading;
      hide GivenUp;
      var p := pending.value;
      PendingIsCurrent(fates, generation, pending);
      Elsewhere(p.selection);
      assert handle.live - detached == handle.live;
      TimerIsRegistered(handle.live, generation, p.readTokens, p.timeoutToken, handle.dispatching.value);
      RemovingTheReadTimer(handle.live, generation, p.readTokens, handle.dispatching.value, writes);
      p := p.(timeoutToken := None);
      detached := {handle.dispatching.value};
      ghost var before := p.selection.slots;
      var _ := p.selection.AbandonOpen(Stalled);
      ClearSources(p);
      NoReadsAnyGeneration(handle.live - detached, 0, generation);
      pending := Some(p.(readTokens := map[]));
      SameFates(fates, generation, old(pending), pending);
      AfterGivingUp(before, p.selection.slots, config.maxFlavorBytes);
    }

    /** The callback of the read timer: every open slot is a loss, and the rest is published. */
    method OnReadTimeout(generation: nat)
      requires LoopFits() && ReadingFits() && WireFits() && detached == {} && (pending.Some? ==>
               pending.value.selection.open > 0)
      requires IsCurrent(generation) <==> handle.dispatching.Some?
      requires handle.dispatching.Some? ==>
                 handle.dispatching.value in handle.live &&
                 handle.live[handle.dispatching.value] == ReadTimer(generation)
      modifies this`pending, this`fates, this`published, this`emitted, this`delivered
      modifies this`trace, this`stopped, this`detached
      modifies if pending.Some? then {pending.value.selection} else {}
      modifies handle`live, handle`selfRemovals
      ensures LoopFits() && ReadingFits() && WireFits() && RunsDetached()
      ensures handle.selfRemovals == old(handle.selfRemovals)
      ensures Grew(old(fates), fates, old(published), published)
      ensures detached == if handle.dispatching.Some? then {handle.dispatching.value} else {}
      ensures !old(IsCurrent(generation)) ==>
                && pending == old(pending) && fates == old(fates) && published == old(published)
                && emitted == old(emitted) && trace == old(trace) && handle.live == old(handle.live)
                && (pending.Some? ==> unchanged(pending.value.selection))
      ensures old(IsCurrent(generation)) ==>
                && pending.None? && PublishedNow(old(pending), old(fates), old(published), old(emitted))
                && |old(pending).value.selection.slots| == |old(pending.value.selection.slots)|
                && forall i | 0 <= i < |old(pending).value.selection.slots| ::
                     old(pending).value.selection.slots[i] == GivenUp(old(pending.value.selection.slots)[i], Stalled)
    {
      hide LoopFits;
      hide ReadingFits;
      hide LedgerShows;
      hide LedgerAfter;
      hide SourcesShow;
      hide GivenUp;
      if !IsCurrent(generation) {
        return;
      }
      Elsewhere(this);
      Elsewhere(pending.value.selection);
      GiveUpOnStalled();
      EmitIfComplete();
    }

    // ---- The selection clippo owns ----

    /** A new source offers each type, then takes the selection, and only then is the old source
        destroyed. */
    method TakeSelection(flavors: seq<Flavor>)
      requires WireFits() && deviceAlive
      modifies this`offered, this`nextSource, this`trace
      ensures WireFits()
      ensures Offered(flavors) == [] ==> offered == old(offered) && trace == old(trace) && nextSource == old(nextSource)
      ensures Offered(flavors) != [] ==>
                && offered == Some(OwnedOffer(old(nextSource), Offered(flavors))) && nextSource == old(nextSource) + 1
                && trace == old(trace) + TakeOver(old(nextSource), Mimes(Offered(flavors)), SourceOf(old(offered)))
    {
      hide LedgerShows;
      hide LedgerAfter;
      hide SourcesAfter;
      hide SourcesShow;
      hide AfterMessage;
      hide Offered;
      var advertised := OfferedFlavors(flavors);
      if advertised == [] {
        return;
      }
      ghost var was := SourcesAfter(trace);
      var source := nextSource;
      nextSource := nextSource + 1;
      ghost var building := Beginning(was, source);
      TakingOver(was, SourceOf(offered), source);
      Request(CreateSource(source));
      for i := 0 to |advertised|
        modifies this`trace
        invariant trace == old(trace) + [CreateSource(source)] + OfferTypes(source, Mimes(advertised)[..i])
        invariant SourcesAfter(trace) == building && LedgerAfter(trace) == LedgerAfter(old(trace))
      {
        OneMoreType(source, Mimes(advertised), i);
        AddingAType(was, SourceOf(old(offered)), source, advertised[i].mime);
        Request(OfferType(source, advertised[i].mime));
      }
      assert Mimes(advertised)[..|advertised|] == Mimes(advertised);
      Request(SetSelection(Some(source)));
      var superseded := SourceOf(offered);
      offered := Some(OwnedOffer(source, advertised));
      if superseded.Some? {
        Request(DestroySource(superseded.value));
      }
    }

    /** Send one request about a source, or note one event about it: no offer is concerned. */
    ghost method Request(message: Message)
      requires IsAboutSources(message)
      modifies this`trace
      ensures trace == old(trace) + [message]
      ensures SourcesAfter(trace) == AfterMessage(SourcesAfter(old(trace)), message)
      ensures LedgerAfter(trace) == LedgerAfter(old(trace))
    {
      hide SourcesAfter;
      hide LedgerAfter;
      OneMoreMessage(trace, message);
      trace := trace + [message];
    }

    method EmitLoss()
      requires ReadingFits()
      modifies this`stopped, this`emitted, this`delivered
      ensures ReadingFits() && emitted == old(emitted) + [SelectionLost]
    {
      hide FatesFit;
      hide PublishedFits;
      hide EmittedFits;
      hide AllWatched;
      hide IsSubsequence;
      hide SlotsAgree;
      hide SlotsFit;
      hide MimesOf;
      hide Wanted;
      EmittingALoss(emitted, published, fates, config.maxFlavorBytes);
      Emit(SelectionLost);
    }

    /** The source in use is destroyed and the loss sent on; parked pastes are not touched. */
    method SourceCancelled(source: SourceId)
      requires WireFits() && ReadingFits()
      modifies this`offered, this`trace, this`stopped, this`emitted, this`delivered
      ensures WireFits() && ReadingFits()
      ensures emitted == old(emitted) + if SourceOf(old(offered)) == Some(source) then [SelectionLost] else []
      ensures offered == if SourceOf(old(offered)) == Some(source) then None else old(offered)
      ensures trace == old(trace) + [Message.SourceCancelled(source)] +
                       if SourceOf(old(offered)) == Some(source) then [DestroySource(source)] else []
    {
      hide LedgerShows;
      hide LedgerAfter;
      hide SourcesAfter;
      hide SourcesShow;
      hide AfterMessage;
      hide ReadingFits;
      Cancelling(SourcesAfter(trace), SourceOf(offered), nextSource, deviceAlive, source);
      Request(Message.SourceCancelled(source));
      if offered.None? || offered.value.source != source {
        return;
      }
      offered := None;
      Request(DestroySource(source));
      EmitLoss();
    }

    /** Unset the selection, then destroy the source that held it. */
    method ReleaseSelection()
      requires WireFits() && deviceAlive
      modifies this`offered, this`trace
      ensures WireFits() && offered.None?
      ensures trace == old(trace) + Release(old(offered))
    {
      hide LedgerShows;
      hide LedgerAfter;
      hide SourcesAfter;
      hide SourcesShow;
      hide AfterMessage;
      if offered.None? {
        return;
      }
      var source := offered.value.source;
      offered := None;
      Releasing(SourcesAfter(trace), source, nextSource);
      Request(SetSelection(None));
      Request(DestroySource(source));
    }

    /** Nothing of clippo's is left with the compositor once no selection is pending. */
    method LetGo() returns (ghost said: Trace)
      requires WireFits() && OffersFit(offers) && pending.None? && deviceAlive
      modifies this`trace, this`offers, this`offered, this`deviceAlive
      ensures WireFits() && offers == map[] && offered.None? && !deviceAlive
      ensures Destroys(said, old(offers).Keys)
      ensures trace == old(trace) + said + Release(old(offered)) + [DestroyDevice]
      ensures forall s <- SourcesAfter(trace).states.Keys :: SourcesAfter(trace).states[s].Destroyed?
      ensures LedgerAfter(trace).Ledger? ==>
                forall o <- LedgerAfter(trace).offers.Keys :: LedgerAfter(trace).offers[o].Gone?
    {
      hide OffersFit;
      hide Destroys;
      hide LedgerAfter;
      hide LedgerShows;
      hide SourcesAfter;
      hide SourcesShow;
      hide AfterMessage;
      said := RetireAll();
      ReleaseSelection();
      Retiring(SourcesAfter(trace), nextSource);
      Request(DestroyDevice);
      deviceAlive := false;
      EverythingIsGone(LedgerAfter(trace));
    }

    /** The pending selection is abandoned, every offer and source is destroyed, and so is the
        device. */
    method Shutdown() returns (ghost said: Trace)
      requires Valid() && Quiet() && deviceAlive
      modifies this`pending, this`fates, this`trace, this`offers, this`offered, this`deviceAlive
      modifies handle`live, handle`selfRemovals
      ensures Valid() && Quiet() && pending.None? && offers == map[] && offered.None? && !deviceAlive
      ensures handle.selfRemovals == old(handle.selfRemovals)
      ensures Destroys(said, old(offers).Keys)
      ensures trace == old(trace) + Abandonment(old(pending)) + said + Release(old(offered)) + [DestroyDevice]
      ensures Grew(old(fates), fates, published, published)
      ensures fates == if old(pending).Some? then old(fates)[generation := Abandoned] else old(fates)
      ensures forall s <- SourcesAfter(trace).states.Keys :: SourcesAfter(trace).states[s].Destroyed?
      ensures LedgerAfter(trace).Ledger? ==>
                forall o <- LedgerAfter(trace).offers.Keys :: LedgerAfter(trace).offers[o].Gone?
    {
      hide LoopFits;
      hide ReadingFits;
      hide PastesFit;
      hide WireFits;
      hide OffersFit;
      hide OffersSeparate;
      hide LedgerAfter;
      hide Destroys;
      hide SourcesAfter;
      Elsewhere(this);
      Elsewhere(handle);
      AbandonPending();
      said := LetGo();
      NothingTracked(offers);
    }

    // ---- Pastes ----

    /** How many pastes may be parked. */
    function Limit(): nat {
      if config.maxPendingPastes == 0 then 1 else config.maxPendingPastes
    }

    /** A paste leaves the queue, and the loop with its timer and, if told to, its source. */
    method ForgetWrite(id: nat, write: PendingWrite, removeSource: bool)
      requires handle.Valid() && write.token in handle.live
      requires write.timeout.Some? ==> write.timeout.value in handle.live && write.timeout.value != write.token
      modifies this`writeOrder, handle`live, handle`selfRemovals
      ensures handle.Valid() && writeOrder == Without(old(writeOrder), id)
      ensures handle.live == if removeSource then Unregistered(old(handle.live), write)
        else Untimed(old(handle.live), write)
      ensures handle.selfRemovals == old(handle.selfRemovals) +
              (if removeSource && handle.dispatching == Some(write.token)
               then [Removal(write.token, old(handle.live)[write.token])] else []) +
              (if write.timeout.Some? && handle.dispatching == write.timeout
               then [Removal(write.timeout.value, old(handle.live)[write.timeout.value])] else [])
    {
      if removeSource {
        handle.Remove(write.token);
      }
      if write.timeout.Some? {
        handle.Remove(write.timeout.value);
      }
      writeOrder := Without(writeOrder, id);
    }

    /** The paste at the head of the queue leaves the tables and the loop. */
    method EvictOldest()
      requires LoopFits() && PastesFit() && detached == {} && handle.dispatching.None? && writeOrder != []
      modifies this`writes, this`writeOrder, handle`live, handle`selfRemovals
      ensures LoopFits() && PastesFit()
      ensures old(writeOrder)[0] in old(writes) && writes == Fewer(old(writes), old(writeOrder)[0])
      ensures writeOrder == old(writeOrder)[1..] && |writes| == |old(writes)| - 1
      ensures handle.selfRemovals == old(handle.selfRemovals)
    {
      hide ReadsMatch;
      hide WritesMatch;
      hide QueueFits;
      hide ParkedFits;
      hide Separate;
      hide Without;
      hide Fewer;
      hide Unregistered;
      hide TimerOf;
      var oldest := writeOrder[0];
      PoppingTheOldest(writeOrder, writes, nextWrite);
      FewerParked(writes, origins, oldest);
      writeOrder := writeOrder[1..];
      if oldest in writes {
        var write := writes[oldest];
        assert handle.live - detached == handle.live;
        ParkedIsRegistered(handle.live, writes, oldest);
        RemovingAWrite(handle.live, pending, writes, oldest);
        writes := Fewer(writes, oldest);
        Elsewhere(handle);
        ForgetWrite(oldest, write, true);
        Elsewhere(this);
        assert handle.live - detached == handle.live;
      }
    }

    /** Evict from the head of the queue until it is below the limit. The loop ends because each turn
        takes one off the queue. */
    method MakeRoomForAWrite()
      requires LoopFits() && PastesFit() && detached == {} && handle.dispatching.None?
      modifies this`writes, this`writeOrder, handle`live, handle`selfRemovals
      ensures LoopFits() && PastesFit() && |writes| < Limit() && |old(writeOrder)| <= Limit()
      ensures |old(writeOrder)| < Limit() ==> writes == old(writes) && writeOrder == old(writeOrder)
      ensures |old(writeOrder)| == Limit() ==>
                writeOrder == old(writeOrder)[1..] && writes == Fewer(old(writes), old(writeOrder)[0])
      ensures handle.selfRemovals == old(handle.selfRemovals)
    {
      hide LoopFits;
      hide QueueFits;
      hide ParkedFits;
      hide Separate;
      hide Fewer;
      QueueCountsParked(writeOrder, writes, nextWrite);
      ghost var evicted := 0;
      while |writes| >= config.maxPendingPastes
        invariant LoopFits() && PastesFit() && |writes| == |writeOrder|
        invariant evicted <= 1 && handle.selfRemovals == old(handle.selfRemovals)
        invariant evicted == 0 ==> writes == old(writes) && writeOrder == old(writeOrder)
        invariant evicted == 1 ==>
                    && |old(writeOrder)| == Limit()
                    && writeOrder == old(writeOrder)[1..] && writes == Fewer(old(writes), old(writeOrder)[0])
        decreases |writeOrder|
      {
        if writeOrder == [] {
          return;
        }
        EvictOldest();
        evicted := evicted + 1;
      }
    }

    /** Register a paste's pipe and its timer with the loop. */
    method InsertSources(
        id: nat, mime: string, writer: BlobWriter, pipe: Pipe, timerFails: bool) returns (write: PendingWrite)
      requires handle.Valid() && ReadsMatch(handle.live, pending) && WritesMatch(handle.live, writes) && id !in writes
      modifies handle`live, handle`nextToken
      ensures handle.Valid() && ReadsMatch(handle.live, pending) && WritesMatch(handle.live, With(writes, id, write))
      ensures write.mime == mime && write.writer == writer && write.pipe == pipe
      ensures timerFails <==> write.timeout.None?
    {
      hide ReadsMatch;
      hide WritesMatch;
      label registering:
      var token := handle.Insert(WriteSource(id));
      write := PendingWrite(mime, writer, pipe, token, None);
      AddingAWrite(old@registering(handle.live), pending, writes, id, write);
      if timerFails {
        return;
      }
      label arming:
      var timer := handle.Insert(WriteTimer(id));
      AddingAWriteTimer(old@arming(handle.live), pending, writes[id := write], id, timer);
      assert writes[id := write][id := write.(timeout := Some(timer))] == writes[id := write.(timeout := Some(timer))];
      write := write.(timeout := Some(timer));
    }

    /** Enter a registered paste in the tables, last in the queue. */
    method Enter(id: nat, write: PendingWrite, ghost origin: OwnedOffer)
      requires handle.Valid() && ReadsMatch(handle.live, pending) && WritesMatch(handle.live, With(writes, id, write))
      requires PastesFit() && detached == {} && |writes| < Limit() && id == nextWrite
      requires forall other <- writes.Keys :: writes[other].pipe != write.pipe && writes[other].writer != write.writer
      requires PasteFits(write, origin)
      modifies this`writes, this`writeOrder, this`nextWrite, this`origins
      ensures LoopFits() && PastesFit()
      ensures nextWrite == id + 1 && writeOrder == old(writeOrder) + [id] && origins == old(origins)[id := origin]
      ensures writes == With(old(writes), id, write)
    {
      hide ReadsMatch;
      hide WritesMatch;
      hide QueueFits;
      hide ParkedFits;
      hide Separate;
      hide BlobFor;
      hide With;
      OneMoreParked(writes, origins, writeOrder, id, write, origin);
      writes, writeOrder, origins := With(writes, id, write), writeOrder + [id], origins[id := origin];
      nextWrite := id + 1;
      Elsewhere(this);
      assert handle.live - detached == handle.live;
    }

    method Register(mime: string, writer: BlobWriter, pipe: Pipe, timerFails: bool, ghost origin: OwnedOffer)
      requires LoopFits() && PastesFit() && detached == {} && |writes| < Limit()
      requires forall id <- writes.Keys :: writes[id].pipe != pipe && writes[id].writer != writer
      requires writer.Valid() && pipe.Valid() && pipe.entered == writer.data[..writer.written]
      requires BlobFor(origin.flavors, mime) == Some(writer.data)
      modifies this`writes, this`writeOrder, this`nextWrite, this`origins, handle`live, handle`nextToken
      ensures LoopFits() && PastesFit()
      ensures nextWrite == old(nextWrite) + 1 && writeOrder == old(writeOrder) + [old(nextWrite)]
      ensures origins == old(origins)[old(nextWrite) := origin]
      ensures old(nextWrite) in writes && writes == With(old(writes), old(nextWrite), writes[old(nextWrite)])
      ensures writes[old(nextWrite)].(token := 0, timeout := None) == PendingWrite(mime, writer, pipe, 0, None)
    {
      hide ReadsMatch;
      hide WritesMatch;
      hide PastesFit;
      hide BlobFor;
      hide With;
      NextIsNotParked();
      assert handle.live - detached == handle.live;
      Elsewhere(handle);
      var write := InsertSources(nextWrite, mime, writer, pipe, timerFails);
      Included(writes, nextWrite, write);
      Enter(nextWrite, write, origin);
    }

    lemma {:induction false} NextIsNotParked()
      requires PastesFit()
      ensures nextWrite !in writes
    {
      LaterIds(writeOrder, writes, nextWrite);
    }

    /** The tables after a paste was parked: the oldest made room if it had to, and the new one is
        last, unless it could not be registered. */
    twostate predicate ParkedLast(mime: string, data: Bytes, new pipe: Pipe, registerFails: bool, origin: OwnedOffer)
      reads this`writes, this`writeOrder, this`origins
    {
      var rest := if |old(writeOrder)| < Limit() then old(writes) else Fewer(old(writes), old(writeOrder)[0]);
      var order := if |old(writeOrder)| < Limit() then old(writeOrder) else old(writeOrder)[1..];
      var id := old(nextWrite);
      if registerFails then writes == rest && writeOrder == order && origins == old(origins)
      else
        && id in writes && writes == With(rest, id, writes[id]) && writeOrder == order + [id]
        && writes[id].mime == mime && writes[id].pipe == pipe && writes[id].writer.data == data
        && origins == old(origins)[id := origin]
    }

    /** An id is used up even by a paste that could not be registered. */
    method SkipId()
      requires PastesFit()
      modifies this`nextWrite
      ensures PastesFit() && nextWrite == old(nextWrite) + 1
    {
      hide QueueFits;
      hide ParkedFits;
      hide Separate;
      LaterIds(writeOrder, writes, nextWrite);
      Elsewhere(this);
      nextWrite := nextWrite + 1;
    }

    /** Park what is left of a paste on the loop, after making room for it. */
    method Park(
      mime: string, writer: BlobWriter, pipe: Pipe, registerFails: bool, timerFails: bool, ghost origin: OwnedOffer)
      requires LoopFits() && PastesFit() && detached == {} && handle.dispatching.None?
      requires forall id <- writes.Keys :: writes[id].pipe != pipe && writes[id].writer != writer
      requires writer.Valid() && pipe.Valid() && pipe.entered == writer.data[..writer.written]
      requires BlobFor(origin.flavors, mime) == Some(writer.data)
      modifies this`writes, this`writeOrder, this`nextWrite, this`origins
      modifies handle`live, handle`nextToken, handle`selfRemovals
      ensures LoopFits() && PastesFit() && nextWrite == old(nextWrite) + 1
      ensures handle.selfRemovals == old(handle.selfRemovals)
      ensures ParkedLast(mime, writer.data, pipe, registerFails, origin)
      ensures forall id <- writes.Keys ::
                || (id in old(writes) && writes[id] == old(writes)[id])
                || (writes[id].writer == writer && writes[id].pipe == pipe)
    {
      hide LoopFits;
      hide PastesFit;
      hide BlobFor;
      hide Fewer;
      hide With;
      MakeRoomForAWrite();
      ghost var rest := writes;
      if |old(writeOrder)| == Limit() {
        FewerAreTheSame(old(writes), old(writeOrder)[0]);
      }
      if registerFails {
        SkipId();
        return;
      }
      Register(mime, writer, pipe, timerFails, origin);
      OneMoreIsTheSame(rest, old(nextWrite), writes[old(nextWrite)]);
    }

    /** What became of a paste: all of it is in the pipe, or the pipe is full and the rest is parked,
        unless its end broke or it could not be prepared or registered. */
    twostate predicate Ended(
      outcome: Paste, mime: string, blob: Bytes, new pipe: Pipe, blocking: bool, registerFails: bool,
      origin: OwnedOffer)
      reads this`writes, this`writeOrder, this`nextWrite, this`origins, pipe
    {
      && (nextWrite == if outcome.Waiting? || outcome.Unplaced? then old(nextWrite) + 1 else old(nextWrite))
      && (!outcome.Waiting? && !outcome.Unplaced? ==>
            writes == old(writes) && writeOrder == old(writeOrder) && origins == old(origins))
      && pipe.entered <= blob
      && match outcome
         case Refused => false
         case Unprepared => blocking && pipe.entered == []
         case Sent => pipe.entered == blob
         case BrokenOff => pipe.broken
         case Unplaced => registerFails && |pipe.buffer| == pipe.capacity && ParkedLast(mime, blob, pipe, true, origin)
         case Waiting => !registerFails && |pipe.buffer| == pipe.capacity && ParkedLast(mime, blob, pipe, false, origin)
    }

    /** Answer a request with a blob: what the pipe takes goes at once, and a paste with bytes left is
        parked. */
    method BeginWrite(
      mime: string, blob: Bytes, pipe: Pipe, blocking: bool, registerFails: bool, timerFails: bool,
      ghost origin: OwnedOffer)
      returns (ghost outcome: Paste)
      requires LoopFits() && PastesFit() && detached == {} && handle.dispatching.None?
      requires BlobFor(origin.flavors, mime) == Some(blob)
      requires pipe.Valid() && pipe.entered == [] && forall id <- writes.Keys :: writes[id].pipe != pipe
      modifies this`writes, this`writeOrder, this`nextWrite, this`origins, pipe
      modifies handle`live, handle`nextToken, handle`selfRemovals
      ensures LoopFits() && PastesFit() && pipe.Valid()
      ensures handle.selfRemovals == old(handle.selfRemovals)
      ensures Ended(outcome, mime, blob, pipe, blocking, registerFails, origin)
      ensures forall id <- writes.Keys ::
                || (id in old(writes) && writes[id] == old(writes)[id])
                || (fresh(writes[id].writer) && writes[id].pipe == pipe)
    {
      hide LoopFits;
      hide PastesFit;
      hide BlobFor;
      hide Fewer;
      hide With;
      if blocking {
        return Unprepared;
      }
      Elsewhere(pipe);
      var writer := new BlobWriter(blob);
      forall id <- writes.Keys ensures writes[id].writer != writer {
        var other: BlobWriter := writes[id].writer;
        assert old(allocated(other));
      }
      Elsewhere(writer);
      var progress := writer.Pump(pipe);
      assert blob[..|blob|] == blob;
      if !progress.Blocked? {
        return if progress.Finished? then Sent else BrokenOff;
      }
      Park(mime, writer, pipe, registerFails, timerFails, origin);
      outcome := if registerFails then Unplaced else Waiting;
    }

    /** What a request for `mime` from `source` is answered with: nothing unless the source is the
        one that owns the clipboard and the type was advertised. */
    function Answer(source: SourceId, mime: string): Option<Bytes>
      reads this`offered
    {
      if SourceOf(offered) != Some(source) then None else BlobFor(offered.value.flavors, mime)
    }

    /** An application pastes from clippo. What it is not given leaves everything as it is. */
    method SourceSend(
      source: SourceId, mime: string, pipe: Pipe, blocking: bool, registerFails: bool, timerFails: bool)
      returns (ghost outcome: Paste)
      requires LoopFits() && PastesFit() && detached == {} && handle.dispatching.None?
      requires pipe.Valid() && pipe.entered == [] && forall id <- writes.Keys :: writes[id].pipe != pipe
      modifies this`writes, this`writeOrder, this`nextWrite, this`origins, pipe
      modifies handle`live, handle`nextToken, handle`selfRemovals
      ensures LoopFits() && PastesFit() && pipe.Valid()
      ensures handle.selfRemovals == old(handle.selfRemovals)
      ensures outcome.Refused? <==> Answer(source, mime).None?
      ensures outcome.Refused? ==>
                && unchanged(pipe) && nextWrite == old(nextWrite) && writes == old(writes)
                && writeOrder == old(writeOrder) && origins == old(origins)
      ensures Answer(source, mime).Some? ==>
                && offered.Some?
                && Ended(outcome, mime, Answer(source, mime).value, pipe, blocking, registerFails, offered.value)
      ensures forall id <- writes.Keys ::
                || (id in old(writes) && writes[id] == old(writes)[id])
                || (fresh(writes[id].writer) && writes[id].pipe == pipe)
    {
      hide LoopFits;
      hide PastesFit;
      hide BlobFor;
      hide Fewer;
      hide ParkedLast;
      if offered.None? || offered.value.source != source {
        return Refused;
      }
      var blob := BlobFor(offered.value.flavors, mime);
      if blob.None? {
        return Refused;
      }
      outcome := BeginWrite(mime, blob.value, pipe, blocking, registerFails, timerFails, offered.value);
    }

    /** Write what one parked paste's pipe takes. */
    method PumpParked(id: nat) returns (progress: WriteProgress)
      requires PastesFit() && id in writes
      modifies writes[id].writer, writes[id].pipe
      ensures PastesFit()
      ensures progress.Finished? <==> writes[id].writer.written == |writes[id].writer.data|
      ensures progress.Blocked? ==> |writes[id].pipe.buffer| == writes[id].pipe.capacity
      ensures progress.Failed? ==> writes[id].pipe.broken
      ensures old(writes[id].pipe.entered) <= writes[id].pipe.entered
    {
      hide QueueFits;
      hide BlobFor;
      var write := writes[id];
      ghost var before := write.writer.written;
      Elsewhere(write.writer);
      Elsewhere(write.pipe);
      progress := write.writer.Pump(write.pipe);
      var data := write.writer.data;
      assert data[..before] + data[before..write.writer.written] == data[..write.writer.written];
    }

    /** A parked paste that is over leaves the tables. Its own source is running, and goes by what
        its callback returns. */
    method ResolveReady(id: nat)
      requires LoopFits() && PastesFit() && detached == {} && id in writes
      requires handle.dispatching.Some? && handle.dispatching.value in handle.live
      requires handle.live[handle.dispatching.value] == WriteSource(id)
      modifies this`writes, this`writeOrder, this`detached, handle`live, handle`selfRemovals
      ensures LoopFits() && PastesFit() && detached == {handle.dispatching.value}
      ensures handle.selfRemovals == old(handle.selfRemovals)
      ensures writes == Fewer(old(writes), id) && writeOrder == Without(old(writeOrder), id)
    {
      hide ReadsMatch;
      hide WritesMatch;
      hide QueueFits;
      hide ParkedFits;
      hide Separate;
      hide Without;
      hide Fewer;
      hide TimerOf;
      hide Unregistered;
      hide Untimed;
      var write := writes[id];
      assert handle.live - detached == handle.live;
      ParkedIsRegistered(handle.live, writes, id);
      OwnSource(handle.live, writes, id, handle.dispatching.value);
      RemovingAWrite(handle.live, pending, writes, id);
      EitherWay(handle.live, write);
      FewerParked(writes, origins, id);
      FewerIsOneFewer(writes, id);
      LeavingTheQueue(writeOrder, writes, nextWrite, id);
      writes := Fewer(writes, id);
      Elsewhere(handle);
      ForgetWrite(id, write, false);
      detached := {handle.dispatching.value};
    }

    /** A receiver stopped reading: its paste leaves the tables with both its registrations. One of
        them is the timer that is running, so the loop is asked to remove the very source whose
        callback is under way. */
    method ResolveStalled(id: nat)
      requires LoopFits() && PastesFit() && detached == {} && id in writes
      requires handle.dispatching.Some? && handle.dispatching.value in handle.live
      requires handle.live[handle.dispatching.value] == WriteTimer(id)
      modifies this`writes, this`writeOrder, handle`live, handle`selfRemovals
      ensures old(handle.dispatching).value !in handle.live
      ensures handle.selfRemovals == old(handle.selfRemovals) + [Removal(old(handle.dispatching).value, WriteTimer(id))]
      ensures writes == Fewer(old(writes), id) && writeOrder == Without(old(writeOrder), id)
      ensures LoopFits() && PastesFit()
    {
      hide ReadsMatch;
      hide WritesMatch;
      hide QueueFits;
      hide ParkedFits;
      hide Separate;
      hide Without;
      hide Fewer;
      hide TimerOf;
      hide Unregistered;
      var write := writes[id];
      assert handle.live - detached == handle.live;
      ParkedIsRegistered(handle.live, writes, id);
      OwnTimer(handle.live, writes, id, handle.dispatching.value);
      RemovingAWrite(handle.live, pending, writes, id);
      TimerIsGone(handle.live, write);
      FewerParked(writes, origins, id);
      FewerIsOneFewer(writes, id);
      LeavingTheQueue(writeOrder, writes, nextWrite, id);
      writes := Fewer(writes, id);
      Elsewhere(handle);
      ForgetWrite(id, write, true);
      assert handle.live - detached == handle.live;
    }

    /** The callback of a parked paste: write on, and forget the paste once it is sent or has failed. */
    method OnWriteReady(id: nat) returns (action: PostAction)
      requires LoopFits() && PastesFit() && detached == {}
      requires id in writes <==> handle.dispatching.Some?
      requires handle.dispatching.Some? ==>
                 handle.dispatching.value in handle.live && handle.live[handle.dispatching.value] == WriteSource(id)
      modifies this`writes, this`writeOrder, this`detached, handle`live, handle`selfRemovals
      modifies if id in writes then {writes[id].writer} else {}
      modifies if id in writes then {writes[id].pipe} else {}
      ensures LoopFits() && PastesFit() && RunsDetached() == action.Remove?
      ensures handle.selfRemovals == old(handle.selfRemovals)
      ensures detached == if action.Remove? && handle.dispatching.Some? then {handle.dispatching.value} else {}
      ensures id !in old(writes) ==> action.Remove? && writes == old(writes) && writeOrder == old(writeOrder)
      ensures id in old(writes) ==> id in origins && PasteFits(old(writes)[id], origins[id])
      ensures id in old(writes) && action.Continue? ==>
                && writes == old(writes) && writeOrder == old(writeOrder)
                && |old(writes)[id].pipe.buffer| == old(writes)[id].pipe.capacity
      ensures id in old(writes) && action.Remove? ==>
                && writes == Fewer(old(writes), id) && writeOrder == Without(old(writeOrder), id)
                && (old(writes)[id].writer.written == |old(writes)[id].writer.data| || old(writes)[id].pipe.broken)
    {
      hide ReadsMatch;
      hide WritesMatch;
      hide QueueFits;
      hide Separate;
      hide PasteFits;
      hide Without;
      hide Fewer;
      action := Remove;
      if id !in writes {
        return;
      }
      Elsewhere(handle);
      Elsewhere(this);
      Elsewhere(writes[id].writer);
      Elsewhere(writes[id].pipe);
      var progress := PumpParked(id);
      if progress.Blocked? {
        return Continue;
      }
      ResolveReady(id);
    }

    /** The callback of a paste's timer: the paste is forgotten. */
    method OnWriteTimeout(id: nat)
      requires LoopFits() && PastesFit() && detached == {}
      requires id in writes <==> handle.dispatching.Some?
      requires handle.dispatching.Some? ==>
                 handle.dispatching.value in handle.live && handle.live[handle.dispatching.value] == WriteTimer(id)
      modifies this`writes, this`writeOrder, handle`live, handle`selfRemovals
      ensures LoopFits() && PastesFit()
      ensures id !in old(writes) ==>
                writes == old(writes) && writeOrder == old(writeOrder) &&
                handle.selfRemovals == old(handle.selfRemovals)
      ensures id in old(writes) ==>
                && id in origins && PasteFits(old(writes)[id], origins[id])
                && writes == Fewer(old(writes), id) && writeOrder == Without(old(writeOrder), id)
                && handle.dispatching.Some?
                && handle.selfRemovals == old(handle.selfRemovals) + [Removal(handle.dispatching.value, WriteTimer(id))]
                && handle.dispatching.value !in handle.live
    {
      hide LoopFits;
      hide PastesFit;
      hide Fewer;
      hide Without;
      hide PasteFits;
      if id in writes {
        ItFits(id);
        Elsewhere(handle);
        Elsewhere(this);
        ResolveStalled(id);
      }
    }

    lemma {:induction false} ItFits(id: nat)
      requires PastesFit() && id in writes
      ensures id in origins && PasteFits(writes[id], origins[id])
    {
      hide PasteFits;
    }

    // ---- Turns of the loop ----

    /** Every object the watcher's state is made of. */
    ghost function Footprint(): set<object>
      reads this`pending, this`writes, this`offers
    {
      {this, handle} + (if pending.Some? then {pending.value.selection} else {})
      + (set id | id in writes :: writes[id].writer) + (set id | id in writes :: writes[id].pipe)
      + (set o | o in offers :: offers[o])
    }

    /** The callback has returned, and the loop does what it was told. */
    method Settle(remove: bool)
      requires LoopFits() && handle.dispatching.Some?
      requires detached == {} || (remove && detached == {handle.dispatching.value})
      requires remove && detached == {} ==> handle.dispatching.value !in handle.live
      modifies this`detached, handle`live, handle`dispatching
      ensures LoopFits() && handle.dispatching.None? && detached == {}
    {
      hide ReadsMatch;
      hide WritesMatch;
      label returned:
      handle.End(remove);
      assert handle.live == old@returned(handle.live - detached);
      detached := {};
      assert handle.live - detached == handle.live;
    }

    /** One of the pending selection's sources fires: a pipe is readable, or the timer is up. */
    method FireRead(token: Token, pipe: Pipe)
      requires LoopFits() && ReadingFits() && WireFits() && Quiet() && pipe.Valid()
      requires token in handle.live && (handle.live[token].ReadSource? || handle.live[token].ReadTimer?)
      modifies this`pending, this`fates, this`published, this`emitted, this`delivered
      modifies this`trace, this`stopped, this`detached
      modifies if pending.Some? then {pending.value.selection} else {}
      modifies pipe, handle`live, handle`selfRemovals, handle`dispatching
      ensures LoopFits() && ReadingFits() && WireFits() && Quiet()
      ensures handle.selfRemovals == old(handle.selfRemovals)
      ensures Grew(old(fates), fates, old(published), published)
      ensures old(pending).Some? && (pending.Some? ==> pending.value.selection == old(pending).value.selection)
      ensures old(handle.live)[token].ReadTimer? ==> pending.None?
    {
      hide ReadsMatch;
      hide WritesMatch;
      hide WireFits;
      hide ReadingFits;
      hide Grew;
      hide SlotDrained;
      hide PublishedNow;
      hide GivenUp;
      assert handle.live - detached == handle.live;
      ReadIsCurrent(handle.live, pending, token);
      var registration := handle.live[token];
      handle.Begin(token);
      if registration.ReadSource? {
        var action := OnFlavorReadable(registration.generation, registration.slot, pipe);
        Settle(action.Remove?);
      } else {
        OnReadTimeout(registration.generation);
        Settle(true);
      }
    }

    /** One of a parked paste's sources fires: its pipe has room, or its timer is up. */
    method FireWrite(token: Token)
      requires LoopFits() && PastesFit() && handle.dispatching.None? && detached == {}
      requires token in handle.live && (handle.live[token].WriteSource? || handle.live[token].WriteTimer?)
      modifies this`writes, this`writeOrder, this`detached
      modifies handle`live, handle`selfRemovals, handle`dispatching
      modifies if handle.live[token].id in writes then {writes[handle.live[token].id].writer} else {}
      modifies if handle.live[token].id in writes then {writes[handle.live[token].id].pipe} else {}
      ensures LoopFits() && PastesFit() && handle.dispatching.None? && detached == {}
      ensures handle.selfRemovals == old(handle.selfRemovals) +
              if old(handle.live)[token].WriteTimer? then [Removal(token, old(handle.live)[token])] else []
      ensures var id := old(handle.live)[token].id;
              && id in old(writes) && id in origins && PasteFits(old(writes)[id], origins[id])
              && (writes == old(writes) || writes == Fewer(old(writes), id))
    {
      hide ReadsMatch;
      hide WritesMatch;
      hide PastesFit;
      hide Fewer;
      hide Without;
      hide PasteFits;
      assert handle.live - detached == handle.live;
      WriteIsParked(handle.live, writes, token);
      var registration := handle.live[token];
      Elsewhere(handle);
      handle.Begin(token);
      if registration.WriteSource? {
        var action := OnWriteReady(registration.id);
        Elsewhere(handle);
        Elsewhere(this);
        Settle(action.Remove?);
      } else {
        OnWriteTimeout(registration.id);
        Elsewhere(handle);
        Elsewhere(this);
        Settle(true);
      }
    }

    /** The receiver of a parked paste takes some of what is in its pipe. */
    method Drain(id: nat, limit: nat)
      requires PastesFit() && id in writes && limit > 0
      modifies writes[id].pipe
      ensures PastesFit()
    {
      hide QueueFits;
      hide BlobFor;
      Elsewhere(writes[id].pipe);
      var _ := writes[id].pipe.Read(limit);
    }

    lemma {:induction false} FootprintAtFirst()
      requires pending.None? && writes == map[] && offers == map[]
      ensures Footprint() == {this, handle}
    {
    }

    /** Whatever the watcher is now made of, it was made of before or has just been allocated. */
    twostate predicate OwnsNothingElse()
      reads this`pending, this`writes, this`offers
    {
      && (pending.Some? ==>
            fresh(pending.value.selection) ||
            (old(pending).Some? && pending.value.selection == old(pending).value.selection))
      && (forall id <- writes.Keys ::
            || (fresh(writes[id].writer) && fresh(writes[id].pipe))
            || (id in old(writes) && writes[id].writer == old(writes)[id].writer &&
              writes[id].pipe == old(writes)[id].pipe))
      && (forall o <- offers.Keys :: fresh(offers[o]) || (o in old(offers) && offers[o] == old(offers)[o]))
    }

    twostate lemma FootprintGrows()
      requires OwnsNothingElse()
      ensures fresh(Footprint() - old(Footprint()))
    {
      forall o <- Footprint() - old(Footprint()) ensures fresh(o) {
        if id :| id in writes && writes[id].writer == o {
          assert id in old(writes) ==> old(writes)[id].writer in old(Footprint());
        } else if id :| id in writes && writes[id].pipe == o {
          assert id in old(writes) ==> old(writes)[id].pipe in old(Footprint());
        } else if id :| id in offers && offers[id] == o {
          assert id in old(offers) ==> old(offers)[id] in old(Footprint());
        }
      }
    }

    /** The command puts something on the clipboard, which is then clippo's under a new source. */
    method TurnCopies(happening: Happening)
      requires Valid() && Quiet() && deviceAlive && happening.Copies? && Accounted()
      modifies this`offered, this`nextSource, this`trace, this`owned
      ensures Valid() && Quiet() && Accounted() && owned == old(owned) + Puts(happening, |old(owned)|)
    {
      hide LoopFits;
      hide ReadingFits;
      hide PastesFit;
      hide WireFits;
      hide OffersFit;
      hide OffersSeparate;
      hide TakeOver;
      hide Offered;
      hide WasAnswered;
      Elsewhere(this);
      TakeSelection(happening.flavors);
      OwnedGrows(owned, Puts(happening, old(nextSource)), old(nextSource), old(offered), writes, origins, served);
      owned := owned + Puts(happening, old(nextSource));
    }

    /** Another application may have taken the clipboard. */
    method TurnCancels(happening: Happening)
      requires Valid() && Quiet() && happening.Cancels? && Accounted()
      modifies this`offered, this`trace, this`stopped, this`emitted, this`delivered
      ensures Valid() && Quiet() && Accounted()
    {
      hide LoopFits;
      hide ReadingFits;
      hide PastesFit;
      hide WireFits;
      hide OffersFit;
      hide OffersSeparate;
      hide WasAnswered;
      Elsewhere(this);
      SourceCancelled(happening.source);
    }

    /** The command, or another application, moves the clipboard; no paste comes or goes. */
    method TurnSource(happening: Happening)
      requires Valid() && Quiet() && deviceAlive && (happening.Copies? || happening.Cancels?) && Accounted()
      modifies this`offered, this`nextSource, this`trace, this`stopped, this`emitted, this`delivered, this`owned
      ensures Valid() && Quiet() && Accounted()
      ensures owned == old(owned) + Puts(happening, |old(owned)|) && PastesPass(happening)
      ensures LeaversRecorded(old(writes), old(origins), writes, served)
    {
      hide Valid;
      hide Quiet;
      hide WasAnswered;
      hide JustEnded;
      hide PastesKept;
      NothingPassed(happening, offered, writes, origins);
      NobodyLeft(writes, origins, served);
      if happening.Copies? {
        TurnCopies(happening);
      } else {
        TurnCancels(happening);
      }
    }

    /** Who is in the tables after a request was answered: whoever was, but for the oldest if it made
        room, and the new paste if it waits. */
    twostate lemma WhoIsParked(
      new outcome: Paste, new mime: string, new blob: Bytes, new pipe: Pipe, new blocking: bool,
      new registerFails: bool, new origin: OwnedOffer)
      requires Ended(outcome, mime, blob, pipe, blocking, registerFails, origin)
      requires QueueFits(old(writeOrder), old(writes), old(nextWrite))
      ensures forall id <- writes.Keys ::
                || (id in old(writes) && writes[id] == old(writes)[id])
                || (outcome.Waiting? && id == old(nextWrite) && id !in old(writes) && writes[id].mime == mime)
      ensures outcome.Waiting? ==> old(nextWrite) in writes && origins == old(origins)[old(nextWrite) := origin]
      ensures !outcome.Waiting? ==> origins == old(origins)
      ensures forall id <- old(writes).Keys | id !in writes :: old(writeOrder) != [] && id == old(writeOrder)[0]
      ensures old(nextWrite) !in old(writes) && pipe.entered <= blob
    {
      hide BlobFor;
      LaterIds(old(writeOrder), old(writes), old(nextWrite));
      if old(writeOrder) != [] {
        FewerAreTheSame(old(writes), old(writeOrder)[0]);
      }
    }

    method AnswerRequest(happening: Happening) returns (pipe: Pipe, ghost outcome: Paste)
      requires Valid() && Quiet() && happening.Sends?
      modifies this`writes, this`writeOrder, this`nextWrite, this`origins
      modifies handle`live, handle`nextToken, handle`selfRemovals
      ensures Valid() && Quiet() && handle.selfRemovals == old(handle.selfRemovals)
      ensures OwnsNothingElse() && fresh(pipe)
      ensures outcome.Refused? <==> Answer(happening.source, happening.mime).None?
      ensures outcome.Refused? ==> writes == old(writes) && origins == old(origins)
      ensures Answer(happening.source, happening.mime).Some? ==>
                && offered.Some?
                && Ended(outcome, happening.mime, Answer(happening.source, happening.mime).value, pipe,
                         happening.blocking, happening.registerFails, offered.value)
    {
      hide LoopFits;
      hide ReadingFits;
      hide PastesFit;
      hide WireFits;
      hide OffersFit;
      hide OffersSeparate;
      hide BlobFor;
      hide Fewer;
      hide With;
      pipe := new Pipe(happening.capacity, happening.interruptions, happening.sound);
      forall id <- writes.Keys ensures writes[id].pipe != pipe {
        var other: Pipe := writes[id].pipe;
        assert old(allocated(other));
      }
      Elsewhere(this);
      Elsewhere(handle);
      Elsewhere(pipe);
      outcome := SourceSend(happening.source, happening.mime, pipe, happening.blocking, happening.registerFails,
                            happening.timerFails);
    }

    /** A request is answered: who is in the tables afterwards, and what went into its pipe. */
    method TakeRequest(happening: Happening) returns (pipe: Pipe, ghost outcome: Paste)
      requires Valid() && Quiet() && happening.Sends?
      modifies this`writes, this`writeOrder, this`nextWrite, this`origins
      modifies handle`live, handle`nextToken, handle`selfRemovals
      ensures Valid() && Quiet() && handle.selfRemovals == old(handle.selfRemovals)
      ensures OwnsNothingElse() && fresh(pipe)
      ensures outcome.Refused? <==> Answer(happening.source, happening.mime).None?
      ensures outcome.Refused? ==> writes == old(writes) && origins == old(origins)
      ensures !outcome.Refused? ==>
                && offered.Some? && pipe.entered <= Answer(happening.source, happening.mime).value
                && origins == if outcome.Waiting? then old(origins)[old(nextWrite) := offered.value] else old(origins)
      ensures forall id <- writes.Keys ::
                || (id in old(writes) && writes[id] == old(writes)[id])
                || (outcome.Waiting? && id == old(nextWrite) && writes[id].mime == happening.mime)
      ensures forall id <- old(writes).Keys | id !in writes :: old(writeOrder) != [] && id == old(writeOrder)[0]
      ensures old(nextWrite) !in old(writes) && (outcome.Waiting? ==> old(nextWrite) in writes)
    {
      hide Valid;
      hide Quiet;
      hide Ended;
      hide QueueFits;
      hide BlobFor;
      hide PasteFits;
      TheQueueFits();
      LaterIds(writeOrder, writes, nextWrite);
      label before:
      pipe, outcome := AnswerRequest(happening);
      if !outcome.Refused? {
        WhoIsParked@before(
          outcome, happening.mime, Answer(happening.source, happening.mime).value, pipe, happening.blocking,
          happening.registerFails, offered.value);
      }
    }

    /** An application pastes. The paste is parked under the offer that owns the clipboard, or is over;
        the oldest one may have ended to make room for it. */
    method TurnSend(happening: Happening)
      requires Valid() && Quiet() && happening.Sends? && Accounted()
      modifies this`writes, this`writeOrder, this`nextWrite, this`origins, this`served
      modifies handle`live, handle`nextToken, handle`selfRemovals
      ensures Valid() && Quiet() && handle.selfRemovals == old(handle.selfRemovals) && Accounted()
      ensures OwnsNothingElse() && PastesPass(happening)
      ensures LeaversRecorded(old(writes), old(origins), writes, served)
      ensures forall id <- old(writes).Keys | id !in writes :: old(writeOrder) != [] && id == old(writeOrder)[0]
      ensures old(Answer(happening.source, happening.mime)).None? ==> writes == old(writes) && served == old(served)
      ensures old(Answer(happening.source, happening.mime)).Some? ==>
                || (old(nextWrite) in writes && old(nextWrite) !in old(writes))
                || (|served| > |old(served)| && Asks(happening, offered, served[|served| - 1].origin,
                                                     served[|served| - 1].mime))
    {
      hide Valid;
      hide Quiet;
      hide PasteFits;
      hide WasAnswered;
      hide PastesKept;
      hide JustEnded;
      hide LeaversRecorded;
      hide QueueFits;
      hide BlobFor;
      TheQueueFits();
      Elsewhere(this);
      Elsewhere(handle);
      ghost var was, wasIn, order, next := writes, origins, writeOrder, nextWrite;
      ghost var outcome;
      var pipe;
      pipe, outcome := TakeRequest(happening);
      ghost var ended: seq<Served> := [];
      if outcome.Refused? {
        NothingPassed(happening, offered, writes, origins);
        NobodyLeft(writes, origins, served + ended);
      } else {
        ended := MadeRoom(order, was, wasIn, writes) +
                 if outcome.Waiting? then [] else [Served(offered.value, happening.mime, pipe.entered)];
        AfterARequest(happening, outcome, Answer(happening.source, happening.mime).value, pipe, offered.value, owned,
                      order, next, was, wasIn, writes, origins, served, ended);
      }
      Note(happening, was, wasIn, ended);
    }

    /** Put the pastes that are over on record. */
    ghost method Note(
      happening: Happening, was: map<nat, PendingWrite>, wasIn: map<nat, OwnedOffer>, ended: seq<Served>)
      requires Valid() && Quiet() && Attributed(owned, nextSource, offered, was, wasIn, served)
      requires PastesKept(happening, offered, was, wasIn, writes, origins)
      requires forall r <- ended :: WasAnswered(r, owned) && JustEnded(happening, offered, was, wasIn, writes, r)
      requires LeaversRecorded(was, wasIn, writes, served + ended)
      modifies this`served
      ensures Valid() && Quiet() && Accounted() && old(served) <= served && |served| == |old(served)| + |ended|
      ensures ended != [] ==> served[|served| - 1] == ended[|ended| - 1]
      ensures ended == [] ==> served == old(served)
      ensures forall r <- served[|old(served)|..] :: JustEnded(happening, offered, was, wasIn, writes, r)
      ensures LeaversRecorded(was, wasIn, writes, served)
    {
      hide Valid;
      hide Quiet;
      hide WasAnswered;
      hide JustEnded;
      hide PastesKept;
      hide LeaversRecorded;
      Elsewhere(this);
      PipesAreElsewhere(was);
      StillAttributed(happening, owned, nextSource, offered, was, wasIn, served, writes, origins, ended);
      served := served + ended;
      assert served[|old(served)|..] == ended;
    }

    lemma {:induction false} PipesAreElsewhere(writes: map<nat, PendingWrite>)
      ensures forall id <- writes.Keys :: writes[id].pipe as object != this
    {
    }

    /** What the tables show while no callback runs. */
    lemma {:induction false} TheQueueFits()
      requires Valid()
      ensures QueueFits(writeOrder, writes, nextWrite)
      ensures writeOrder != [] ==> writeOrder[0] in writes
      ensures forall id <- writes.Keys :: id in origins && PasteFits(writes[id], origins[id])
    {
      if writeOrder != [] {
        OldestIsParked(writeOrder, writes, nextWrite);
      }
    }

    method TurnFires(
      token: Token, arrived: Bytes, ended: bool, interruptions: nat, sound: bool, ghost happening: Happening)
      requires Valid() && Quiet() && token in handle.live && Accounted()
      modifies Footprint()
      ensures Valid() && Quiet() && OwnsNothingElse() && Accounted() && PastesPass(happening)
      ensures owned == old(owned) && nextSource == old(nextSource)
      ensures LeaversRecorded(old(writes), old(origins), writes, served)
      ensures deviceAlive == old(deviceAlive) && generation == old(generation)
      ensures Grew(old(fates), fates, old(published), published)
      ensures handle.selfRemovals == old(handle.selfRemovals) +
              if old(handle.live)[token].WriteTimer? then [Removal(token, old(handle.live)[token])] else []
    {
      hide Valid;
      hide Quiet;
      hide OwnsNothingElse;
      hide Accounted;
      hide PastesPass;
      hide LeaversRecorded;
      hide Grew;
      NothingGrew(fates, published);
      if handle.live[token].ReadSource? || handle.live[token].ReadTimer? {
        TurnReads(token, arrived, ended, interruptions, sound);
        UntouchedPasses(happening);
      } else {
        TurnWrite(token, happening);
      }
    }

    /** The pipe holds what had arrived by the time the loop came to it. */
    method TurnReads(token: Token, arrived: Bytes, ended: bool, interruptions: nat, sound: bool)
      requires Valid() && Quiet() && token in handle.live
      requires handle.live[token].ReadSource? || handle.live[token].ReadTimer?
      modifies this`pending, this`fates, this`published, this`emitted, this`delivered
      modifies this`trace, this`stopped, this`detached
      modifies if pending.Some? then {pending.value.selection} else {}
      modifies handle`live, handle`selfRemovals, handle`dispatching
      ensures Valid() && Quiet() && OwnsNothingElse()
      ensures Grew(old(fates), fates, old(published), published)
      ensures handle.selfRemovals == old(handle.selfRemovals)
    {
      hide LoopFits;
      hide ReadingFits;
      hide PastesFit;
      hide WireFits;
      hide OffersFit;
      hide OffersSeparate;
      hide Grew;
      var pipe := new Pipe.Holding(arrived, !ended, interruptions, sound);
      Elsewhere(pipe);
      forall id <- writes.Keys ensures writes[id].pipe != pipe {
        var other: Pipe := writes[id].pipe;
        assert old(allocated(other));
      }
      TurnRead(token, pipe);
    }

    method TurnRead(token: Token, pipe: Pipe)
      requires Valid() && Quiet() && token in handle.live
      requires handle.live[token].ReadSource? || handle.live[token].ReadTimer?
      requires pipe.Valid() && pipe !in Footprint()
      modifies this`pending, this`fates, this`published, this`emitted, this`delivered
      modifies this`trace, this`stopped, this`detached
      modifies if pending.Some? then {pending.value.selection} else {}
      modifies pipe, handle`live, handle`selfRemovals, handle`dispatching
      ensures Valid() && Quiet() && OwnsNothingElse()
      ensures Grew(old(fates), fates, old(published), published)
      ensures handle.selfRemovals == old(handle.selfRemovals)
    {
      hide LoopFits;
      hide ReadingFits;
      hide PastesFit;
      hide WireFits;
      hide OffersFit;
      hide OffersSeparate;
      hide Grew;
      Elsewhere(this);
      Elsewhere(handle);
      Elsewhere(pipe);
      if pending.Some? {
        Elsewhere(pending.value.selection);
      }
      FireRead(token, pipe);
    }

    method MoveWrite(token: Token)
      requires Valid() && Quiet() && token in handle.live
      requires handle.live[token].WriteSource? || handle.live[token].WriteTimer?
      modifies this`writes, this`writeOrder, this`detached
      modifies handle`live, handle`selfRemovals, handle`dispatching
      modifies if handle.live[token].id in writes then {writes[handle.live[token].id].writer} else {}
      modifies if handle.live[token].id in writes then {writes[handle.live[token].id].pipe} else {}
      ensures Valid() && Quiet() && OwnsNothingElse()
      ensures handle.selfRemovals == old(handle.selfRemovals) +
              if old(handle.live)[token].WriteTimer? then [Removal(token, old(handle.live)[token])] else []
      ensures var id := old(handle.live)[token].id;
              && id in old(writes) && id in origins && PasteFits(old(writes)[id], origins[id])
              && (writes == old(writes) || writes == Fewer(old(writes), id))
    {
      hide LoopFits;
      hide ReadingFits;
      hide PastesFit;
      hide WireFits;
      hide OffersFit;
      hide OffersSeparate;
      hide PasteFits;
      Elsewhere(this);
      Elsewhere(handle);
      var id := handle.live[token].id;
      if id in writes {
        Elsewhere(writes[id].writer);
        Elsewhere(writes[id].pipe);
      }
      FireWrite(token);
    }

    /** A parked paste that ends is recorded with what went into its pipe. */
    method TurnWrite(token: Token, ghost happening: Happening)
      requires Valid() && Quiet() && token in handle.live && Accounted()
      requires handle.live[token].WriteSource? || handle.live[token].WriteTimer?
      modifies this`writes, this`writeOrder, this`detached, this`served
      modifies handle`live, handle`selfRemovals, handle`dispatching
      modifies if handle.live[token].id in writes then {writes[handle.live[token].id].writer} else {}
      modifies if handle.live[token].id in writes then {writes[handle.live[token].id].pipe} else {}
      ensures Valid() && Quiet() && OwnsNothingElse() && Accounted() && PastesPass(happening)
      ensures handle.selfRemovals == old(handle.selfRemovals) +
              if old(handle.live)[token].WriteTimer? then [Removal(token, old(handle.live)[token])] else []
      ensures LeaversRecorded(old(writes), old(origins), writes, served)
    {
      hide Valid;
      hide Quiet;
      hide PasteFits;
      hide WasAnswered;
      hide PastesKept;
      hide JustEnded;
      hide LeaversRecorded;
      Elsewhere(this);
      ghost var was, id := writes, handle.live[token].id;
      MoveWrite(token);
      ghost var ended: seq<Served> := [];
      if id !in writes {
        PasteWasAnswered(was[id], origins[id], owned);
        ended := [Served(origins[id], was[id].mime, was[id].pipe.entered)];
      }
      LeavingPasses(happening, offered, was, origins, id, served, writes, ended);
      Note(happening, was, origins, ended);
    }

    method TurnIntroduced(offer: OfferId)
      requires Valid() && Quiet()
      modifies this`offers, this`trace
      ensures Valid() && Quiet() && OwnsNothingElse()
    {
      hide LoopFits;
      hide ReadingFits;
      hide PastesFit;
      hide WireFits;
      hide OffersFit;
      hide OffersSeparate;
      Elsewhere(this);
      OfferCreated(offer);
    }

    /** The compositor introduces an offer, says what it holds, or selects it. */
    method TurnOffer(happening: Happening)
      requires Valid() && Quiet() && (happening.Introduced? || happening.Advertises? || happening.Selected?)
      modifies Footprint()
      ensures Valid() && Quiet() && OwnsNothingElse() && PastesUntouched()
      ensures deviceAlive == old(deviceAlive) && old(generation) <= generation
      ensures Grew(old(fates), fates, old(published), published) && handle.selfRemovals == old(handle.selfRemovals)
    {
      hide Valid;
      hide Quiet;
      hide Wanted;
      hide Recorded;
      hide Destroys;
      hide Abandonment;
      hide FirstSlots;
      hide Requests;
      hide AllAtOnce;
      match happening {
        case Introduced(offer) => TurnIntroduced(offer);
        case Advertises(offer, mime) => OfferMime(offer, mime);
        case Selected(kind, offer, setups, timerFails) =>
          var _ := SelectionChanged(kind, offer, setups, timerFails);
      }
    }

    method TurnDrains(id: nat, limit: nat)
      requires Valid() && Quiet() && id in writes && limit > 0
      modifies writes[id].pipe
      ensures Valid() && Quiet()
    {
      hide LoopFits;
      hide ReadingFits;
      hide PastesFit;
      hide WireFits;
      hide OffersFit;
      hide OffersSeparate;
      Elsewhere(writes[id].pipe);
      Drain(id, limit);
    }

    /** The compositor retired the device: the loop stops. */
    method DeviceFinished()
      requires Valid() && Quiet()
      modifies this`stopped
      ensures Valid() && Quiet() && stopped
    {
      hide LoopFits;
      hide ReadingFits;
      hide PastesFit;
      hide WireFits;
      hide OffersFit;
      hide OffersSeparate;
      Elsewhere(this);
      stopped := true;
    }

    /** What the records and the wire show once nothing is pending. */
    lemma {:induction false} InTheEnd()
      requires Valid() && pending.None?
      ensures forall g: nat {:trigger g in fates} :: g in fates <==> 1 <= g <= generation
      ensures forall i, j | 0 <= i < j < |published| :: published[i] < published[j]
      ensures forall g: nat {:trigger g in published} :: g in published <==> g in fates && fates[g].Captured?
      ensures EmittedFits(emitted, published, fates) && IsSubsequence(CapturesOf(delivered), CapturesOf(emitted))
      ensures AllWatched(delivered, config.maxFlavorBytes)
      ensures SourcesAfter(trace).Sources? && !LedgerAfter(trace).ClientBroke?
    {
      hide LoopFits;
      hide PastesFit;
      hide OffersFit;
      hide OffersSeparate;
      hide SourcesAfter;
      hide LedgerAfter;
      hide EmittedFits;
      hide AllWatched;
      hide IsSubsequence;
      DeliveredIsWatched(delivered, emitted, config.maxFlavorBytes);
    }

    /** Where the pastes are not touched, none comes or goes. */
    twostate lemma UntouchedPasses(happening: Happening)
      requires PastesUntouched() && old(Accounted())
      ensures Accounted() && PastesPass(happening) && LeaversRecorded(old(writes), old(origins), writes, served)
    {
      hide WasAnswered;
    }

    /** What the compositor says of offers and of the device, and what receivers take. */
    method TurnOther(happening: Happening)
      requires Valid() && Quiet() && deviceAlive && Accounted()
      requires !happening.Copies? && !happening.Cancels? && !happening.Sends? && !happening.Fires?
      modifies Footprint()
      ensures Valid() && Quiet() && OwnsNothingElse() && deviceAlive && old(generation) <= generation
      ensures Grew(old(fates), fates, old(published), published) && handle.selfRemovals == old(handle.selfRemovals)
      ensures owned == old(owned) && Accounted() && PastesPass(happening)
      ensures LeaversRecorded(old(writes), old(origins), writes, served)
    {
      hide Valid;
      hide Quiet;
      hide Accounted;
      hide PastesPass;
      hide LeaversRecorded;
      if happening.Drains? {
        if happening.id in writes && happening.limit > 0 {
          TurnDrains(happening.id, happening.limit);
        }
      } else if happening.Finished? {
        DeviceFinished();
      } else {
        TurnOffer(happening);
      }
      UntouchedPasses(happening);
    }

    /** Each kind of happening has its own turn. */
    method Happens(happening: Happening)
      requires Valid() && Quiet() && deviceAlive && Accounted()
      modifies Footprint()
      ensures Valid() && Quiet() && deviceAlive && Accounted()
      ensures OwnsNothingElse()
      ensures Grew(old(fates), fates, old(published), published) && old(generation) <= generation
      ensures handle.selfRemovals == old(handle.selfRemovals) + PasteTimersFired(old(handle.live), happening)
      ensures PastesPass(happening) && owned == old(owned) + Puts(happening, |old(owned)|)
      ensures LeaversRecorded(old(writes), old(origins), writes, served)
    {
      hide Valid;
      hide Quiet;
      hide Accounted;
      hide PastesPass;
      hide LeaversRecorded;
      hide Grew;
      NothingGrew(fates, published);
      match happening {
        case Copies(flavors) => TurnSource(happening);
        case Cancels(source) => TurnSource(happening);
        case Sends(_, _, _, _, _, _, _, _) => TurnSend(happening);
        case Fires(token, arrived, ended, signals, sound) =>
          if token in handle.live {
            TurnFires(token, arrived, ended, signals, sound, happening);
          } else {
            UntouchedPasses(happening);
          }
        case _ => TurnOther(happening);
      }
    }

    /** One thing that happens to the watcher. What the loop cannot do, such as firing a source that
        is not registered, changes nothing. */
    method Turn(happening: Happening)
      requires Valid() && Quiet() && deviceAlive && Accounted()
      modifies Footprint()
      ensures Valid() && Quiet() && deviceAlive && Accounted()
      ensures fresh(Footprint() - old(Footprint()))
      ensures Grew(old(fates), fates, old(published), published) && old(generation) <= generation
      ensures handle.selfRemovals == old(handle.selfRemovals) + PasteTimersFired(old(handle.live), happening)
      ensures PastesPass(happening) && owned == old(owned) + Puts(happening, |old(owned)|)
      ensures LeaversRecorded(old(writes), old(origins), writes, served)
    {
      hide Valid;
      hide Quiet;
      hide OwnsNothingElse;
      hide Accounted;
      hide PastesPass;
      hide LeaversRecorded;
      hide Grew;
      hide Puts;
      hide PasteTimersFired;
      Happens(happening);
      FootprintGrows();
    }
  }

  /** What can happen to the watcher, in any order. */
  datatype Happening =
    | Introduced(offer: OfferId)
    | Advertises(offer: OfferId, mime: string)
    | Selected(kind: SelectionKind, selected: Option<OfferId>, setups: seq<Setup>, timerFails: bool)
    | Copies(flavors: seq<Flavor>)
    | Cancels(source: SourceId)
    | Sends(source: SourceId, mime: string, capacity: nat, interruptions: nat, sound: bool,
            blocking: bool, registerFails: bool, timerFails: bool)
    | Fires(token: Token, arrived: Bytes, ended: bool, interruptions: nat, sound: bool)
    | Drains(id: nat, limit: nat)
    | Finished

  /** The loop was told that this source is ready. */
  ghost predicate Fired(token: Token, happenings: seq<Happening>) {
    exists h <- happenings :: h.Fires? && h.token == token
  }

  lemma {:induction false} FiringsGrow(happenings: seq<Happening>, happening: Happening)
    ensures forall token: Token :: Fired(token, happenings) ==> Fired(token, happenings + [happening])
    ensures happening.Fires? ==> Fired(happening.token, happenings + [happening])
  {
    var all := happenings + [happening];
    assert all[|happenings|] == happening;
    assert forall h <- happenings :: h in all;
  }

  /** Only timers of parked pastes that were fired. */
  ghost predicate OnlyPasteTimers(removals: seq<Removal>, happenings: seq<Happening>) {
    forall r <- removals :: r.registration.WriteTimer? && Fired(r.token, happenings)
  }

  lemma {:induction false} StillOnlyPasteTimers(
    removals: seq<Removal>, live: map<Token, Registration>, happenings: seq<Happening>, happening: Happening)
    requires OnlyPasteTimers(removals, happenings)
    ensures OnlyPasteTimers(removals + PasteTimersFired(live, happening), happenings + [happening])
  {
    hide Fired;
    FiringsGrow(happenings, happening);
  }

  /** What the records say after these happenings. */
  ghost predicate RunSoFar(
    removals: seq<Removal>, owned: seq<OwnedOffer>, writes: map<nat, PendingWrite>, origins: map<nat, OwnedOffer>,
    served: seq<Served>, happenings: seq<Happening>)
  {
    && OnlyPasteTimers(removals, happenings) && owned == OwnedAfter(happenings)
    && AllRequested(writes, origins, served, happenings)
  }

  lemma {:induction false} RunOneMore(
    removals: seq<Removal>, owned: seq<OwnedOffer>, writes: map<nat, PendingWrite>, origins: map<nat, OwnedOffer>,
    served: seq<Served>, happenings: seq<Happening>, happening: Happening, live: map<Token, Registration>,
    offered: Option<OwnedOffer>, after: map<nat, PendingWrite>, originsAfter: map<nat, OwnedOffer>,
    servedAfter: seq<Served>)
    requires RunSoFar(removals, owned, writes, origins, served, happenings)
    requires PastesKept(happening, offered, writes, origins, after, originsAfter) && served <= servedAfter
    requires forall r <- servedAfter[|served|..] :: JustEnded(happening, offered, writes, origins, after, r)
    ensures RunSoFar(removals + PasteTimersFired(live, happening), owned + Puts(happening, |owned|), after,
                     originsAfter, servedAfter, happenings + [happening])
  {
    hide OnlyPasteTimers;
    hide AllRequested;
    hide PastesKept;
    hide JustEnded;
    hide OwnedAfter;
    StillOnlyPasteTimers(removals, live, happenings, happening);
    OwnedOfOneMore(happenings, happening);
    StillRequested(happenings, happening, offered, writes, origins, served, after, originsAfter,
                   servedAfter[|served|..]);
    assert served + servedAfter[|served|..] == servedAfter;
  }

  /** Any run of the watcher and its shutdown. Once it is told to stop, the loop may still finish what it
      has in hand, up to `batch` happenings; `handled` is how many there were in all. Every generation
      that was started met exactly one fate, and the captured ones were sent to the daemon once each, in
      order; of those the daemon got some, in that order; every source was used and destroyed by the
      rules, and every offer destroyed once unless the compositor broke them first. The only sources
      ever asked to go while running their own callback are the timers of parked pastes. Every paste,
      parked or over, was asked of a source clippo owned, and got a prefix of what was put on the
      clipboard under that source, for that type. */
  method Run(config: Config, happenings: seq<Happening>, batch: nat) returns (w: WatchState, handled: nat)
    ensures fresh(w) && w.Valid() && w.Quiet() && w.pending.None? && w.offers == map[] && w.offered.None?
    ensures handled <= |happenings| && (handled < |happenings| ==> w.stopped)
    ensures forall g: nat {:trigger g in w.fates} :: g in w.fates <==> 1 <= g <= w.generation
    ensures forall i, j | 0 <= i < j < |w.published| :: w.published[i] < w.published[j]
    ensures forall g: nat {:trigger g in w.published} :: g in w.published <==> g in w.fates && w.fates[g].Captured?
    ensures EmittedFits(w.emitted, w.published, w.fates)
    ensures IsSubsequence(CapturesOf(w.delivered), CapturesOf(w.emitted))
    ensures AllWatched(w.delivered, config.maxFlavorBytes)
    ensures SourcesAfter(w.trace).Sources?
    ensures forall s <- SourcesAfter(w.trace).states.Keys :: SourcesAfter(w.trace).states[s].Destroyed?
    ensures !LedgerAfter(w.trace).ClientBroke?
    ensures LedgerAfter(w.trace).Ledger? ==>
              forall o <- LedgerAfter(w.trace).offers.Keys :: LedgerAfter(w.trace).offers[o].Gone?
    ensures OnlyPasteTimers(w.handle.selfRemovals, happenings[..handled])
    ensures w.Accounted() && w.owned == OwnedAfter(happenings[..handled])
    ensures AllRequested(w.writes, w.origins, w.served, happenings[..handled])
  {
    hide WatchState.Valid;
    hide WatchState.Quiet;
    hide WatchState.Footprint;
    hide Attributed;
    hide Grew;
    hide EmittedFits;
    hide AllWatched;
    hide IsSubsequence;
    hide SourcesAfter;
    hide LedgerAfter;
    hide OnlyPasteTimers;
    hide AllRequested;
    hide PastesKept;
    hide JustEnded;
    hide Puts;
    hide PasteTimersFired;
    hide OwnedAfter;
    hide RunSoFar;
    hide LeaversRecorded;
    w := new WatchState(config);
    w.FootprintAtFirst();
    NothingAsked(happenings);
    handled := 0;
    var inHand := batch;
    while handled < |happenings| && (!w.stopped || inHand > 0)
      invariant handled <= |happenings| && fresh(w) && fresh(w.handle) && fresh(w.Footprint())
      invariant w.Valid() && w.Quiet() && w.deviceAlive && w.Accounted()
      invariant RunSoFar(w.handle.selfRemovals, w.owned, w.writes, w.origins, w.served, happenings[..handled])
    {
      if w.stopped {
        inHand := inHand - 1;
      }
      var happening := happenings[handled];
      ghost var was := w.Footprint();
      ghost var removals, owned, served := w.handle.selfRemovals, w.owned, w.served;
      ghost var writes, origins := w.writes, w.origins;
      ghost var live, offered := w.handle.live, w.offered;
      label turning:
      w.Turn(happening);
      forall o <- w.Footprint() ensures fresh(o) {
        assert o in was || fresh@turning(o);
      }
      RunOneMore(removals, owned, writes, origins, served, happenings[..handled], happening, live, offered, w.writes,
                 w.origins, w.served);
      assert happenings[..handled] + [happening] == happenings[..handled + 1];
      handled := handled + 1;
    }
    NothingOwned(w.owned, w.nextSource, w.offered, w.writes, w.origins, w.served);
    RunAsAWhole(w.handle.selfRemovals, w.owned, w.writes, w.origins, w.served, happenings[..handled]);
    var _ := w.Shutdown();
    w.InTheEnd();
  }

  lemma {:induction false} RunAsAWhole(
    removals: seq<Removal>, owned: seq<OwnedOffer>, writes: map<nat, PendingWrite>, origins: map<nat, OwnedOffer>,
    served: seq<Served>, happenings: seq<Happening>)
    requires RunSoFar(removals, owned, writes, origins, served, happenings)
    ensures OnlyPasteTimers(removals, happenings) && owned == OwnedAfter(happenings)
    ensures AllRequested(writes, origins, served, happenings)
  {
  }

  lemma {:induction false} NothingAsked(happenings: seq<Happening>)
    ensures RunSoFar([], [], map[], map[], [], happenings[..0])
  {
  }

  /** The timers of parked pastes that this fires. */
  function PasteTimersFired(live: map<Token, Registration>, happening: Happening): seq<Removal> {
    if happening.Fires? && happening.token in live && live[happening.token].WriteTimer?
    then [Removal(happening.token, live[happening.token])] else []
  }

  /** The table without one paste. */
  function Fewer(writes: map<nat, PendingWrite>, id: nat): map<nat, PendingWrite> {
    writes - {id}
  }

  /** The table with one more paste. */
  function With(writes: map<nat, PendingWrite>, id: nat, write: PendingWrite): map<nat, PendingWrite> {
    writes[id := write]
  }

  lemma {:induction false} FewerAreTheSame(writes: map<nat, PendingWrite>, id: nat)
    ensures forall k <- Fewer(writes, id).Keys :: k in writes && Fewer(writes, id)[k] == writes[k]
  {
  }

  lemma {:induction false} OneMoreIsTheSame(writes: map<nat, PendingWrite>, id: nat, write: PendingWrite)
    ensures forall k <- With(writes, id, write).Keys ::
              (k in writes && With(writes, id, write)[k] == writes[k]) || (k == id &&
              With(writes, id, write)[k] == write)
  {
  }

  /** The loop without a paste's two registrations. */
  function Unregistered(live: map<Token, Registration>, write: PendingWrite): map<Token, Registration> {
    live - {write.token} - TimerOf(write)
  }

  function Untimed(live: map<Token, Registration>, write: PendingWrite): map<Token, Registration> {
    live - TimerOf(write)
  }

  function TimerOf(write: PendingWrite): set<Token> {
    if write.timeout.Some? then {write.timeout.value} else {}
  }

  /** The queue without one id. */
  function Without(order: seq<nat>, id: nat): seq<nat> {
    if order == [] then []
    else Without(order[..|order| - 1], id) + if order[|order| - 1] == id then [] else [order[|order| - 1]]
  }

  lemma {:induction false} WithoutKeepsTheRest(order: seq<nat>, id: nat)
    ensures forall i: nat {:trigger i in Without(order, id)} :: i in Without(order, id) <==> i in order && i != id
    ensures id !in order ==> Without(order, id) == order
  {
    if order != [] {
      var n := |order| - 1;
      WithoutKeepsTheRest(order[..n], id);
      assert order == order[..n] + [order[n]];
    }
  }

  lemma {:induction false} WithoutKeepsTheOrder(order: seq<nat>, id: nat)
    requires forall i, j | 0 <= i < j < |order| :: order[i] < order[j]
    ensures forall i, j | 0 <= i < j < |Without(order, id)| :: Without(order, id)[i] < Without(order, id)[j]
  {
    if order != [] {
      var n := |order| - 1;
      var rest := Without(order[..n], id);
      WithoutKeepsTheOrder(order[..n], id);
      WithoutKeepsTheRest(order[..n], id);
      forall i | 0 <= i < |rest| ensures rest[i] < order[n] {
        assert rest[i] in rest;
      }
    }
  }

  /** A paste leaves the queue when it leaves the table. */
  lemma {:induction false} LeavingTheQueue(order: seq<nat>, writes: map<nat, PendingWrite>, next: nat, id: nat)
    requires QueueFits(order, writes, next)
    ensures QueueFits(Without(order, id), Fewer(writes, id), next)
  {
    WithoutKeepsTheRest(order, id);
    WithoutKeepsTheOrder(order, id);
  }

  lemma {:induction false} OldestIsAlone(order: seq<nat>)
    requires order != [] && forall i, j | 0 <= i < j < |order| :: order[i] < order[j]
    ensures order[0] !in order[1..] && forall id: nat :: id in order <==> id == order[0] || id in order[1..]
  {
    var oldest, rest := order[0], order[1..];
    assert order == [oldest] + rest;
    forall i | 0 <= i < |rest| ensures rest[i] != oldest {
      assert order[0] < order[i + 1];
    }
  }

  lemma {:induction false} FewerIsOneFewer(writes: map<nat, PendingWrite>, id: nat)
    requires id in writes
    ensures |Fewer(writes, id)| == |writes| - 1
  {
    assert Fewer(writes, id).Keys == writes.Keys - {id};
  }

  lemma {:induction false} PoppingTheOldest(order: seq<nat>, writes: map<nat, PendingWrite>, next: nat)
    requires QueueFits(order, writes, next) && order != []
    ensures order[0] in writes && Without(order[1..], order[0]) == order[1..]
    ensures QueueFits(order[1..], Fewer(writes, order[0]), next)
    ensures |Fewer(writes, order[0])| == |writes| - 1
  {
    hide Without;
    OldestIsAlone(order);
    assert order[0] in order;
    WithoutKeepsTheRest(order[1..], order[0]);
    FewerIsOneFewer(writes, order[0]);
  }

  lemma {:induction false} LaterIds(order: seq<nat>, writes: map<nat, PendingWrite>, next: nat)
    requires QueueFits(order, writes, next)
    ensures QueueFits(order, writes, next + 1) && next !in writes
  {
  }

  lemma {:induction false} Included(writes: map<nat, PendingWrite>, id: nat, write: PendingWrite)
    ensures id in With(writes, id, write) && With(writes, id, write)[id] == write
  {
  }

  lemma {:induction false} OneMoreParked(
    writes: map<nat, PendingWrite>, origins: map<nat, OwnedOffer>, order: seq<nat>, id: nat, write: PendingWrite,
    origin: OwnedOffer)
    requires ParkedFits(writes, origins) && Separate(writes) && QueueFits(order, writes, id) && PasteFits(write, origin)
    requires forall other <- writes.Keys :: writes[other].pipe != write.pipe && writes[other].writer != write.writer
    ensures ParkedFits(With(writes, id, write), origins[id := origin]) && Separate(With(writes, id, write))
    ensures QueueFits(order + [id], With(writes, id, write), id + 1) && |With(writes, id, write)| == |writes| + 1
  {
    hide PasteFits;
    forall i | 0 <= i < |order| ensures order[i] < id {
      assert order[i] in order;
    }
    assert With(writes, id, write).Keys == writes.Keys + {id};
  }

  /** The queue and the table hold the same number of pastes. */
  lemma {:induction false} QueueCountsParked(order: seq<nat>, writes: map<nat, PendingWrite>, next: nat)
    requires QueueFits(order, writes, next)
    ensures |order| == |writes|
    decreases |order|
  {
    if order == [] {
      assert writes == map[] by {
        forall id: nat ensures id !in writes {
          assert id in order <==> id in writes;
        }
      }
    } else {
      PoppingTheOldest(order, writes, next);
      QueueCountsParked(order[1..], Fewer(writes, order[0]), next);
    }
  }

  lemma {:induction false} FewerParked(writes: map<nat, PendingWrite>, origins: map<nat, OwnedOffer>, id: nat)
    requires ParkedFits(writes, origins) && Separate(writes)
    ensures ParkedFits(Fewer(writes, id), origins) && Separate(Fewer(writes, id))
  {
  }

  lemma {:induction false} OwnSource(
      live: map<Token, Registration>, writes: map<nat, PendingWrite>, id: nat, token: Token)
    requires WritesMatch(live, writes) && id in writes && token in live && live[token] == WriteSource(id)
    ensures writes[id].token == token && writes[id].timeout != Some(token)
  {
  }

  lemma {:induction false} OwnTimer(
      live: map<Token, Registration>, writes: map<nat, PendingWrite>, id: nat, token: Token)
    requires WritesMatch(live, writes) && id in writes && token in live && live[token] == WriteTimer(id)
    ensures writes[id].timeout == Some(token) && writes[id].token != token
  {
  }

  lemma {:induction false} TimerIsGone(live: map<Token, Registration>, write: PendingWrite)
    ensures write.timeout.Some? ==> write.timeout.value !in Unregistered(live, write)
  {
  }

  lemma {:induction false} EitherWay(live: map<Token, Registration>, write: PendingWrite)
    ensures Untimed(live, write) - {write.token} == Unregistered(live, write)
    ensures write.token in live && write.timeout != Some(write.token) ==> {write.token} <= Untimed(live, write).Keys
  {
  }

  lemma {:induction false} ParkedIsRegistered(live: map<Token, Registration>, writes: map<nat, PendingWrite>, id: nat)
    requires WritesMatch(live, writes) && id in writes
    ensures writes[id].token in live
    ensures writes[id].timeout.Some? ==>
              writes[id].timeout.value in live && writes[id].timeout.value != writes[id].token
  {
  }

  predicate IsAboutSources(message: Message) {
    !message.OfferIntroduced? && !message.OfferSelected? && !message.Receive? && !message.DestroyOffer?
  }

  function OfferTypes(source: SourceId, mimes: seq<string>): seq<Message> {
    seq(|mimes|, i requires 0 <= i < |mimes| => OfferType(source, mimes[i]))
  }

  /** The requests that move the clipboard to a source: created, filled, selected, and only then is
      the one it replaces destroyed. */
  function TakeOver(source: SourceId, mimes: seq<string>, superseded: Option<SourceId>): seq<Message> {
    [CreateSource(source)] + OfferTypes(source, mimes) + [SetSelection(Some(source))] +
    match superseded case None => [] case Some(s) => [DestroySource(s)]
  }

  function Beginning(sources: Sources, source: SourceId): Sources {
    if sources.Sources? then sources.(states := sources.states[source := Building]) else sources
  }

  /** The requests that give the clipboard up. */
  function Release(offered: Option<OwnedOffer>): Trace {
    match offered case None => [] case Some(o) => [SetSelection(None), DestroySource(o.source)]
  }

  lemma {:induction false} TakingOver(sources: Sources, owned: Option<SourceId>, source: SourceId)
    requires SourcesShow(sources, owned, source, true)
    ensures AfterMessage(sources, CreateSource(source)) == Beginning(sources, source)
    ensures var used := AfterMessage(Beginning(sources, source), SetSelection(Some(source)));
            SourcesShow(if owned.Some? then AfterMessage(used, DestroySource(owned.value)) else used,
                        Some(source), source + 1, true)
  {
  }

  lemma {:induction false} AddingAType(sources: Sources, owned: Option<SourceId>, source: SourceId, mime: string)
    requires SourcesShow(sources, owned, source, true)
    ensures AfterMessage(Beginning(sources, source), OfferType(source, mime)) == Beginning(sources, source)
  {
  }

  lemma {:induction false} Cancelling(
    sources: Sources, owned: Option<SourceId>, next: SourceId, device: bool, source: SourceId)
    requires SourcesShow(sources, owned, next, device)
    ensures var told := AfterMessage(sources, Message.SourceCancelled(source));
            if owned == Some(source) then SourcesShow(AfterMessage(told, DestroySource(source)), None, next, device)
            else SourcesShow(told, owned, next, device)
  {
  }

  lemma {:induction false} Releasing(sources: Sources, source: SourceId, next: SourceId)
    requires SourcesShow(sources, Some(source), next, true)
    ensures var told := AfterMessage(sources, SetSelection(None));
            SourcesShow(AfterMessage(told, DestroySource(source)), None, next, true)
  {
  }

  lemma {:induction false} Retiring(sources: Sources, next: SourceId)
    requires SourcesShow(sources, None, next, true)
    ensures SourcesShow(AfterMessage(sources, DestroyDevice), None, next, false)
    ensures forall s <- AfterMessage(sources, DestroyDevice).states.Keys ::
              AfterMessage(sources, DestroyDevice).states[s].Destroyed?
  {
  }

  lemma {:induction false} OneMoreType(source: SourceId, mimes: seq<string>, i: nat)
    requires i < |mimes|
    ensures OfferTypes(source, mimes[..i + 1]) == OfferTypes(source, mimes[..i]) + [OfferType(source, mimes[i])]
  {
  }

  lemma {:induction false} EverythingIsGone(ledger: Ledger)
    requires LedgerShows(ledger, {}, None)
    ensures ledger.Ledger? ==> forall o <- ledger.offers.Keys :: ledger.offers[o].Gone?
  {
    if ledger.Ledger? {
      forall o <- ledger.offers.Keys ensures ledger.offers[o].Gone? {
      }
    }
  }

  /** A read in the loop is always for the selection being read. */
  lemma {:induction false} ReadIsCurrent(live: map<Token, Registration>, pending: Option<Pending>, token: Token)
    requires ReadsMatch(live, pending) && token in live && (live[token].ReadSource? || live[token].ReadTimer?)
    ensures pending.Some? && pending.value.selection.generation == live[token].generation
  {
  }

  /** A write in the loop is always for a parked paste. */
  lemma {:induction false} WriteIsParked(live: map<Token, Registration>, writes: map<nat, PendingWrite>, token: Token)
    requires WritesMatch(live, writes) && token in live && (live[token].WriteSource? || live[token].WriteTimer?)
    ensures live[token].id in writes
  {
  }

  lemma {:induction false} ReadIsRegistered(
    live: map<Token, Registration>, generation: nat, tokens: map<nat, Token>, timeout: Option<Token>, token: Token,
    slot: nat)
    requires TableMatches(live, generation, tokens, timeout)
    requires token in live && live[token] == ReadSource(generation, slot)
    ensures slot in tokens && tokens[slot] == token
  {
  }

  lemma {:induction false} TimerIsRegistered(
    live: map<Token, Registration>, generation: nat, tokens: map<nat, Token>, timeout: Option<Token>, token: Token)
    requires TableMatches(live, generation, tokens, timeout)
    requires token in live && live[token] == ReadTimer(generation)
    ensures timeout == Some(token)
  {
  }

  lemma {:induction false} AfterGivingUp(before: seq<Slot>, after: seq<Slot>, cap: nat)
    requires SlotsFit(before, cap) && |after| == |before|
    requires forall i | 0 <= i < |after| :: after[i] == GivenUp(before[i], Stalled)
    ensures SlotsFit(after, cap) && SlotsAgree(after, map[]) && MimesOf(after) == MimesOf(before)
  {
    forall s <- after ensures !s.Reading? && (s.Done? ==> |s.flavor.data| <= cap) {
      var i :| 0 <= i < |after| && after[i] == s;
      assert before[i] in before;
    }
  }

  lemma {:induction false} SameFates(
      fates: map<nat, Fate>, generation: nat, was: Option<Pending>, pending: Option<Pending>)
    requires FatesFit(fates, generation, was) && was.Some? && pending.Some?
    requires pending.value.selection == was.value.selection
    ensures FatesFit(fates, generation, pending)
  {
  }

  lemma {:induction false} SlotIsReading(slots: seq<Slot>, tokens: map<nat, Token>, slot: nat)
    requires SlotsAgree(slots, tokens) && slot in tokens
    ensures slot < |slots| && slots[slot].Reading?
  {
  }

  /** Draining a slot's pipe keeps the slots and the registrations in step, once a source that
      removes itself is no longer counted. */
  lemma {:induction false} AfterDraining(
    before: seq<Slot>, after: seq<Slot>, tokens: map<nat, Token>, slot: nat, more: Bytes, action: PostAction,
    atEof: bool,
    broken: bool, cap: nat)
    requires SlotsAgree(before, tokens) && SlotsFit(before, cap)
    requires IsReading(before, slot) && Drained(before, slot, more, after, action, atEof, broken)
    ensures SlotsAgree(after, if action.Remove? then tokens - {slot} else tokens)
    ensures SlotsFit(after, cap) && MimesOf(after) == MimesOf(before)
  {
    assert before[slot] in before;
    forall s <- after ensures (s.Reading? ==> s.buffer.cap == cap) && (s.Done? ==> |s.flavor.data| <= cap) {
      var i :| 0 <= i < |after| && after[i] == s;
      assert before[i] in before;
    }
  }

  lemma {:induction false} StillReading(
    before: seq<Slot>, slot: nat, more: Bytes, after: seq<Slot>, atEof: bool, broken: bool)
    requires IsReading(before, slot) && Drained(before, slot, more, after, Continue, atEof, broken)
    ensures CountReading(after) > 0
  {
    NoneOpenMeansNoneReading(after);
    assert after[slot] in after;
  }

  lemma {:induction false} AtFirst()
    ensures TableMatches(map[], 0, map[], None) && WritesMatch(map[], map[])
    ensures FatesFit(map[], 0, None) && PublishedFits([], map[]) && EmittedFits([], [], map[])
    ensures forall cap :: AllWatched([], cap)
    ensures QueueFits([], map[], 0) && Separate(map[])
    ensures forall writes: map<nat, PendingWrite>, origins :: writes == map[] ==> ParkedFits(writes, origins)
    ensures LedgerShows(LedgerAfter([]), {}, None) && SourcesShow(SourcesAfter([]), None, 0, true)
  {
  }

  lemma {:induction false} NothingTracked(offers: map<OfferId, AdvertisedMimes>)
    requires offers == map[]
    ensures offers.Keys == {} && OffersFit(offers) && OffersSeparate(offers)
  {
  }

  /** The offers to destroy when one may be kept. */
  function Due(offers: set<OfferId>, keep: Option<OfferId>): set<OfferId> {
    if keep.Some? then offers - {keep.value} else offers
  }

  /** All of `all` has been destroyed but for `due`, which is still to go. */
  ghost predicate DestroysAllBut(said: Trace, all: set<OfferId>, due: set<OfferId>) {
    due <= all && Destroys(said, all - due)
  }

  lemma {:induction false} OneFewer(rest: map<OfferId, AdvertisedMimes>, offer: OfferId, keep: Option<OfferId>)
    requires offer in rest
    ensures (rest - {offer}).Keys == rest.Keys - {offer}
    ensures keep == Some(offer) ==> Due((rest - {offer}).Keys, keep) == Due(rest.Keys, keep)
    ensures keep != Some(offer) ==>
              offer in Due(rest.Keys, keep) && Due((rest - {offer}).Keys, keep) == Due(rest.Keys, keep) - {offer}
  {
    assert (rest - {offer}).Keys == rest.Keys - {offer};
  }

  lemma {:induction false} SomeOffer(rest: map<OfferId, AdvertisedMimes>)
    requires rest != map[]
    ensures exists o :: o in rest
  {
    assert (forall o :: o !in rest) ==> rest == map[];
  }

  lemma {:induction false} NoneLeft(said: Trace, all: set<OfferId>, keep: Option<OfferId>)
    ensures Due({}, keep) == {} && (DestroysAllBut(said, all, {}) ==> Destroys(said, all))
  {
    assert all - {} == all;
  }

  lemma {:induction false} DestroysNothing(all: set<OfferId>)
    ensures DestroysAllBut([], all, all)
  {
    assert all - all == {};
  }

  lemma {:induction false} DestroysOneMore(
    said: Trace, all: set<OfferId>, rest: map<OfferId, AdvertisedMimes>, keep: Option<OfferId>, offer: OfferId)
    requires DestroysAllBut(said, all, Due(rest.Keys, keep)) && offer in rest && keep != Some(offer)
    ensures DestroysAllBut(said + [DestroyOffer(offer)], all, Due((rest - {offer}).Keys, keep))
  {
    hide Destroys;
    hide Due;
    OneFewer(rest, offer, keep);
    var due := Due(rest.Keys, keep);
    DestroysOneOther(said, all - due, offer);
    assert all - (due - {offer}) == all - due + {offer};
  }

  lemma {:induction false} DestroysOneOther(said: Trace, gone: set<OfferId>, offer: OfferId)
    requires Destroys(said, gone) && offer !in gone
    ensures Destroys(said + [DestroyOffer(offer)], gone + {offer})
  {
    var more := said + [DestroyOffer(offer)];
    assert more[|said|] == DestroyOffer(offer);
    assert forall m <- said :: m in more;
  }

  /** An offer of which nothing is known makes a selection with nothing in it. */
  lemma {:induction false} NothingAdvertised(kind: SelectionKind, setups: seq<Setup>, cap: nat)
    ensures Wanted([]) == []
    ensures AllAtOnce(kind, Recorded([]), FirstSlots([], setups, cap)) == Selection(kind, [], [], [])
  {
  }

  lemma {:induction false} NothingWanted(advertised: seq<string>)
    requires advertised == []
    ensures Wanted(advertised) == Recorded(advertised) == []
  {
  }

  lemma {:induction false} SourcesIgnoreOffers(trace: Trace, message: Message)
    requires message.Receive? || message.OfferSelected? || message.OfferIntroduced? || message.DestroyOffer?
    ensures SourcesAfter(trace + [message]) == SourcesAfter(trace)
  {
    OneMoreMessage(trace, message);
  }

  lemma {:induction false} StartingFits(fates: map<nat, Fate>, generation: nat)
    requires FatesFit(fates, generation, None)
    ensures forall g: nat {:trigger g in fates} :: g in fates <==> 1 <= g <= generation
  {
  }

  lemma {:induction false} StartingFitsPending(fates: map<nat, Fate>, generation: nat, pending: Option<Pending>)
    requires forall g: nat {:trigger g in fates} :: g in fates <==> 1 <= g <= generation - 1
    requires generation >= 1 && pending.Some? && pending.value.selection.generation == generation
    ensures FatesFit(fates, generation, pending)
  {
  }

  lemma {:induction false} NoSlotsForNothing(slots: seq<Slot>, wanted: seq<string>)
    requires MimesOf(slots) == wanted
    ensures wanted == [] ==> slots == [] && CountReading(slots) == 0
  {
  }

  lemma {:induction false} FirstSlotsOfNothing(offer: OfferId, setups: seq<Setup>, cap: nat)
    ensures FirstSlots([], setups, cap) == [] && Requests(offer, [], setups) == []
  {
  }

  lemma {:induction false} OneMoreFirstSlot(offer: OfferId, wanted: seq<string>, setups: seq<Setup>, i: nat, cap: nat)
    requires i < |wanted|
    ensures FirstSlots(wanted[..i + 1], setups, cap) ==
            FirstSlots(wanted[..i], setups, cap) + [FirstSlot(wanted[i], SetupOf(setups, i), cap)]
    ensures Requests(offer, wanted[..i + 1], setups) ==
            Requests(offer, wanted[..i], setups) +
            if SetupOf(setups, i).NoPipe? then [] else [Receive(offer, wanted[i])]
  {
    assert wanted[..i + 1][..i] == wanted[..i];
  }

  lemma {:induction false} FirstSlotsFit(wanted: seq<string>, setups: seq<Setup>, cap: nat)
    ensures MimesOf(FirstSlots(wanted, setups, cap)) == wanted && SlotsFit(FirstSlots(wanted, setups, cap), cap)
  {
    var slots := FirstSlots(wanted, setups, cap);
    forall s <- slots ensures (s.Reading? ==> s.buffer.cap == cap) && !s.Done? {
      var i :| 0 <= i < |slots| && slots[i] == s;
    }
  }

  lemma {:induction false} RegisteredRead(
    live: map<Token, Registration>, generation: nat, tokens: map<nat, Token>, timeout: Option<Token>, slot: nat)
    requires TableMatches(live, generation, tokens, timeout) && slot in tokens
    ensures tokens[slot] in live
  {
  }

  lemma {:induction false} RegisteredTimer(
    live: map<Token, Registration>, generation: nat, tokens: map<nat, Token>, timeout: Token)
    requires TableMatches(live, generation, tokens, Some(timeout))
    ensures timeout in live
  {
  }

  lemma {:induction false} PendingIsCurrent(fates: map<nat, Fate>, generation: nat, pending: Option<Pending>)
    requires FatesFit(fates, generation, pending)
    ensures pending.Some? ==> pending.value.selection.generation == generation
  {
  }

  lemma {:induction false} PublishingFits(
    published: seq<nat>, fates: map<nat, Fate>, generation: nat, pending: Option<Pending>, selection: Selection)
    requires FatesFit(fates, generation, pending) && PublishedFits(published, fates) && pending.Some?
    ensures FatesFit(fates[generation := Fate.Captured(selection)], generation, None)
    ensures PublishedFits(published + [generation], fates[generation := Fate.Captured(selection)])
  {
    forall i | 0 <= i < |published| ensures published[i] < generation {
      var g := published[i];
      assert g in published && g in fates;
    }
  }

  lemma {:induction false} EmittingACapture(
    emitted: seq<WatchEvent>, published: seq<nat>, fates: map<nat, Fate>, generation: nat, selection: Selection,
    cap: nat)
    requires EmittedFits(emitted, published, fates) && generation !in fates
    requires AllWatched(emitted, cap) && IsWatched(selection.flavors, cap)
    ensures EmittedFits(emitted + [SelectionCaptured(selection)], published + [generation],
                        fates[generation := Fate.Captured(selection)])
    ensures AllWatched(emitted + [SelectionCaptured(selection)], cap)
  {
    hide IsWatched;
    assert (emitted + [SelectionCaptured(selection)])[..|emitted|] == emitted;
  }

  lemma {:induction false} EmittingALoss(
    emitted: seq<WatchEvent>, published: seq<nat>, fates: map<nat, Fate>, cap: nat)
    requires EmittedFits(emitted, published, fates) && AllWatched(emitted, cap)
    ensures EmittedFits(emitted + [SelectionLost], published, fates) && AllWatched(emitted + [SelectionLost], cap)
  {
    assert (emitted + [SelectionLost])[..|emitted|] == emitted;
    assert CapturesOf(emitted) + [] == CapturesOf(emitted);
  }

  lemma {:induction false} EmittedStays(
      emitted: seq<WatchEvent>, published: seq<nat>, fates: map<nat, Fate>, generation: nat)
    requires EmittedFits(emitted, published, fates) && generation !in fates
    ensures EmittedFits(emitted, published, fates[generation := Abandoned])
  {
  }

  lemma {:induction false} AbandoningFits(
      published: seq<nat>, fates: map<nat, Fate>, generation: nat, pending: Option<Pending>)
    requires FatesFit(fates, generation, pending) && PublishedFits(published, fates) && pending.Some?
    ensures FatesFit(fates[generation := Abandoned], generation, None)
    ensures PublishedFits(published, fates[generation := Abandoned])
  {
  }

  lemma {:induction false} CapturedIsWatched(selection: PendingSelection, cap: nat)
    requires selection.Valid() && selection.open == 0 && SlotsFit(selection.slots, cap)
    requires MimesOf(selection.slots) == Wanted(selection.advertised)
    ensures IsWatched(Flavors.Captured(selection.slots), cap)
    ensures |Flavors.Captured(selection.slots)| + |Lost(selection.slots)| == |Wanted(selection.advertised)|
  {
    EverySlotIsReported(selection.slots);
    WantedReadsAreWatched(selection.advertised, selection.slots, cap);
  }
}
