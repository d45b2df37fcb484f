# clippo, verified

A model of the parts of clippo, a clipboard-history daemon for Wayland, whose correctness is hard to see
by reading one function, with machine-checked proofs about every input, every interleaving and every run.
`dafny verify dfyconfig.toml` checks it all.

## What is modelled

**The watcher** (`Watcher`, on `Advertised`, `Flavors`, `Pipes`, `Delivery`, `EventLoops`, `Protocol`).
`WatchState` is a class whose methods are the program's callbacks. Ghost state records the registrations
that will remove themselves (`detached`), the protocol messages (`trace`), what became of each generation
(`fates`, `published`), the events sent to the daemon (`emitted`; `delivered` are those the channel took) and
the offer each paste was asked of (`origins`). `Valid` ties the tables to the loop exactly, and `Run` carries
it over any sequence of events to shutdown.

**The history store** (`Stores`, on `History`, `Storage`, `Retention`). Two tables as mutable state, each
SQL statement with its meaning. A ghost life for each entry, the copies that made and bumped it, explains
every column of its row; lives are numbered by birth, so that an id used twice is two entries.

**The self-echo identity** (`Echo`, `CopyBack`, `Loopback`, on `Offer`, `Dedup`, `Ranked`, `Mime`, `EchoGuards`). The
round trip from the store to the clipboard and back into a capture, across three notions of "the same MIME
type", with the exact condition under which the guard recognises the result and the proof that everything the
watcher itself captures meets it.

**The daemon between them** (`Daemons`). Captures, copy-backs and requests on one store and one guard, with the
watcher's run in front: every entry in a reachable history can be put back and be recognised.

**Key acquisition** (`Keys`, `KeySources`). Daemon starts with outages and crashes as a state machine.

**Text and list algorithms** (`Display`, `Json`, `Render`, `Picker`, `Scroll`, `Cache`, `Ids`), each proved
against an independent specification.

## Where the code and what it says of itself differ

The model follows the code.

- A comment at `crates/clippo-wayland/src/watch.rs:978-982` says that a source cannot be unregistered from
  inside its own callback. `on_write_timeout` does so for every stalled paste, because `forget_write` always
  removes the timer. `Watcher.Run` shows that it is the only place.
- A selection naming an offer that is not tracked has nothing to read, so it is captured empty and its offer
  destroyed, again if it had been destroyed before. Nothing checks for it: that each offer is destroyed once is
  therefore proved for a compositor that selects an offer at most once while it is tracked.
- The comment above `read_flavor` bounds the chunks accepted before the cap fires by the cap in full chunks. A
  pipe may return less: `Delivery.WhenTheReadBoundHolds` says exactly which schedules of reads meet the bound,
  `Delivery.SmallReadsPassTheBound` gives one that does not, and the loop is shown to end by the room left.
- An entry put back on the clipboard is not always recognised. Unless BLAKE3 collides on two flavors of the
  entry, it is recognised exactly under `Echo.StandsIn`: the best-ranked of the flavors that come back has the
  canonical one's essence and bytes (`Echo.EchoIdentity`). An earlier flavor that spells the canonical type with
  whitespace in it can defeat it (`Echo.AnEarlierSpellingLosesTheEcho`), which the watcher never captures. What
  the watcher does capture is recognised exactly while its canonical flavor fits the present read cap
  (`CopyBack.WatchedIsRecognisedIfItFits`), so an entry of a larger cap of an earlier configuration is captured
  again, or lost (`CopyBack.AnEntryOfALargerCapIsLost`).
- `escape_invisible` changes the meaning of some malformed documents, and of no well-formed one:
  `Render.WhenTheMeaningChanges` says exactly which.
- `from_hex` is described as reading 64 hexadecimal digits. It accepts a plus sign for the first of a pair:
  `Keys.AcceptedText` is the exact condition and `Keys.APlusSignIsAccepted` an input.

## Model

| member | source | states |
|---|---|---|
| Watcher.Run | crates/clippo-wayland/src/watch.rs:257-334 | Over any sequence of compositor events, commands, pastes, loop firings and drains, up to shutdown, with whatever the loop still has in hand when it is told to stop: every started generation met exactly one fate; the captured ones, and no others, were sent to the daemon once each, in order, and the selections the channel took are a subsequence of those, each of them distinct interesting types within the cap; every source was used and destroyed by the protocol's rules; clippo never breaks the offer rules first, and if the compositor keeps its side every offer is destroyed once; every registration removed from inside its own callback is the timer of a parked paste that was fired; what clippo owned is exactly what the commands put on the clipboard, source by source, and every paste, parked or over, answers a request for its type from one of those sources, with a prefix of the blob that source has for it and no other bytes |
| Watcher.DeliveredCaptures | crates/clippo-wayland/src/watch.rs:762-775 | Whatever events a full or closed channel loses, the selections that arrive are a subsequence of those sent |
| Watcher.WatchState.Turn | crates/clippo-wayland/src/watch.rs:257-334 | Each single event keeps the whole invariant: loop registrations are exactly the slots still reading plus their timer plus the parked pastes and their timers, no complete selection stays unpublished, and no fate or publication is ever revised; a parked paste was parked before with the same origin or was asked just now of the offer that owns the clipboard, and one that leaves is put on record with exactly what went into its pipe |
| Watcher.WatchState.TurnSend | crates/clippo-wayland/src/watch.rs:527-548 | A request parks one paste under the owning offer or ends it at once, on record; besides it only the oldest paste can end |
| Watcher.AfterARequest | crates/clippo-wayland/src/watch.rs:866-931 | Whatever comes of a request, everyone else in the tables keeps its origin, and the pastes that ended got prefixes of the blobs of their own offers |
| Watcher.StillRequested | crates/clippo-wayland/src/watch.rs:527-548 | Over runs, parked or over, every paste was requested of the source of its origin, by its type |
| Watcher.WatchState.Emit | crates/clippo-wayland/src/watch.rs:762-775 | One event is sent, and the channel took it or did not; only a send that delivered nothing can stop the watcher; what was delivered stays a subsequence of what was sent |
| Watcher.WatchState.OnFlavorReadable | crates/clippo-wayland/src/watch.rs:679-701 | A readable pipe moves only its own slot, by exactly the bytes taken off it; the selection is published when, and only when, nothing is left open; a callback for another generation changes nothing |
| Watcher.WatchState.DrainSlot | crates/clippo-wayland/src/watch.rs:685-696 | A slot that resolves leaves the table of reads and its source is the one left to remove itself; one that does not leaves table and registrations alone |
| Watcher.WatchState.OnReadTimeout | crates/clippo-wayland/src/watch.rs:704-727 | When the timer fires every slot still reading is given up as stalled, its source leaves the loop, and the selection is published at once; the timer of another generation changes nothing |
| Watcher.WatchState.GiveUpOnStalled | crates/clippo-wayland/src/watch.rs:711-725 | Resolved slots keep what they hold, unresolved ones become stalled losses, and no read of the selection stays registered |
| Watcher.WatchState.EmitIfComplete | crates/clippo-wayland/src/watch.rs:730-760 | A selection is sent only with no open slot, with its offer destroyed; what is sent is within the cap, of distinct interesting types, and accounts for every wanted type once as a flavor or a loss; exactly one event is sent |
| Watcher.WatchState.AbandonPending | crates/clippo-wayland/src/watch.rs:778-785 | A pending selection's sources leave the loop, the one request made is to destroy its offer, and its generation is marked abandoned; with nothing pending nothing is said |
| Watcher.WatchState.ClearSources | crates/clippo-wayland/src/watch.rs:791-798 | Exactly the pending selection's registrations leave the loop, parked pastes keep theirs, and no running source is removed |
| Watcher.WatchState.SelectionChanged | crates/clippo-wayland/src/watch.rs:483-519 | A new selection abandons the pending one, starts a new generation and begins exactly the slots of the wanted types of all that its offer advertised; the requests are, in order, the abandonment, one destroy for every other tracked offer, those for the wanted types, and the destroy of its own offer if the selection is complete at once; an untracked offer is captured at once with nothing in it; an unwanted primary selection only retires |
| Watcher.WatchState.Adopt | crates/clippo-wayland/src/watch.rs:504-518 | The selected offer alone leaves the table of tracked offers undestroyed, and its wanted types are computed on the bounded list with the answer the whole list would give; what is captured at once has the recorded types and every failed setup as a loss |
| Watcher.WatchState.OpenReads | crates/clippo-wayland/src/watch.rs:586-640 | The slots are those of the wanted types in order, each reading or lost to its own failed setup; one request for each type that got a pipe; one registration per slot still reading, and a timer exactly if something is open and the loop took it |
| Watcher.WatchState.BeginReads | crates/clippo-wayland/src/watch.rs:593-608 | A read that cannot start is a dropped slot that says why and has no registration; the requests are, in order, those for the types that got a pipe, and all are made of the offer in use |
| Watcher.WatchState.StartReads | crates/clippo-wayland/src/watch.rs:579-642 | The pending selection is the new generation with its first slots and a timer unless that failed, or it has been captured already, with every failed setup a reported loss, because nothing was left to read |
| Watcher.WatchState.OfferCreated | crates/clippo-wayland/src/watch.rs:459-468 | An introduced offer is tracked with nothing advertised, and the others keep what they had |
| Watcher.WatchState.OfferMime | crates/clippo-wayland/src/watch.rs:470-481 | An advertised type is added to its own offer only, and to none that is not tracked |
| Watcher.WatchState.RetireOffers | crates/clippo-wayland/src/watch.rs:805-815 | The requests made are to destroy each tracked offer but the kept one, once each, and nothing else, whatever the compositor did; what the kept one recorded is returned |
| Watcher.DestroysOneMore | crates/clippo-wayland/src/watch.rs:805-815 | Each turn of the loop destroys one offer that was still due, so that at the end each was destroyed once |
| Watcher.WatchState.TakeSelection | crates/clippo-wayland/src/watch.rs:831-859 | The requests are, in order: create the source, offer each distinct type once, set the selection, and only then destroy the source it replaces; an entry with nothing to offer changes nothing |
| Watcher.TakingOver | crates/clippo-wayland/src/watch.rs:824-851 | From any legal state of the sources those requests are legal and leave exactly the new source in use |
| Watcher.WatchState.SourceCancelled | crates/clippo-wayland/src/watch.rs:550-571 | Losing the clipboard destroys the owned source once and sends one loss; the cancellation of a superseded source changes nothing; parked pastes are untouched |
| Watcher.WatchState.Shutdown | crates/clippo-wayland/src/watch.rs:1033-1042 | The requests made are, in order: destroy the pending offer, destroy each tracked offer once, give up the selection, destroy its source, and last destroy the device; afterwards nothing is pending, tracked or owned, every source is destroyed and, unless the compositor broke the rules, every offer gone |
| Watcher.WatchState.LetGo | crates/clippo-wayland/src/watch.rs:1024-1041 | After the tracked offers, the selection is unset before its source is destroyed, and the device is the last thing destroyed |
| Watcher.WatchState.SourceSend | crates/clippo-wayland/src/watch.rs:527-548 | A request is refused exactly if its source is not the one that owns the clipboard or the type was not offered, and then nothing changes; any other is written from that offer's blob |
| Watcher.WatchState.BeginWrite | crates/clippo-wayland/src/watch.rs:866-931 | Either the whole blob is in the pipe at once, or the pipe is full with a prefix of it and the rest is parked last, after the oldest made room; nothing else happens unless the pipe broke or the paste could not be prepared or registered |
| Watcher.WatchState.Park | crates/clippo-wayland/src/watch.rs:888-930 | Parking evicts the oldest paste if there are as many as may be, never another, and enters the new one last; one that cannot be registered is dropped, its id used up |
| Watcher.WatchState.Register | crates/clippo-wayland/src/watch.rs:893-930 | The new paste has its own pipe, cursor and registrations and is tied to the offer that owned the clipboard when it was asked |
| Watcher.WatchState.MakeRoomForAWrite | crates/clippo-wayland/src/watch.rs:998-1020 | The loop ends, evicts nothing below the limit and exactly the oldest at it, and leaves fewer parked than max(1, the limit) |
| Watcher.WatchState.EvictOldest | crates/clippo-wayland/src/watch.rs:1000-1018 | The evicted paste is the head of the queue, leaves both tables and takes both its registrations with it |
| Watcher.WatchState.OnWriteReady | crates/clippo-wayland/src/watch.rs:934-959 | The pipe has received exactly what the cursor says of the offer's blob; a blocked paste stays where it was; one that is complete, or whose pipe broke, leaves the tables and its source removes itself |
| Watcher.WatchState.PumpParked | crates/clippo-wayland/src/watch.rs:941-957 | It finishes exactly when the whole blob has been written, and blocks only on a full pipe |
| Watcher.WatchState.OnWriteTimeout | crates/clippo-wayland/src/watch.rs:962-975 | A stalled paste leaves the tables and the loop, by asking the loop to remove the very timer whose callback is running; the timer of a paste that is gone does nothing |
| Watcher.WatchState.ForgetWrite | crates/clippo-wayland/src/watch.rs:983-991 | The paste leaves the queue and the loop loses its timer, and its source too if asked; the removal is a self-removal exactly when one of the two is running |
| Watcher.LeavingTheQueue | crates/clippo-wayland/src/watch.rs:990-990 | Removing an id keeps the queue strictly increasing and exactly the parked ids |
| Watcher.QueueCountsParked | crates/clippo-wayland/src/watch.rs:351-358 | Queue and table always hold the same number of pastes, so the empty-queue branch of the eviction loop means an empty table |
| Watcher.ReadIsCurrent | crates/clippo-wayland/src/watch.rs:679-695 | A read or read timer that is in the loop is always for the selection being read, so the stale branch is never taken by the loop |
| Watcher.RemovingAWrite | crates/clippo-wayland/src/watch.rs:983-991 | Taking a paste out of the table together with both its registrations keeps the loop and the tables exactly matched |
| Watcher.CapturedIsWatched | crates/clippo-wayland/src/watch.rs:744-757 | A selection without open slots holds interesting, pairwise different types within the cap and reports each wanted type once |
| Advertised.BoundedListLosesNothing | crates/clippo-wayland/src/watch.rs:404-424 | For every sequence of advertised types, what is wanted of the bounded list is, string for string and in order, what is wanted of the whole sequence, and the list holds at most 256 + 7 types |
| Advertised.WantedIsCompleteAndBounded | crates/clippo-wayland/src/watch.rs:1108-1136 | Every interesting type is wanted in some spelling, nothing else is, no type twice, and never more than there are known types |
| Advertised.InterestingFlavors | crates/clippo-wayland/src/watch.rs:1108-1136 | The loop computes what is wanted, and the branch that refuses a type is never taken |
| Advertised.AdvertisedMimes.Push | crates/clippo-wayland/src/watch.rs:404-424 | Nothing recorded is lost or moved, and an interesting type is always there in some spelling afterwards |
| Mime.Pigeonhole | crates/clippo-wayland/src/mime.rs:24-68 | Pairwise different interesting types are at most as many as the known ones |
| Mime.InterestIgnoresSpelling | crates/clippo-wayland/src/mime.rs:40-68 | Two spellings of one type are both interesting or both not |
| Flavors.ChunkingDoesNotMatter | crates/clippo-wayland/src/flavor.rs:59-82 | However a blob is cut into chunks, the finished flavor is exactly the blob, or is dropped because the blob is over the cap |
| Flavors.PendingSelection.Push | crates/clippo-wayland/src/flavor.rs:135-146 | One slot takes the chunk or is dropped for passing its cap; a resolved or unknown slot takes nothing; the count of open slots stays exact |
| Flavors.PendingSelection.Resolve | crates/clippo-wayland/src/flavor.rs:210-229 | Exactly one open slot is closed and counted |
| Flavors.PendingSelection.AbandonOpen | crates/clippo-wayland/src/flavor.rs:170-176 | Every reading slot is given up, every other is kept, and the number given up is reported |
| Flavors.PendingSelection.IsComplete | crates/clippo-wayland/src/flavor.rs:179-181 | Complete is the same as no slot still reading |
| Flavors.PendingSelection.IntoSelection | crates/clippo-wayland/src/flavor.rs:189-207 | What was read and what was lost, in the order asked for |
| Flavors.EverySlotIsReported | crates/clippo-wayland/src/flavor.rs:189-207 | Flavors, losses and open slots together are all the slots |
| Delivery.Deliver | crates/clippo-wayland/src/offer.rs:131-148 | For any pipe capacity, interruptions and interleaving of the two ends, received plus in-pipe bytes are the written prefix of the blob; on a sound pipe nothing fails, and once the writer is done, or was given up, the reader's next turn leaves exactly what was written, or the drop because that is over the cap; with as many rounds of the two ends as the blob has pipefuls, and the writer not given up, the slot is exactly the blob or the drop |
| Delivery.BlobWriter.Pump | crates/clippo-wayland/src/offer.rs:131-148 | Bytes enter the pipe in order and as many as the cursor moves; it reports completion exactly at the end of the blob, a block only on a full pipe and a failure only on a broken one; it terminates |
| Delivery.ReadFlavor | crates/clippo-wayland/src/watch.rs:1064-1091 | The slot gains exactly what left the pipe, is finished only at the end of the stream, dropped only past the cap or when the pipe broke, and left reading only when the pipe is empty; no read takes more than a chunk, and only the last can pass the cap; it terminates by the room left under the cap |
| Delivery.WhenTheReadBoundHolds | crates/clippo-wayland/src/watch.rs:1059-1063 | The comment's bound, the cap in full chunks accepted before the cap fires, holds if and only if there are no more reads than that or one more than that pass the cap |
| Delivery.FullReadsMeetTheBound | crates/clippo-wayland/src/watch.rs:1059-1063 | Reads that fill the chunk meet it |
| Delivery.SmallReadsPassTheBound | crates/clippo-wayland/src/watch.rs:1059-1063 | A schedule of one-byte reads that fails it: below one chunk of room each of them is accepted where the bound is zero |
| Offer.OfferedFlavors | crates/clippo-wayland/src/offer.rs:61-81 | The loop computes the first spelling of each type that has one |
| Offer.NoTypeTwice | crates/clippo-wayland/src/offer.rs:61-81 | No type is offered twice |
| Offer.EveryTypeOnce | crates/clippo-wayland/src/offer.rs:61-81 | Every type that came in is offered in some spelling |
| Offer.BlobForItsOwnType | crates/clippo-wayland/src/offer.rs:87-92 | Asking for exactly what was offered gives its own bytes |
| Offer.BlobForAnyAdvertisedSpelling | crates/clippo-wayland/src/offer.rs:87-92 | A request is answered exactly when its type was offered, whatever the spelling |
| Echo.EchoIdentity | crates/clippod/src/echo.rs:16-27 | An entry that is offered, advertised, picked, read back and hashed again is recognised if the best-ranked stored flavor that comes back (advertised, read within the cap, and not preceded by an advertised spelling of its own type) has the essence and bytes of the canonical one, whatever BLAKE3 is; and only if, unless BLAKE3 collides on two flavors of the entry |
| Echo.CanonicalFlavorComesBack | crates/clippod/src/echo.rs:16-27 | The recapture has the very canonical flavor the entry is stored under, with its kind and hash, if and only if that flavor is read back within the cap and no earlier advertised flavor spells its type differently |
| Echo.RecapturedIsWhatIsFit | crates/clippo-wayland/src/watch.rs:1108-1136 | The recapture is, in stored order, exactly the flavors that are advertised, read within the cap and first of their type |
| Echo.OverTheCapIsNotRecognised | crates/clippod/src/echo.rs:16-27 | Unless BLAKE3 collides on two flavors of the entry, a canonical flavor over the read cap is not recognised, since whatever could stand in for it would be as large |
| Echo.RecapturedIsAFilter | crates/clippo-wayland/src/watch.rs:1108-1136 | Advertising to oneself, picking what is interesting and reading it back through the paste path is one filter and one deduplication |
| Loopback.ReadBackOwn | crates/clippo-wayland/src/offer.rs:61-148 | The round trip through real pipes: each flavor read is a prefix of the blob the offer answers with, whatever happens on the way, and if every paste gets through what is captured is exactly the recapture |
| Echo.CompactSpellingsComeBack | crates/clippod/src/echo.rs:16-27 | With whitespace-free spellings the condition always holds |
| Echo.DistinctTypesComeBack | crates/clippod/src/echo.rs:16-27 | With no type offered in two spellings it holds too |
| Echo.AnEarlierSpellingLosesTheEcho | crates/clippo-wayland/src/mime.rs:52-68 | Two concrete flavors, not ones the watcher can capture, for which recognition fails whatever their contents: an earlier spelling with a space in it is offered in place of the canonical one and, without a collision, does not hash like it |
| CopyBack.CopyBackIsRecognised | crates/clippod/src/daemon.rs:291-364 | Whatever spellings were captured by the watcher and stored, putting the entry back is captured with the kind and hash it was stored under |
| CopyBack.WatchedIsRecognisedIfItFits | crates/clippod/src/daemon.rs:291-364 | An entry captured under one read cap is recognised under any other exactly if its canonical flavor fits that one, unless BLAKE3 collides on what it holds |
| CopyBack.AnEntryOfALargerCapIsLost | crates/clippod/src/daemon.rs:291-364 | A reachable input that is not recognised: a plain text captured under a larger cap than the present one, of which nothing is read back |
| CopyBack.WantedReadsAreWatched | crates/clippo-wayland/src/watch.rs:1095-1107 | What the watcher captures never has a type in two spellings, whichever reads failed |
| CopyBack.ReadsAreWatched | crates/clippo-wayland/src/watch.rs:404-424 | The same for what the bounded list recorded |
| CopyBack.WatchedComesHome | crates/clippo-store/src/store.rs:244-305 | What the store keeps of any selection the watcher captured, thumbnail and dropped images included, has its canonical flavor come back under its own kind and hash |
| CopyBack.ReadBackIsWatched | crates/clippo-wayland/src/watch.rs:1095-1136 | What is read back of clippo's own offer is again a selection of distinct interesting types within the cap |
| Daemons.Daemon.CopyAndReadBack | crates/clippod/src/daemon.rs:291-364 | In any reachable state, putting any entry back on the clipboard and capturing what the watcher then reads leaves the history as it was but for that entry's last use, and the guard spent |
| Daemons.Daemon.CopyAndReadBackThroughPipes | crates/clippod/src/daemon.rs:291-364 | The same when the bytes go through pipes, as long as every paste of the offer gets through |
| Daemons.Daemon.Capture | crates/clippod/src/daemon.rs:212-287 | A selection without an identity changes nothing and does not spend the guard; any other spends it, is ignored exactly if the guard was armed with its hash, is dropped if clippo is paused, and else is stored |
| Daemons.Daemon.Copy | crates/clippod/src/daemon.rs:291-364 | An existing entry always has something to offer; the guard is armed with its hash before the offer, and cleared again with the history unchanged if the clipboard was not taken |
| Daemons.Daemon.Record | crates/clippo-store/src/store.rs:244-305 | Storing a capture keeps everything in the history recognisable, the new entry included, whatever the sweep drops |
| Daemons.Daemon.Run | crates/clippod/src/daemon.rs:181-364 | Over any sequence of captures, copies, deletes, clears, pins and sweeps, every entry in the history can be put back and be recognised, and the captures ignored as clippo's own, plus a guard still armed, never exceed the copies the clipboard accepted, plus a guard armed at the start |
| Daemons.Daemon.Handle | crates/clippod/src/daemon.rs:181-364 | A capture is ignored as clippo's own only by spending an armed guard, only an accepted copy of an existing entry arms it, with that entry's hash, and every other request leaves it alone or disarms it |
| Daemons.WatchAndRecord | crates/clippod/src/daemon.rs:201-287 | With the watcher's whole run in front, whatever happens on the clipboard, whatever the channel loses and whatever is asked of the daemon in between: every entry in the history can be put back and be recognised, and captures ignored as clippo's own, plus a guard still armed, never exceed accepted copies, plus a guard armed at the start |
| EchoGuards.AtMostOneCapturePerArm | crates/clippod/src/echo.rs:62-91 | Over any run, captures taken for an echo plus a guard still armed never exceed the arms |
| EchoGuards.EchoGuard.IsEcho | crates/clippod/src/echo.rs:78-83 | A capture spends the guard and is an echo only if it was armed last, with that hash |
| Ranked.FirstBest | crates/clippo-store/src/dedup.rs:70-90 | The loop over `best` finds the flavor every other is beaten by, the earliest among equals |
| Ranked.BestOfIsExact | crates/clippo-store/src/dedup.rs:70-90 | The fold over `best` gives a flavor, or none, exactly if that is the first of the best-ranked ones, or none is ranked |
| Ranked.FilterKeepsTheBest | crates/clippo-store/src/dedup.rs:70-90 | Dropping other flavors leaves the canonical one canonical |
| Ranked.FirstOfEachKeepsTheBest | crates/clippo-store/src/dedup.rs:70-90 | So does dropping repeats of types that come later |
| Dedup.CompactSpellingsRankAlike | crates/clippo-store/src/dedup.rs:114-153 | Spellings that differ only in case rank alike when free of whitespace |
| Dedup.OnlyTheThumbnailIsHeldBack | crates/clippo-store/src/images.rs:114-139 | What is not offered is exactly what names the thumbnail type in any case |
| Entries.ForFlavorsIsTheRichest | crates/clippo-core/src/entry.rs:166-193 | The kind of a selection is that of some flavor and no flavor is richer |
| Entries.KindOfAThinnedSelection | crates/clippo-core/src/entry.rs:188-193 | Dropping flavors keeps the kind as long as a flavor of that kind stays |
| Storage.StoringKeepsTheCanonicalFlavor | crates/clippo-store/src/store.rs:325-411 | Dropping exact repeats, dropping over-cap images that are not canonical and adding the thumbnail never change which flavor is canonical, and no MIME string is stored twice |
| Storage.DistinctFlavors | crates/clippo-store/src/store.rs:690-703 | The loop keeps the first flavor of each MIME string |
| Storage.FlavorsAfterCascade | crates/clippo-store/src/store.rs:525-572 | The cascade takes the flavors of deleted entries and no others |
| Storage.CascadeLeavesNoOrphans | crates/clippo-store/src/store.rs:525-572 | No flavor row outlives its entry |
| Stores.Store.Insert | crates/clippo-store/src/store.rs:244-305 | A refused image changes nothing; a new hash makes one row with the stored flavors under the next id and begins a life with this one copy, a known hash only bumps its row and appends the copy to its life, and every other life is as it was; either way the sweep runs, both limits hold afterwards and no pinned entry leaves |
| Stores.Store.InsertOrBump | crates/clippo-store/src/store.rs:253-296 | The unique hash decides between a new row, whose life is this one copy, and a bump of the row with that hash, whose life gains the copy; no other row or life changes |
| Stores.InsertingIsSound | crates/clippo-store/src/store.rs:253-284 | A new row keeps hashes unique, flavors owned and every row a function of its copies |
| Stores.BumpIsExplained | crates/clippo-store/src/store.rs:286-296 | A bump shows the newest sensitive preview, never un-marks a sensitive entry, and leaves creation time and kind |
| Stores.SensitiveEntriesShowAMask | crates/clippo-store/src/store.rs:286-296 | What a sensitive entry shows is always the preview of a sensitive copy in its life, of the same hash; the lives hold exactly the copies inserted (`Stores.Store.InsertOrBump`) |
| Stores.DeletingIsSound | crates/clippo-store/src/store.rs:525-572 | Deleting any set of entries, with the cascade, keeps the database consistent and the rest as it was |
| Stores.Store.DeleteAllBut | crates/clippo-store/src/store.rs:525-572 | What is kept is kept with its bytes, and the number deleted is exact |
| Stores.Store.SweepNow | crates/clippo-store/src/retention.rs:133-175 | The two deletes do what the sweep function says and their counts add up to what is gone |
| Stores.Store.Delete | crates/clippo-store/src/store.rs:525-533 | One entry and its flavors go, pinned or not, and whether there was one is reported |
| Stores.Store.Clear | crates/clippo-store/src/store.rs:542-558 | Everything goes, or everything that is not pinned |
| Stores.Store.SetPinned | crates/clippo-store/src/store.rs:637-643 | Only the pin of that entry changes |
| Stores.Store.Touch | crates/clippo-store/src/store.rs:650-656 | Only the last use of that entry changes, to whatever time is given |
| Stores.Store.List | crates/clippo-store/src/store.rs:418-428 | A page is that slice of the entries ordered by last use and then id, newest first |
| Stores.Store.Get | crates/clippo-store/src/store.rs:501-519 | An entry comes with the flavors its first copy stored, no MIME string twice, and the canonical one among them hashes to the entry's hash if every insert was keyed |
| Stores.Store.Run | crates/clippo-store/src/store.rs:244-656 | Over any run of inserts, deletes, clears, pins, touches, sweeps and configurations, for every entry that stays throughout, pinned or not: hash, kind, creation time and flavor bytes are unchanged and sensitivity never goes back; every sensitive entry shows the preview of a sensitive copy of its hash that was inserted by the run or belonged to an entry at the start; keyed inserts keep every canonical flavor hashing to its entry |
| Stores.Store.RunPinned | crates/clippo-store/src/store.rs:244-656 | An entry pinned at the start is the same entry at the end, pinned, with its hash and bytes, after any run that does not unpin it, delete it by id or clear everything |
| Stores.Store.Perform | crates/clippo-store/src/store.rs:244-656 | Each single operation is a run of one from the books as they were |
| Stores.RunAfterRun | crates/clippo-store/src/store.rs:244-656 | What two runs in a row say of the books is what the joined run says: lives only grow, births are never reused, and every copy in a life was there before or was inserted |
| Stores.SweepingIsARun | crates/clippo-store/src/retention.rs:133-175 | A sweep ends the life of what it drops, changes no life that stays, and lets go of nothing pinned |
| Stores.NewestSurvivesInFront | crates/clippo-store/src/store.rs:298-299 | A copy strictly later than every use is in the history after the sweep and first, provided at least one entry may be kept |
| History.OnlyOneListing | crates/clippo-store/src/store.rs:418-428 | Order by last use and id, with all entries, determines the list |
| History.ListingLists | crates/clippo-store/src/store.rs:418-428 | The listing holds every entry once, newest first |
| Retention.SweepKeepsAPrefixOfTheList | crates/clippo-store/src/retention.rs:133-175 | Every pinned entry stays, and of the others exactly the first `max_entries` of the unexpired ones in list order, unchanged |
| Retention.SweptIsWithinLimits | crates/clippo-store/src/retention.rs:133-175 | Afterwards the unpinned entries meet both limits, however many are pinned |
| Retention.SweepIsIdempotent | crates/clippo-store/src/retention.rs:133-175 | A second sweep at the same time deletes nothing |
| Retention.DeletesCommute | crates/clippo-store/src/retention.rs:145-170 | The two deletes may run in either order |
| Cache.PagesAgree | crates/clippod/src/cache.rs:133-153 | Once the cache holds the whole listing, its page is the page the store itself lists, entry by entry |
| Cache.PagesTile | crates/clippod/src/cache.rs:143-153 | Consecutive pages, one after another, are the history: each entry once, in order |
| Cache.PreviewCache.Search | crates/clippod/src/cache.rs:167-193 | A query over 1024 characters is refused before anything is scored; otherwise the answer is the ranking cut to the limit |
| Cache.SearchIsTheRanking | crates/clippod/src/cache.rs:167-193 | The ranking is the one list of the matches that is best first and keeps history order among equals |
| Cache.OnlyOneRanking | crates/clippod/src/cache.rs:185-185 | Those two properties leave no choice |
| Cache.FoundIsExact | crates/clippod/src/cache.rs:175-184 | A search finds an entry exactly if its preview matches |
| Cache.EqualScoresAreTheHistory | crates/clippod/src/cache.rs:155-163 | When all scores are equal the answer is the history in its own order |
| Cache.CheckQuery | crates/clippod/src/cache.rs:91-108 | Counting bytes first refuses nothing and admits nothing that counting characters would not |
| Picker.Session | crates/clippo-applet/src/model.rs:147-364 | The model over any session is the fold of its events, and what it draws after each of them is the value the fold says |
| Picker.SelectionIsAlwaysARow | crates/clippo-applet/src/model.rs:256-331 | Over any session with unique row ids something is selected exactly when there are rows, and it is one of them |
| Picker.LandingRule | crates/clippo-applet/src/model.rs:256-282 | A new ranking lands on row 0; otherwise the same id if it is still there, else the same row number, clamped |
| Picker.FreshUntilAnswered | crates/clippo-applet/src/model.rs:189-225 | The next accepted list is a new ranking exactly when the query changed or the picker was reopened and no list has been accepted since; overtaken answers do not count |
| Picker.DrawnOnlyWhileSelected | crates/clippo-applet/src/model.rs:339-363 | A value is drawn exactly while the entry it was revealed for is selected and no list was accepted, no disconnect, no close and no other reveal came since |
| Picker.HeldSinceItWasRevealed | crates/clippo-applet/src/model.rs:339-363 | The held value is the last one revealed, unless something dropped it since |
| Picker.DeletingTheSelectedRow | crates/clippo-applet/src/model.rs:236-241 | The highlight goes to the row that moves up, or to the new last row, and the rule says it placed it |
| Picker.AnArrivalMovesNothing | crates/clippo-applet/src/model.rs:248-255 | A copy arriving on top leaves the highlight on its entry, one row lower, and the rule says it placed nothing |
| Picker.Model.SetEntries | crates/clippo-applet/src/model.rs:256-282 | The new list, the landing, the dropped value and the flag that says exactly whether the rule placed the highlight |
| Picker.Model.SetStatus | crates/clippo-applet/src/model.rs:173-180 | Losing the daemon empties the list and drops the value |
| Picker.Model.Step | crates/clippo-applet/src/model.rs:322-331 | One row up or down, stopping at the ends |
| Picker.Model.Handle | crates/clippo-applet/src/app.rs:407-498 | An answer to a query that has been typed past changes nothing; every other event does its one thing |
| Scroll.ScrollingShowsTheRow | crates/clippo-applet/src/app.rs:584-605 | From any offset in range the row ends up fully on screen, from its top if it is taller than the viewport; the offset stays in range; asking again does not move the list |
| Scroll.ScrollingMovesAsLittleAsItCan | crates/clippo-applet/src/app.rs:567-576 | No offset that shows the row is nearer |
| Scroll.VisibleRowsStay | crates/clippo-applet/src/app.rs:596-604 | A row that is fully visible wants no scroll, wherever the list is |
| Scroll.RowsTile | crates/clippo-applet/src/app.rs:545-557 | Rows follow one another with one gap, the first at the top, the last at the end of the content |
| Scroll.RowsAreInside | crates/clippo-applet/src/app.rs:545-557 | Every row lies within the content |
| Ids.ResolvesWhatItNames | crates/clippo-cli/src/ids.rs:124-158 | With unique ids, what was typed resolves to an entry exactly when it is that entry's id in decimal, or the start of that id and of no other |
| Ids.AnIdNamesItself | crates/clippo-cli/src/ids.rs:131-134 | An existing id resolves to itself whatever else is in the history, exactly if it is not negative |
| Ids.AmbiguityNamesEveryMatch | crates/clippo-cli/src/ids.rs:147-157 | An ambiguity lists every entry that starts so, at least two, each with its shortened preview, and none is exactly what was typed |
| Ids.OtherAnswers | crates/clippo-cli/src/ids.rs:125-145 | Not an id exactly if it is not a decimal number; no such entry exactly if nothing starts so |
| Ids.NamedOnceInOrder | crates/clippo-cli/src/ids.rs:175-184 | Either every reference resolves and each named entry is returned once in the order of first mention, or the first failure is returned alone |
| Ids.ResolveEach | crates/clippo-cli/src/ids.rs:175-184 | The loop computes that outcome |
| Ids.SpellingsDiffer | crates/clippo-cli/src/ids.rs:131-134 | No two ids are spelled alike in decimal |
| Display.OneLineFits | crates/clippo-core/src/display.rs:38-91 | The line is the full rendering when that fits, else a prefix of it and an ellipsis, and never longer than asked |
| Display.OneLineIsClean | crates/clippo-core/src/display.rs:38-119 | No control, invisible or reordering character, no leading, trailing or doubled space |
| Display.OneLineIsIdempotent | crates/clippo-core/src/display.rs:38-91 | Rendering at the same width again changes nothing |
| Display.RenderOneLine | crates/clippo-core/src/display.rs:38-91 | The bounded loop computes that line though it stops at the first character that does not fit |
| Render.EscapeInvisible | crates/clippo-cli/src/render.rs:159-179 | The loop computes the escaped document |
| Render.EscapingPreservesMeaning | crates/clippo-cli/src/render.rs:139-179 | By section 7 of RFC 8259 the escaped document reads as the same strings and punctuation, unless an invisible character stands right after a backslash that opens an escape; a document that does not read still does not |
| Render.WhenTheMeaningChanges | crates/clippo-cli/src/render.rs:139-179 | Escaping changes what a document says if and only if an invisible character follows the backslash of an escape and the document would otherwise read; such a document is malformed before, so no well-formed one is changed |
| Render.WhenTheEscapedReads | crates/clippo-cli/src/render.rs:159-179 | An escaped document reads exactly when a reader that lets an invisible character follow that backslash gets through the original, and ends where that reader ends |
| Render.WellFormedHasNothingMisplaced | crates/clippo-cli/src/render.rs:139-144 | No document that reads has such a character, so nothing `serde_json` prints is excluded |
| Render.AMisplacedCharacterChangesTheMeaning | crates/clippo-cli/src/render.rs:159-179 | A concrete malformed document that escaping makes well formed |
| Render.PrintedStringsDecodeToThemselves | crates/clippo-cli/src/render.rs:139-179 | A string of any characters, printed as a JSON literal and escaped, decodes to itself, surrogate pairs included |
| Render.NothingInvisibleIsLeft | crates/clippo-cli/src/render.rs:159-179 | No invisible or reordering character is left |
| Render.EscapedIsAFixedPoint | crates/clippo-cli/src/render.rs:159-179 | Escaping twice is escaping once |
| Json.ScalarsOfUtf16 | crates/clippo-cli/src/render.rs:166-172 | Splitting into UTF-16 and joining surrogate pairs gives the characters back |
| Json.SurrogatePair | crates/clippo-cli/src/render.rs:166-172 | A character above U+FFFF is a high surrogate and a low one, in their ranges, combining to it and to no other |
| Keys.KeyReadsBack | crates/clippo-store/src/key.rs:170-191 | A written key, with its trailing newline, reads back as the same key |
| Keys.ToHex | crates/clippo-store/src/key.rs:170-177 | The loop writes two lowercase digits for each byte |
| Keys.ParseHex | crates/clippo-store/src/key.rs:180-191 | The loop computes `FromHex`, whose domain `Keys.AcceptedText` gives |
| Keys.AcceptedText | crates/clippo-store/src/key.rs:180-191 | A text is a key if and only if, whitespace around it aside, it has 64 characters and each pair is two hexadecimal digits or a plus sign and one |
| Keys.AcceptedDigits | crates/clippo-store/src/key.rs:180-191 | 64 hexadecimal digits are accepted, and what is accepted is 64 digits exactly if it has no plus sign |
| Keys.APlusSignIsAccepted | crates/clippo-store/src/key.rs:180-191 | A concrete text that is accepted and is not 64 digits |
| KeySources.Machine.AcquireIn | crates/clippo-store/src/key.rs:329-352 | Whatever the keyring and the files do, a key that is acquired while an encrypted history exists is the history's key; a key file decides alone, and nothing is written then; without one the first keyring item decides, then a new one is stored, then a key file is created with a key drawn separately, and with a database but neither of the first two there is no start and nothing is written; a calm start gets at the history unless there is a key file that others may read |
| KeySources.Machine.ReadKeyFile | crates/clippo-store/src/key.rs:428-467 | No key and no error exactly if the file is absent and its absence could be seen; a key exactly if the file is private, was read and holds one, and it is then the key the rules lead to; each error has its cause |
| KeySources.Machine.FromSecretService | crates/clippo-store/src/key.rs:390-409 | The first matching item decides and a malformed one is not replaced; only with none is a key stored, which a call that failed may have done all the same |
| KeySources.Machine.FallBackToFile | crates/clippo-store/src/key.rs:366-384 | No key file is created while there is a database it would shadow |
| KeySources.Machine.CreateKeyFile | crates/clippo-store/src/key.rs:470-507 | An existing file is never overwritten, what an interrupted write leaves is a proper prefix, and a key is returned only once all of it is written |
| KeySources.Machine.Run | crates/clippo-store/src/key.rs:322-409 | Over any sequence of starts with outages and crashes between any two steps, the keyring's key and the file's drawn separately, the machine ends as the fold of the events says and the acquisitions are, event by event, those of the fold; every key acquired while a history exists is the key that history was created with, and the rules always lead back to it |
| KeySources.AcquiredIsTheHistorysKey | crates/clippo-store/src/key.rs:322-409 | The same of the fold, from any safe state |
| KeySources.HistoryKeepsItsKey | crates/clippo-store/src/key.rs:322-409 | No run without a deletion changes the key of a history |
| KeySources.CalmStartGetsThrough | crates/clippo-store/src/key.rs:322-409 | After any run that leaves a history, a calm start acquires a key if and only if there is no key file that others may read |
| KeySources.StartedLeads | crates/clippo-store/src/key.rs:322-409 | The key of a start is the one every later start is led to, and with a database present no start makes another key the one |

## Left out

- `HashMap` and `Vec` iteration order: retired offers and cleared sources are destroyed in some order, and no property depends on which.
- Counters: `generation`, `next_write`, row ids and the byte counts are unbounded here and 64 bits wide in the program; `SELECT max(rowid) + 1` at the largest row id is not modelled.
- Pipes: what a source writes while the watcher drains its pipe arrives in the model before the drain or after it. A parked paste's pipe is not closed in the model when the paste leaves the tables; a paste whose first write fails has its pipe left as it was. Any call on a pipe that is not `sound` may fail; a reader that is done leaves its end open.
- calloop: the loop is a set of registrations and the source that is running. That removing a running source is refused or harmless is a property of calloop and not part of this model; what is proved is exactly when the watcher asks for it.
- The daemon's channel: whether it takes an event, is full or is closed is a free choice at each send.
- Wayland requests and events are a trace; the connection, flushing, protocol errors, the `zwlr` variant of the protocol and the compositor's own scheduling are left out.
- BLAKE3 is an arbitrary function of the essence and the bytes; the thumbnail is an arbitrary function that may fail; the search score is an arbitrary function of query and preview.
- The derived thumbnail is not checked against the image cap, as in the program.
- SQL: each statement is given its meaning on the two tables; transactions, the vacuum and `reclaim` are left out, and so are I/O errors of the database.
- Daemons: reloading the preview cache and announcing changes are left out. The watcher's read cap is the same over a run; entries stored under another one are the subject of `CopyBack.WatchedIsRecognisedIfItFits`. Captures are handled in the order the watcher hands them over, with requests in between.
- The masking and detection of secrets (`crates/clippo-core/src/secrets`): `sensitive` and `preview` are inputs of a copy.
- `Store.Touch` and a bump take whatever time they are given, as the program does; that an insert always ends up in front is therefore stated only for a copy strictly later than every use (`Stores.NewestSurvivesInFront`).
- Keys: starts do not overlap. Two daemons started at once are outside the claim, because checking for the database and creating the key file are separate steps. Items of other programs in the keyring are whatever they are at the start of a run.
- KeySources.Machine.Run: the two random keys a start may draw are inputs; that any two differ is not needed.
- Scroll: heights and offsets are real numbers, so the rounding of `f32` is not modelled.
- Picker: thumbnails, the window and its placement, and scrolling as a side effect of an answer; only the flag that decides it.
- JSON: the document is read as string literals between other characters; numbers and nesting are passed through unexamined, which is what the escaping does too. `serde_json` is modelled for strings only.
- Relative ages, table layout, the D-Bus interface, configuration, `chord.rs` and all drawing: each is settled by one branch or is I/O.
- Loopback.ReadBackOwn: every type has a pipe and an order of turns of its own, which any order of the two ends over several pipes is made of; that it is the watcher's own loop that takes both turns is not modelled. A paste of clippo's own offer that is evicted or times out ends early, and its reader keeps the prefix (`Delivery.Deliver` with a small `patience`).
- Watcher.WatchState.Turn: states the invariants; what each event does is stated by the callback it calls.
