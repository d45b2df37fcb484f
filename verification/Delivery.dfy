/** Bytes through pipes: writing a blob into a paste's pipe, and draining a flavor's pipe. */
module Delivery {
  import opened Strings
  import opened Entries
  import opened Flavors
  import opened Pipes

  datatype WriteProgress = Finished | Blocked | Failed(message: string)

  /** A paste being answered: a blob and a cursor into it. */
  class BlobWriter {
    const data: Bytes
    var written: nat

    ghost predicate Valid()
      reads this
    {
      written <= |data|
    }

    constructor (data: Bytes)
      ensures Valid() && this.data == data && written == 0
    {
      this.data, written := data, 0;
    }

    /** What is still owed to the reader. */
    function Remaining(): nat
      requires Valid()
      reads this
    {
      |data| - written
    }

    /** Write on from the cursor until the blob is out, the pipe is full, or it fails. An interrupted
        call is tried again, which ends: the pipe has only so many interruptions. */
    method Pump(pipe: Pipe) returns (progress: WriteProgress)
      requires Valid() && pipe.Valid()
      modifies this`written, pipe
      ensures Valid() && pipe.Valid() && old(written) <= written
      ensures pipe.left == old(pipe.left) && pipe.writerOpen == old(pipe.writerOpen)
      ensures pipe.entered == old(pipe.entered) + data[old(written)..written]
      ensures progress.Finished? <==> Remaining() == 0
      ensures progress.Blocked? ==> |pipe.buffer| == pipe.capacity
      ensures pipe.broken == (old(pipe.broken) || progress.Failed?)
    {
      while written < |data|
        invariant pipe.broken == old(pipe.broken)
        invariant Valid() && pipe.Valid() && old(written) <= written
        invariant pipe.left == old(pipe.left) && pipe.writerOpen == old(pipe.writerOpen)
        invariant pipe.entered == old(pipe.entered) + data[old(written)..written]
        decreases pipe.interruptions, Remaining()
      {
        var result := pipe.Write(data[written..]);
        match result {
          case Ok(bytes) =>
            if bytes == 0 {
              return Failed("the receiver accepted no bytes");
            }
            assert data[old(written)..written] + data[written..][..bytes] == data[old(written)..written + bytes];
            written := written + bytes;
          case Interrupted =>
          case WouldBlock => return Blocked;
          case Error(message) => return Failed(message);
        }
      }
      return Finished;
    }
  }

  datatype PostAction = Continue | Remove

  /** A reading slot that has been fed `more` and not resolved. */
  function Fed(slot: Slot, more: Bytes): Slot
    requires slot.Reading?
  {
    Reading(slot.buffer.(data := slot.buffer.data + more))
  }

  /** What one drain may do to a reading slot that took `more` off its pipe. */
  ghost predicate DrainedTo(before: Slot, more: Bytes, after: Slot, action: PostAction, atEof: bool, broken: bool)
    requires before.Reading?
  {
    match after
    case Reading(b) => action.Continue? && after == Fed(before, more)
    case Done(flavor) =>
      action.Remove? && atEof && after == AtEnd(Fed(before, more)) && |flavor.data| <= before.buffer.cap
    case Dropped(mime, reason) =>
      && action.Remove? && mime == before.buffer.mime
      && match reason
         case OverCap(cap) => cap == before.buffer.cap && |before.buffer.data| + |more| > cap
         case Io(_) => broken && |before.buffer.data| + |more| <= before.buffer.cap
         case _ => false
  }

  predicate IsReading(slots: seq<Slot>, slot: nat) {
    slot < |slots| && slots[slot].Reading?
  }

  /** What the slot can still take. */
  function Room(slots: seq<Slot>, slot: nat): nat {
    if IsReading(slots, slot) && |slots[slot].buffer.data| <= slots[slot].buffer.cap
    then slots[slot].buffer.cap - |slots[slot].buffer.data| else 0
  }

  /** The slots so far: nothing moved but this one, by what was taken off its pipe. */
  ghost predicate Feeding(before: seq<Slot>, slot: nat, taken: Bytes, slots: seq<Slot>) {
    if IsReading(before, slot) then
      && slots == before[slot := Fed(before[slot], taken)]
      && |before[slot].buffer.data| + |taken| <= before[slot].buffer.cap
    else slots == before
  }

  /** The slots after a whole drain. */
  ghost predicate Drained(
    before: seq<Slot>, slot: nat, taken: Bytes, slots: seq<Slot>, action: PostAction, atEof: bool, broken: bool)
  {
    && |slots| == |before|
    && (forall i | 0 <= i < |slots| && i != slot :: slots[i] == before[i])
    && (slot < |slots| ==>
          if before[slot].Reading? then DrainedTo(before[slot], taken, slots[slot], action, atEof, broken)
          else slots[slot] == before[slot])
  }

  lemma {:induction false} FeedingStarts(slots: seq<Slot>, slot: nat)
    requires IsReading(slots, slot) ==> |slots[slot].buffer.data| <= slots[slot].buffer.cap
    ensures Feeding(slots, slot, [], slots)
  {
    if IsReading(slots, slot) {
      assert slots[slot].buffer.data + [] == slots[slot].buffer.data;
      assert slots[slot := slots[slot]] == slots;
    }
  }

  lemma {:induction false} FeedingPauses(
      before: seq<Slot>, slot: nat, taken: Bytes, slots: seq<Slot>, atEof: bool, broken: bool)
    requires Feeding(before, slot, taken, slots)
    ensures Drained(before, slot, taken, slots, Continue, atEof, broken)
  {
  }

  lemma {:induction false} FeedingGoesOn(
      before: seq<Slot>, slot: nat, taken: Bytes, slots: seq<Slot>, chunk: Bytes, after: seq<Slot>)
    requires Feeding(before, slot, taken, slots) && IsReading(slots, slot) && IsReading(after, slot)
    requires |after| == |slots| && after == slots[slot := AfterChunk(slots[slot], chunk)]
    ensures Feeding(before, slot, taken + chunk, after)
    ensures Room(after, slot) == Room(slots, slot) - |chunk|
  {
    assert before[slot].buffer.data + (taken + chunk) == before[slot].buffer.data + taken + chunk;
  }

  lemma {:induction false} FeedingOverflows(
    before: seq<Slot>, slot: nat, taken: Bytes, slots: seq<Slot>, chunk: Bytes, after: seq<Slot>, atEof: bool,
    broken: bool)
    requires Feeding(before, slot, taken, slots) && (!IsReading(slots, slot) || !IsReading(after, slot))
    requires after == if slot < |slots| then slots[slot := AfterChunk(slots[slot], chunk)] else slots
    ensures Drained(before, slot, taken + chunk, after, Remove, atEof, broken)
  {
  }

  lemma {:induction false} FeedingEnds(
      before: seq<Slot>, slot: nat, taken: Bytes, slots: seq<Slot>, after: seq<Slot>, broken: bool)
    requires Feeding(before, slot, taken, slots)
    requires after == if slot < |slots| then slots[slot := AtEnd(slots[slot])] else slots
    ensures Drained(before, slot, taken, after, Remove, true, broken)
  {
  }

  lemma {:induction false} FeedingFails(
    before: seq<Slot>, slot: nat, taken: Bytes, slots: seq<Slot>, message: string, after: seq<Slot>, atEof: bool)
    requires Feeding(before, slot, taken, slots)
    requires after == if slot < |slots| then slots[slot := GivenUp(slots[slot], Io(message))] else slots
    ensures Drained(before, slot, taken, after, Remove, atEof, true)
  {
  }

  /** How many chunks from the front fit into the room there is. */
  function AcceptedChunks(chunks: seq<Bytes>, room: nat): nat {
    if chunks == [] then 0
    else
      var before := AcceptedChunks(chunks[..|chunks| - 1], room);
      before + if before == |chunks| - 1 && |Concatenated(chunks)| <= room then 1 else 0
  }

  /** No read took more than it asked for, and only the last can have passed the cap. */
  ghost predicate ReadsWithin(chunks: seq<Bytes>, room: nat) {
    && (forall c <- chunks :: 1 <= |c| <= READ_CHUNK)
    && (chunks == [] || |Concatenated(chunks[..|chunks| - 1])| <= room)
  }

  lemma {:induction false} ConcatenatedGrows(chunks: seq<Bytes>, k: nat)
    requires k <= |chunks|
    ensures |Concatenated(chunks[..k])| <= |Concatenated(chunks)|
  {
    if k < |chunks| {
      ConcatenatedGrows(chunks[..|chunks| - 1], k);
      assert chunks[..|chunks| - 1][..k] == chunks[..k];
    } else {
      assert chunks[..k] == chunks;
    }
  }

  /** At least `k` chunks are accepted just when there are as many and they fit together. */
  lemma {:induction false} AcceptedExactly(chunks: seq<Bytes>, room: nat, k: nat)
    ensures AcceptedChunks(chunks, room) <= |chunks|
    ensures k <= AcceptedChunks(chunks, room) <==> k <= |chunks| && |Concatenated(chunks[..k])| <= room
  {
    if chunks == [] {
      assert chunks[..0] == [];
    } else {
      var init := chunks[..|chunks| - 1];
      AcceptedExactly(init, room, k);
      AcceptedExactly(init, room, |init|);
      assert init[..|init|] == init && chunks[..|chunks|] == chunks;
      if k <= |init| {
        assert init[..k] == chunks[..k];
      }
      ConcatenatedGrows(chunks, |init|);
    }
  }

  /** The bound of a full chunk for each read that is accepted: it holds just when there are no more
      reads than that, or the reads up to one more than that pass the cap. */
  lemma {:induction false} WhenTheReadBoundHolds(chunks: seq<Bytes>, room: nat)
    ensures var bound := room / READ_CHUNK;
            AcceptedChunks(chunks, room) <= bound <==>
            |chunks| <= bound || |Concatenated(chunks[..bound + 1])| > room
  {
    AcceptedExactly(chunks, room, room / READ_CHUNK + 1);
  }

  /** Full reads meet it. */
  lemma {:induction false} FullReadsMeetTheBound(chunks: seq<Bytes>, room: nat)
    requires forall c <- chunks :: |c| == READ_CHUNK
    ensures AcceptedChunks(chunks, room) <= room / READ_CHUNK
  {
    hide Concatenated;
    hide AcceptedChunks;
    var bound := room / READ_CHUNK;
    if |chunks| > bound {
      FullReadsAddUp(chunks[..bound + 1]);
      OneChunkMore(room, READ_CHUNK);
    }
    WhenTheReadBoundHolds(chunks, room);
  }

  lemma {:induction false} OneChunkMore(room: nat, chunk: nat)
    requires chunk > 0
    ensures (room / chunk + 1) * chunk > room
  {
  }

  lemma {:induction false} FullReadsAddUp(chunks: seq<Bytes>)
    requires forall c <- chunks :: |c| == READ_CHUNK
    ensures |Concatenated(chunks)| == |chunks| * READ_CHUNK
  {
    if chunks != [] {
      assert chunks[|chunks| - 1] in chunks && forall c <- chunks[..|chunks| - 1] :: c in chunks;
      FullReadsAddUp(chunks[..|chunks| - 1]);
    }
  }

  /** A writer that gives its bytes one by one does not: below a full chunk of room, every read up to
      the cap is accepted where the bound allows none. */
  lemma {:induction false} SmallReadsPassTheBound(chunks: seq<Bytes>, room: nat)
    requires forall c <- chunks :: |c| == 1
    requires |chunks| == room && 0 < room < READ_CHUNK
    ensures ReadsWithin(chunks, room) && AcceptedChunks(chunks, room) == room > room / READ_CHUNK
  {
    SinglesAddUp(chunks);
    assert chunks[..room] == chunks;
    AcceptedExactly(chunks, room, room);
    ConcatenatedGrows(chunks, |chunks| - 1);
  }

  lemma {:induction false} SinglesAddUp(chunks: seq<Bytes>)
    requires forall c <- chunks :: |c| == 1
    ensures |Concatenated(chunks)| == |chunks|
  {
    if chunks != [] {
      assert chunks[|chunks| - 1] in chunks && forall c <- chunks[..|chunks| - 1] :: c in chunks;
      SinglesAddUp(chunks[..|chunks| - 1]);
    }
  }

  /** One read more keeps within, as long as what there was before it fits. */
  lemma {:induction false} OneMoreRead(chunks: seq<Bytes>, chunk: Bytes, room: nat)
    requires ReadsWithin(chunks, room) && |Concatenated(chunks)| <= room && 1 <= |chunk| <= READ_CHUNK
    ensures ReadsWithin(chunks + [chunk], room)
    ensures Concatenated(chunks + [chunk]) == Concatenated(chunks) + chunk
  {
    assert (chunks + [chunk])[..|chunks|] == chunks;
  }

  lemma {:induction false} FeedingIsWithin(before: seq<Slot>, slot: nat, taken: Bytes, slots: seq<Slot>)
    requires Feeding(before, slot, taken, slots)
    ensures IsReading(slots, slot) ==> |taken| + Room(slots, slot) == Room(before, slot)
  {
  }

  /** Read from the pipe into one slot until there is nothing to read or the slot resolves. The measure
      is the room left under the cap, not the number of reads: a source that writes for ever is cut off
      by its cap. */
  method ReadFlavor(selection: PendingSelection, slot: nat, pipe: Pipe)
    returns (action: PostAction, ghost taken: Bytes, ghost chunks: seq<Bytes>)
    requires selection.Valid() && pipe.Valid()
    modifies selection, pipe
    ensures selection.Valid() && pipe.Valid()
    ensures pipe.entered == old(pipe.entered) && pipe.writerOpen == old(pipe.writerOpen)
    ensures pipe.left == old(pipe.left) + taken && pipe.chunks == old(pipe.chunks) + chunks
    ensures Drained(old(selection.slots), slot, taken, selection.slots, action,
                    pipe.buffer == [] && !pipe.writerOpen, pipe.broken)
    ensures ReadsWithin(chunks, Room(old(selection.slots), slot))
    ensures action.Continue? ==> pipe.buffer == [] && pipe.writerOpen && pipe.broken == old(pipe.broken)
    ensures old(pipe.broken) ==> pipe.broken
  {
    hide Feeding;
    hide Drained;
    hide Room;
    hide AfterChunk;
    hide AtEnd;
    hide GivenUp;
    hide CountReading;
    hide ReadsWithin;
    hide Concatenated;
    hide Pipe.Valid;
    ghost var before := selection.slots;
    taken, chunks := [], [];
    FeedingStarts(before, slot);
    NoReadsYet(Room(before, slot));
    while true
      invariant selection.Valid() && pipe.Valid()
      invariant pipe.entered == old(pipe.entered) && pipe.writerOpen == old(pipe.writerOpen)
      invariant pipe.left == old(pipe.left) + taken && pipe.chunks == old(pipe.chunks) + chunks
      invariant pipe.broken == old(pipe.broken)
      invariant Feeding(before, slot, taken, selection.slots)
      invariant |Concatenated(chunks)| == |taken| && ReadsWithin(chunks, Room(before, slot))
      invariant taken == [] || IsReading(selection.slots, slot)
      decreases pipe.interruptions, Room(selection.slots, slot)
    {
      ghost var slots := selection.slots;
      FeedingIsWithin(before, slot, taken, slots);
      var result := pipe.Read(READ_CHUNK);
      match result {
        case Ok(chunk) =>
          if chunk == [] {
            selection.Finish(slot);
            FeedingEnds(before, slot, taken, slots, selection.slots, pipe.broken);
            return Remove, taken, chunks;
          }
          OneMoreRead(chunks, chunk, Room(before, slot));
          var outcome := selection.Push(slot, chunk);
          if !outcome.Accepted? {
            FeedingOverflows(before, slot, taken, slots, chunk, selection.slots,
                             pipe.buffer == [] && !pipe.writerOpen, pipe.broken);
            return Remove, taken + chunk, chunks + [chunk];
          }
          FeedingGoesOn(before, slot, taken, slots, chunk, selection.slots);
          taken, chunks := taken + chunk, chunks + [chunk];
        case Interrupted =>
        case WouldBlock =>
          FeedingPauses(before, slot, taken, slots, false, pipe.broken);
          return Continue, taken, chunks;
        case Error(message) =>
          selection.DropFlavor(slot, Io(message));
          FeedingFails(before, slot, taken, slots, message, selection.slots, pipe.buffer == [] && !pipe.writerOpen);
          return Remove, taken, chunks;
      }
    }
  }

  lemma {:induction false} NoReadsYet(room: nat)
    ensures ReadsWithin([], room) && Concatenated([]) == []
  {
  }

  /** What a slot is once the reader has seen the end of a blob. */
  function Delivered(mime: string, cap: nat, blob: Bytes): Slot {
    if |blob| <= cap then Done(Flavor(mime, blob)) else Slot.Dropped(mime, OverCap(cap))
  }

  /** What the reader has made of what left the pipe. */
  ghost predicate Received(slot: Slot, mime: string, cap: nat, left: Bytes, ended: bool, broken: bool) {
    match slot
    case Reading(_) => slot == Reading(FlavorBuffer(mime, cap, left))
    case Done(_) => slot == Done(Flavor(mime, left)) && |left| <= cap && ended
    case Dropped(m, reason) => m == mime && ((reason.Io? && broken) || (reason == OverCap(cap) && |left| > cap))
  }

  lemma {:induction false} ReceivedMore(
    before: seq<Slot>, mime: string, cap: nat, left: Bytes, more: Bytes, after: seq<Slot>, action: PostAction,
    ended: bool, broken: bool)
    requires |before| == 1 && before[0] == Reading(FlavorBuffer(mime, cap, left))
    requires Drained(before, 0, more, after, action, ended, broken)
    ensures |after| == 1 && Received(after[0], mime, cap, left + more, ended, broken)
    ensures action.Continue? <==> after[0].Reading?
  {
  }

  /** How often the writer's turn comes at the start or right after the reader's. */
  function Rounds(turns: seq<bool>): nat {
    if turns == [] then 0
    else
      var n := |turns| - 1;
      Rounds(turns[..n]) + if turns[n] && (n == 0 || !turns[n - 1]) then 1 else 0
  }

  /** The writer has kept up with its turns: each round it fills the pipe or comes to the end. */
  ghost predicate KeepsUp(written: nat, size: nat, rounds: nat, capacity: nat) {
    written == size || rounds * capacity <= written
  }

  lemma {:induction false} OneMoreRound(before: nat, written: nat, size: nat, rounds: nat, capacity: nat)
    requires KeepsUp(before, size, rounds, capacity) && before <= written <= size
    requires written == size || written == before + capacity
    ensures KeepsUp(written, size, rounds + 1, capacity)
  {
    assert (rounds + 1) * capacity == rounds * capacity + capacity;
  }

  lemma {:induction false} AtTheEnd(written: nat, size: nat, rounds: nat, capacity: nat)
    requires written <= size
    ensures written == size ==> KeepsUp(written, size, rounds, capacity)
    ensures KeepsUp(written, size, rounds, capacity) && size <= rounds * capacity ==> written == size
  {
  }

  lemma {:induction false} StillKeepsUp(before: nat, written: nat, size: nat, rounds: nat, capacity: nat)
    requires KeepsUp(before, size, rounds, capacity) && before <= written <= size
    ensures KeepsUp(written, size, rounds, capacity)
  {
  }

  /** The writer's turn: it writes on, and closes its end unless the pipe is full. */
  method LetWriterGo(writer: BlobWriter, pipe: Pipe) returns (progress: WriteProgress)
    requires writer.Valid() && pipe.Valid() && pipe.writerOpen && pipe.entered == writer.data[..writer.written]
    modifies writer`written, pipe
    ensures writer.Valid() && pipe.Valid() && pipe.entered == writer.data[..writer.written]
    ensures pipe.left == old(pipe.left) && old(writer.written) <= writer.written
    ensures |pipe.buffer| == |old(pipe.buffer)| + writer.written - old(writer.written)
    ensures pipe.writerOpen <==> progress.Blocked?
    ensures progress.Blocked? ==> |pipe.buffer| == pipe.capacity && writer.written < |writer.data|
    ensures progress.Finished? <==> writer.written == |writer.data|
    ensures pipe.broken == (old(pipe.broken) || progress.Failed?)
  {
    hide Concatenated;
    ghost var before := writer.written;
    progress := writer.Pump(pipe);
    assert writer.data[..before] + writer.data[before..writer.written] == writer.data[..writer.written];
    if !progress.Blocked? {
      pipe.CloseWriter();
    }
  }

  /** The reader's turn: it stays registered only if the pipe is empty and the writer's end open. */
  method LetReaderGo(selection: PendingSelection, pipe: Pipe, ghost mime: string, ghost cap: nat)
    returns (registered: bool)
    requires selection.Valid() && pipe.Valid() && |selection.slots| == 1
    requires selection.slots[0] == Reading(FlavorBuffer(mime, cap, pipe.left))
    modifies selection, pipe
    ensures selection.Valid() && pipe.Valid() && |selection.slots| == 1
    ensures pipe.entered == old(pipe.entered) && pipe.writerOpen == old(pipe.writerOpen)
    ensures Received(selection.slots[0], mime, cap, pipe.left, pipe.buffer == [] && !pipe.writerOpen, pipe.broken)
    ensures old(pipe.broken) ==> pipe.broken
    ensures registered <==> selection.slots[0].Reading?
    ensures registered ==> pipe.writerOpen && pipe.buffer == []
  {
    hide Drained;
    hide CountReading;
    hide Concatenated;
    hide ReadsWithin;
    hide Received;
    ghost var before, slots := pipe.left, selection.slots;
    ghost var taken, chunks;
    var action;
    action, taken, chunks := ReadFlavor(selection, 0, pipe);
    ReceivedMore(slots, mime, cap, before, taken, selection.slots, action, pipe.buffer == [] && !pipe.writerOpen,
                 pipe.broken);
    registered := action.Continue?;
  }

  lemma {:induction false} OneMoreTurn(turns: seq<bool>, turn: nat)
    requires turn < |turns|
    ensures Rounds(turns[..turn + 1]) ==
            Rounds(turns[..turn]) + if turns[turn] && (turn == 0 || !turns[turn - 1]) then 1 else 0
  {
    assert turns[..turn + 1][..turn] == turns[..turn];
  }

  lemma {:induction false} KeepsUpAtFirst(size: nat, capacity: nat, turns: seq<bool>)
    ensures KeepsUp(0, size, Rounds(turns[..0]), capacity) && Rounds(turns[..0]) == 0
  {
  }

  /** A whole paste, end to end: clippo writes `blob` at one end of a pipe and the watcher reads the
      other, in any order of turns (`true` lets the writer go, `false` the reader). Nothing is lost on
      the way, and on a sound pipe nothing fails. The writer's end closes when it is done, or at the turn
      `patience` if it has been given up by then; either way the reader's next turn leaves the slot with
      what was written, or dropped because that is over the cap. A writer that is not given up is done
      after as many rounds as the blob has pipefuls, or the reader has passed its cap by then. */
  method Deliver(
    blob: Bytes, mime: string, cap: nat, capacity: nat, interruptions: nat, sound: bool, turns: seq<bool>,
    patience: nat)
    returns (slot: Slot, progress: WriteProgress, received: Bytes, inPipe: Bytes, written: nat)
    ensures written <= |blob| && received + inPipe == blob[..written]
    ensures progress.Finished? ==> written == |blob|
    ensures sound ==> !progress.Failed?
    ensures slot.Reading? ==> slot == Reading(FlavorBuffer(mime, cap, received))
    ensures slot.Done? ==> slot == Done(Flavor(mime, blob[..written])) && written <= cap && inPipe == []
    ensures slot.Dropped? ==>
              slot.mime == mime && ((slot.reason.Io? && !sound) || (slot.reason == OverCap(cap) && |blob| > cap))
    ensures sound && turns != [] && !turns[|turns| - 1] && (progress.Finished? || patience < |turns|) ==>
              slot == Delivered(mime, cap, blob[..written])
    ensures sound && |turns| <= patience && Rounds(turns) >= 1 && |blob| <= Rounds(turns) * capacity ==>
              && (progress.Finished? || slot == Slot.Dropped(mime, OverCap(cap)))
              && (turns != [] && !turns[|turns| - 1] ==> slot == Delivered(mime, cap, blob))
  {
    hide Drained;
    hide CountReading;
    hide Concatenated;
    hide ReadsWithin;
    hide KeepsUp;
    hide Rounds;
    var pipe := new Pipe(capacity, interruptions, sound);
    var writer := new BlobWriter(blob);
    var selection := new PendingSelection(0, Clipboard, []);
    var _ := selection.ExpectFlavor(mime, cap);
    progress := Blocked;
    var registered := true;
    KeepsUpAtFirst(|blob|, capacity, turns);
    for turn := 0 to |turns|
      invariant pipe.Valid() && writer.Valid() && selection.Valid()
      invariant pipe.entered == blob[..writer.written]
      invariant pipe.writerOpen <==> progress.Blocked? && turn <= patience
      invariant progress.Finished? ==> writer.written == |blob|
      invariant progress.Failed? ==> pipe.broken
      invariant |selection.slots| == 1 && (registered <==> selection.slots[0].Reading?)
      invariant Received(selection.slots[0], mime, cap, pipe.left, pipe.buffer == [] && !pipe.writerOpen, pipe.broken)
      invariant turn > 0 && !turns[turn - 1] && registered ==> pipe.writerOpen
      invariant turn == 0 || !turns[turn - 1] ==> registered ==> pipe.buffer == []
      invariant sound && turn <= patience && !selection.slots[0].Dropped? ==>
                  && KeepsUp(writer.written, |blob|, Rounds(turns[..turn]), capacity)
                  && (Rounds(turns[..turn]) >= 1 && writer.written == |blob| ==> progress.Finished?)
    {
      ghost var rounds := Rounds(turns[..turn]);
      OneMoreTurn(turns, turn);
      AtTheEnd(writer.written, |blob|, rounds + 1, capacity);
      if turn == patience && progress.Blocked? {
        pipe.CloseWriter();
      }
      if turns[turn] && progress.Blocked? && turn < patience {
        ghost var before := writer.written;
        progress := LetWriterGo(writer, pipe);
        if sound && !selection.slots[0].Dropped? {
          StillKeepsUp(before, writer.written, |blob|, rounds, capacity);
          if turn == 0 || !turns[turn - 1] {
            OneMoreRound(before, writer.written, |blob|, rounds, capacity);
          }
        }
      } else if !turns[turn] && registered {
        registered := LetReaderGo(selection, pipe, mime, cap);
      }
    }
    assert turns[..|turns|] == turns;
    AtTheEnd(writer.written, |blob|, Rounds(turns), capacity);
    slot, received, inPipe, written := selection.slots[0], pipe.left, pipe.buffer, writer.written;
    assert |received| <= |blob|;
    assert received + [] == received && blob[..|blob|] == blob;
  }
}
