/** A pipe, as far as its two non-blocking ends can see it. */
module Pipes {
  import opened Strings
  import opened Flavors

  /** How much is taken off a pipe per read. */
  const READ_CHUNK: nat := 64 * 1024

  datatype Io<T> = Ok(value: T) | Interrupted | WouldBlock | Error(message: string)

  lemma {:induction false} OneMoreChunk(chunks: seq<Bytes>, chunk: Bytes)
    ensures Concatenated(chunks + [chunk]) == Concatenated(chunks) + chunk
  {
    assert (chunks + [chunk])[..|chunks|] == chunks;
  }

  class Pipe {
    const capacity: nat
    /** Whether no call on either end will fail. */
    const sound: bool
    var buffer: Bytes
    var writerOpen: bool
    /** How many more calls a signal will interrupt. */
    var interruptions: nat
    ghost var entered: Bytes
    var left: Bytes
    /** What each read took that took something. */
    ghost var chunks: seq<Bytes>
    /** Whether an end has failed: an error, or a write that took nothing. */
    ghost var broken: bool

    ghost predicate Valid()
      reads this
    {
      && entered == left + buffer && |buffer| <= capacity
      && left == Concatenated(chunks) && (forall c <- chunks :: c != [])
      && (sound ==> !broken)
    }

    constructor (capacity: nat, interruptions: nat, sound: bool)
      ensures Valid() && this.capacity == capacity && this.interruptions == interruptions && this.sound == sound
      ensures buffer == entered == left == [] && chunks == [] && writerOpen && !broken
    {
      this.capacity, this.interruptions, this.sound := capacity, interruptions, sound;
      buffer, entered, left, chunks, writerOpen, broken := [], [], [], [], true, false;
    }

    /** A pipe some of whose contents are already there. */
    constructor Holding(bytes: Bytes, writerOpen: bool, interruptions: nat, sound: bool)
      ensures Valid() && entered == buffer == bytes && left == [] && chunks == [] && this.sound == sound
      ensures this.writerOpen == writerOpen && this.interruptions == interruptions && !broken
    {
      this.capacity, this.interruptions, this.writerOpen, this.sound := |bytes|, interruptions, writerOpen, sound;
      buffer, entered, left, chunks, broken := bytes, bytes, [], [], false;
    }

    /** `write(2)`: takes any part of `bytes` that fits, or none of it and says why. */
    method Write(bytes: Bytes) returns (result: Io<nat>)
      requires Valid()
      modifies this
      ensures Valid() && left == old(left) && chunks == old(chunks) && writerOpen == old(writerOpen)
      ensures result.Ok? ==> result.value <= |bytes| && entered == old(entered) + bytes[..result.value]
      ensures !result.Ok? ==> entered == old(entered)
      ensures interruptions <= old(interruptions)
      ensures result.Interrupted? ==> interruptions < old(interruptions)
      ensures result.WouldBlock? ==> |buffer| == capacity
      ensures broken == (old(broken) || result.Error? || (result == Ok(0) && bytes != []))
    {
      hide Concatenated;
      var fails := *;
      if fails && !sound {
        result, broken := Error("EPIPE"), true;
      } else if interruptions > 0 {
        interruptions, result := interruptions - 1, Interrupted;
      } else if |buffer| == capacity {
        result := WouldBlock;
      } else {
        ghost var some := if bytes == [] then 0 else 1;
        assert some <= |bytes| && some <= capacity - |buffer| && (sound && bytes != [] ==> some > 0);
        var n: nat :| n <= |bytes| && n <= capacity - |buffer| && (sound && bytes != [] ==> n > 0);
        buffer, entered, result := buffer + bytes[..n], entered + bytes[..n], Ok(n);
        broken := broken || (n == 0 && bytes != []);
      }
    }

    /** `read(2)`: takes any non-empty part of what is there, nothing at the end of the stream, or
        says why not. */
    method Read(limit: nat) returns (result: Io<Bytes>)
      requires Valid() && limit > 0
      modifies this
      ensures Valid() && entered == old(entered) && writerOpen == old(writerOpen)
      ensures result.Ok? ==> left == old(left) + result.value && |result.value| <= limit
      ensures result.Ok? && result.value == [] ==> buffer == [] && !writerOpen
      ensures !result.Ok? ==> left == old(left)
      ensures result.Ok? && result.value != [] ==> chunks == old(chunks) + [result.value]
      ensures !(result.Ok? && result.value != []) ==> chunks == old(chunks)
      ensures interruptions <= old(interruptions)
      ensures result.Interrupted? ==> interruptions < old(interruptions)
      ensures result.WouldBlock? ==> buffer == [] && writerOpen
      ensures broken == (old(broken) || result.Error?)
    {
      hide Concatenated;
      var fails := *;
      if fails && !sound {
        result, broken := Error("EIO"), true;
      } else if interruptions > 0 {
        interruptions, result := interruptions - 1, Interrupted;
      } else if buffer != [] {
        var n: nat :| 1 <= n <= |buffer| && n <= limit;
        assert buffer == buffer[..n] + buffer[n..];
        OneMoreChunk(chunks, buffer[..n]);
        result, left, chunks, buffer := Ok(buffer[..n]), left + buffer[..n], chunks + [buffer[..n]], buffer[n..];
      } else if writerOpen {
        result := WouldBlock;
      } else {
        result := Ok([]);
      }
    }

    method CloseWriter()
      requires Valid()
      modifies this
      ensures Valid() && !writerOpen
      ensures buffer == old(buffer) && entered == old(entered) && left == old(left) && chunks == old(chunks) &&
              interruptions == old(interruptions)
      ensures broken == old(broken)
    {
      writerOpen := false;
    }
  }
}
