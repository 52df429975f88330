/**
 * The byte streams the engine reads and writes. A source is a byte sequence
 * with a read cursor; a read returns as many of the requested bytes as remain.
 * Flush and seek requests are logged, and succeed or fail as an oracle
 * sequence of status codes says, zero meaning success. A sink is an
 * append-only sequence with a capacity, so a write can come up short once the
 * capacity is reached.
 */
module Streams {
  import opened Layout

  /** A flush or seek request, with the byte offset a seek asks for. */
  datatype Request = Flush | SeekSet(offset: nat) | SeekCur(offset: nat)

  class Source {
    var data: seq<byte>
    var pos: nat
    /** Status codes of successive flush and seek requests; success once they run out. */
    var statuses: seq<int>
    /** The flush and seek requests issued so far, in order. */
    var log: seq<Request>

    constructor(data: seq<byte>, statuses: seq<int>)
      ensures this.data == data && this.statuses == statuses
      ensures pos == 0 && log == []
    {
      this.data := data;
      this.statuses := statuses;
      pos := 0;
      log := [];
    }

    /** The bytes from the cursor on; none once the cursor is past the end. */
    function Remaining(): (r: seq<byte>)
      reads this
      ensures pos <= |data| ==> |r| == |data| - pos
    {
      if pos <= |data| then data[pos..] else []
    }

    /** The status the `i`-th request gets. */
    function StatusAt(i: nat): int
      reads this`statuses
    {
      if i < |statuses| then statuses[i] else 0
    }

    /** A request was issued after the first `n`, and the latest one failed. */
    predicate FailedSince(n: nat)
      reads this`log, this`statuses
    {
      |log| > n && StatusAt(|log| - 1) != 0
    }

    /**
     * Reads up to `n` bytes into `buf` from `base` on and returns how many it
     * read: all `n` unless fewer remain.
     */
    method Read(buf: array<byte>, base: nat, n: nat) returns (got: nat)
      requires base + n <= buf.Length
      modifies this, buf
      ensures got == Min(n, |old(Remaining())|)
      ensures buf[base..base + got] == old(Remaining())[..got]
      ensures buf[..base] == old(buf[..base]) && buf[base + got..] == old(buf[base + got..])
      ensures pos == old(pos) + got && Remaining() == old(Remaining())[got..]
      ensures data == old(data) && statuses == old(statuses) && log == old(log)
    {
      var rest := Remaining();
      got := Min(n, |rest|);
      var i := 0;
      while i < got
        invariant 0 <= i <= got
        invariant buf[base..base + i] == rest[..i]
        invariant buf[..base] == old(buf[..base]) && buf[base + got..] == old(buf[base + got..])
        invariant data == old(data) && pos == old(pos) && statuses == old(statuses) && log == old(log)
      {
        buf[base + i] := rest[i];
        i := i + 1;
      }
      pos := pos + got;
    }

    /** Flushes the stream; the cursor stays where it is. */
    method Flush() returns (status: int)
      modifies this
      ensures status == old(StatusAt(|log|)) && log == old(log) + [Request.Flush]
      ensures data == old(data) && statuses == old(statuses) && pos == old(pos)
    {
      status := StatusAt(|log|);
      log := log + [Request.Flush];
    }

    /** Moves the cursor to `offset` from the start, when the request succeeds. */
    method SeekSet(offset: nat) returns (status: int)
      modifies this
      ensures status == old(StatusAt(|log|)) && log == old(log) + [Request.SeekSet(offset)]
      ensures pos == if status == 0 then offset else old(pos)
      ensures data == old(data) && statuses == old(statuses)
    {
      status := StatusAt(|log|);
      log := log + [Request.SeekSet(offset)];
      if status == 0 {
        pos := offset;
      }
    }

    /** Moves the cursor `offset` bytes forward, when the request succeeds. */
    method SeekCur(offset: nat) returns (status: int)
      modifies this
      ensures status == old(StatusAt(|log|)) && log == old(log) + [Request.SeekCur(offset)]
      ensures pos == if status == 0 then old(pos) + offset else old(pos)
      ensures data == old(data) && statuses == old(statuses)
    {
      status := StatusAt(|log|);
      log := log + [Request.SeekCur(offset)];
      if status == 0 {
        pos := pos + offset;
      }
    }
  }

  class Sink {
    var data: seq<byte>
    const capacity: nat
    /** Number of write calls made so far. */
    var calls: nat

    constructor(capacity: nat)
      ensures data == [] && this.capacity == capacity && calls == 0
    {
      data := [];
      this.capacity := capacity;
      calls := 0;
    }

    predicate Valid()
      reads this
    {
      |data| <= capacity
    }

    /** The bytes the sink still accepts. */
    function Room(): (n: nat)
      requires Valid()
      reads this
      ensures n + |data| == capacity
    {
      capacity - |data|
    }

    /** Appends up to `n` bytes of `buf` from `base` on and returns how many it took. */
    method Write(buf: array<byte>, base: nat, n: nat) returns (put: nat)
      requires Valid() && base + n <= buf.Length
      modifies this
      ensures Valid()
      ensures put == Min(n, old(Room()))
      ensures data == old(data) + buf[base..base + put]
      ensures calls == old(calls) + 1
    {
      put := Min(n, Room());
      data := data + buf[base..base + put];
      calls := calls + 1;
    }

    /** Appends one byte and returns 1, or returns 0 when the sink is full. */
    method Put(b: byte) returns (put: nat)
      requires Valid()
      modifies this
      ensures Valid()
      ensures put == Min(1, old(Room()))
      ensures data == old(data) + [b][..put]
      ensures calls == old(calls) + 1
    {
      put := Min(1, Room());
      data := data + [b][..put];
      calls := calls + 1;
    }
  }
}
