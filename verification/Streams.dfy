/** The resumable stream of util.c: reads and writes that stop where the buffer ends and go on
    where they stopped when the buffer has been refilled. */
module Streams {
  import opened Bytes

  /** Where byte k of a primitive of `length` bytes lives in memory. */
  function Slot(length: nat, swap: bool, k: int): int {
    if swap then length - 1 - k else k
  }

  function PlacedAt(dest: seq<byte>, off: nat, length: nat, swap: bool, position: nat, src: seq<byte>, i: nat): byte
    requires i < |dest|
  {
    var k := Slot(length, swap, i - off);
    if off <= i < off + length && position <= k < position + |src| then src[k - position] else dest[i]
  }

  /** `dest` after the source bytes `src` were stored as bytes position, position + 1, ... of
      the primitive of `length` bytes at offset `off`; every other byte is as before. */
  function Placed(dest: seq<byte>, off: nat, length: nat, swap: bool, position: nat, src: seq<byte>): (r: seq<byte>)
    ensures |r| == |dest|
    ensures forall i :: 0 <= i < |dest| ==> r[i] == PlacedAt(dest, off, length, swap, position, src, i)
  {
    seq(|dest|, i requires 0 <= i < |dest| => PlacedAt(dest, off, length, swap, position, src, i))
  }

  /** A primitive as its bytes travel on the wire. */
  function WireOrder(swap: bool, bytes: seq<byte>): (r: seq<byte>)
    ensures |r| == |bytes|
  {
    if swap then Reverse(bytes) else bytes
  }

  /** Storing in two goes is storing once. */
  lemma PlacedInTwo(dest: seq<byte>, off: nat, length: nat, swap: bool, position: nat, a: seq<byte>, b: seq<byte>)
    requires off + length <= |dest|
    requires position + |a| + |b| <= length
    ensures Placed(Placed(dest, off, length, swap, position, a), off, length, swap, position + |a|, b)
         == Placed(dest, off, length, swap, position, a + b)
  {
  }

  /** A completely stored primitive is the wire bytes in memory order, between untouched bytes. */
  lemma PlacedWhole(dest: seq<byte>, off: nat, length: nat, swap: bool, src: seq<byte>)
    requires off + length <= |dest|
    requires |src| == length
    ensures Placed(dest, off, length, swap, 0, src) == dest[..off] + WireOrder(swap, src) + dest[off + length..]
  {
    var p := Placed(dest, off, length, swap, 0, src);
    assert p[..off] == dest[..off];
    assert p[off..off + length] == WireOrder(swap, src);
    assert p[off + length..] == dest[off + length..];
    assert p == p[..off] + p[off..off + length] + p[off + length..];
  }

  // ----- any number of partial reads -----

  /** A read in progress: how far it is, what has been stored, how much of the last buffer was
      left unread, and whether the primitive is complete. */
  datatype Progress = Progress(position: nat, dest: seq<byte>, rest: seq<byte>, done: bool)

  /** One call of stream_read_primitive on a buffer holding `chunk`. */
  function ReadChunk(position: nat, dest: seq<byte>, off: nat, length: nat, swap: bool, chunk: seq<byte>): Progress
    requires off + length <= |dest|
    requires position <= length
  {
    var limit := Min(length - position, |chunk|);
    var stored := Placed(dest, off, length, swap, position, chunk[..limit]);
    if position + limit >= length
    then Progress(0, stored, chunk[limit..], true)
    else Progress(position + limit, stored, chunk[limit..], false)
  }

  /** Calls on buffer after buffer until the read reports completion. */
  function ReadChunks(position: nat, dest: seq<byte>, off: nat, length: nat, swap: bool, chunks: seq<seq<byte>>)
    : Progress
    requires off + length <= |dest|
    requires position <= length
    decreases |chunks|
  {
    if chunks == [] then Progress(position, dest, [], false) else
    var p := ReadChunk(position, dest, off, length, swap, chunks[0]);
    if p.done then p else ReadChunks(p.position, p.dest, off, length, swap, chunks[1..])
  }

  function Concat(chunks: seq<seq<byte>>): seq<byte> {
    if chunks == [] then [] else chunks[0] + Concat(chunks[1..])
  }

  lemma ConcatTake(fragments: seq<seq<byte>>, k: nat)
    requires 0 < k <= |fragments|
    ensures Concat(fragments[..k]) == fragments[0] + Concat(fragments[1..][..k - 1])
  {
    assert fragments[..k][1..] == fragments[1..][..k - 1];
  }

  /** What a read that stood at `position` should have done with the bytes of `total`. */
  ghost predicate ReadSoFar(p: Progress, position: nat, dest: seq<byte>, off: nat, length: nat, swap: bool,
                            total: seq<byte>)
    requires off + length <= |dest| && position < length
  {
    && p.done == (position + |total| >= length)
    && p.dest == Placed(dest, off, length, swap, position, total[..Min(length - position, |total|)])
    && p.position == (if p.done then 0 else position + |total|)
    && (!p.done ==> p.rest == [])
  }

  /** The buffer with the last byte of the primitive. */
  lemma ReadLast(position: nat, dest: seq<byte>, off: nat, length: nat, swap: bool, chunk: seq<byte>, rest: seq<byte>)
    requires off + length <= |dest| && position < length <= position + |chunk|
    ensures ReadSoFar(ReadChunk(position, dest, off, length, swap, chunk), position, dest, off, length, swap,
                      chunk + rest)
  {
    var n := length - position;
    assert (chunk + rest)[..n] == chunk[..n];
  }

  /** A buffer before it. */
  lemma ReadMore(position: nat, dest: seq<byte>, off: nat, length: nat, swap: bool, chunk: seq<byte>, rest: seq<byte>,
                 q: Progress)
    requires off + length <= |dest| && position + |chunk| < length
    requires ReadSoFar(q, position + |chunk|, Placed(dest, off, length, swap, position, chunk), off, length, swap, rest)
    ensures ReadSoFar(q, position, dest, off, length, swap, chunk + rest)
  {
    var n := Min(length - position - |chunk|, |rest|);
    PlacedInTwo(dest, off, length, swap, position, chunk, rest[..n]);
    assert chunk + rest[..n] == (chunk + rest)[..Min(length - position, |chunk + rest|)];
  }

  /** However the bytes are cut into buffers, a read stores the same bytes in the same places,
      is complete exactly when enough bytes have come, and is then ready for the next read. */
  lemma {:induction false} ReadChunksIsOneRead(position: nat, dest: seq<byte>, off: nat, length: nat, swap: bool,
                                               chunks: seq<seq<byte>>)
    requires off + length <= |dest|
    requires position < length
    ensures ReadSoFar(ReadChunks(position, dest, off, length, swap, chunks), position, dest, off, length, swap,
                      Concat(chunks))
    decreases |chunks|
  {
    if chunks == [] {
      assert Placed(dest, off, length, swap, position, []) == dest;
    } else {
      var p := ReadChunk(position, dest, off, length, swap, chunks[0]);
      if p.done {
        ReadLast(position, dest, off, length, swap, chunks[0], Concat(chunks[1..]));
      } else {
        assert chunks[0][..|chunks[0]|] == chunks[0];
        ReadChunksIsOneRead(p.position, p.dest, off, length, swap, chunks[1..]);
        ReadMore(position, dest, off, length, swap, chunks[0], Concat(chunks[1..]),
                 ReadChunks(p.position, p.dest, off, length, swap, chunks[1..]));
      }
    }
  }

  /** The first n bytes take k buffers and no fewer, and `rest` is what lies behind them there. */
  predicate LastNeeded(chunks: seq<seq<byte>>, k: nat, n: nat, rest: seq<byte>)
    requires 0 < k <= |chunks|
  {
    && |Concat(chunks[..k - 1])| < n <= |Concat(chunks[..k])|
    && rest == Concat(chunks[..k])[n..]
  }

  lemma NeededBehind(chunks: seq<seq<byte>>, k: nat, n: nat, rest: seq<byte>)
    requires 0 < k < |chunks| && n > 0 && LastNeeded(chunks[1..], k, n, rest)
    ensures LastNeeded(chunks, k + 1, |chunks[0]| + n, rest)
  {
    ConcatTake(chunks, k + 1);
    ConcatTake(chunks, k);
    var more := Concat(chunks[1..][..k]);
    assert (chunks[0] + more)[|chunks[0]| + n..] == more[n..];
  }

  /** A completed read has needed k buffers, and of the last of them the surplus is still unread. */
  lemma {:induction false} SurplusIsUnread(position: nat, dest: seq<byte>, off: nat, length: nat, swap: bool,
                                           chunks: seq<seq<byte>>)
    returns (k: nat)
    requires off + length <= |dest|
    requires position < length
    requires ReadChunks(position, dest, off, length, swap, chunks).done
    ensures 0 < k <= |chunks|
    ensures LastNeeded(chunks, k, length - position, ReadChunks(position, dest, off, length, swap, chunks).rest)
    decreases |chunks|
  {
    var p := ReadChunk(position, dest, off, length, swap, chunks[0]);
    if p.done {
      k := 1;
      ConcatTake(chunks, 1);
    } else {
      k := SurplusIsUnread(p.position, p.dest, off, length, swap, chunks[1..]);
      NeededBehind(chunks, k, length - p.position, ReadChunks(position, dest, off, length, swap, chunks).rest);
      k := k + 1;
    }
  }

  // ----- writing -----

  function SwappedWriteAt(memory: seq<byte>, cursor: nat, bytes: seq<byte>, position: nat, limit: nat, i: nat): byte
    requires position + limit <= |bytes| && i < |memory|
  {
    var k := |bytes| - 1 - position - (i - cursor);
    if 0 <= k < limit then bytes[k] else memory[i]
  }

  /** What the swapped branch of a write stores when it stands at `position` of the primitive and
      only `limit` bytes fit: always the first `limit` bytes, backwards, ending at offset
      length - 1 - position past the cursor. */
  function SwappedWrite(memory: seq<byte>, cursor: nat, bytes: seq<byte>, position: nat, limit: nat): (r: seq<byte>)
    requires position + limit <= |bytes|
    ensures |r| == |memory|
    ensures forall i :: 0 <= i < |memory| ==> r[i] == SwappedWriteAt(memory, cursor, bytes, position, limit, i)
  {
    seq(|memory|, i requires 0 <= i < |memory| => SwappedWriteAt(memory, cursor, bytes, position, limit, i))
  }

  /** The swapped branch keeps to the room that is left in the buffer, whatever it writes over,
      exactly when there is no room at all or room for all that is left of the primitive. */
  lemma SwappedWriteStaysInRoomIff(cursor: nat, length: nat, position: nat, room: nat)
    requires position < length
    ensures (room == 0 || length - position <= room)
       <==> (forall memory: seq<byte>, bytes: seq<byte> ::
              |bytes| == length && cursor + length - position <= |memory| && cursor + room <= |memory| ==>
              StaysInRoom(memory, cursor, bytes, position, room))
  {
    var left := length - position;
    if 0 < room < left {
      var memory: seq<byte> := seq(cursor + left, _ => 0);
      var bytes: seq<byte> := seq(length, _ => 1);
      var after := SwappedWrite(memory, cursor, bytes, position, Min(left, room));
      assert after[cursor + left - 1] == 1;
      assert after[cursor + room..][left - 1 - room] == 1;
      assert !StaysInRoom(memory, cursor, bytes, position, room);
    }
  }

  /** A swapped write with `room` bytes left in the buffer changes nothing behind it. */
  predicate StaysInRoom(memory: seq<byte>, cursor: nat, bytes: seq<byte>, position: nat, room: nat)
    requires position < |bytes| && cursor + room <= |memory|
  {
    var limit := Min(|bytes| - position, room);
    SwappedWrite(memory, cursor, bytes, position, limit)[cursor + room..] == memory[cursor + room..]
  }

  /** With room for all that is left of the primitive, the swapped branch goes on with the wire order. */
  lemma SwappedWriteWhole(memory: seq<byte>, cursor: nat, bytes: seq<byte>, position: nat)
    requires position <= |bytes| && cursor + |bytes| - position <= |memory|
    ensures SwappedWrite(memory, cursor, bytes, position, |bytes| - position)
         == memory[..cursor] + Reverse(bytes)[position..] + memory[cursor + |bytes| - position..]
  {
    var p := SwappedWrite(memory, cursor, bytes, position, |bytes| - position);
    var q := memory[..cursor] + Reverse(bytes)[position..] + memory[cursor + |bytes| - position..];
    assert |p| == |q|;
    forall i | 0 <= i < |p| ensures p[i] == q[i] {
    }
  }

  /** What a swapped write has put into the room of a buffer. */
  function SwappedChunk(memory: seq<byte>, bytes: seq<byte>, position: nat, room: nat): (s: seq<byte>)
    requires position <= |bytes| && |bytes| - position <= |memory| && room <= |memory|
  {
    var limit := Min(|bytes| - position, room);
    SwappedWrite(memory, 0, bytes, position, limit)[..limit]
  }

  /** A buffer that gives a stream `room` bytes, in memory that goes on behind it. */
  datatype Target = Target(memory: seq<byte>, room: nat)

  /** Buffers with memory enough for a primitive of n bytes. */
  predicate Roomy(buffers: seq<Target>, n: nat) {
    forall i :: 0 <= i < |buffers| ==> n <= |buffers[i].memory| && buffers[i].room <= |buffers[i].memory|
  }

  /** What a swapped write that is resumed in buffer after buffer puts out, until it is complete. */
  function SwappedChunks(position: nat, bytes: seq<byte>, buffers: seq<Target>): seq<byte>
    requires position <= |bytes| && Roomy(buffers, |bytes|)
    decreases |buffers|
  {
    if buffers == [] || position == |bytes| then [] else
    SwappedChunk(buffers[0].memory, bytes, position, buffers[0].room)
    + SwappedChunks(position + Min(|bytes| - position, buffers[0].room), bytes, buffers[1..])
  }

  /** No buffer has room for only a part of what is left. */
  predicate NeverShort(position: nat, length: nat, rooms: seq<nat>)
    decreases |rooms|
  {
    || rooms == [] || position >= length
    || (if rooms[0] == 0 then NeverShort(position, length, rooms[1..]) else length - position <= rooms[0])
  }

  function Rooms(buffers: seq<Target>): (r: seq<nat>)
    ensures |r| == |buffers|
  {
    if buffers == [] then [] else [buffers[0].room] + Rooms(buffers[1..])
  }

  /** Then it puts out the wire order. */
  lemma {:induction false} SwappedInOrder(position: nat, bytes: seq<byte>, buffers: seq<Target>)
    requires position <= |bytes| && Roomy(buffers, |bytes|) && NeverShort(position, |bytes|, Rooms(buffers))
    ensures SwappedChunks(position, bytes, buffers) <= Reverse(bytes)[position..]
    decreases |buffers|
  {
    if buffers != [] && position < |bytes| {
      var b, left := buffers[0], |bytes| - position;
      if b.room == 0 {
        assert SwappedChunk(b.memory, bytes, position, 0) == [];
        SwappedInOrder(position, bytes, buffers[1..]);
      } else {
        SwappedWriteWhole(b.memory, 0, bytes, position);
        assert SwappedChunk(b.memory, bytes, position, b.room) == Reverse(bytes)[position..];
      }
    }
  }

  /** Otherwise the first byte it puts into the room of a short buffer is whatever was there. */
  lemma ShortChunkIsWrong(memory: seq<byte>, bytes: seq<byte>, position: nat, room: nat)
    requires position <= |bytes| && |bytes| - position <= |memory| && 0 < room < |bytes| - position
    ensures var s := SwappedChunk(memory, bytes, position, room); s != [] && s[0] == memory[0]
  {
  }

  /** Buffers of zeros. */
  function ZeroBuffers(rooms: seq<nat>, n: nat): (b: seq<Target>)
    ensures |b| == |rooms| && Roomy(b, n) && Rooms(b) == rooms
  {
    if rooms == [] then [] else
    var b := [Target(seq(n + rooms[0], _ => 0), rooms[0])] + ZeroBuffers(rooms[1..], n);
    assert b[1..] == ZeroBuffers(rooms[1..], n);
    b
  }

  /** So ones come out with a zero among them. */
  lemma {:induction false} SwappedOutOfOrder(position: nat, bytes: seq<byte>, rooms: seq<nat>)
    requires position <= |bytes| && !NeverShort(position, |bytes|, rooms) && 0 !in bytes
    ensures !(SwappedChunks(position, bytes, ZeroBuffers(rooms, |bytes|)) <= Reverse(bytes)[position..])
    decreases |rooms|
  {
    var buffers := ZeroBuffers(rooms, |bytes|);
    assert buffers[1..] == ZeroBuffers(rooms[1..], |bytes|);
    if rooms[0] == 0 {
      SwappedOutOfOrder(position, bytes, rooms[1..]);
      assert SwappedChunk(buffers[0].memory, bytes, position, 0) == [];
    } else {
      ShortChunkIsWrong(buffers[0].memory, bytes, position, rooms[0]);
      var s := SwappedChunks(position, bytes, buffers);
      assert s[0] == 0 && Reverse(bytes)[position..][0] == bytes[|bytes| - 1 - position];
      assert bytes[|bytes| - 1 - position] in bytes;
    }
  }

  /** A swapped write that is cut over buffers puts out the wire order, whatever it writes and whatever
      the buffers held, if and only if no buffer with room at all is too short for what is left. */
  lemma SwappedInOrderIff(length: nat, rooms: seq<nat>)
    ensures NeverShort(0, length, rooms)
       <==> (forall bytes: seq<byte>, buffers: seq<Target> {:trigger SwappedChunks(0, bytes, buffers)} ::
              |bytes| == length && Roomy(buffers, length) && Rooms(buffers) == rooms ==>
                SwappedChunks(0, bytes, buffers) <= Reverse(bytes))
  {
    if NeverShort(0, length, rooms) {
      forall bytes: seq<byte>, buffers: seq<Target> |
        |bytes| == length && Roomy(buffers, length) && Rooms(buffers) == rooms
        ensures SwappedChunks(0, bytes, buffers) <= Reverse(bytes)
      {
        SwappedInOrder(0, bytes, buffers);
        assert Reverse(bytes)[0..] == Reverse(bytes);
      }
    } else {
      var bytes: seq<byte> := seq(length, _ => 1);
      SwappedOutOfOrder(0, bytes, rooms);
      assert Reverse(bytes)[0..] == Reverse(bytes);
      assert !(SwappedChunks(0, bytes, ZeroBuffers(rooms, length)) <= Reverse(bytes));
    }
  }

  /** What one call writes, and how far an unswapped write has come, over buffer after buffer. */
  function WriteChunks(position: nat, bytes: seq<byte>, rooms: seq<nat>): seq<seq<byte>>
    requires position <= |bytes|
    decreases |rooms|
  {
    if rooms == [] || position == |bytes| then [] else
    var limit := Min(|bytes| - position, rooms[0]);
    [bytes[position..position + limit]] + WriteChunks(position + limit, bytes, rooms[1..])
  }

  function Sum(rooms: seq<nat>): nat {
    if rooms == [] then 0 else rooms[0] + Sum(rooms[1..])
  }

  lemma {:induction false} WriteChunksConcat(position: nat, bytes: seq<byte>, rooms: seq<nat>)
    requires position <= |bytes|
    ensures Concat(WriteChunks(position, bytes, rooms)) == bytes[position..Min(|bytes|, position + Sum(rooms))]
    decreases |rooms|
  {
    if rooms != [] && position != |bytes| {
      var limit := Min(|bytes| - position, rooms[0]);
      WriteChunksConcat(position + limit, bytes, rooms[1..]);
      var chunks := WriteChunks(position, bytes, rooms);
      assert chunks[0] == bytes[position..position + limit];
      assert chunks[1..] == WriteChunks(position + limit, bytes, rooms[1..]);
    }
  }

  lemma WireOrderTwice(swap: bool, bytes: seq<byte>)
    ensures WireOrder(swap, WireOrder(swap, bytes)) == bytes
  {
  }

  /** A primitive that comes in wire order over any fragmentation arrives unchanged, and its
      neighbours in memory are untouched. */
  lemma {:induction false} WireThenRead(bytes: seq<byte>, swap: bool, chunks: seq<seq<byte>>, dest: seq<byte>, off: nat)
    requires 0 < |bytes|
    requires WireOrder(swap, bytes) <= Concat(chunks)
    requires off + |bytes| <= |dest|
    ensures var p := ReadChunks(0, dest, off, |bytes|, swap, chunks);
            p.done && p.position == 0 && p.dest == dest[..off] + bytes + dest[off + |bytes|..]
  {
    var wire := WireOrder(swap, bytes);
    ReadChunksIsOneRead(0, dest, off, |bytes|, swap, chunks);
    assert Concat(chunks)[..|wire|] == wire;
    WireOrderTwice(swap, bytes);
    PlacedWhole(dest, off, |wire|, swap, wire);
  }

  /** A buffer after a primitive has been written to it whole, in either byte order. */
  function WrittenWhole(memory: seq<byte>, cursor: nat, bytes: seq<byte>, swap: bool): (m: seq<byte>)
    requires cursor + |bytes| <= |memory|
    ensures |m| == |memory|
  {
    if swap then SwappedWrite(memory, cursor, bytes, 0, |bytes|) else Overwritten(memory, cursor, bytes)
  }

  /** Round trip: what a write has put into a buffer, cut up in any way and followed by anything, is
      read back with the same byte order as the primitive that was written. */
  lemma {:induction false} WriteThenRead(memory: seq<byte>, cursor: nat, bytes: seq<byte>, swap: bool,
                                         chunks: seq<seq<byte>>, dest: seq<byte>, off: nat)
    requires 0 < |bytes| && cursor + |bytes| <= |memory|
    requires WrittenWhole(memory, cursor, bytes, swap)[cursor..cursor + |bytes|] <= Concat(chunks)
    requires off + |bytes| <= |dest|
    ensures var p := ReadChunks(0, dest, off, |bytes|, swap, chunks);
            p.done && p.position == 0 && p.dest == dest[..off] + bytes + dest[off + |bytes|..]
  {
    SwappedWriteWhole(memory, cursor, bytes, 0);
    assert Reverse(bytes)[0..] == Reverse(bytes);
    assert WrittenWhole(memory, cursor, bytes, swap)[cursor..cursor + |bytes|] == WireOrder(swap, bytes);
    WireThenRead(bytes, swap, chunks, dest, off);
  }

  /** For an unswapped stream the round trip also holds when the write itself was cut into
      several buffers, as long as they have room for the primitive together. */
  lemma {:induction false} SplitWriteThenRead(bytes: seq<byte>, rooms: seq<nat>, chunks: seq<seq<byte>>,
                                              dest: seq<byte>, off: nat)
    requires 0 < |bytes| <= Sum(rooms)
    requires Concat(chunks) == Concat(WriteChunks(0, bytes, rooms))
    requires off + |bytes| <= |dest|
    ensures var p := ReadChunks(0, dest, off, |bytes|, false, chunks);
            p.done && p.position == 0 && p.dest == dest[..off] + bytes + dest[off + |bytes|..]
  {
    WriteChunksConcat(0, bytes, rooms);
    assert bytes[0..|bytes|] == bytes;
    WireThenRead(bytes, false, chunks, dest, off);
  }

  // ----- the stream itself -----

  /** `memory` with `src` copied to offset `at`. */
  function Overwritten(memory: seq<byte>, at: nat, src: seq<byte>): (r: seq<byte>)
    requires at + |src| <= |memory|
    ensures |r| == |memory|
  {
    memory[..at] + src + memory[at + |src|..]
  }

  /** m_memcpy */
  method CopyBytes(dest: array<byte>, at: nat, source: seq<byte>)
    requires at + |source| <= dest.Length
    modifies dest
    ensures dest[..] == Overwritten(old(dest[..]), at, source)
  {
    forall k | 0 <= k < |source| {
      dest[at + k] := source[k];
    }
  }

  /** m_memset with zero */
  method ClearBytes(dest: array<byte>)
    modifies dest
    ensures forall k :: 0 <= k < dest.Length ==> dest[k] == 0
  {
    forall k | 0 <= k < dest.Length {
      dest[k] := 0;
    }
  }

  lemma CopiedIsPlaced(dest: seq<byte>, off: nat, length: nat, position: nat, src: seq<byte>)
    requires off + length <= |dest| && position + |src| <= length
    ensures Overwritten(dest, off + position, src) == Placed(dest, off, length, false, position, src)
  {
  }

  /** stream_t together with the stack_buffer_t inside it. `memory` is the memory from
      buffer.start on, of which the first `size` bytes are the buffer, and `cursor` is
      buffer.position - buffer.start. */
  class Stream {
    var memory: array<byte>
    var size: uint16
    var cursor: nat
    var swapEndian: bool
    var position: uint16
    var length: uint16

    ghost predicate Valid()
      reads this
    {
      && cursor <= size <= memory.Length
    }

    /** stream_left */
    function Left(): (n: uint16)
      requires Valid()
      reads this
    {
      size - cursor
    }

    /** The bytes of the buffer that have not been read. */
    ghost function Unread(): (s: seq<byte>)
      requires Valid()
      reads this, memory
      ensures |s| == Left()
    {
      memory[cursor..size]
    }

    constructor (memory: array<byte>, size: uint16, swapEndian: bool)
      requires size <= memory.Length
      ensures Valid() && Left() == size && this.memory == memory && this.size == size
      ensures position == 0 && this.swapEndian == swapEndian && cursor == 0
    {
      this.memory, this.size, cursor := memory, size, 0;
      this.swapEndian, position, length := swapEndian, 0, 0;
    }

    /** stream_data: a fresh buffer; a read in progress goes on in it. */
    method Data(buffer: array<byte>, n: uint16)
      requires n <= buffer.Length
      modifies this`memory, this`size, this`cursor
      ensures Valid() && memory == buffer && size == n && cursor == 0
    {
      memory, size := buffer, n;
      cursor := 0;
    }

    /** stream_reset: forgets a read in progress and rewinds the buffer it has. */
    method Reset()
      requires Valid()
      modifies this`cursor, this`position
      ensures Valid() && position == 0 && cursor == 0
    {
      position, cursor := 0, 0;
    }

    method Begin(n: uint16) returns (limit: uint16)
      requires Valid() && position <= n
      modifies this`length
      ensures Valid() && length == n && limit == Min(n - position, Left())
    {
      length := n;
      var left := length - position;
      limit := Min(left, Left());
    }

    method End(bufferDelta: uint16, positionDelta: uint16) returns (done: bool)
      requires Valid() && cursor + bufferDelta <= size && position + positionDelta <= length
      modifies this`cursor, this`position
      ensures Valid() && cursor == old(cursor) + bufferDelta
      ensures done == (old(position) + positionDelta >= length)
      ensures position == if done then 0 else old(position) + positionDelta
    {
      cursor := cursor + bufferDelta;
      position := position + positionDelta;
      if position >= length {
        position := 0;
        return true;
      }
      return false;
    }

    /** The byte-swapping loop of stream_read_primitive. */
    method CopyIn(dest: array<byte>, off: nat, limit: nat)
      requires Valid() && memory != dest
      requires off + length <= dest.Length && position + limit <= length && cursor + limit <= size
      modifies dest
      ensures dest[..] == Placed(old(dest[..]), off, length, true, position, memory[cursor..cursor + limit])
    {
      ghost var was, chunk := dest[..], memory[cursor..cursor + limit];
      var i := 0;
      var tmp := length - 1 - position;
      assert was == Placed(was, off, length, true, position, chunk[..0]);
      while i < limit
        modifies dest
        invariant 0 <= i <= limit
        invariant forall j :: 0 <= j < dest.Length ==>
                    dest[j] == PlacedAt(was, off, length, true, position, chunk[..i], j)
      {
        dest[off + tmp - i] := memory[cursor + i];
        i := i + 1;
      }
      assert chunk[..limit] == chunk;
      assert dest[..] == Placed(was, off, length, true, position, chunk);
    }

    /** The byte-swapping loop of stream_write_primitive. */
    method CopyOut(source: seq<byte>, limit: nat)
      requires Valid() && length == |source| && position + limit <= length
      requires cursor + length - position <= memory.Length
      modifies memory
      ensures memory[..] == SwappedWrite(old(memory[..]), cursor, source, position, limit)
    {
      ghost var was := memory[..];
      var i := 0;
      var tmp := length - 1 - position;
      while i < limit
        modifies memory
        invariant 0 <= i <= limit
        invariant forall j :: 0 <= j < memory.Length ==>
                    memory[j] == SwappedWriteAt(was, cursor, source, position, i, j)
      {
        memory[cursor + tmp - i] := source[i];
        i := i + 1;
      }
      assert memory[..] == SwappedWrite(was, cursor, source, position, limit);
    }

    /** stream_read_primitive: one step of ReadChunk. */
    method ReadPrimitive(dest: array<byte>, off: nat, n: uint16) returns (done: bool)
      requires Valid() && memory != dest
      requires off + n <= dest.Length && position <= n
      modifies this`cursor, this`position, this`length, dest
      ensures Valid()
      ensures var p := ReadChunk(old(position), old(dest[..]), off, n, swapEndian, old(Unread()));
              && done == p.done && position == p.position
              && dest[..] == p.dest && Unread() == p.rest
    {
      var limit := Begin(n);
      ghost var chunk := Unread()[..limit];
      assert memory[cursor..cursor + limit] == chunk;
      TakeIn(dest, off, limit);
      done := End(limit, limit);
      assert Unread() == old(Unread())[limit..];
    }

    /** The store of stream_read_primitive in either byte order. */
    method TakeIn(dest: array<byte>, off: nat, limit: nat)
      requires Valid() && memory != dest
      requires off + length <= dest.Length && position + limit <= length && cursor + limit <= size
      modifies dest
      ensures dest[..] == Placed(old(dest[..]), off, length, swapEndian, position, memory[cursor..cursor + limit])
    {
      if swapEndian {
        CopyIn(dest, off, limit);
      } else {
        CopyBytes(dest, off + position, memory[cursor..cursor + limit]);
        CopiedIsPlaced(old(dest[..]), off, length, position, memory[cursor..cursor + limit]);
      }
    }

    /** stream_read: like an unswapped primitive, whatever the byte order of the stream. */
    method Read(dest: array<byte>, off: nat, n: uint16) returns (done: bool)
      requires Valid() && memory != dest
      requires off + n <= dest.Length && position <= n
      modifies this`cursor, this`position, this`length, dest
      ensures Valid()
      ensures var p := ReadChunk(old(position), old(dest[..]), off, n, false, old(Unread()));
              && done == p.done && position == p.position
              && dest[..] == p.dest && Unread() == p.rest
    {
      var limit := Begin(n);
      ghost var chunk := Unread()[..limit];
      assert memory[cursor..cursor + limit] == chunk;
      CopyBytes(dest, off + position, memory[cursor..cursor + limit]);
      CopiedIsPlaced(old(dest[..]), off, n, position, chunk);
      done := End(limit, limit);
      assert Unread() == old(Unread())[limit..];
    }

    /** stream_write_primitive. The swapped branch may reach past the buffer, so the memory
        must go on there; see SwappedWriteStaysInRoomIff for when it does not. */
    method WritePrimitive(source: seq<byte>) returns (done: bool)
      requires Valid() && |source| < TWO_TO_THE_16 && position <= |source|
      requires swapEndian ==> cursor + |source| - position <= memory.Length
      modifies this`cursor, this`position, this`length, memory
      ensures Valid()
      ensures var limit := Min(|source| - old(position), old(Left()));
              && cursor == old(cursor) + limit
              && done == (old(position) + limit == |source|)
              && position == (if done then 0 else old(position) + limit)
              && memory[..] == if swapEndian
                 then SwappedWrite(old(memory[..]), old(cursor), source, old(position), limit)
                 else Overwritten(old(memory[..]), old(cursor), source[old(position)..old(position) + limit])
    {
      var limit := Begin(|source|);
      PutOut(source, limit);
      done := End(limit, limit);
    }

    /** The store of stream_write_primitive in either byte order. */
    method PutOut(source: seq<byte>, limit: nat)
      requires Valid() && length == |source| && position + limit <= length && limit <= Left()
      requires swapEndian ==> cursor + length - position <= memory.Length
      modifies memory
      ensures memory[..] == if swapEndian then SwappedWrite(old(memory[..]), cursor, source, position, limit)
                            else Overwritten(old(memory[..]), cursor, source[position..position + limit])
    {
      if swapEndian {
        CopyOut(source, limit);
      } else {
        CopyBytes(memory, cursor, source[position..position + limit]);
      }
    }

    /** stream_write */
    method Write(source: seq<byte>) returns (done: bool)
      requires Valid() && |source| < TWO_TO_THE_16 && position <= |source|
      modifies this`cursor, this`position, this`length, memory
      ensures Valid()
      ensures var limit := Min(|source| - old(position), old(Left()));
              && cursor == old(cursor) + limit
              && done == (old(position) + limit == |source|)
              && position == (if done then 0 else old(position) + limit)
              && memory[..] == Overwritten(old(memory[..]), old(cursor), source[old(position)..old(position) + limit])
    {
      var limit := Begin(|source|);
      CopyBytes(memory, cursor, source[position..position + limit]);
      done := End(limit, limit);
    }
  }
}
