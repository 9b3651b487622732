/** The response and beacon writers of server.c: the printers that match the decoders of the
    clients. */
module Responses {
  import opened Bytes
  import opened Streams
  import opened Requests

  const SEND_BUFFER_LENGTH := 1024
  const BEACON_HEAD_LENGTH := 3
  const BEACON_LENGTH_MAX := BEACON_HEAD_LENGTH + NAME_LENGTH_MAX

  // ----- formats -----

  function EncodeHead(kind: byte, length: uint16): (s: seq<byte>)
    ensures |s| == HEAD_LENGTH
  {
    [kind] + WordBytes(length)
  }

  /** A client reads type and length off exactly the heads that have them: the type first, then the length in
      the order of the wire. */
  lemma HeadDecodes(t: seq<byte>, kind: byte, length: uint16)
    ensures t == EncodeHead(kind, length) <==> |t| == HEAD_LENGTH && t[0] == kind && Word(t, 1) == length
  {
    if |t| == HEAD_LENGTH {
      WordOfBytes(t, 1, length);
      assert t == [t[0]] + t[1..3];
    }
  }

  /** What a client takes for the answer to a request that has nothing to bring back: the type it waits for,
      and a length that counts what follows the head. */
  predicate Acknowledges(bytes: seq<byte>, kind: byte) {
    |bytes| == HEAD_LENGTH && bytes[0] == kind && Word(bytes, 1) == |bytes| - HEAD_LENGTH
  }

  /** The frequency is not measured; a zero stands for it. */
  function EncodeCapture(times: seq<uint16>): (s: seq<byte>)
    requires |times| <= TIMES_MAX
    ensures |s| == 9 + 2 * |times|
  {
    EncodeHead(RECEIVE_RESPONSE, 6 + 2 * |times|) + LongWordBytes(0) + WordBytes(|times|) + EncodeTimes(times)
  }

  /** What a client reads off a response to a receive request: None if it is not one. */
  datatype Decoded = Malformed | Capture(frequency: uint32, times: seq<uint16>)

  function DecodeCapture(t: seq<byte>): Decoded {
    if |t| < 9 || t[0] != RECEIVE_RESPONSE || Word(t, 1) != |t| - HEAD_LENGTH || Word(t, 1) != 6 + 2 * Word(t, 7)
    then Malformed
    else Capture(LongWord(t, 3), Words(t, 9, Word(t, 7)))
  }

  /** Framing: the length field counts exactly the bytes behind the head, and a client recovers
      the number of times and every time. */
  lemma CaptureDecodes(times: seq<uint16>)
    requires |times| <= TIMES_MAX
    ensures DecodeCapture(EncodeCapture(times)) == Capture(0, times)
  {
    var t, n := EncodeCapture(times), |times|;
    var head, rest := EncodeHead(RECEIVE_RESPONSE, 6 + 2 * n), LongWordBytes(0) + WordBytes(n) + EncodeTimes(times);
    assert t == head + rest;
    assert t[1..3] == WordBytes(6 + 2 * n);
    WordOfBytes(t, 1, 6 + 2 * n);
    assert t[3..] == rest && t[0] == RECEIVE_RESPONSE;
    EncodedSendParts(0, times, t);
  }

  function EncodeBeacon(port: uint16, name: seq<byte>): (s: seq<byte>)
    requires |name| <= NAME_LENGTH_MAX
    ensures |s| == BEACON_HEAD_LENGTH + |name|
  {
    WordBytes(port) + [|name|] + name
  }

  /** A listener recovers port and name from a beacon, and only from a whole one. */
  lemma BeaconDecodes(t: seq<byte>, port: uint16, name: seq<byte>)
    requires |name| <= NAME_LENGTH_MAX
    ensures t == EncodeBeacon(port, name)
       <==> |t| >= 3 && Word(t, 0) == port && t[2] == |name| && t[3..] == name
  {
    if |t| >= 3 {
      WordOfBytes(t, 0, port);
      assert t == t[0..2] + [t[2]] + t[3..];
    }
  }

  // ----- writers -----

  /** A primitive of the machine written to a swapped stream with room for it. */
  method Append(s: Stream, source: seq<byte>) returns (done: bool)
    requires s.Valid() && s.swapEndian && s.position == 0 && |source| <= s.Left()
    modifies s`cursor, s`position, s`length, s.memory
    ensures s.Valid() && done && s.position == 0 && s.cursor == old(s.cursor) + |source|
    ensures s.memory[..s.cursor] == old(s.memory[..s.cursor]) + Reverse(source)
  {
    done := s.WritePrimitive(source);
    SwappedWriteWhole(old(s.memory[..]), old(s.cursor), source, 0);
    assert old(s.memory[..])[..old(s.cursor)] == old(s.memory[..s.cursor]);
    assert s.memory[..s.cursor] == s.memory[..][..s.cursor];
  }

  /** Bytes written to a stream with room for them. */
  method AppendText(s: Stream, source: seq<byte>) returns (done: bool)
    requires s.Valid() && s.position == 0 && |source| <= s.Left()
    modifies s`cursor, s`position, s`length, s.memory
    ensures s.Valid() && done && s.position == 0 && s.cursor == old(s.cursor) + |source|
    ensures s.memory[..s.cursor] == old(s.memory[..s.cursor]) + source
  {
    done := s.Write(source);
    assert source[0..|source|] == source;
    assert s.memory[..s.cursor] == s.memory[..][..s.cursor];
  }

  /** write_response_head */
  method WriteHead(s: Stream, kind: byte, length: uint16) returns (done: bool)
    requires s.Valid() && s.swapEndian && s.position == 0 && HEAD_LENGTH <= s.Left()
    modifies s`cursor, s`position, s`length, s.memory
    ensures s.Valid() && done && s.position == 0 && s.cursor == old(s.cursor) + HEAD_LENGTH
    ensures s.memory[..s.cursor] == old(s.memory[..s.cursor]) + EncodeHead(kind, length)
  {
    done := true;
    var ok := Append(s, [kind]);
    done := done && ok;
    assert Reverse([kind]) == [kind];
    ok := Append(s, InMemory(length));
    done := done && ok;
  }

  /** The first `count` times of a buffer, as the processor reads them. */
  function TimesOf(buffer: seq<byte>, count: nat): (t: seq<uint16>)
    requires 2 * count <= |buffer|
    ensures |t| == count
  {
    if count == 0 then [] else TimesOf(buffer, count - 1) + [Stored(buffer[2 * count - 2], buffer[2 * count - 1])]
  }

  lemma {:induction false} TimesOfAt(buffer: seq<byte>, count: nat, i: nat)
    requires i < count && 2 * count <= |buffer|
    ensures TimesOf(buffer, count)[i] == Stored(buffer[2 * i], buffer[2 * i + 1])
  {
    if i < count - 1 {
      TimesOfAt(buffer, count - 1, i);
    }
  }

  /** Each time byte-swapped on its way out, as the writer does it. */
  function SwappedTimes(buffer: seq<byte>, count: nat): (s: seq<byte>)
    requires 2 * count <= |buffer|
  {
    if count == 0 then [] else SwappedTimes(buffer, count - 1) + Reverse(buffer[2 * count - 2..2 * count])
  }

  lemma PairReversed(pair: seq<byte>)
    requires |pair| == 2
    ensures Reverse(pair) == WordBytes(Stored(pair[0], pair[1]))
  {
  }

  lemma EncodeMore(times: seq<uint16>, v: uint16)
    ensures EncodeTimes(times + [v]) == EncodeTimes(times) + WordBytes(v)
  {
    assert (times + [v])[..|times|] == times;
  }

  lemma {:induction false} SwappedTimesAreEncoded(buffer: seq<byte>, count: nat)
    requires 2 * count <= |buffer|
    ensures SwappedTimes(buffer, count) == EncodeTimes(TimesOf(buffer, count))
  {
    if count != 0 {
      var last := buffer[2 * count - 2..2 * count];
      PairReversed(last);
      EncodeMore(TimesOf(buffer, count - 1), Stored(last[0], last[1]));
      SwappedTimesAreEncoded(buffer, count - 1);
    }
  }

  /** The fields of the response struct that concern a capture, with the output stream. */
  class CaptureWriter {
    const out: Stream
    var state: nat
    var written: uint16

    constructor ()
      ensures Ready() && fresh(out) && fresh(out.memory)
    {
      var memory := new byte[SEND_BUFFER_LENGTH](_ => 0);
      out := new Stream(memory, SEND_BUFFER_LENGTH, true);
      state, written := 0, 0;
    }

    /** Nothing of the response has been written. */
    ghost predicate Ready()
      reads this, out
    {
      && out.Valid() && out.swapEndian && out.size == SEND_BUFFER_LENGTH
      && out.position == 0 && out.cursor == 0 && state == 0 && written == 0
    }

    /** The part of ir_worker_reset that concerns the response. */
    method Reset()
      requires out.Valid() && out.swapEndian && out.size == SEND_BUFFER_LENGTH
      modifies this, out`cursor, out`position
      ensures Ready()
    {
      out.Reset();
      state, written := 0, 0;
    }

    /** write_receive_response up to send_buffer: for every capture that fits the worker's
        buffer, the whole response is in the output buffer, with no short write on the way. */
    method WriteCapture(times: array<byte>, count: uint16) returns (done: bool)
      requires Ready() && times != out.memory
      requires count <= TIMES_MAX && times.Length >= BUFFER_LENGTH
      modifies this, out`cursor, out`position, out`length, out.memory
      ensures done && out.Valid() && out.position == 0
      ensures out.cursor == 9 + 2 * count
      ensures out.memory[..out.cursor] == EncodeCapture(TimesOf(times[..], count))
    {
      var ok := WriteHead(out, RECEIVE_RESPONSE, 4 + 2 + TIME_LENGTH * count);
      assert out.memory[..HEAD_LENGTH] == EncodeHead(RECEIVE_RESPONSE, 6 + 2 * count);
      state := state + 1;
      ok := WriteCount(count);
      state := state + 1;
      ok := WriteTimes(times, count);
      done := ok;
    }

    method WriteCount(count: uint16) returns (done: bool)
      requires out.Valid() && out.swapEndian && out.size == SEND_BUFFER_LENGTH && out.position == 0
      requires out.cursor == HEAD_LENGTH
      modifies out`cursor, out`position, out`length, out.memory
      ensures out.Valid() && done && out.position == 0 && out.cursor == 9
      ensures out.memory[..9] == old(out.memory[..HEAD_LENGTH]) + LongWordBytes(0) + WordBytes(count)
    {
      done := true;
      var ok := Append(out, [0, 0, 0, 0]);
      done := done && ok;
      assert Reverse([0, 0, 0, 0]) == LongWordBytes(0);
      ok := Append(out, InMemory(count));
      done := done && ok;
    }

    /** Behind `head`, the first `written` times of `buffer` are in the output buffer. */
    ghost predicate Wrote(head: seq<byte>, buffer: seq<byte>)
      reads this, out, out.memory
    {
      && out.Valid() && out.swapEndian && out.size == SEND_BUFFER_LENGTH && out.position == 0
      && written <= TIMES_MAX && |head| == 9 && |buffer| >= BUFFER_LENGTH
      && out.cursor == 9 + 2 * written
      && out.memory[..out.cursor] == head + SwappedTimes(buffer, written)
    }

    method WriteTime(times: array<byte>, ghost head: seq<byte>) returns (done: bool)
      requires Wrote(head, times[..]) && written < TIMES_MAX && times != out.memory
      modifies this`written, out`cursor, out`position, out`length, out.memory
      ensures done && Wrote(head, times[..]) && written == old(written) + 1
    {
      var at := TIME_LENGTH * written;
      ghost var soFar, pair := SwappedTimes(times[..], written), Reverse(times[at..at + TIME_LENGTH]);
      done := Append(out, times[at..at + TIME_LENGTH]);
      assert out.memory[..out.cursor] == (head + soFar) + pair == head + (soFar + pair);
      written := written + 1;
      assert times[..][at..at + TIME_LENGTH] == times[at..at + TIME_LENGTH];
    }

    method WriteTimes(times: array<byte>, count: uint16) returns (done: bool)
      requires out.Valid() && out.swapEndian && out.size == SEND_BUFFER_LENGTH && out.position == 0
      requires out.cursor == 9 && written == 0 && times != out.memory
      requires count <= TIMES_MAX && times.Length >= BUFFER_LENGTH
      modifies this`written, out`cursor, out`position, out`length, out.memory
      ensures done && out.Valid() && out.position == 0 && out.cursor == 9 + 2 * count
      ensures out.memory[..out.cursor] == old(out.memory[..9]) + EncodeTimes(TimesOf(times[..], count))
    {
      ghost var head := out.memory[..9];
      done := false;
      while true
        modifies this`written, out`cursor, out`position, out`length, out.memory
        invariant Wrote(head, times[..]) && written <= count
        decreases count - written
      {
        if written >= count {
          done := true;
          break;
        }
        var ok := WriteTime(times, head);
        if !ok {
          break;
        }
      }
      SwappedTimesAreEncoded(times[..], written);
    }
  }

  /** beacon_pack: the beacon's bytes, none if they do not fit. */
  method PackBeacon(s: Stream, port: uint16, name: seq<byte>) returns (length: uint16)
    requires s.Valid() && s.swapEndian && s.size == BEACON_LENGTH_MAX && |name| < 0x100
    modifies s`cursor, s`position, s`length, s.memory
    ensures s.Valid() && length == if |name| <= NAME_LENGTH_MAX then BEACON_HEAD_LENGTH + |name| else 0
    ensures |name| <= NAME_LENGTH_MAX ==> s.memory[..length] == EncodeBeacon(port, name)
  {
    length := BEACON_HEAD_LENGTH + |name|;
    if length > s.size {
      return 0;
    }
    s.Reset();
    var done := Append(s, InMemory(port));
    var ok := Append(s, [|name|]);
    done := done && ok;
    assert Reverse([|name|]) == [|name| as byte];
    assert s.memory[..s.cursor] == WordBytes(port) + [|name|];
    ok := AppendText(s, name);
    // There is room for the whole beacon, so the branch for a short write is never taken.
    assert done && ok;
  }
}
