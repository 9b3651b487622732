/** The receive ring of uart.c, which overwrites its oldest byte when it is full. */
module Uart {
  import opened Bytes
  import opened Rings

  const RX_BUFF_SIZE := 0x100
  /** The positions run from 0 to RX_BUFF_SIZE inclusive; one slot always stays free. */
  const SLOTS := RX_BUFF_SIZE + 1

  const CR := 13
  const LF := 10

  datatype BuffState = Empty | UnderWrite | WriteOver

  predicate IsLineEnd(c: byte) {
    c == CR || c == LF
  }

  /** The last bytes of a stream, as many as the ring keeps. */
  function Kept(received: seq<byte>): seq<byte> {
    received[|received| - Min(|received|, RX_BUFF_SIZE)..]
  }

  function Advanced(position: nat): nat {
    if position == RX_BUFF_SIZE then 0 else position + 1
  }

  function Count(read: nat, write: nat): (n: nat)
    requires read < SLOTS && write < SLOTS
    ensures n <= RX_BUFF_SIZE
  {
    if read <= write then write - read else write + SLOTS - read
  }

  /** One byte more, in a ring that is not full or in one that is. */
  lemma OneMore(slots: seq<byte>, read: nat, write: nat, c: byte)
    requires |slots| == SLOTS && read < SLOTS && write < SLOTS
    ensures var after, w, n := slots[write := c], Advanced(write), Count(read, write);
            var r := if w == read then Advanced(read) else read;
            && Count(r, w) == Min(n + 1, RX_BUFF_SIZE)
            && Elements(after, r, Count(r, w))
               == (if n < RX_BUFF_SIZE then Elements(slots, read, n) else Elements(slots, read, n)[1..]) + [c]
  {
    var after, w, n := slots[write := c], Advanced(write), Count(read, write);
    var r := if w == read then Advanced(read) else read;
    var left, right := Elements(after, r, Count(r, w)),
                       (if n < RX_BUFF_SIZE then Elements(slots, read, n) else Elements(slots, read, n)[1..]) + [c];
    assert |left| == |right|;
    forall i | 0 <= i < |left|
      ensures left[i] == right[i]
    {
      SlotPlain(r, SLOTS, i);
      SlotPlain(read, SLOTS, i);
      SlotPlain(read, SLOTS, i + 1);
    }
  }

  lemma KeptMore(received: seq<byte>, c: byte)
    ensures var k := Kept(received);
            Kept(received + [c]) == (if |received| < RX_BUFF_SIZE then k else k[1..]) + [c]
  {
  }

  /** RcvMsgBuff of UART0, with the bytes it has received since it was empty. */
  class RcvMsgBuff {
    const buffer: array<byte>
    var writePos: nat
    var readPos: nat
    var state: BuffState
    ghost var received: seq<byte>

    /** From the read to the write position lie exactly the last bytes that came, in order. */
    ghost predicate Valid()
      reads this, buffer
    {
      && buffer.Length == SLOTS && writePos < SLOTS && readPos < SLOTS
      && Count(readPos, writePos) == Min(|received|, RX_BUFF_SIZE)
      && Elements(buffer[..], readPos, Count(readPos, writePos)) == Kept(received)
      && (state == WriteOver <==> exists i :: 0 <= i < |received| && IsLineEnd(received[i]))
    }

    constructor ()
      ensures Valid() && received == [] && fresh(buffer)
    {
      buffer := new byte[SLOTS](_ => 0);
      writePos, readPos, state, received := 0, 0, Empty, [];
    }

    /** uart0_rx_intr_handler, when the FIFO holds `fifo`. */
    method Interrupt(fifo: seq<byte>)
      requires Valid()
      modifies this, buffer
      ensures Valid() && received == old(received) + fifo
      ensures state == if CR in fifo || LF in fifo then WriteOver else old(state)
    {
      var i := 0;
      while i < |fifo|
        modifies this, buffer
        invariant 0 <= i <= |fifo| && Valid() && received == old(received) + fifo[..i]
        invariant state == if CR in fifo[..i] || LF in fifo[..i] then WriteOver else old(state)
      {
        Receive(fifo[i]);
        assert fifo[..i + 1] == fifo[..i] + [fifo[i]];
        i := i + 1;
      }
      assert fifo[..i] == fifo;
    }

    /** The body of the loop. */
    method Receive(c: byte)
      requires Valid()
      modifies this, buffer
      ensures Valid() && received == old(received) + [c]
      ensures state == if IsLineEnd(c) then WriteOver else old(state)
    {
      OneMore(buffer[..], readPos, writePos, c);
      KeptMore(received, c);
      ghost var slots := buffer[..];
      buffer[writePos] := c;
      assert buffer[..] == slots[writePos := c];
      if IsLineEnd(c) {
        state := WriteOver;
      }
      LineEndMore(received, c);
      writePos := Advanced(writePos);
      if writePos == readPos {
        readPos := Advanced(readPos);
      }
      received := received + [c];
    }
  }

  lemma LineEndMore(received: seq<byte>, c: byte)
    ensures var s := received + [c];
            (exists i :: 0 <= i < |s| && IsLineEnd(s[i]))
            <==> ((exists i :: 0 <= i < |received| && IsLineEnd(received[i])) || IsLineEnd(c))
  {
    var s := received + [c];
    assert s[|received|] == c;
    assert forall i :: 0 <= i < |received| ==> s[i] == received[i];
  }
}
