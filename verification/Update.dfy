/** The over-the-air update receiver of update.c: it cuts the firmware out of a stream that
    comes in chunks, inside a machine driven by four callbacks. */
module Update {
  import opened Bytes
  import opened Streams

  const SIZE := 0x3d000
  const ADDR_USER1 := 0x01000
  const ADDR_USER2 := 0x41000

  datatype State = Ready | Busy | Done
  datatype Flag = Idle | Start | Finish
  datatype Event = Listen | Recv(data: seq<byte>) | Discon | Timeout | FinishTimer

  /** The receiver between two callbacks. `received` is all data since the last accepted
      connection, `given` the concatenation of the slices handed to system_upgrade since then. */
  datatype View = View(state: State, pos: nat, flag: Flag, finishArmed: bool, rebooted: bool,
                       received: seq<byte>, given: seq<byte>)

  function Max(a: int, b: int): int {
    if a < b then b else a
  }

  /** The part of a stream that is firmware. */
  function Window(s: seq<byte>, dest: nat): seq<byte> {
    if |s| <= dest then [] else s[dest..Min(|s|, dest + SIZE)]
  }

  /** The part of `data`, received at position `pos`, that is firmware. */
  function Inside(pos: nat, dest: nat, data: seq<byte>): seq<byte>
    requires pos < dest + SIZE
  {
    data[Min(|data|, Max(0, dest - pos))..Min(|data|, dest + SIZE - pos)]
  }

  /** What a callback does, in plain arithmetic. */
  function Step(v: View, dest: nat, e: Event): View {
    match e
    case Listen =>
      if !v.state.Ready? then v else v.(state := Busy, pos := 0, flag := Start, received := [], given := [])
    case Recv(data) =>
      if !v.state.Busy? then v
      else if v.pos >= dest + SIZE then
        v.(state := Done, flag := Finish, finishArmed := true, pos := v.pos + |data|, received := v.received + data)
      else
        v.(pos := v.pos + |data|, received := v.received + data,
           given := v.given + Inside(v.pos, dest, data))
    case Discon => if v.state.Done? then v else v.(state := Ready, pos := 0, flag := Idle)
    case Timeout => if v.state.Done? then v else v.(state := Ready, pos := 0, flag := Idle)
    case FinishTimer => if v.finishArmed then v.(rebooted := true) else v
  }

  ghost predicate Chunk(e: Event) {
    e.Recv? ==> |e.data| < TWO_TO_THE_16
  }

  /** What every interleaving keeps: in the busy state exactly the window of what has been
      received has been handed over; the flag tells the state; a reboot comes only with the
      whole window delivered; and the position stays far from wrapping. */
  ghost predicate Inv(v: View, dest: nat) {
    && (v.state.Busy? ==> v.pos == |v.received| < dest + SIZE + TWO_TO_THE_16 && v.given == Window(v.received, dest))
    && (v.state.Done? ==> && v.pos == |v.received| < dest + SIZE + 2 * TWO_TO_THE_16
                          && dest + SIZE <= |v.received| && v.given == v.received[dest..dest + SIZE])
    && (v.state.Ready? ==> v.pos == 0)
    && (v.flag.Start? <==> v.state.Busy?) && (v.flag.Finish? <==> v.state.Done?)
    && (v.finishArmed <==> v.state.Done?)
    && (v.rebooted ==> v.state.Done?)
  }

  lemma WindowGrows(s: seq<byte>, data: seq<byte>, dest: nat)
    requires |s| < dest + SIZE
    ensures Window(s + data, dest) == Window(s, dest) + Inside(|s|, dest, data)
  {
    var t := s + data;
    var from, to := Min(|data|, Max(0, dest - |s|)), Min(|data|, dest + SIZE - |s|);
    if |t| > dest {
      var w := Window(t, dest);
      if |s| <= dest {
        assert from == dest - |s|;
      } else {
        assert s[dest..] == t[dest..|s|];
      }
      assert |w| == |Window(s, dest)| + (to - from);
    }
  }

  lemma StepKeepsInv(v: View, dest: nat, e: Event)
    requires Inv(v, dest) && Chunk(e)
    ensures Inv(Step(v, dest, e), dest)
  {
    if e.Recv? && v.state.Busy? {
      if v.pos >= dest + SIZE {
        var t := v.received + e.data;
        assert t[dest..dest + SIZE] == v.received[dest..dest + SIZE];
      } else {
        WindowGrows(v.received, e.data, dest);
      }
    }
  }

  function Trace(v: View, dest: nat, events: seq<Event>): View
    decreases |events|
  {
    if events == [] then v else Trace(Step(v, dest, events[0]), dest, events[1..])
  }

  const BOOT := View(Ready, 0, Idle, false, false, [], [])

  lemma {:induction false} TraceKeepsInv(v: View, dest: nat, events: seq<Event>)
    requires Inv(v, dest) && forall e :: e in events ==> Chunk(e)
    ensures Inv(Trace(v, dest, events), dest)
    decreases |events|
  {
    if events != [] {
      StepKeepsInv(v, dest, events[0]);
      TraceKeepsInv(Step(v, dest, events[0]), dest, events[1..]);
    }
  }

  /** The window theorem: after any run from boot, over any chunking, a busy receiver has handed
      over exactly received[dest .. min(pos, dest + SIZE)], and a receiver that has rebooted the
      chip exactly the SIZE bytes of the firmware. */
  lemma WindowDelivered(dest: nat, events: seq<Event>)
    requires forall e :: e in events ==> Chunk(e)
    ensures var v := Trace(BOOT, dest, events);
            && (v.state.Busy? ==> |v.received| == v.pos && v.given == Window(v.received, dest))
            && (v.rebooted ==> |v.given| == SIZE && dest + SIZE <= |v.received|
                               && v.given == v.received[dest..dest + SIZE])
  {
    TraceKeepsInv(BOOT, dest, events);
  }

  /** Nothing leads out of the done state, and nothing is handed over in it. */
  lemma {:induction false} DoneIsForever(v: View, dest: nat, events: seq<Event>)
    requires v.state.Done?
    ensures var w := Trace(v, dest, events);
            w.state.Done? && w.flag == v.flag && w.given == v.given && w.received == v.received
    decreases |events|
  {
    if events != [] {
      DoneIsForever(Step(v, dest, events[0]), dest, events[1..]);
    }
  }

  /** The completion is only noticed by the receive event after the one that completes the
      window: a busy receiver becomes done exactly on a chunk that comes when everything is there. */
  lemma DoneIff(v: View, dest: nat, e: Event)
    requires Inv(v, dest) && v.state.Busy?
    ensures Step(v, dest, e).state.Done? <==> e.Recv? && |v.given| == SIZE
  {
  }

  // ----- runs, told by their events alone -----

  /** What a client has sent since it was taken, chunk by chunk, unless there is none. */
  datatype Session = Closed | Open(chunks: seq<seq<byte>>)

  /** A chunk has come when the whole firmware was there already. */
  predicate Finished(s: Session, dest: nat) {
    s.Open? && s.chunks != [] && |Concat(s.chunks[..|s.chunks| - 1])| >= dest + SIZE
  }

  /** The session after some events, from the last of them back: a client is taken if there is none; its
      chunks are collected up to the one that finishes; and it is gone with a disconnect or a timeout, unless
      it has finished. */
  function SessionAfter(dest: nat, events: seq<Event>): Session {
    if events == [] then Closed else
    var s := SessionAfter(dest, events[..|events| - 1]);
    if s.Closed? then (if events[|events| - 1].Listen? then Open([]) else Closed)
    else if Finished(s, dest) then s
    else match events[|events| - 1]
      case Recv(data) => Open(s.chunks + [data])
      case Discon => Closed
      case Timeout => Closed
      case _ => s
  }

  /** The state, the position and what was handed over are those that the session demands. */
  ghost predicate Follows(v: View, dest: nat, s: Session) {
    && (v.state.Ready? <==> s.Closed?) && (v.state.Done? <==> Finished(s, dest))
    && (s.Open? ==>
          && v.pos == |Concat(s.chunks)| && v.received == Concat(s.chunks) && v.given == Window(Concat(s.chunks), dest))
  }

  lemma {:induction false} ConcatMore(chunks: seq<seq<byte>>, data: seq<byte>)
    ensures Concat(chunks + [data]) == Concat(chunks) + data
    decreases |chunks|
  {
    if chunks == [] {
      assert [data] + [] == chunks + [data] && Concat([data]) == data + Concat([]);
    } else {
      assert (chunks + [data])[1..] == chunks[1..] + [data];
      ConcatMore(chunks[1..], data);
    }
  }

  lemma MoreChunks(chunks: seq<seq<byte>>, data: seq<byte>, dest: nat)
    ensures Concat(chunks + [data]) == Concat(chunks) + data
    ensures Finished(Open(chunks + [data]), dest) <==> |Concat(chunks)| >= dest + SIZE
    ensures var s := Concat(chunks);
            Window(s + data, dest) == Window(s, dest) + if |s| < dest + SIZE then Inside(|s|, dest, data) else []
  {
    ConcatMore(chunks, data);
    assert (chunks + [data])[..|chunks + [data]| - 1] == chunks;
    var s := Concat(chunks);
    if |s| < dest + SIZE {
      WindowGrows(s, data, dest);
    } else {
      assert (s + data)[dest..dest + SIZE] == s[dest..dest + SIZE];
    }
  }

  lemma StepFollows(v: View, dest: nat, before: seq<Event>, e: Event)
    requires Inv(v, dest) && Chunk(e) && Follows(v, dest, SessionAfter(dest, before))
    ensures Follows(Step(v, dest, e), dest, SessionAfter(dest, before + [e]))
  {
    var s := SessionAfter(dest, before);
    assert (before + [e])[..|before + [e]| - 1] == before;
    if e.Recv? && v.state.Busy? {
      MoreChunks(s.chunks, e.data, dest);
    }
  }

  lemma {:induction false} TraceInTwo(v: View, dest: nat, a: seq<Event>, b: seq<Event>)
    ensures Trace(v, dest, a + b) == Trace(Trace(v, dest, a), dest, b)
    decreases |a|
  {
    if a == [] {
      assert a + b == b;
    } else {
      assert (a + b)[1..] == a[1..] + b;
      TraceInTwo(Step(v, dest, a[0]), dest, a[1..], b);
    }
  }

  /** Over every run from boot the receiver is ready, busy or done exactly when the events say that there is
      no session, one that goes on, or one that has finished; and the position and the bytes handed over are
      those of the concatenation of its chunks. */
  lemma {:induction false} RunsAreSessions(dest: nat, events: seq<Event>)
    requires forall e :: e in events ==> Chunk(e)
    ensures Follows(Trace(BOOT, dest, events), dest, SessionAfter(dest, events))
    decreases |events|
  {
    if events != [] {
      var n := |events| - 1;
      var before, e := events[..n], events[n];
      assert events == before + [e];
      assert forall x :: x in before ==> x in events;
      RunsAreSessions(dest, before);
      TraceKeepsInv(BOOT, dest, before);
      TraceInTwo(BOOT, dest, before, [e]);
      StepFollows(Trace(BOOT, dest, before), dest, before, e);
      assert Trace(Trace(BOOT, dest, before), dest, [e]) == Step(Trace(BOOT, dest, before), dest, e);
    }
  }

  function Recvs(chunks: seq<seq<byte>>): (events: seq<Event>)
    ensures |events| == |chunks|
    ensures forall e :: e in events ==> exists i :: 0 <= i < |chunks| && e == Recv(chunks[i])
  {
    if chunks == [] then [] else Recvs(chunks[..|chunks| - 1]) + [Recv(chunks[|chunks| - 1])]
  }

  lemma OneStep(v: View, dest: nat, e: Event)
    ensures Trace(v, dest, [e]) == Step(v, dest, e)
  {
    assert Trace(Step(v, dest, e), dest, []) == Step(v, dest, e);
  }

  /** All that `chunks` call for, in a receiver whose client has sent nothing else. */
  ghost predicate Uploaded(w: View, dest: nat, chunks: seq<seq<byte>>) {
    && w.state.Busy? && w.pos == |Concat(chunks)| && w.received == Concat(chunks)
    && w.given == Window(Concat(chunks), dest)
  }

  lemma OneChunkMore(w: View, dest: nat, chunks: seq<seq<byte>>, data: seq<byte>)
    requires Uploaded(w, dest, chunks) && |Concat(chunks)| < dest + SIZE
    ensures Uploaded(Step(w, dest, Recv(data)), dest, chunks + [data])
    ensures Step(w, dest, Recv(data)).rebooted == w.rebooted
  {
    MoreChunks(chunks, data, dest);
  }

  lemma ShorterBefore(chunks: seq<seq<byte>>)
    requires chunks != []
    ensures |Concat(chunks[..|chunks| - 1])| <= |Concat(chunks)|
  {
    var n := |chunks| - 1;
    assert chunks == chunks[..n] + [chunks[n]];
    ConcatMore(chunks[..n], chunks[n]);
  }

  /** An upload: chunks without a disconnect or a timeout between them, to a receiver that was ready. Until
      the firmware is there, the position is the number of bytes that have come, and exactly their window has
      been handed over. */
  lemma {:induction false} UploadIsDelivered(v: View, dest: nat, chunks: seq<seq<byte>>)
    requires v.state.Ready?
    requires chunks != [] ==> |Concat(chunks[..|chunks| - 1])| < dest + SIZE
    ensures var w := Trace(v, dest, [Listen] + Recvs(chunks));
            && w.state.Busy? && w.pos == |Concat(chunks)| && w.received == Concat(chunks)
            && w.given == Window(Concat(chunks), dest) && w.rebooted == v.rebooted
    decreases |chunks|
  {
    if chunks == [] {
      assert [Listen] + Recvs(chunks) == [Listen] && Window([], dest) == [];
      OneStep(v, dest, Listen);
    } else {
      var before, data := chunks[..|chunks| - 1], chunks[|chunks| - 1];
      if before != [] {
        ShorterBefore(before);
      }
      UploadIsDelivered(v, dest, before);
      var events := [Listen] + Recvs(before);
      var w := Trace(v, dest, events);
      assert [Listen] + Recvs(chunks) == events + [Recv(data)];
      TraceInTwo(v, dest, events, [Recv(data)]);
      OneStep(w, dest, Recv(data));
      OneChunkMore(w, dest, before, data);
      assert before + [data] == chunks;
    }
  }

  /** When it is there, whatever the chunks were, one more chunk finishes the update and the timer behind it
      reboots the chip, with exactly the SIZE bytes of the firmware handed over. */
  lemma UploadReboots(v: View, dest: nat, chunks: seq<seq<byte>>, last: seq<byte>)
    requires v.state.Ready? && chunks != []
    requires |Concat(chunks[..|chunks| - 1])| < dest + SIZE <= |Concat(chunks)|
    ensures var u := Trace(v, dest, ([Listen] + Recvs(chunks)) + [Recv(last)]);
            u.state.Done? && u.given == Concat(chunks)[dest..dest + SIZE] && u.rebooted == v.rebooted
    ensures Trace(v, dest, ([Listen] + Recvs(chunks)) + [Recv(last), FinishTimer]).rebooted
  {
    var events := [Listen] + Recvs(chunks);
    UploadIsDelivered(v, dest, chunks);
    var w := Trace(v, dest, events);
    TraceInTwo(v, dest, events, [Recv(last)]);
    TraceInTwo(v, dest, events, [Recv(last), FinishTimer]);
    OneStep(w, dest, Recv(last));
    assert [Recv(last), FinishTimer][1..] == [FinishTimer];
    OneStep(Step(w, dest, Recv(last)), dest, FinishTimer);
  }

  function Wrap32(x: int): uint32 {
    x % TWO_TO_THE_32
  }

  function Wrap16(x: int): uint16 {
    x % TWO_TO_THE_16
  }

  /** The slice that update_recv computes with its mix of wrapping 32-bit and 16-bit numbers. */
  function CodedSlice(pos: uint32, dest: uint32, len: uint16): (s: (uint16, uint16)) {
    var offset := if dest > pos then Wrap16(Wrap32(dest - pos)) else 0;
    var remaining := Wrap32(SIZE - Wrap32(pos - dest));
    var length := if dest > pos then Wrap16(len - offset) else len;
    (offset, if remaining < length then Wrap16(remaining) else length)
  }

  /** None of the wrapping matters: before the window `remaining` is too big, but no chunk is as
      long as the window; the 16-bit offset loses nothing, since the chunk reaches the window;
      and the narrowed length is only taken when it fits. */
  lemma CodedSliceIsExact(pos: uint32, dest: uint32, len: uint16)
    requires dest <= ADDR_USER2 && pos < dest + SIZE
    ensures Wrap32(pos + len) > dest <==> pos + len > dest
    ensures pos + len > dest ==>
              var (offset, length) := CodedSlice(pos, dest, len);
              && offset == Max(0, dest - pos) && offset + length == Min(len, dest + SIZE - pos)
  {
  }

  /** The static variables of update.c; `given`, `received` and `rebooted` record what the SDK sees. */
  class Receiver {
    const dest: uint32
    var state: State
    var pos: uint32
    var flag: Flag
    var finishArmed: bool
    ghost var rebooted: bool
    ghost var received: seq<byte>
    ghost var given: seq<byte>

    ghost function Now(): View
      reads this
    {
      View(state, pos, flag, finishArmed, rebooted, received, given)
    }

    ghost predicate Valid()
      reads this
    {
      Inv(Now(), dest) && (dest == ADDR_USER1 || dest == ADDR_USER2)
    }

    /** update_init: the image that is not running is the one to be written. */
    constructor (runningFirst: bool)
      ensures Valid() && Now() == BOOT
      ensures var running := if runningFirst then ADDR_USER1 else ADDR_USER2;
              dest + SIZE <= running || running + SIZE <= dest
    {
      state, pos, flag, finishArmed := Ready, 0, Idle, false;
      dest := if runningFirst then ADDR_USER2 else ADDR_USER1;
      rebooted, received, given := false, [], [];
    }

    /** update_listen */
    method Accept()
      requires Valid()
      modifies this
      ensures Valid() && Now() == Step(old(Now()), dest, Listen)
    {
      if state != Ready {
        return;
      }
      state := Busy;
      pos := 0;
      flag := Start;
      received, given := [], [];
    }

    /** update_discon */
    method Disconnect()
      requires Valid()
      modifies this
      ensures Valid() && Now() == Step(old(Now()), dest, Discon)
    {
      if state != Done {
        state := Ready;
        pos := 0;
        flag := Idle;
      }
    }

    /** update_timeout */
    method Expire()
      requires Valid()
      modifies this
      ensures Valid() && Now() == Step(old(Now()), dest, Timeout)
    {
      if state == Done {
        return;
      }
      Disconnect();
    }

    /** update_recv, with the numbers as wide as they are there. */
    method Receive(data: seq<byte>)
      requires Valid() && |data| < TWO_TO_THE_16
      modifies this
      ensures Valid() && Now() == Step(old(Now()), dest, Recv(data))
    {
      ghost var v := Now();
      StepKeepsInv(v, dest, Recv(data));
      if state != Busy {
        return;
      }
      assert Wrap32(dest + SIZE) == dest + SIZE;
      if pos >= Wrap32(dest + SIZE) {
        state := Done;
        flag := Finish;
        finishArmed := true;
      } else {
        Pass(data);
      }
      Advance(data);
      assert Now() == Step(v, dest, Recv(data));
    }

    method Advance(data: seq<byte>)
      requires |data| < TWO_TO_THE_16 && pos + |data| < TWO_TO_THE_32
      modifies this`pos, this`received
      ensures pos == old(pos) + |data| && received == old(received) + data
    {
      var len: uint16 := |data|;
      received := received + data;
      pos := Wrap32(pos + len);
    }

    /** The branch of update_recv that may pass something on. */
    method Pass(data: seq<byte>)
      requires |data| < TWO_TO_THE_16 && dest <= ADDR_USER2 && pos < dest + SIZE
      modifies this`given
      ensures given == old(given) + Inside(pos, dest, data)
    {
      var len: uint16 := |data|;
      CodedSliceIsExact(pos, dest, len);
      if Wrap32(pos + len) > dest {
        var offset: uint16 := 0;
        var remaining: uint32 := Wrap32(SIZE - Wrap32(pos - dest));
        var length: uint16 := len;
        if dest > pos {
          offset := Wrap16(Wrap32(dest - pos));
          length := Wrap16(length - offset);
        }
        if remaining < length {
          length := Wrap16(remaining);
        }
        assert (offset, length) == CodedSlice(pos, dest, len);
        Upgrade(data[offset..offset + length]);
      } else {
        assert Inside(pos, dest, data) == [];
      }
    }

    /** system_upgrade */
    ghost method Upgrade(slice: seq<byte>)
      modifies this`given
      ensures given == old(given) + slice
    {
      given := given + slice;
    }

    /** update_finish, which the timer armed in the done state calls. */
    method Reboot()
      requires Valid() && finishArmed
      modifies this
      ensures Valid() && Now() == Step(old(Now()), dest, FinishTimer)
    {
      rebooted := true;
    }

    /** One event, through its callback. */
    method Handle(e: Event)
      requires Valid() && Chunk(e)
      modifies this
      ensures Valid() && Now() == Step(old(Now()), dest, e)
    {
      StepKeepsInv(Now(), dest, e);
      match e {
        case Listen => Accept();
        case Recv(data) => Receive(data);
        case Discon => Disconnect();
        case Timeout => Expire();
        case FinishTimer =>
          if finishArmed {
            Reboot();
          }
      }
    }

    method HandleAll(events: seq<Event>)
      requires Valid() && forall e :: e in events ==> Chunk(e)
      modifies this
      ensures Valid() && Now() == Trace(old(Now()), dest, events)
      decreases |events|
    {
      if events != [] {
        Handle(events[0]);
        HandleAll(events[1..]);
      }
    }
  }

  /** From boot, the receiver is where the events alone say, and what it has handed over lies in the image
      that is not running. */
  method Boot(runningFirst: bool, events: seq<Event>) returns (receiver: Receiver)
    requires forall e :: e in events ==> Chunk(e)
    ensures receiver.Valid() && Follows(receiver.Now(), receiver.dest, SessionAfter(receiver.dest, events))
    ensures var running := if runningFirst then ADDR_USER1 else ADDR_USER2;
            receiver.dest + SIZE <= running || running + SIZE <= receiver.dest
  {
    receiver := new Receiver(runningFirst);
    receiver.HandleAll(events);
    RunsAreSessions(receiver.dest, events);
  }
}
