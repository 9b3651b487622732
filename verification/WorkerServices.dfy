/** Whole requests: from the client that is taken to the answer it gets, or the reset that ends them. */
module WorkerServices {
  import opened Bytes
  import opened Requests
  import opened RequestStates
  import opened Responses
  import opened WorkerMachine
  import opened WorkerRuns

  /** What it takes to serve a request: it comes, the timer fires, and for a capture there is a signal. */
  function Course(r: Request, edges: seq<uint16>): seq<Event>
    requires WellFormed(r)
  {
    [Received(Encode(r)), Timer] + if r.Receive? then [Signal(edges)] else []
  }

  /** What its client makes of the answer `b`. */
  predicate Answers(b: seq<byte>, r: Request, edges: seq<uint16>) {
    match r
    case Send(_, _) => Acknowledges(b, SEND_RESPONSE)
    case Receive => DecodeCapture(b) == Decoded.Capture(0, Fitting(edges))
    case Config(_, _, _) => Acknowledges(b, CONFIG_RESPONSE)
  }

  /** And what the worker has done in the end. */
  ghost predicate DoneFor(v: View, r: Request, edges: seq<uint16>, entries: seq<Entry>)
    requires |v.base| == 2 * BUFFER_LENGTH && WellFormed(r)
  {
    match r
    case Send(_, _) =>
      && |entries| == 4 && entries[0] == Accepted(r) && entries[1] == Emission(v, r)
      && entries[1].frequency == r.frequency && SlotsOf(entries[1].slots, r.times)
      && entries[2].Responded? && Answers(entries[2].bytes, r, edges) && entries[3] == Restarted
    case Receive =>
      && |entries| == 3 && entries[0] == Accepted(r)
      && entries[1].Responded? && Answers(entries[1].bytes, r, edges) && entries[2] == Restarted
    case Config(_, ssid, password) =>
      && |entries| == 4 && entries[0] == Accepted(r)
      && entries[1].Responded? && Answers(entries[1].bytes, r, edges)
      && entries[2] == Configured(ssid, password) && entries[3] == Restarted
  }

  lemma FirstAccepted(v: View, r: Request) returns (w: View)
    requires WF(v) && v.phase.Ready? && WellFormed(r)
    ensures w == v.(phase := Processing, consumed := Encode(r), unread := [], fragment := Encode(r),
                    processState := 1, timerArmed := true)
    ensures WF(w) && Trace(v, [Received(Encode(r))]) == Outcome(w, [Accepted(r)])
  {
    var q := Encode(r);
    AcceptedRun(v.(unread := q, fragment := q), r);
    StepKeepsWF(v, Received(q));
    OneEvent(v, Received(q));
    w := Step(v, Received(q)).view;
  }

  lemma TypeOfEncoded(r: Request)
    requires WellFormed(r)
    ensures Encode(r) != [] && TypeOf(Encode(r)) == TypeByte(r)
    ensures Whole(Encode(r)) && Judge(Encode(r)).request == r
  {
    EncodedHead(r);
    EncodedIsAccepted(r, []);
    AddNothing(Encode(r));
  }

  lemma EmittedSlots(v: View, r: Request)
    requires |v.base| == 2 * BUFFER_LENGTH && WellFormed(r) && r.Send? && Sendable(r.frequency)
    ensures SlotsOf(Emission(v, r).slots, r.times)
  {
    TypeOfEncoded(r);
    FrequencyOf(r);
    EmissionAudited(v.(consumed := Encode(r)), r);
  }

  lemma SendIsServed(v: View, r: Request, edges: seq<uint16>)
    requires WF(v) && v.phase.Ready? && v.socket && !v.sendLock && WellFormed(r) && r.Send? && Sendable(r.frequency)
    ensures var o := Trace(v, Course(r, edges)); Rests(o.view) && DoneFor(v, r, edges, o.entries)
  {
    var q := Encode(r);
    assert Course(r, edges) == [Received(q), Timer];
    ServedAndReady(v, Received(q), v.(unread := q, fragment := q), r);
    EmittedSlots(v, r);
    HeadDecodes(EncodeHead(SEND_RESPONSE, 0), SEND_RESPONSE, 0);
  }

  /** A receive request arms the receiver once the timer has fired. */
  lemma ReceiverIsArmed(w: View)
    requires WF(w) && w.phase.Processing? && w.consumed == Encode(Receive)
    requires w.processState == 1 && w.receiveState == 0 && w.timerArmed
    ensures Step(w, Timer)
         == Outcome(w.(receiveState := 1, captured := 0, interruptArmed := true, timerArmed := false), [])
  {
    TypeOfEncoded(Receive);
  }

  lemma ReceiveIsStarted(v: View) returns (u: View)
    requires WF(v) && v.phase.Ready?
    ensures WF(u) && u.phase.Processing? && u.interruptArmed && !u.timerArmed
    ensures u.sendLock == v.sendLock && u.socket == v.socket
    ensures Trace(v, [Received(Encode(Receive))] + [Timer]) == Outcome(u, [Accepted(Receive)])
  {
    var q := Encode(Receive);
    var w := FirstAccepted(v, Receive);
    ReceiverIsArmed(w);
    StepKeepsWF(w, Timer);
    u := Step(w, Timer).view;
    OneEvent(w, Timer);
    TraceInTwo(v, [Received(q)], [Timer]);
  }

  lemma ReceiveIsServed(v: View, edges: seq<uint16>)
    requires WF(v) && v.phase.Ready? && v.socket && !v.sendLock
    ensures var o := Trace(v, Course(Receive, edges)); Rests(o.view) && DoneFor(v, Receive, edges, o.entries)
  {
    var first := [Received(Encode(Receive))] + [Timer];
    var u := ReceiveIsStarted(v);
    CaptureReachesTheClient(u, edges);
    OneEventMore(v, first, u, [Accepted(Receive)], Signal(edges));
    CourseOf(Receive, edges);
    ReceiveEntries(v, edges, Step(u, Signal(edges)).entries);
  }

  lemma OneEventMore(v: View, events: seq<Event>, u: View, log: seq<Entry>, e: Event)
    requires WF(v) && WF(u) && Trace(v, events) == Outcome(u, log)
    ensures Trace(v, events + [e]) == Outcome(Step(u, e).view, log + Step(u, e).entries)
  {
    OneEvent(u, e);
    TraceInTwo(v, events, [e]);
  }

  lemma CourseOf(r: Request, edges: seq<uint16>)
    requires WellFormed(r)
    ensures Course(r, edges)
         == if r.Receive? then [Received(Encode(r))] + [Timer] + [Signal(edges)] else [Received(Encode(r))] + [Timer]
  {
  }

  lemma ReceiveEntries(v: View, edges: seq<uint16>, entries: seq<Entry>)
    requires |v.base| == 2 * BUFFER_LENGTH
    requires |entries| == 2 && entries[0].Responded? && entries[1] == Restarted
    requires DecodeCapture(entries[0].bytes) == Decoded.Capture(0, Fitting(edges))
    ensures DoneFor(v, Receive, edges, [Accepted(Receive)] + entries)
  {
  }

  lemma ConfigRun(v: View, r: Request)
    requires WF(v) && WellFormed(r) && r.Config? && v.socket && !v.sendLock
    requires v.phase.Processing? && v.processState == 1 && v.consumed == Encode(r)
    ensures !v.timerArmed ==> Rests(Run(v).view)
    ensures Run(v).entries
         == [Responded(EncodeHead(CONFIG_RESPONSE, 0))] + ([Configured(r.ssid, r.password)] + [Restarted])
  {
    TypeOfEncoded(r);
    ConfiguredTexts(v.(phase := Finishing, responseState := 1), r);
  }

  lemma ConfigTimer(w: View, r: Request)
    requires WF(w) && WellFormed(r) && r.Config? && w.socket && !w.sendLock && w.timerArmed
    requires w.phase.Processing? && w.processState == 1 && w.consumed == Encode(r)
    ensures Rests(Step(w, Timer).view)
    ensures Step(w, Timer).entries
         == [Responded(EncodeHead(CONFIG_RESPONSE, 0))] + ([Configured(r.ssid, r.password)] + [Restarted])
  {
    ConfigRun(w.(timerArmed := false), r);
  }

  lemma ConfigIsServed(v: View, r: Request, edges: seq<uint16>)
    requires WF(v) && v.phase.Ready? && v.socket && !v.sendLock && WellFormed(r) && r.Config?
    ensures var o := Trace(v, Course(r, edges)); Rests(o.view) && DoneFor(v, r, edges, o.entries)
  {
    var q := Encode(r);
    var w := FirstAccepted(v, r);
    ConfigTimer(w, r);
    ConfigEntries(v, r, edges);
    OneEventMore(v, [Received(q)], w, [Accepted(r)], Timer);
    CourseOf(r, edges);
  }

  lemma ConfigEntries(v: View, r: Request, edges: seq<uint16>)
    requires |v.base| == 2 * BUFFER_LENGTH && WellFormed(r) && r.Config?
    ensures var answer := [Responded(EncodeHead(CONFIG_RESPONSE, 0))];
            DoneFor(v, r, edges, [Accepted(r)] + (answer + ([Configured(r.ssid, r.password)] + [Restarted])))
  {
    HeadDecodes(EncodeHead(CONFIG_RESPONSE, 0), CONFIG_RESPONSE, 0);
  }

  /** From request to answer: a ready worker with an open lock takes a client, accepts its request, does what
      it asks for, sends the answer that belongs to it, and is ready again and at rest. Only a send request
      whose frequency has no half period is an exception. */
  lemma ClientIsServed(v: View, r: Request, edges: seq<uint16>)
    requires WF(v) && v.phase.Ready? && !v.sendLock && WellFormed(r) && (r.Send? ==> Sendable(r.frequency))
    ensures var o := Trace(v, [Connect] + Course(r, edges)); Rests(o.view) && DoneFor(v, r, edges, o.entries)
  {
    var w := v.(socket := true);
    OneEvent(v, Connect);
    TraceInTwo(v, [Connect], Course(r, edges));
    LogsInTwo([], [], Trace(w, Course(r, edges)).entries);
    match r {
      case Send(_, _) => SendIsServed(w, r, edges);
      case Receive => ReceiveIsServed(w, edges);
      case Config(_, _, _) => ConfigIsServed(w, r, edges);
    }
  }

  /** A client that comes while a request is processed is sent away, even if the worker has none: it is not
      there when the request is to be answered. */
  lemma LateClientIsSentAway(v: View, r: Request)
    requires WF(v) && v.phase.Ready? && !v.sendLock && !v.socket && WellFormed(r) && r.Send? && Sendable(r.frequency)
    ensures Trace(v, ([Received(Encode(r))] + [Connect]) + [Timer]).view.phase.Halted?
  {
    var first := [Received(Encode(r))];
    var w := FirstAccepted(v, r);
    OneEventMore(v, first, w, [Accepted(r)], Connect);
    LogsInTwo([], [], [Accepted(r)]);
    OneEventMore(v, first + [Connect], w, [Accepted(r)], Timer);
    TypeOfEncoded(r);
    FrequencyOf(r);
    HaltsIff(w.(timerArmed := false));
  }

  /** All that is left of a request that has been given up: the worker is ready, a configuration has been
      applied if that was its type, and nothing has been emitted or answered. */
  ghost predicate GivenUp(o: Outcome, kind: byte) {
    && o.view.phase.Ready? && o.entries != [] && o.entries[|o.entries| - 1] == Restarted
    && if kind == CONFIG_REQUEST then |o.entries| == 2 && o.entries[0].Configured? else |o.entries| == 1
  }

  /** So it is when a request of a legal type has been rejected, as soon as the timer has fired. */
  lemma RejectedIsReset(v: View, data: seq<byte>)
    requires WF(v) && (v.phase.Ready? || v.phase.Requesting?)
    requires Judge(v.consumed + data).Stop? && LegalType((v.consumed + data)[0])
    ensures GivenUp(Trace(v, [Received(data)] + [Timer]), (v.consumed + data)[0])
  {
    RejectedStep(v, data);
    StepKeepsWF(v, Received(data));
    OneEvent(v, Received(data));
    var w := Step(v, Received(data)).view;
    OneEventMore(v, [Received(data)], w, [], Timer);
    LogsInTwo([], [], Step(w, Timer).entries);
    StoppedIsReset(w);
  }

  lemma RejectedStep(v: View, data: seq<byte>)
    requires WF(v) && (v.phase.Ready? || v.phase.Requesting?) && Judge(v.consumed + data).Stop?
    ensures var o := Step(v, Received(data));
            && o.entries == [] && o.view.phase.Finishing? && o.view.timerArmed
            && TypeOf(o.view.consumed) == (v.consumed + data)[0]
  {
    var t := v.consumed + data;
    ReceiveIsJudged(v, data);
    StopsBehindType(t);
    TypeOfBeginning(t, Min(Judge(t).end, |t|));
  }

  lemma StopsBehindType(t: seq<byte>)
    requires Judge(t).Stop?
    ensures |t| >= 3 && Judge(t).end >= 3
  {
    if LegalType(t[0]) {
      ScanPrefix(t, t);
    }
  }

  lemma TypeOfBeginning(t: seq<byte>, n: nat)
    requires 0 < n <= |t|
    ensures TypeOf(t[..n]) == t[0]
  {
  }

  /** And when the client has gone away, at any time. */
  lemma DisconnectIsReset(v: View)
    requires WF(v) && !v.phase.Halted? && LegalType(TypeOf(v.consumed))
    ensures GivenUp(Trace(v, [Disconnect] + [Timer]), TypeOf(v.consumed))
  {
    StepKeepsWF(v, Disconnect);
    OneEvent(v, Disconnect);
    var w := Step(v, Disconnect).view;
    OneEventMore(v, [Disconnect], w, [], Timer);
    LogsInTwo([], [], Step(w, Timer).entries);
    StoppedIsReset(w);
  }

  lemma StoppedIsReset(w: View)
    requires WF(w) && w.phase.Finishing? && w.timerArmed && LegalType(TypeOf(w.consumed))
    ensures GivenUp(Step(w, Timer), TypeOf(w.consumed))
  {
  }

  /** A client that is taken while the lock is set gets no answer: its request is processed, and the worker then
      waits to respond. */
  lemma LockedClientIsHeld(v: View, r: Request, edges: seq<uint16>)
    requires WF(v) && v.phase.Ready? && v.sendLock && WellFormed(r) && (r.Send? ==> Sendable(r.frequency))
    ensures var o := Trace(v, [Connect] + Course(r, edges));
            && o.view.phase.Responding? && o.entries != [] && o.entries[0] == Accepted(r)
            && |o.entries| == (if r.Send? then 2 else 1) && (r.Send? ==> o.entries[1].Emitted?)
  {
    var w := v.(socket := true);
    OneEvent(v, Connect);
    TraceInTwo(v, [Connect], Course(r, edges));
    LogsInTwo([], [], Trace(w, Course(r, edges)).entries);
    if r.Receive? {
      HeldReceive(w, edges);
    } else {
      HeldCourse(w, r, edges);
    }
  }

  lemma HeldReceive(w: View, edges: seq<uint16>)
    requires WF(w) && w.phase.Ready? && w.sendLock
    ensures var o := Trace(w, Course(Receive, edges)); o.view.phase.Responding? && o.entries == [Accepted(Receive)]
  {
    var x := ReceiveIsStarted(w);
    CourseOf(Receive, edges);
    OneEventMore(w, [Received(Encode(Receive))] + [Timer], x, [Accepted(Receive)], Signal(edges));
    HeldCapture(x, edges);
  }

  lemma HeldCourse(w: View, r: Request, edges: seq<uint16>)
    requires WF(w) && w.phase.Ready? && w.sendLock && WellFormed(r) && !r.Receive?
    requires r.Send? ==> Sendable(r.frequency)
    ensures var o := Trace(w, Course(r, edges));
            && o.view.phase.Responding? && o.entries != [] && o.entries[0] == Accepted(r)
            && |o.entries| == (if r.Send? then 2 else 1) && (r.Send? ==> o.entries[1].Emitted?)
  {
    var u := FirstAccepted(w, r);
    CourseOf(r, edges);
    OneEventMore(w, [Received(Encode(r))], u, [Accepted(r)], Timer);
    HeldTimer(u, r);
  }

  lemma HeldTimer(u: View, r: Request)
    requires WF(u) && WellFormed(r) && !r.Receive? && (r.Send? ==> Sendable(r.frequency)) && u.sendLock && u.timerArmed
    requires u.phase.Processing? && u.processState == 1 && u.consumed == Encode(r)
    ensures var o := Step(u, Timer);
            o.view.phase.Responding? && |o.entries| == (if r.Send? then 1 else 0) && (r.Send? ==> o.entries[0].Emitted?)
  {
    TypeOfEncoded(r);
    if r.Send? {
      FrequencyOf(r);
    }
  }

  lemma HeldCapture(x: View, edges: seq<uint16>)
    requires WF(x) && x.phase.Processing? && x.interruptArmed && x.sendLock
    ensures Step(x, Signal(edges)).view.phase.Responding? && Step(x, Signal(edges)).entries == []
  {
    SignalStep(x, edges);
  }
}
