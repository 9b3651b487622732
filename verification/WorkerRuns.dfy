/** What holds over every run of the worker of server.c, whatever happens in whatever order. */
module WorkerRuns {
  import opened Bytes
  import opened Streams
  import opened Requests
  import opened RequestStates
  import opened Responses
  import opened WorkerMachine

  lemma RespondKeepsWF(v: View)
    requires |v.base| == 2 * BUFFER_LENGTH && v.captured <= TIMES_MAX && Whole(v.consumed)
    requires v.interruptArmed ==> TypeOf(v.consumed) == RECEIVE_REQUEST && v.captured == 0
    ensures WF(RunRespond(v).view)
  {
  }

  lemma ProcessKeepsWF(v: View)
    requires |v.base| == 2 * BUFFER_LENGTH && v.captured <= TIMES_MAX && Whole(v.consumed)
    requires v.interruptArmed ==> TypeOf(v.consumed) == RECEIVE_REQUEST && v.captured == 0
    requires v.phase.Processing? && v.processState <= 1 && v.receiveState <= 1 && v.responseState == 0
    requires v.interruptArmed ==> v.receiveState == 1
    ensures WF(RunProcess(v).view)
  {
    if v.processState != 0 && !(TypeOf(v.consumed) == RECEIVE_REQUEST && v.receiveState == 0) {
      RespondKeepsWF(v);
    }
  }

  lemma RequestKeepsWF(v: View)
    requires |v.base| == 2 * BUFFER_LENGTH && v.captured <= TIMES_MAX && Fresh(v)
    ensures WF(RunRequest(v).view)
  {
    var t := v.consumed + v.unread;
    if Judge(t).Accept? {
      var end := Judge(t).end;
      AcceptedIsEncoded(t);
      JudgePrefix(t[..end], t);
      ProcessKeepsWF(v.(phase := Processing, consumed := t[..end], unread := t[end..]));
    }
  }

  /** What every event keeps. */
  lemma StepKeepsWF(v: View, e: Event)
    requires WF(v)
    ensures WF(Step(v, e).view)
  {
    if !v.phase.Halted? {
      EnteredWF(v, e);
      RunKeepsWF(Entered(v, e));
    }
  }

  lemma RunKeepsWF(v: View)
    requires WF(v)
    ensures WF(Run(v).view)
  {
    match v.phase {
      case Ready => RequestKeepsWF(v);
      case Requesting => RequestKeepsWF(v);
      case Processing => ProcessKeepsWF(v);
      case Responding => RespondKeepsWF(v);
      case _ =>
    }
  }

  // ----- runs -----

  function Trace(v: View, events: seq<Event>): Outcome
    requires WF(v)
    decreases |events|
  {
    if events == [] then Outcome(v, []) else
    StepKeepsWF(v, events[0]);
    var o := Step(v, events[0]);
    var p := Trace(o.view, events[1..]);
    Outcome(p.view, o.entries + p.entries)
  }

  lemma {:induction false} TraceKeepsWF(v: View, events: seq<Event>)
    requires WF(v)
    ensures WF(Trace(v, events).view)
    decreases |events|
  {
    if events != [] {
      StepKeepsWF(v, events[0]);
      TraceKeepsWF(Step(v, events[0]).view, events[1..]);
    }
  }

  lemma TraceStep(v: View, events: seq<Event>)
    requires WF(v) && events != []
    ensures WF(Step(v, events[0]).view)
    ensures var o := Step(v, events[0]);
            var p := Trace(o.view, events[1..]);
            Trace(v, events) == Outcome(p.view, o.entries + p.entries)
  {
    StepKeepsWF(v, events[0]);
  }

  // ----- safety over whole runs -----

  /** What the worker may still do for the request it has accepted since its last reset. */
  datatype Duty = Idle | Granted(request: Request) | Spent(request: Request) | Answered(request: Request) | Broken

  predicate SlotsOf(slots: seq<uint16>, times: seq<uint16>) {
    |slots| == TIMES_MAX && forall i :: 0 <= i < |times| && i < TIMES_MAX ==> slots[i] == times[i]
  }

  /** The rules: a request is accepted only when there is none; it is emitted at most once, with
      its own frequency, which can be sent, and its own times; it is answered at most once,
      with what a client of its kind can read, a send request after its emission; and a configuration that was
      accepted is applied with its own texts. */
  function Next(d: Duty, e: Entry): Duty {
    match e
    case Accepted(r) => if d.Idle? then Granted(r) else Broken
    case Emitted(f, slots) =>
      if d.Granted? && d.request.Send? && f == d.request.frequency && Sendable(f) && SlotsOf(slots, d.request.times)
      then Spent(d.request) else Broken
    case Responded(bytes) =>
      if d.Spent? && Acknowledges(bytes, SEND_RESPONSE) then Answered(d.request)
      else if d.Granted? && d.request.Config? && Acknowledges(bytes, CONFIG_RESPONSE) then Answered(d.request)
      else if d.Granted? && d.request.Receive? && DecodeCapture(bytes).Capture? then Answered(d.request)
      else Broken
    case Configured(ssid, password) =>
      if d.Idle? || (!d.Broken? && d.request.Config? && d.request.ssid == ssid && d.request.password == password)
      then d else Broken
    case Restarted => if d.Broken? then Broken else Idle
  }

  function Audit(d: Duty, entries: seq<Entry>): Duty
    decreases |entries|
  {
    if entries == [] then d else Audit(Next(d, entries[0]), entries[1..])
  }

  lemma {:induction false} AuditInTwo(d: Duty, a: seq<Entry>, b: seq<Entry>)
    ensures Audit(d, a + b) == Audit(Audit(d, a), b)
    decreases |a|
  {
    if a == [] {
      assert a + b == b;
    } else {
      AuditInTwo(Next(d, a[0]), a[1..], b);
      assert (a + b)[1..] == a[1..] + b;
    }
  }

  /** The duty fits the phase: nothing is owed before a request has been accepted, and whatever
      is owed is owed to the request that has been read. */
  ghost predicate Fits(v: View, d: Duty) {
    && !d.Broken?
    && (!d.Idle? ==> Whole(v.consumed) && d.request == Judge(v.consumed).request)
    && match v.phase
       case Ready => d.Idle?
       case Requesting => d.Idle?
       case Processing => d.Granted?
       case Responding => d.Granted? || d.Spent?
       case Finishing => d.Idle? || !Undecided(v.consumed)
       case Halted => true
  }

  lemma AuditOneMore(d: Duty, e: Entry, rest: seq<Entry>)
    ensures Audit(d, [e] + rest) == Audit(Next(d, e), rest)
  {
    assert ([e] + rest)[1..] == rest;
  }

  lemma ConfiguredTexts(v: View, r: Request)
    requires |v.base| == 2 * BUFFER_LENGTH && Whole(v.consumed) && Judge(v.consumed).request == r && r.Config?
    ensures TextIn(Buffer(v), SsidText(v.consumed)) == r.ssid
    ensures TextIn(Buffer(v), PasswordText(v.consumed)) == r.password
  {
    var c := v.consumed;
    var s, p := SsidAt(c), PasswordAt(c);
    TextsInBuffers(v.base, seq(NAME_LENGTH_MAX, _ => 0), c, r);
    assert r == RequestAt(c);
    assert SsidText(c) == Text(0, c[s]) && PasswordText(c) == Text(c[s], c[p]);
    assert |r.ssid| == c[s] && |r.password| == c[p];
  }

  lemma FinishAudited(v: View, d: Duty)
    requires |v.base| == 2 * BUFFER_LENGTH && !d.Broken?
    requires !d.Idle? ==> Whole(v.consumed) && d.request == Judge(v.consumed).request
    ensures var o := RunFinish(v); Fits(o.view, Audit(d, o.entries))
  {
    if LegalType(TypeOf(v.consumed)) {
      if TypeOf(v.consumed) == CONFIG_REQUEST {
        var e := Configured(TextIn(Buffer(v), SsidText(v.consumed)), TextIn(Buffer(v), PasswordText(v.consumed)));
        if !d.Idle? {
          ConfiguredTexts(v, d.request);
        }
        assert Next(d, e) == d;
        AuditOneMore(d, e, [Restarted]);
      }
      AuditOneMore(d, Restarted, []);
      assert [Restarted] + [] == [Restarted];
    }
  }

  lemma TypeOfWhole(c: seq<byte>)
    requires Whole(c)
    ensures c != [] && TypeOf(c) == TypeByte(Judge(c).request)
  {
  }

  lemma ResponseFits(d: Duty, bytes: seq<byte>)
    requires d.Granted? || d.Spent?
    requires match d.request
             case Send(_, _) => d.Spent? && Acknowledges(bytes, SEND_RESPONSE)
             case Receive => d.Granted? && DecodeCapture(bytes).Capture?
             case Config(_, _, _) => d.Granted? && Acknowledges(bytes, CONFIG_RESPONSE)
    ensures Next(d, Responded(bytes)) == Answered(d.request)
  {
  }

  lemma ResponseAudited(v: View, d: Duty)
    requires |v.base| == 2 * BUFFER_LENGTH && v.captured <= TIMES_MAX && Whole(v.consumed)
    requires !d.Idle? && !d.Broken? && d.request == Judge(v.consumed).request
    requires if d.request.Send? then d.Spent? else d.Granted?
    ensures Next(d, Responded(Response(v))) == Answered(d.request)
  {
    TypeOfWhole(v.consumed);
    match d.request {
      case Send(_, _) => HeadDecodes(Response(v), SEND_RESPONSE, 0);
      case Receive => CaptureDecodes(TimesOf(Buffer(v), v.captured));
      case Config(_, _, _) => HeadDecodes(Response(v), CONFIG_RESPONSE, 0);
    }
    ResponseFits(d, Response(v));
  }

  lemma RespondAudited(v: View, d: Duty)
    requires |v.base| == 2 * BUFFER_LENGTH && v.captured <= TIMES_MAX && Whole(v.consumed)
    requires !d.Idle? && !d.Broken? && d.request == Judge(v.consumed).request
    requires v.responseState == 0 ==> if d.request.Send? then d.Spent? else d.Granted?
    requires v.sendLock ==> d.Granted? || d.Spent?
    ensures var o := RunRespond(v); Fits(o.view, Audit(d, o.entries))
  {
    if !v.sendLock && (v.responseState != 0 || v.socket) {
      var w := v.(phase := Finishing, responseState := 1);
      if v.responseState == 0 {
        ResponseAudited(v, d);
        FinishAudited(w, Answered(d.request));
        AuditOneMore(d, Responded(Response(v)), RunFinish(w).entries);
      } else {
        FinishAudited(w, d);
      }
    }
  }

  lemma EmissionAudited(v: View, r: Request)
    requires |v.base| == 2 * BUFFER_LENGTH && Whole(v.consumed) && Judge(v.consumed).request == r && r.Send?
    requires Sendable(r.frequency)
    ensures Next(Granted(r), Emitted(LongWord(v.consumed, 3), TimesOf(Buffer(v), TIMES_MAX))) == Spent(r)
  {
    TimesInBuffer(v.base, v.consumed, r);
    forall i | 0 <= i < |r.times| && i < TIMES_MAX
      ensures TimesOf(Buffer(v), TIMES_MAX)[i] == r.times[i]
    {
      TimesOfAt(Buffer(v), TIMES_MAX, i);
    }
  }

  lemma ProcessAudited(v: View, r: Request)
    requires |v.base| == 2 * BUFFER_LENGTH && v.captured <= TIMES_MAX && Whole(v.consumed)
    requires Judge(v.consumed).request == r && v.phase.Processing? && v.responseState == 0
    ensures var o := RunProcess(v); Fits(o.view, Audit(Granted(r), o.entries))
  {
    if v.processState != 0 && (TypeOf(v.consumed) == SEND_REQUEST ==> Sendable(LongWord(v.consumed, 3))) {
      if TypeOf(v.consumed) == SEND_REQUEST {
        EmissionAudited(v, r);
        RespondAudited(v, Spent(r));
        var e := Emitted(LongWord(v.consumed, 3), TimesOf(Buffer(v), TIMES_MAX));
        AuditOneMore(Granted(r), e, RunRespond(v).entries);
      } else {
        RespondAudited(v, Granted(r));
      }
    }
  }

  lemma RequestAudited(v: View)
    requires |v.base| == 2 * BUFFER_LENGTH && v.captured <= TIMES_MAX && Fresh(v)
    ensures var o := RunRequest(v); Fits(o.view, Audit(Idle, o.entries))
  {
    var t := v.consumed + v.unread;
    if Judge(t).Accept? {
      var end, r := Judge(t).end, Judge(t).request;
      AcceptedIsEncoded(t);
      JudgePrefix(t[..end], t);
      var w := v.(phase := Processing, consumed := t[..end], unread := t[end..]);
      ProcessAudited(w, r);
      AuditOneMore(Idle, Accepted(r), RunProcess(w).entries);
    }
  }

  lemma RunAudited(v: View, d: Duty)
    requires WF(v) && Fits(v, d)
    ensures Fits(Run(v).view, Audit(d, Run(v).entries))
  {
    match v.phase {
      case Ready => RequestAudited(v);
      case Requesting => RequestAudited(v);
      case Processing => ProcessAudited(v, d.request);
      case Responding => RespondAudited(v, d);
      case Finishing => FinishAudited(v, d);
      case Halted =>
    }
  }

  lemma EnteredFits(v: View, e: Event, d: Duty)
    requires WF(v) && Fits(v, d) && !v.phase.Halted?
    ensures Fits(Entered(v, e), d)
  {
  }

  lemma StepAudited(v: View, e: Event, d: Duty)
    requires WF(v) && Fits(v, d)
    ensures Fits(Step(v, e).view, Audit(d, Step(v, e).entries))
  {
    if !v.phase.Halted? {
      EnteredWF(v, e);
      EnteredFits(v, e, d);
      RunAudited(Entered(v, e), d);
    }
  }

  lemma {:induction false} TraceAudited(v: View, events: seq<Event>, d: Duty)
    requires WF(v) && Fits(v, d)
    ensures Fits(Trace(v, events).view, Audit(d, Trace(v, events).entries))
    decreases |events|
  {
    if events != [] {
      var o := Step(v, events[0]);
      StepKeepsWF(v, events[0]);
      StepAudited(v, events[0], d);
      TraceAudited(o.view, events[1..], Audit(d, o.entries));
      AuditInTwo(d, o.entries, Trace(o.view, events[1..]).entries);
    }
  }

  /** Over every interleaving of events, everything the worker does follows the rules of Next:
      in particular each emission is of a request that was accepted since the last reset, with
      its frequency and times, and there is at most one for each. */
  lemma RunsFollowTheRules(events: seq<Event>)
    ensures WF(INITIAL) && !Audit(Idle, Trace(INITIAL, events).entries).Broken?
  {
    TraceAudited(INITIAL, events, Idle);
  }

  // ----- phase order -----

  function Rank(p: Phase): nat {
    match p
    case Ready => 0
    case Requesting => 1
    case Processing => 2
    case Responding => 3
    case Finishing => 4
    case Halted => 5
  }

  /** Between two resets the phases only advance. */
  predicate Advances(p: Phase, o: Outcome) {
    Restarted in o.entries || Rank(p) <= Rank(o.view.phase)
  }

  lemma FinishAdvances(v: View)
    ensures Advances(Finishing, RunFinish(v))
  {
    if LegalType(TypeOf(v.consumed)) {
      var es := RunFinish(v).entries;
      assert es[|es| - 1] == Restarted;
    }
  }

  lemma RespondAdvances(v: View)
    requires |v.base| == 2 * BUFFER_LENGTH && v.captured <= TIMES_MAX
    ensures Advances(Responding, RunRespond(v))
  {
    FinishAdvances(v.(phase := Finishing, responseState := 1));
  }

  lemma EntryAdvances(p: Phase, q: Phase, e: Entry, o: Outcome)
    requires Advances(p, o) && Rank(q) <= Rank(p)
    ensures Advances(q, o.(entries := [e] + o.entries))
  {
    if Restarted in o.entries {
      assert Restarted in [e] + o.entries;
    }
  }

  lemma ProcessAdvances(v: View)
    requires |v.base| == 2 * BUFFER_LENGTH && v.captured <= TIMES_MAX && Whole(v.consumed) && v.phase.Processing?
    ensures Advances(Processing, RunProcess(v))
  {
    RespondAdvances(v);
    if TypeOf(v.consumed) == SEND_REQUEST {
      var e := Emitted(LongWord(v.consumed, 3), TimesOf(Buffer(v), TIMES_MAX));
      EntryAdvances(Responding, Processing, e, RunRespond(v));
    }
  }

  lemma RequestAdvances(v: View)
    requires |v.base| == 2 * BUFFER_LENGTH && v.captured <= TIMES_MAX
    ensures Advances(Requesting, RunRequest(v))
  {
    var t := v.consumed + v.unread;
    if Judge(t).Accept? {
      var end := Judge(t).end;
      AcceptedIsEncoded(t);
      JudgePrefix(t[..end], t);
      var w := v.(phase := Processing, consumed := t[..end], unread := t[end..]);
      ProcessAdvances(w);
      EntryAdvances(Processing, Requesting, Accepted(Judge(t).request), RunProcess(w));
    }
  }

  lemma RunAdvances(v: View)
    requires WF(v)
    ensures Advances(v.phase, Run(v))
  {
    match v.phase {
      case Ready => RequestAdvances(v);
      case Requesting => RequestAdvances(v);
      case Processing => ProcessAdvances(v);
      case Responding => RespondAdvances(v);
      case Finishing => FinishAdvances(v);
      case Halted =>
    }
  }

  lemma EnteredAdvances(v: View, e: Event)
    requires |v.base| == 2 * BUFFER_LENGTH && !v.phase.Halted?
    ensures Rank(v.phase) <= Rank(Entered(v, e).phase)
  {
  }

  lemma EarlierPhase(p: Phase, q: Phase, o: Outcome)
    requires Rank(p) <= Rank(q) && Advances(q, o)
    ensures Advances(p, o)
  {
  }

  lemma PhasesAdvance(v: View, e: Event)
    requires WF(v)
    ensures Advances(v.phase, Step(v, e))
  {
    if !v.phase.Halted? {
      EnteredWF(v, e);
      var w := Entered(v, e);
      EnteredAdvances(v, e);
      if Wakes(v, e) {
        RunAdvances(w);
        EarlierPhase(v.phase, w.phase, Run(w));
      }
    }
  }

  /** A finishing worker gets ready for the next client at its next run if and only if the type
      it has read is one it knows (or none has been read, which counts as a send request). */
  lemma ReadyAfterFinishIff(v: View)
    requires v.phase.Finishing? && WF(v)
    ensures Run(v).view.phase.Ready? <==> v.consumed == [] || LegalType(v.consumed[0])
  {
  }

  lemma IllegalTypeStep(v: View, e: Event)
    requires WF(v) && v.phase.Finishing? && v.consumed != [] && !LegalType(v.consumed[0])
    ensures var o := Step(v, e); o.view.phase.Finishing? && o.view.consumed == v.consumed && o.entries == []
    ensures v.timerArmed ==> Step(v, e).view.timerArmed
  {
  }

  /** After an illegal type it never does, whatever happens, and it does nothing else either, though its timer
      is armed again and again. */
  lemma {:induction false} IllegalTypeIsForever(v: View, events: seq<Event>)
    requires WF(v) && v.phase.Finishing? && v.consumed != [] && !LegalType(v.consumed[0])
    ensures Trace(v, events).view.phase.Finishing? && Trace(v, events).entries == []
    ensures v.timerArmed ==> Trace(v, events).view.timerArmed
    decreases |events|
  {
    if events != [] {
      TraceStep(v, events);
      IllegalTypeStep(v, events[0]);
      IllegalTypeIsForever(Step(v, events[0]).view, events[1..]);
    }
  }

  /** A request with an illegal type, here that of a response, gets any ready worker there. */
  lemma IllegalTypeIsReached(v: View, rest: seq<byte>)
    requires WF(v) && v.phase.Ready? && |rest| >= 2
    ensures var w := Step(v, Received([SEND_RESPONSE] + rest)).view;
            WF(w) && w.phase.Finishing? && w.timerArmed && w.consumed != [] && !LegalType(w.consumed[0])
  {
    var data := [SEND_RESPONSE] + rest;
    assert v.consumed + data == data;
    StepKeepsWF(v, Received(data));
  }

  // ----- the send lock -----

  predicate IsResponse(e: Entry) {
    e.Responded?
  }

  /** No response comes any more: the lock is set, or the processor has halted. */
  predicate Mute(v: View) {
    v.sendLock || v.phase.Halted?
  }

  lemma LockedRunIsSilent(v: View)
    requires WF(v) && v.sendLock
    ensures Run(v).view.sendLock && forall e :: e in Run(v).entries ==> !IsResponse(e)
  {
  }

  lemma MuteStepIsSilent(v: View, e: Event)
    requires WF(v) && (Mute(v) || e.Sent?)
    ensures Mute(Step(v, e).view) && forall x :: x in Step(v, e).entries ==> !IsResponse(x)
  {
    if !v.phase.Halted? {
      EnteredWF(v, e);
      LockedRunIsSilent(Entered(v, e));
    }
  }

  /** Ready again, with nothing to come but from a client. */
  predicate Rests(v: View) {
    v.phase.Ready? && !v.timerArmed && !v.interruptArmed
  }

  /** The lock that a sent event sets is never released: from the first sent event on, no run
      brings another response. */
  lemma {:induction false} NoResponseAfterSent(v: View, events: seq<Event>)
    requires WF(v) && (Mute(v) || (events != [] && events[0].Sent?))
    ensures var o := Trace(v, events); Mute(o.view) && forall e :: e in o.entries ==> !IsResponse(e)
    decreases |events|
  {
    if events != [] {
      StepKeepsWF(v, events[0]);
      MuteStepIsSilent(v, events[0]);
      NoResponseAfterSent(Step(v, events[0]).view, events[1..]);
    }
  }

  /** The frequency of a send request is one that can be sent. */
  predicate Servable(v: View)
    requires Whole(v.consumed)
  {
    TypeOf(v.consumed) == SEND_REQUEST ==> Sendable(LongWord(v.consumed, 3))
  }

  /** A request whose turn has come is answered in that run if and only if the lock is open, the client is
      there, and the frequency, if it is a send request, can be sent. */
  lemma AnsweredIff(v: View)
    requires WF(v) && v.phase.Processing? && (TypeOf(v.consumed) == RECEIVE_REQUEST ==> v.receiveState == 1)
    ensures (exists b :: Responded(b) in Run(v).entries) <==> !v.sendLock && v.socket && Servable(v)
  {
    TypeOfWhole(v.consumed);
    if !v.sendLock && v.socket && Servable(v) {
      assert Responded(Response(v)) in Run(v).entries;
    } else if v.sendLock {
      LockedRunIsSilent(v);
      forall b | Responded(b) in Run(v).entries
        ensures false
      {
        assert IsResponse(Responded(b));
      }
    }
  }

  /** And it brings the processor to a halt if and only if the frequency cannot be sent, or the lock is
      open and there is no client to send the response to. */
  lemma HaltsIff(v: View)
    requires WF(v) && v.phase.Processing? && (TypeOf(v.consumed) == RECEIVE_REQUEST ==> v.receiveState == 1)
    ensures Run(v).view.phase.Halted? <==> !Servable(v) || (!v.sendLock && !v.socket)
  {
    TypeOfWhole(v.consumed);
  }

  /** No other run does. */
  lemma OnlyProcessingHalts(v: View)
    requires WF(v) && !v.phase.Processing? && !v.phase.Halted?
    ensures !Run(v).view.phase.Halted?
  {
    if v.phase.Ready? || v.phase.Requesting? {
      var t := v.consumed + v.unread;
      if Judge(t).Accept? {
        var end := Judge(t).end;
        AcceptedIsEncoded(t);
        JudgePrefix(t[..end], t);
        ProcessFirst(v.(phase := Processing, consumed := t[..end], unread := t[end..]));
      }
    }
  }

  lemma {:induction false} HaltedIsForever(v: View, events: seq<Event>)
    requires WF(v) && v.phase.Halted?
    ensures Trace(v, events) == Outcome(v, [])
    decreases |events|
  {
    if events != [] {
      TraceStep(v, events);
      HaltedIsForever(v, events[1..]);
    }
  }

  lemma RespondingStep(v: View, e: Event)
    requires WF(v) && v.phase.Responding? && !e.Disconnect?
    ensures Step(v, e).view.phase.Responding? && Step(v, e).entries == []
  {
  }

  /** A worker that waits to respond is held by that lock, and only a disconnect moves it. */
  lemma {:induction false} RespondingUntilDisconnect(v: View, events: seq<Event>)
    requires WF(v) && v.phase.Responding? && Disconnect !in events
    ensures Trace(v, events).view.phase.Responding? && Trace(v, events).entries == []
    decreases |events|
  {
    if events != [] {
      TraceStep(v, events);
      RespondingStep(v, events[0]);
      RespondingUntilDisconnect(Step(v, events[0]).view, events[1..]);
    }
  }

  // ----- fragments and stale data -----

  lemma ProcessFirst(v: View)
    requires |v.base| == 2 * BUFFER_LENGTH && v.captured <= TIMES_MAX && Whole(v.consumed) && v.processState == 0
    ensures RunProcess(v) == Outcome(v.(phase := Processing, processState := 1, timerArmed := true), [])
  {
  }

  /** A receive event while a request is being read does what the verdict on all bytes says. */
  lemma ReceiveIsJudged(v: View, data: seq<byte>)
    requires WF(v) && (v.phase.Ready? || v.phase.Requesting?)
    ensures var t, o := v.consumed + data, Step(v, Received(data));
            match Judge(t)
            case More =>
              o.view == v.(phase := Requesting, consumed := t, unread := [], fragment := data) && o.entries == []
            case Stop(end) =>
              && o.view.phase.Finishing? && o.view.timerArmed && o.entries == []
              && o.view.consumed == t[..Min(end, |t|)]
            case Accept(end, r) =>
              && end <= |t| && o.entries == [Accepted(r)]
              && o.view == v.(phase := Processing, consumed := t[..end], unread := t[end..], fragment := data,
                              processState := 1, timerArmed := true)
  {
    var t := v.consumed + data;
    if Judge(t).Accept? {
      var end := Judge(t).end;
      AcceptedIsEncoded(t);
      JudgePrefix(t[..end], t);
      ProcessFirst(v.(phase := Processing, consumed := t[..end], unread := t[end..], fragment := data));
    }
  }

  /** The data of the receive events among some events, in order. */
  function DataOf(events: seq<Event>): seq<byte> {
    if events == [] then [] else (if events[0].Received? then events[0].data else []) + DataOf(events[1..])
  }

  lemma DataOfTake(events: seq<Event>, n: nat)
    requires 0 < n <= |events|
    ensures events[..n][0] == events[0] && events[..n][1..] == events[1..][..n - 1]
    ensures DataOf(events[..n]) == (if events[0].Received? then events[0].data else []) + DataOf(events[1..][..n - 1])
  {
  }

  /** While a request is being read, a sent event, the timer, another client or a signal do not disturb it. */
  lemma ReadingIsUndisturbed(v: View, e: Event)
    requires WF(v) && v.phase.Requesting? && v.unread == [] && !e.Received? && !e.Disconnect?
    ensures var o := Step(v, e);
            && o.entries == [] && o.view.phase.Requesting?
            && o.view.consumed == v.consumed && o.view.unread == []
  {
    assert v.consumed + [] == v.consumed;
  }

  /** A worker that can go on with a request: it is reading one, or it is ready and data comes first. */
  ghost predicate CanRead(v: View, events: seq<Event>) {
    || (v.phase.Requesting? && v.unread == [])
    || (v.phase.Ready? && events != [] && events[0].Received?)
  }

  /** After n events, the last of which brought the last byte of the request, it has been accepted. */
  ghost predicate AcceptedAfter(v: View, events: seq<Event>, n: nat, t: seq<byte>)
    requires WF(v) && Judge(t).Accept?
  {
    && 0 < n <= |events| && events[n - 1].Received? && Judge(t).end <= |t|
    && |v.consumed + DataOf(events[..n - 1])| < Judge(t).end <= |v.consumed + DataOf(events[..n])|
    && var o := Trace(v, events[..n]);
       && o.view.phase.Processing? && o.entries == [Accepted(Judge(t).request)]
       && o.view.consumed == t[..Judge(t).end]
       && o.view.consumed + o.view.unread == v.consumed + DataOf(events[..n])
  }

  /** The event with the last byte. */
  lemma LastFragment(v: View, events: seq<Event>, t: seq<byte>)
    requires WF(v) && CanRead(v, events) && events != [] && events[0].Received?
    requires t == v.consumed + DataOf(events) && Judge(t).Accept?
    requires |v.consumed| < Judge(t).end <= |v.consumed + events[0].data|
    ensures AcceptedAfter(v, events, 1, t)
  {
    var c := v.consumed + events[0].data;
    Associative(v.consumed, events[0].data, DataOf(events[1..]));
    JudgePrefix(c, t);
    WholeFragment(v, events[0].data);
    OneEvent(v, events[0]);
    FirstData(events);
    AddNothing(v.consumed);
    SameBeginning(c, t, Judge(t).end);
  }

  lemma AddNothing(c: seq<byte>)
    ensures c + [] == c
  {
  }

  lemma SameBeginning(q: seq<byte>, t: seq<byte>, n: nat)
    requires q <= t && n <= |q|
    ensures q[..n] == t[..n]
  {
  }

  lemma FirstData(events: seq<Event>)
    requires events != [] && events[0].Received?
    ensures events[..1] == [events[0]] && DataOf(events[..1]) == events[0].data && DataOf(events[..0]) == []
  {
    assert events[..1][1..] == [];
  }

  lemma WholeFragment(v: View, data: seq<byte>)
    requires WF(v) && (v.phase.Ready? || v.phase.Requesting?) && Judge(v.consumed + data).Accept?
    ensures var c, o := v.consumed + data, Step(v, Received(data));
            && Judge(c).end <= |c| && o.view.phase.Processing? && o.entries == [Accepted(Judge(c).request)]
            && o.view.consumed == c[..Judge(c).end] && o.view.consumed + o.view.unread == c
  {
    ReceiveIsJudged(v, data);
  }

  lemma OneEvent(v: View, e: Event)
    requires WF(v)
    ensures Trace(v, [e]) == Step(v, e)
  {
    TraceStep(v, [e]);
    assert Step(v, e).entries + [] == Step(v, e).entries;
  }

  /** An event before it. */
  lemma EarlierEvent(v: View, events: seq<Event>, n: nat, t: seq<byte>)
    requires WF(v) && events != [] && Judge(t).Accept?
    requires var o := Step(v, events[0]);
             && WF(o.view) && o.entries == [] && AcceptedAfter(o.view, events[1..], n, t)
             && o.view.consumed == v.consumed + if events[0].Received? then events[0].data else []
    ensures AcceptedAfter(v, events, n + 1, t)
  {
    var o := Step(v, events[0]);
    DataOfTake(events, n + 1);
    TraceStep(v, events[..n + 1]);
    var d := if events[0].Received? then events[0].data else [];
    Associative(v.consumed, d, DataOf(events[1..][..n]));
    DataOfTake(events, n);
    Associative(v.consumed, d, DataOf(events[1..][..n - 1]));
    assert [] + Trace(o.view, events[1..][..n]).entries == Trace(o.view, events[1..][..n]).entries;
  }

  /** Whatever part of a request has been read, and whatever but a disconnect comes before its last byte. */
  lemma {:induction false} InterruptedRequestIsAccepted(v: View, events: seq<Event>, t: seq<byte>) returns (n: nat)
    requires WF(v) && CanRead(v, events) && Disconnect !in events
    requires t == v.consumed + DataOf(events) && Judge(t).Accept? && |v.consumed| < Judge(t).end
    ensures AcceptedAfter(v, events, n, t)
    decreases |events|
  {
    AcceptedIsEncoded(t);
    assert v.consumed + [] == v.consumed;
    var d := if events[0].Received? then events[0].data else [];
    Associative(v.consumed, d, DataOf(events[1..]));
    if events[0].Received? && Judge(t).end <= |v.consumed + d| {
      LastFragment(v, events, t);
      n := 1;
    } else {
      StepKeepsWF(v, events[0]);
      if events[0].Received? {
        JudgePrefix(v.consumed + d, t);
        ReceiveIsJudged(v, d);
      } else {
        ReadingIsUndisturbed(v, events[0]);
        assert v.consumed + d == v.consumed;
      }
      n := InterruptedRequestIsAccepted(Step(v, events[0]).view, events[1..], t);
      EarlierEvent(v, events, n, t);
      n := n + 1;
    }
  }

  lemma Associative(a: seq<byte>, b: seq<byte>, c: seq<byte>)
    ensures (a + b) + c == a + (b + c)
  {
  }

  /** Fragmentation independence of the whole worker: however a stream that begins with a well-formed
      request is cut up into receive events, and whatever other events but a disconnect come in between,
      the worker that was ready has accepted exactly this request after the event with its last byte,
      holds the bytes behind it unread, and has done nothing else. */
  lemma FragmentedRequestIsAccepted(v: View, r: Request, events: seq<Event>) returns (n: nat)
    requires WF(v) && v.phase.Ready? && WellFormed(r) && Encode(r) <= DataOf(events)
    requires events != [] && events[0].Received? && Disconnect !in events
    ensures 0 < n <= |events| && events[n - 1].Received?
    ensures |DataOf(events[..n - 1])| < |Encode(r)| <= |DataOf(events[..n])|
    ensures var o := Trace(v, events[..n]);
            && o.view.phase.Processing? && o.entries == [Accepted(r)]
            && o.view.consumed == Encode(r) && Encode(r) + o.view.unread == DataOf(events[..n])
  {
    var t := DataOf(events);
    BeginsEncoded(r, t);
    assert v.consumed == [] && [] + t == t;
    n := InterruptedRequestIsAccepted(v, events, t);
    assert [] + DataOf(events[..n]) == DataOf(events[..n]) && [] + DataOf(events[..n - 1]) == DataOf(events[..n - 1]);
  }

  /** The reset rewinds the input buffer without emptying it, so a ready worker accepts a request
      on an event exactly when the event brings one, or is a run (a sent event or a timer still
      armed) while the last fragment is one: that fragment is then parsed a second time. */
  lemma ReadyAcceptsIff(v: View, e: Event, r: Request)
    requires WF(v) && v.phase.Ready?
    ensures Accepted(r) in Step(v, e).entries
       <==> || (e.Received? && Judge(e.data).Accept? && Judge(e.data).request == r)
            || ((e.Sent? || (e.Timer? && v.timerArmed)) && Judge(v.fragment).Accept? && Judge(v.fragment).request == r)
  {
    assert forall s: seq<byte> :: [] + s == s;
    match e {
      case Received(data) => ReadyRun(v.(unread := data, fragment := data));
      case Sent => ReadyRun(v.(sendLock := true));
      case Timer => ReadyRun(v.(timerArmed := false));
      case _ =>
    }
  }

  lemma ReadyRun(v: View)
    requires WF(v) && v.phase.Ready?
    ensures Run(v).entries == if Judge(v.unread).Accept? then [Accepted(Judge(v.unread).request)] else []
  {
    var t := v.consumed + v.unread;
    assert t == v.unread;
    if Judge(t).Accept? {
      var end := Judge(t).end;
      AcceptedIsEncoded(t);
      JudgePrefix(t[..end], t);
      ProcessFirst(v.(phase := Processing, consumed := t[..end], unread := t[end..]));
    }
  }

  lemma SendRun(v: View)
    requires WF(v) && v.phase.Processing? && TypeOf(v.consumed) == SEND_REQUEST && Sendable(LongWord(v.consumed, 3))
    ensures var e := Emitted(LongWord(v.consumed, 3), TimesOf(Buffer(v), TIMES_MAX));
            if v.sendLock || !v.socket then Run(v).entries == [e]
            else Run(v).entries == [e, Responded(EncodeHead(SEND_RESPONSE, 0)), Restarted]
                 && Run(v).view == Restart(v).view
    ensures Run(v).view.phase.Halted? <==> !v.sendLock && !v.socket
  {
  }

  lemma WholeSlices(q: seq<byte>)
    ensures q[..|q|] == q && q[|q|..] == []
  {
  }

  lemma AcceptedRequest(v: View, q: seq<byte>, r: Request)
    requires |v.base| == 2 * BUFFER_LENGTH && v.captured <= TIMES_MAX && v.processState == 0
    requires v.consumed + v.unread == q && Judge(q) == Accept(|q|, r)
    ensures RunRequest(v)
         == Outcome(v.(phase := Processing, consumed := q, unread := [], processState := 1, timerArmed := true),
                    [Accepted(r)])
  {
    WholeSlices(q);
    ProcessFirst(v.(phase := Processing, consumed := q, unread := []));
  }

  lemma AcceptedRun(v: View, r: Request)
    requires WF(v) && v.phase.Ready? && WellFormed(r) && v.unread == Encode(r)
    ensures Run(v).entries == [Accepted(r)]
    ensures Run(v).view
         == v.(phase := Processing, consumed := Encode(r), unread := [], processState := 1, timerArmed := true)
  {
    BeginsEncoded(r, Encode(r));
    assert v.consumed + v.unread == Encode(r);
    AcceptedRequest(v, Encode(r), r);
  }

  /** In particular the sent event that follows the response to a request that came in one fragment
      repeats that request: what comes once is emitted twice, and alike. */
  lemma SentRepeatsTheRequest(v: View, r: Request)
    requires WF(v) && v.phase.Ready? && !v.sendLock && v.socket && WellFormed(r) && r.Send? && Sendable(r.frequency)
    ensures var entries := Trace(v, [Received(Encode(r)), Timer] + [Sent, Timer]).entries;
            && |entries| == 6 && entries[0] == Accepted(r) && entries[1].Emitted? && entries[2].Responded?
            && entries[3] == Restarted && entries[4] == Accepted(r) && entries[5] == entries[1]
  {
    var q := Encode(r);
    ServedAndReady(v, Received(q), v.(unread := q, fragment := q), r);
    var w := Trace(v, [Received(q), Timer]).view;
    TraceKeepsWF(v, [Received(q), Timer]);
    ServedAndHeld(w, Sent, w.(sendLock := true), r);
    SameEmission(v, w, r);
    TraceInTwo(v, [Received(q), Timer], [Sent, Timer]);
    SixEntries(r, r, Emission(v, r), Emission(w, r));
  }

  lemma SixEntries(a: Request, b: Request, e: Entry, f: Entry)
    ensures var s := [Accepted(a), e, Responded(EncodeHead(SEND_RESPONSE, 0)), Restarted] + [Accepted(b), f];
            && |s| == 6 && s[0] == Accepted(a) && s[1] == e && s[2].Responded? && s[3] == Restarted
            && s[4] == Accepted(b) && s[5] == f
  {
  }

  lemma SameEmission(v: View, w: View, r: Request)
    requires |v.base| == |w.base| == 2 * BUFFER_LENGTH && WellFormed(r) && r.Send?
    requires w.base == BufferImage(v.base, Encode(r))
    ensures Emission(w, r) == Emission(v, r)
  {
    ImageTwice(v.base, Encode(r));
  }

  /** What is emitted for a request that a ready worker accepts. */
  function Emission(v: View, r: Request): Entry
    requires |v.base| == 2 * BUFFER_LENGTH && WellFormed(r) && r.Send?
  {
    Emitted(r.frequency, TimesOf(BufferImage(v.base, Encode(r)), TIMES_MAX))
  }

  /** What a ready worker does for a send request that it has accepted, once the timer comes: it emits it,
      and if the lock is open, answers it and resets, or halts because there is no client. */
  ghost predicate ServedBy(u: View, r: Request, o: Outcome)
    requires |u.base| == 2 * BUFFER_LENGTH && WellFormed(r) && r.Send?
  {
    if u.sendLock then o.entries == [Emission(u, r)]
    else if !u.socket then o.entries == [Emission(u, r)] && o.view.phase.Halted?
    else && o.entries == [Emission(u, r), Responded(EncodeHead(SEND_RESPONSE, 0)), Restarted]
         && Rests(o.view) && !o.view.socket && !o.view.sendLock
         && o.view.fragment == Encode(r) && o.view.base == BufferImage(u.base, Encode(r))
  }

  lemma TimerServes(u: View, w: View, r: Request)
    requires WellFormed(r) && r.Send? && Sendable(r.frequency)
    requires WF(u) && WF(w) && u.phase.Ready? && u.fragment == Encode(r)
    requires w == u.(phase := Processing, consumed := Encode(r), unread := [], processState := 1, timerArmed := true)
    ensures ServedBy(u, r, Step(w, Timer))
  {
    FrequencyOf(r);
    SendRun(w.(timerArmed := false));
  }

  /** A ready worker that is given a whole send request by an event `e`, and the timer after it. */
  lemma Served(v: View, e: Event, u: View, r: Request) returns (p: Outcome)
    requires WF(v) && v.phase.Ready? && WellFormed(r) && r.Send? && Sendable(r.frequency)
    requires WF(u) && u.phase.Ready? && u.unread == u.fragment == Encode(r) && Step(v, e) == Run(u)
    ensures ServedBy(u, r, p) && Trace(v, [e, Timer]) == Outcome(p.view, [Accepted(r)] + p.entries)
  {
    AcceptedRun(u, r);
    RunKeepsWF(u);
    p := Step(Run(u).view, Timer);
    TimerServes(u, Run(u).view, r);
    OneEvent(v, e);
    OneEvent(Run(u).view, Timer);
    TraceInTwo(v, [e], [Timer]);
    assert [e] + [Timer] == [e, Timer];
  }

  /** If the lock is open and the client is there, the worker is ready again after four entries. */
  lemma ServedAndReady(v: View, e: Event, u: View, r: Request)
    requires WF(v) && v.phase.Ready? && WellFormed(r) && r.Send? && Sendable(r.frequency)
    requires WF(u) && u.phase.Ready? && u.unread == u.fragment == Encode(r) && Step(v, e) == Run(u)
    requires !u.sendLock && u.socket
    ensures var o := Trace(v, [e, Timer]);
            && o.entries == [Accepted(r), Emission(u, r), Responded(EncodeHead(SEND_RESPONSE, 0)), Restarted]
            && Rests(o.view) && !o.view.socket && !o.view.sendLock
            && o.view.fragment == Encode(r) && o.view.base == BufferImage(u.base, Encode(r))
  {
    var p := Served(v, e, u, r);
    FourEntries(Accepted(r), Emission(u, r), Responded(EncodeHead(SEND_RESPONSE, 0)), Restarted);
  }

  lemma FourEntries(a: Entry, b: Entry, c: Entry, d: Entry)
    ensures [a] + [b, c, d] == [a, b, c, d]
  {
  }

  /** Otherwise it is emitted but not answered; without a client it halts the processor. */
  lemma ServedAndHeld(v: View, e: Event, u: View, r: Request)
    requires WF(v) && v.phase.Ready? && WellFormed(r) && r.Send? && Sendable(r.frequency)
    requires WF(u) && u.phase.Ready? && u.unread == u.fragment == Encode(r) && Step(v, e) == Run(u)
    requires u.sendLock || !u.socket
    ensures Trace(v, [e, Timer]).entries == [Accepted(r), Emission(u, r)]
    ensures !u.sendLock ==> Trace(v, [e, Timer]).view.phase.Halted?
  {
    var p := Served(v, e, u, r);
  }

  lemma {:induction false} TraceInTwo(v: View, a: seq<Event>, b: seq<Event>)
    requires WF(v)
    ensures WF(Trace(v, a).view)
    ensures var o := Trace(v, a);
            var p := Trace(o.view, b);
            Trace(v, a + b) == Outcome(p.view, o.entries + p.entries)
    decreases |a|
  {
    TraceKeepsWF(v, a);
    if a == [] {
      assert a + b == b;
      LogsInTwo([], [], Trace(v, b).entries);
    } else {
      var o := FirstOfTwo(v, a, b);
      TraceInTwo(o.view, a[1..], b);
      var q := Trace(o.view, a[1..]);
      LogsInTwo(o.entries, q.entries, Trace(q.view, b).entries);
    }
  }

  lemma FirstOfTwo(v: View, a: seq<Event>, b: seq<Event>) returns (o: Outcome)
    requires WF(v) && a != []
    ensures WF(o.view)
    ensures var p := Trace(o.view, a[1..]); Trace(v, a) == Outcome(p.view, o.entries + p.entries)
    ensures var p := Trace(o.view, a[1..] + b); Trace(v, a + b) == Outcome(p.view, o.entries + p.entries)
  {
    o := Step(v, a[0]);
    assert (a + b)[0] == a[0] && (a + b)[1..] == a[1..] + b;
    TraceStep(v, a);
    TraceStep(v, a + b);
  }

  lemma LogsInTwo(a: seq<Entry>, b: seq<Entry>, c: seq<Entry>)
    ensures (a + b) + c == a + (b + c)
    ensures a == [] ==> a + c == c
  {
  }

  /** The frequency of a send request is where the worker reads it. */
  lemma FrequencyOf(r: Request)
    requires WellFormed(r) && r.Send?
    ensures var q := Encode(r); |q| >= 7 && TypeOf(q) == SEND_REQUEST && LongWord(q, 3) == r.frequency
  {
    EncodedIsAccepted(r, []);
    assert Encode(r) + [] == Encode(r);
    EncodedHead(r);
  }

  /** A request for a frequency that cannot be sent is accepted by any ready worker, and halts it. */
  lemma BadFrequencyHalts(v: View, r: Request)
    requires WF(v) && v.phase.Ready? && WellFormed(r) && r.Send? && !Sendable(r.frequency)
    ensures WF(Step(v, Received(Encode(r))).view)
    ensures var o := Step(v, Received(Encode(r)));
            o.entries == [Accepted(r)] && Step(o.view, Timer).view.phase.Halted? && Step(o.view, Timer).entries == []
  {
    var q := Encode(r);
    StepKeepsWF(v, Received(q));
    FrequencyOf(r);
    AcceptedRun(v.(unread := q, fragment := q), r);
  }

  /** The reset closes the connection and forgets the client, but data of that client may still be on its
      way: a second request before another client has come is emitted, and halts the worker when it is to
      be answered. */
  lemma SecondRequestHalts(v: View, a: Request, b: Request)
    requires WF(v) && v.phase.Ready? && !v.sendLock && v.socket
    requires WellFormed(a) && a.Send? && Sendable(a.frequency) && WellFormed(b) && b.Send? && Sendable(b.frequency)
    ensures var o := Trace(v, [Received(Encode(a)), Timer] + [Received(Encode(b)), Timer]);
            && |o.entries| == 6 && o.entries[2].Responded? && o.entries[3] == Restarted
            && o.entries[4] == Accepted(b) && o.entries[5].Emitted? && o.view.phase.Halted?
  {
    var q, r := Encode(a), Encode(b);
    ServedAndReady(v, Received(q), v.(unread := q, fragment := q), a);
    var w := Trace(v, [Received(q), Timer]).view;
    TraceKeepsWF(v, [Received(q), Timer]);
    ServedAndHeld(w, Received(r), w.(unread := r, fragment := r), b);
    TraceInTwo(v, [Received(q), Timer], [Received(r), Timer]);
    SixEntries(a, b, Emission(v, a), Emission(w, b));
  }

  /** Parsing the same request again stores the same bytes again. */
  lemma ImageTwice(base: seq<byte>, c: seq<byte>)
    ensures BufferImage(BufferImage(base, c), c) == BufferImage(base, c)
  {
  }

  // ----- configuration and emission -----

  /** A finishing worker applies a configuration if and only if the request has that type, which
      does not take an accepted request. */
  lemma ConfiguresIff(v: View)
    requires WF(v) && v.phase.Finishing?
    ensures (exists s, p :: Configured(s, p) in Run(v).entries) <==> TypeOf(v.consumed) == CONFIG_REQUEST
  {
    if TypeOf(v.consumed) == CONFIG_REQUEST {
      var e := Run(v).entries[0];
      assert Configured(e.ssid, e.password) in Run(v).entries;
    }
  }

  /** A configuration request that breaks off after its first byte is applied with empty texts. */
  lemma BrokenOffConfigurationIsApplied()
    ensures WF(INITIAL)
    ensures var o := Step(INITIAL, Received([CONFIG_REQUEST])).view;
            && WF(o) && WF(Step(o, Disconnect).view)
            && Step(Step(o, Disconnect).view, Timer).entries == [Configured([], []), Restarted]
  {
    var c: seq<byte> := [CONFIG_REQUEST];
    assert [] + c == c;
    var o := Step(INITIAL, Received(c)).view;
    assert o == INITIAL.(phase := Requesting, consumed := c, unread := [], fragment := c);
    var w := o.(phase := Finishing, timerArmed := false);
    assert TextIn(Buffer(w), NO_TEXT) == [];
    assert SsidText(c) == NO_TEXT && PasswordText(c) == NO_TEXT;
  }

  /** An emission always covers the whole buffer: the times of the request, and behind them
      whatever earlier requests and captures have left there. */
  lemma EmissionHasLeftovers(v: View, r: Request)
    requires WF(v) && Whole(v.consumed) && Judge(v.consumed).request == r && r.Send? && |r.times| <= TIMES_MAX
    ensures TimesOf(Buffer(v), TIMES_MAX) == r.times + TimesOf(v.base, TIMES_MAX)[|r.times|..]
  {
    var slots, n := TimesOf(Buffer(v), TIMES_MAX), |r.times|;
    TimesInBuffer(v.base, v.consumed, r);
    forall i | 0 <= i < TIMES_MAX
      ensures slots[i] == (r.times + TimesOf(v.base, TIMES_MAX)[n..])[i]
    {
      TimesOfAt(Buffer(v), TIMES_MAX, i);
      if i >= n {
        TimesOfAt(v.base, TIMES_MAX, i);
        assert Buffer(v)[2 * n..][2 * i - 2 * n] == v.base[2 * n..][2 * i - 2 * n];
        assert Buffer(v)[2 * n..][2 * i + 1 - 2 * n] == v.base[2 * n..][2 * i + 1 - 2 * n];
      }
    }
  }

  lemma {:induction false} CapturedTimes(b: seq<byte>, times: seq<uint16>)
    requires StoredTimes(times) <= b
    ensures TimesOf(b, |times|) == times
  {
    if times != [] {
      var n := |times| - 1;
      var s, t := StoredTimes(times), StoredTimes(times[..n]);
      assert s == t + InMemory(times[n]);
      assert t <= s <= b;
      CapturedTimes(b, times[..n]);
      assert b[2 * n] == s[2 * n] && b[2 * n + 1] == s[2 * n + 1];
    }
  }

  lemma CaptureResponse(v: View, times: seq<uint16>)
    requires |v.base| == 2 * BUFFER_LENGTH && |times| <= TIMES_MAX && v.captured == |times|
    requires TypeOf(v.consumed) == RECEIVE_REQUEST && v.consumed != [] && StoredTimes(times) <= v.base
    ensures DecodeCapture(Response(v)) == Decoded.Capture(0, times)
  {
    assert Buffer(v) == v.base;
    CapturedTimes(v.base, times);
    CaptureDecodes(times);
  }

  lemma SignalledWF(v: View, times: seq<uint16>)
    requires WF(v) && v.interruptArmed && |times| <= TIMES_MAX
    ensures WF(Signalled(v, times))
  {
  }

  lemma OverwrittenAtStart(base: seq<byte>, data: seq<byte>)
    requires |data| <= |base|
    ensures data <= Overwritten(base, 0, data)
  {
    assert base[..0] + data + base[|data|..] == data + base[|data|..];
  }

  lemma CapturePrefix(base: seq<byte>, times: seq<uint16>)
    requires 2 * |times| <= |base|
    ensures StoredTimes(times) <= WithCapture(base, times)
  {
    OverwrittenAtStart(base, StoredTimes(times));
  }

  lemma ReceiveRun(v: View)
    requires WF(v) && v.phase.Processing? && TypeOf(v.consumed) == RECEIVE_REQUEST && v.receiveState == 1
    requires !v.sendLock && v.socket
    ensures Run(v).entries == [Responded(Response(v)), Restarted] && (!v.timerArmed ==> Rests(Run(v).view))
  {
  }

  lemma SignalledRun(v: View, times: seq<uint16>)
    requires WF(v) && v.phase.Processing? && v.interruptArmed && !v.sendLock && v.socket && |times| <= TIMES_MAX
    ensures WF(Signalled(v, times)) && (!v.timerArmed ==> Rests(Run(Signalled(v, times)).view))
    ensures var entries := Run(Signalled(v, times)).entries;
            && |entries| == 2 && entries[0].Responded? && entries[1] == Restarted
            && DecodeCapture(entries[0].bytes) == Decoded.Capture(0, times)
  {
    SignalledWF(v, times);
    CapturePrefix(v.base, times);
    CaptureResponse(Signalled(v, times), times);
    ReceiveRun(Signalled(v, times));
  }

  /** From the receiver to the client: what a client decodes from the response to a receive
      request is what was captured, up to the capacity of the buffer. */
  lemma CaptureReachesTheClient(v: View, edges: seq<uint16>)
    requires WF(v) && v.phase.Processing? && v.interruptArmed && !v.sendLock && v.socket
    ensures var entries := Step(v, Signal(edges)).entries;
            && |entries| == 2 && entries[0].Responded? && entries[1] == Restarted
            && DecodeCapture(entries[0].bytes) == Decoded.Capture(0, Fitting(edges))
    ensures !v.timerArmed ==> Rests(Step(v, Signal(edges)).view)
  {
    SignalledRun(v, Fitting(edges));
    SignalStep(v, edges);
  }

  lemma SignalStep(v: View, edges: seq<uint16>)
    requires WF(v) && v.interruptArmed && !v.phase.Halted?
    ensures WF(Signalled(v, Fitting(edges)))
    ensures Step(v, Signal(edges)) == Run(Signalled(v, Fitting(edges)))
  {
    SignalledWF(v, Fitting(edges));
  }
}
