/** The worker of server.c as the object it is, proved against the machine of WorkerMachine. */
module WorkerObject {
  import opened Bytes
  import opened Streams
  import opened Requests
  import opened RequestParsing
  import opened RequestStates
  import opened Responses
  import opened Captures
  import opened WorkerMachine
  import opened WorkerRuns
  import opened WorkerSignals
  import Infrared = Signal

  lemma StoredFrequency(f: seq<byte>, c: seq<byte>)
    requires |f| == FIELDS && FieldsHold(f, c) && |c| >= 7 && c[0] == SEND_REQUEST
    ensures StoredLong(f, FREQUENCY) == LongWord(c, 3)
  {
  }

  lemma AtHeadIsWaiting(c: seq<byte>, k: Control, length: byte, position: nat)
    requires c == [] && AtHead(c, k, position)
    ensures WaitingAt(c, k, length, position) && TextsHold(c, k)
  {
  }

  /** What the worker does after read_request has returned. */
  function Concluded(v: View, done: bool, stop: bool, request: Requests.Request): Outcome
    requires |v.base| == 2 * BUFFER_LENGTH && v.captured <= TIMES_MAX && (done ==> Whole(v.consumed))
  {
    if stop then Outcome(v.(phase := Finishing, timerArmed := true), [])
    else if done then
      var o := RunProcess(v.(phase := Processing));
      o.(entries := [Accepted(request)] + o.entries)
    else Outcome(v, [])
  }

  /** Once a request has been accepted or given up, a run does not lead back to reading it. */
  lemma ProcessLeavesReading(v: View)
    requires |v.base| == 2 * BUFFER_LENGTH && v.captured <= TIMES_MAX && Whole(v.consumed)
    ensures !RunProcess(v).view.phase.Requesting? && !RunRespond(v).view.phase.Requesting?
  {
  }

  lemma RunLeavesReading(v: View)
    requires WF(v) && !v.phase.Ready? && !v.phase.Requesting?
    ensures !Run(v).view.phase.Requesting?
  {
    if v.phase.Processing? || v.phase.Responding? {
      ProcessLeavesReading(v);
    }
  }

  lemma GrantOutcome(v: View, before: seq<Entry>, request: Requests.Request)
    requires |v.base| == 2 * BUFFER_LENGTH && v.captured <= TIMES_MAX && Whole(v.consumed)
    ensures var o := RunProcess(v.(phase := Processing));
            && !o.view.phase.Requesting? && Concluded(v, true, false, request).view == o.view
            && before + Concluded(v, true, false, request).entries == before + [Accepted(request)] + o.entries
  {
    ProcessLeavesReading(v.(phase := Processing));
    InTwo(before, [Accepted(request)], RunProcess(v.(phase := Processing)).entries);
  }

  lemma RequestOutcome(v: View, c: seq<byte>, u: seq<byte>, done: bool, stop: bool)
    requires |v.base| == 2 * BUFFER_LENGTH && v.captured <= TIMES_MAX
    requires c + u == v.consumed + v.unread && Judged(Judge(c + u), c, u, done, stop)
    ensures !(done && stop) && (done ==> Whole(c) && Judge(c + u).Accept?)
    ensures var request := if done then Judge(c + u).request else Receive;
            RunRequest(v) == Concluded(v.(phase := Requesting, consumed := c, unread := u), done, stop, request)
  {
    var t := c + u;
    assert t[..|c|] == c && t[|c|..] == u;
    if done {
      AcceptedIsEncoded(t);
      JudgePrefix(c, t);
    }
  }

  /** With an open lock, and a client if there is a response to send: what was written before finishing
      comes before what finishing writes. */
  lemma RespondOutcome(v: View, before: seq<Entry>, log: seq<Entry>)
    requires |v.base| == 2 * BUFFER_LENGTH && v.captured <= TIMES_MAX
    requires !v.sendLock && (v.responseState != 0 || v.socket)
    requires log == if v.responseState != 0 then before else before + [Responded(Response(v))]
    ensures var w := v.(phase := Responding, responseState := 1);
            var o := RunFinish(w.(phase := Finishing));
            RunRespond(v).view == o.view && before + RunRespond(v).entries == log + o.entries
  {
    var o := RunFinish(v.(phase := Finishing, responseState := 1));
    assert before + ([Responded(Response(v))] + o.entries) == before + [Responded(Response(v))] + o.entries;
  }

  /** And an emission before the response to it. */
  lemma ProcessOutcome(v: View, before: seq<Entry>, log: seq<Entry>)
    requires |v.base| == 2 * BUFFER_LENGTH && v.captured <= TIMES_MAX && Whole(v.consumed)
    requires v.processState != 0 && (TypeOf(v.consumed) == RECEIVE_REQUEST ==> v.receiveState != 0) && Servable(v)
    requires log == if TypeOf(v.consumed) == SEND_REQUEST
                    then before + [Emitted(LongWord(v.consumed, 3), TimesOf(Buffer(v), TIMES_MAX))] else before
    ensures RunProcess(v).view == RunRespond(v).view
    ensures before + RunProcess(v).entries == log + RunRespond(v).entries
  {
  }

  lemma InTwo(before: seq<Entry>, a: seq<Entry>, b: seq<Entry>)
    ensures before + a + b == before + (a + b)
  {
  }

  lemma ReceiveLeavesBuffer(base: seq<byte>, c: seq<byte>)
    requires TypeOf(c) == RECEIVE_REQUEST
    ensures BufferImage(base, c) == base
  {
  }

  /** ir_worker_t. What it does to the world is written to `log`. */
  class Worker {
    const reader: RequestReader
    const writer: CaptureWriter

    var state: Phase
    var socket: bool
    var sendLock: bool
    var timerArmed: bool
    var interruptArmed: bool
    var processState: nat
    var receiveState: nat
    var responseState: nat
    var stationSize: uint16

    ghost var log: seq<Entry>

    ghost predicate Shape()
      reads this`responseState, this`stationSize
      reads reader, reader.input, reader.fields, reader.memory, reader.name, writer, writer.out
    {
      && reader.Valid() && TextsHold(reader.consumed, reader.Position())
      && writer.out.Valid() && writer.out.swapEndian && writer.out.size == SEND_BUFFER_LENGTH
      && (responseState == 0 ==> writer.Ready())
      && reader.input != writer.out
      && writer.out.memory != reader.fields && writer.out.memory != reader.memory && writer.out.memory != reader.name
      && writer.out.memory != reader.input.memory
      && stationSize <= TIMES_MAX
    }

    /** The data of the last receive event. */
    ghost function Fragment(): seq<byte>
      requires reader.Shape()
      reads reader, reader.input, reader.input.memory
    {
      reader.input.memory[..reader.input.size]
    }

    ghost function Unread(): seq<byte>
      requires reader.Shape()
      reads reader, reader.input, reader.input.memory
    {
      if reader.input.cursor == 0 then Fragment() else reader.input.Unread()
    }

    lemma UnreadIsUnread()
      requires reader.Shape()
      ensures Unread() == reader.input.Unread()
    {
    }

    ghost function Now(): View
      requires reader.Shape()
      reads this, reader, reader.input, reader.input.memory
    {
      View(state, reader.consumed, Unread(), Fragment(), reader.bufferBase, processState, receiveState, responseState,
           stationSize, socket, sendLock, timerArmed, interruptArmed)
    }

    ghost predicate Valid()
      reads this, reader, reader.input, reader.input.memory, reader.fields, reader.memory, reader.name
      reads writer, writer.out
    {
      && Shape()
      && WF(Now())
      && (state.Ready? || state.Requesting? ==> reader.Waiting())
    }

    /** Since the call began, the worker has come to the view and the log of `o`. */
    twostate predicate Did(o: Outcome)
      requires reader.Shape()
      reads this, reader, reader.input, reader.input.memory
    {
      Now() == o.view && log == old(log) + o.entries
    }

    constructor ()
      ensures Valid() && Now() == INITIAL && log == []
      ensures fresh(reader) && fresh(reader.input) && fresh(reader.fields) && fresh(reader.memory) && fresh(reader.name)
      ensures fresh(writer) && fresh(writer.out) && fresh(writer.out.memory)
    {
      reader := new RequestReader();
      writer := new CaptureWriter();
      state, socket, sendLock, timerArmed, interruptArmed := Ready, false, false, false, false;
      processState, receiveState, responseState, stationSize := 0, 0, 0, 0;
      log := [];
      new;
      AtHeadIsWaiting(reader.consumed, reader.Position(), reader.fields[TEXT_LENGTH], reader.input.position);
      assert Fragment() == [];
      assert Now() == INITIAL;
    }

    /** The assignments to the state in worker_run. */
    method Enter(phase: Phase)
      requires Shape()
      modifies this`state
      ensures Shape() && Now() == old(Now()).(phase := phase)
    {
      state := phase;
    }

    /** worker_stop, with worker_run_soon inlined. */
    method Stop()
      modifies this`state, this`timerArmed
      ensures state == Finishing && timerArmed
    {
      state := Finishing;
      timerArmed := true;
    }

    method ResetReader()
      requires Shape()
      modifies reader, reader.input`cursor, reader.input`position, reader.fields
      ensures Shape() && reader.Waiting()
      ensures Now() == var v := old(Now()); v.(consumed := [], unread := v.fragment, base := Buffer(v))
    {
      ghost var v := Now();
      reader.Reset();
      AtHeadIsWaiting(reader.consumed, reader.Position(), reader.fields[TEXT_LENGTH], reader.input.position);
      assert reader.bufferBase == Buffer(v);
    }

    method ResetResponse()
      requires Shape() && reader.Waiting()
      modifies this`processState, this`receiveState, this`responseState
      modifies writer, writer.out`cursor, writer.out`position
      ensures Shape() && reader.Waiting()
      ensures Now() == old(Now()).(processState := 0, receiveState := 0, responseState := 0)
    {
      writer.Reset();
      processState, receiveState, responseState := 0, 0, 0;
    }

    /** The socket is closed and forgotten, and no interrupt comes any more. */
    method Close()
      requires Shape()
      modifies this`state, this`socket, this`interruptArmed, this`log
      ensures Shape() && log == old(log) + [Restarted]
      ensures Now() == old(Now()).(phase := Ready, socket := false, interruptArmed := false)
    {
      socket := false;
      state := Ready;
      interruptArmed := false;
      log := log + [Restarted];
    }

    /** ir_worker_reset */
    method Reset()
      requires Shape()
      modifies this, reader, reader.input`cursor, reader.input`position, reader.fields
      modifies writer, writer.out`cursor, writer.out`position
      ensures Shape() && reader.Waiting() && Did(Restart(old(Now())))
    {
      Close();
      ResetReader();
      ResetResponse();
    }

    /** finish, and the reset behind it in worker_run. */
    method FinishRequest()
      requires Shape()
      modifies this, reader, reader.input`cursor, reader.input`position, reader.fields
      modifies writer, writer.out`cursor, writer.out`position
      ensures Shape() && Did(RunFinish(old(Now())))
      ensures state.Ready? ==> reader.Waiting()
    {
      if LegalType(reader.fields[TYPE]) {
        FinishLegal();
      } else {
        Stop();
      }
    }

    method FinishLegal()
      requires Shape() && LegalType(TypeOf(reader.consumed))
      modifies this, reader, reader.input`cursor, reader.input`position, reader.fields
      modifies writer, writer.out`cursor, writer.out`position
      ensures Shape() && Did(RunFinish(old(Now()))) && reader.Waiting()
    {
      if reader.fields[TYPE] == CONFIG_REQUEST {
        ApplyConfig();
      }
      Reset();
    }

    /** The callback of finish_config. */
    method ApplyConfig()
      requires Shape()
      modifies this`log
      ensures Shape() && Now() == old(Now())
      ensures log == old(log) + [Configured(TextIn(Buffer(Now()), SsidText(reader.consumed)),
                                            TextIn(Buffer(Now()), PasswordText(reader.consumed)))]
    {
      log := log + [Configured(TextIn(reader.memory[..], reader.ssid), TextIn(reader.memory[..], reader.password))];
    }

    /** Without a client, what is to be sent meets a null pointer. */
    predicate Stuck()
      reads this`sendLock, this`socket
    {
      !sendLock && !socket
    }

    /** send_buffer */
    method SendBuffer()
      requires writer.out.Valid()
      modifies this`state, this`log, this`sendLock, writer.out`cursor, writer.out`position
      ensures writer.out.Valid() && sendLock == old(sendLock)
      ensures state == if Stuck() then Halted else old(state)
      ensures log == if sendLock || !socket then old(log)
                     else old(log) + [Responded(old(writer.out.memory[..writer.out.cursor]))]
    {
      if sendLock {
        return;
      }
      if !socket {
        state := Halted;
        return;
      }
      log := log + [Responded(writer.out.memory[..writer.out.cursor])];
      sendLock := false;
      writer.out.Reset();
    }

    /** Case 0 of write_response. */
    method WriteResponse()
      requires Shape() && responseState == 0 && Whole(reader.consumed)
      modifies this`state, this`log, this`sendLock
      modifies writer, writer.out`cursor, writer.out`position, writer.out`length, writer.out.memory
      ensures reader.Shape() && Now() == old(Now()).(phase := if Stuck() then Halted else old(state))
      ensures writer.out.Valid()
      ensures log == if sendLock || !socket then old(log) else old(log) + [Responded(Response(old(Now())))]
    {
      PutResponse();
      SendBuffer();
    }

    /** The bytes of the response, by the type of the request. */
    method PutResponse()
      requires Shape() && responseState == 0 && Whole(reader.consumed)
      modifies writer, writer.out`cursor, writer.out`position, writer.out`length, writer.out.memory
      ensures writer.out.Valid() && writer.out.memory[..writer.out.cursor] == Response(old(Now()))
    {
      TypeOfWhole(reader.consumed);
      if reader.fields[TYPE] == SEND_REQUEST {
        var ok := WriteHead(writer.out, SEND_RESPONSE, 0);
      } else if reader.fields[TYPE] == RECEIVE_REQUEST {
        var ok := writer.WriteCapture(reader.memory, stationSize);
      } else {
        var ok := WriteHead(writer.out, CONFIG_RESPONSE, 0);
      }
    }

    /** write_response but for its result, which is that the lock is open. */
    method WriteOnce()
      requires Shape() && Whole(reader.consumed) && responseState <= 1
      modifies this`state, this`log, this`sendLock, this`responseState
      modifies writer, writer.out`cursor, writer.out`position, writer.out`length, writer.out.memory
      ensures var p := if old(responseState) == 0 && Stuck() then Halted else old(state);
              Shape() && Now() == old(Now()).(phase := p, responseState := 1)
      ensures log == if old(responseState) != 0 || sendLock || !socket then old(log)
                     else old(log) + [Responded(Response(old(Now())))]
    {
      if responseState == 0 {
        WriteResponse();
        responseState := responseState + 1;
      }
    }

    /** write_response, and what follows it in worker_run. */
    method Respond()
      requires Shape() && Whole(reader.consumed) && responseState <= 1
      modifies this, reader, reader.input`cursor, reader.input`position, reader.fields
      modifies writer, writer.out`cursor, writer.out`position, writer.out`length, writer.out.memory
      ensures Shape() && Did(RunRespond(old(Now())))
      ensures state.Ready? ==> reader.Waiting()
    {
      ghost var v := Now();
      Enter(Responding);
      WriteOnce();
      if !sendLock && !state.Halted? {
        RespondOutcome(v, old(log), log);
        GoOn();
      }
    }

    /** The step from responding to finishing. */
    method GoOn()
      requires Shape()
      modifies this, reader, reader.input`cursor, reader.input`position, reader.fields
      modifies writer, writer.out`cursor, writer.out`position
      ensures Shape() && Did(RunFinish(old(Now()).(phase := Finishing)))
      ensures state.Ready? ==> reader.Waiting()
    {
      Enter(Finishing);
      FinishRequest();
    }

    /** process_send: the station plays the whole buffer, or halts the processor for want of a half period. */
    method SendSignal() returns (ok: bool, station: Infrared.Station)
      requires Shape() && Whole(reader.consumed) && TypeOf(reader.consumed) == SEND_REQUEST
      modifies this`state, this`log
      ensures Shape() && ok == Servable(Now()) && fresh(station)
      ensures !ok ==> Now() == old(Now()).(phase := Halted) && log == old(log)
      ensures ok ==> var f, slots := LongWord(reader.consumed, 3), TimesOf(Buffer(Now()), TIMES_MAX);
                     && Now() == old(Now()) && log == old(log) + [Emitted(f, slots)] && Infrared.HalfPeriod(f) > 0
                     && station.actions
                        == [Infrared.Pin(0)] + Infrared.Emission(Infrared.HalfPeriod(f), slots, TIMES_MAX)
    {
      StoredFrequency(reader.fields[..], reader.consumed);
      ok, station := Play(reader.memory, StoredLong(reader.fields[..], FREQUENCY));
      if ok {
        log := log + [Emitted(StoredLong(reader.fields[..], FREQUENCY), TimesOf(reader.memory[..], TIMES_MAX))];
      } else {
        state := Halted;
      }
    }

    /** Case 0 of process: go on soon. */
    method Defer()
      requires Shape() && processState == 0
      modifies this`state, this`timerArmed, this`processState
      ensures Shape() && Now() == old(Now()).(phase := Processing, processState := 1, timerArmed := true)
    {
      state := Processing;
      timerArmed := true;
      processState := processState + 1;
    }

    /** Case 0 of process_receive. The station gets the buffer with its cursor, which no payload has moved. */
    method StartReceiver()
      requires Shape() && receiveState == 0 && Whole(reader.consumed) && TypeOf(reader.consumed) == RECEIVE_REQUEST
      modifies this`state, this`stationSize, this`interruptArmed, this`receiveState
      ensures Shape()
      ensures Now() == old(Now()).(phase := Processing, receiveState := 1, captured := 0, interruptArmed := true)
    {
      state := Processing;
      stationSize := reader.bufferPosition / TIME_LENGTH;
      interruptArmed := true;
      receiveState := receiveState + 1;
    }

    /** process, and what follows it in worker_run. */
    method Process()
      requires Shape() && Whole(reader.consumed)
      requires processState <= 1 && receiveState <= 1 && responseState == 0
      modifies this, reader, reader.input`cursor, reader.input`position, reader.fields
      modifies writer, writer.out`cursor, writer.out`position, writer.out`length, writer.out.memory
      ensures Shape() && Did(RunProcess(old(Now())))
      ensures state.Ready? ==> reader.Waiting()
    {
      TypeOfWhole(reader.consumed);
      if processState == 0 {
        Defer();
      } else if reader.fields[TYPE] == RECEIVE_REQUEST && receiveState == 0 {
        StartReceiver();
      } else {
        ProcessAndRespond();
      }
    }

    method ProcessAndRespond()
      requires Shape() && Whole(reader.consumed) && processState != 0 && responseState == 0
      requires TypeOf(reader.consumed) == RECEIVE_REQUEST ==> receiveState != 0
      modifies this, reader, reader.input`cursor, reader.input`position, reader.fields
      modifies writer, writer.out`cursor, writer.out`position, writer.out`length, writer.out.memory
      ensures Shape() && Did(RunProcess(old(Now())))
      ensures state.Ready? ==> reader.Waiting()
    {
      ghost var v := Now();
      if reader.fields[TYPE] == SEND_REQUEST {
        var ok, station := SendSignal();
        if !ok { return; }
      }
      ProcessOutcome(v, old(log), log);
      Respond();
    }

    /** read_request, and what follows it in worker_run. */
    method Request()
      requires Shape() && reader.Waiting()
      requires processState == 0 && receiveState == 0 && responseState == 0
      modifies this, reader, reader.input`cursor, reader.input`position, reader.input`length
      modifies reader.fields, reader.memory, reader.name
      modifies writer, writer.out`cursor, writer.out`position, writer.out`length, writer.out.memory
      ensures Shape() && Did(RunRequest(old(Now())))
      ensures state.Ready? || state.Requesting? ==> reader.Waiting()
    {
      var done, stop, request := ReadIn();
      Conclude(done, stop, request);
    }

    /** What follows read_request. */
    method Conclude(done: bool, stop: bool, ghost request: Requests.Request)
      requires Shape() && state == Requesting && !(done && stop)
      requires if done then Whole(reader.consumed) else !stop ==> reader.Waiting()
      requires processState == 0 && receiveState == 0 && responseState == 0
      modifies this, reader, reader.input`cursor, reader.input`position, reader.fields
      modifies writer, writer.out`cursor, writer.out`position, writer.out`length, writer.out.memory
      ensures Shape() && Did(Concluded(old(Now()), done, stop, request))
      ensures state.Ready? || state.Requesting? ==> reader.Waiting()
    {
      if stop {
        Stop();
      } else if done {
        Grant(request);
      }
    }

    /** A request has been accepted. */
    method Grant(ghost request: Requests.Request)
      requires Shape() && Whole(reader.consumed)
      requires processState == 0 && receiveState == 0 && responseState == 0
      modifies this, reader, reader.input`cursor, reader.input`position, reader.fields
      modifies writer, writer.out`cursor, writer.out`position, writer.out`length, writer.out.memory
      ensures Shape() && Did(Concluded(old(Now()), true, false, request))
      ensures state.Ready? ==> reader.Waiting()
      ensures !state.Requesting?
    {
      GrantOutcome(Now(), old(log), request);
      Enter(Processing);
      log := log + [Accepted(request)];
      Process();
    }

    /** The call of read_request, and what its result means for the worker. */
    method ReadIn() returns (done: bool, stop: bool, ghost request: Requests.Request)
      requires Shape() && reader.Waiting()
      modifies this`state, reader, reader.input`cursor, reader.input`position, reader.input`length
      modifies reader.fields, reader.memory, reader.name
      ensures Shape() && Now() == old(Now()).(phase := Requesting, consumed := reader.consumed, unread := Unread())
      ensures !(done && stop) && (done ==> Whole(reader.consumed)) && (!done && !stop ==> reader.Waiting())
      ensures RunRequest(old(Now())) == Concluded(Now(), done, stop, request)
    {
      ghost var v := Now();
      state := Requesting;
      done, stop := ReadOn();
      RequestOutcome(v, reader.consumed, Unread(), done, stop);
      request := if done then Judge(reader.consumed + Unread()).request else Receive;
    }

    method ReadOn() returns (done: bool, stop: bool)
      requires Shape() && reader.Waiting()
      modifies reader, reader.input`cursor, reader.input`position, reader.input`length
      modifies reader.fields, reader.memory, reader.name
      ensures Shape() && reader.consumed + Unread() == old(reader.consumed + Unread())
      ensures Judged(Judge(reader.consumed + Unread()), reader.consumed, Unread(), done, stop)
      ensures Now() == old(Now()).(consumed := reader.consumed, unread := Unread())
      ensures !done && !stop ==> reader.Waiting()
    {
      UnreadIsUnread();
      done, stop := reader.ReadRequest();
      UnreadIsUnread();
    }

    /** worker_run */
    method WorkerRun()
      requires Valid()
      modifies this, reader, reader.input`cursor, reader.input`position, reader.input`length
      modifies reader.fields, reader.memory, reader.name
      modifies writer, writer.out`cursor, writer.out`position, writer.out`length, writer.out.memory
      ensures Valid() && Did(Run(old(Now())))
    {
      RunKeepsWF(Now());
      if !state.Ready? && !state.Requesting? {
        RunLeavesReading(Now());
      }
      match state {
        case Ready => Request();
        case Requesting => Request();
        case Processing => Process();
        case Responding => Respond();
        case Finishing => FinishRequest();
        case Halted =>
      }
    }

    /** connect: a client is taken when the worker is ready, and sent away otherwise. */
    method ConnectEvent()
      requires Valid()
      modifies this`socket
      ensures Valid() && Did(Step(old(Now()), Connect))
    {
      if state.Ready? {
        socket := true;
      }
    }

    /** receive: the data stays the caller's, in memory of its own. */
    method ReceiveEvent(data: array<byte>, length: uint16)
      requires Valid() && length <= data.Length
      requires data != reader.fields && data != reader.memory && data != reader.name && data != writer.out.memory
      modifies this, reader, reader.input`cursor, reader.input`position, reader.input`length
      modifies reader.input`memory, reader.input`size
      modifies reader.fields, reader.memory, reader.name
      modifies writer, writer.out`cursor, writer.out`position, writer.out`length, writer.out.memory
      ensures Valid() && Did(Step(old(Now()), Received(data[..length])))
    {
      ghost var v := Now();
      if !state.Halted? {
        reader.input.Data(data, length);
        assert Now() == Entered(v, Received(data[..length]));
        WorkerRun();
      }
    }

    /** sent */
    method SentEvent()
      requires Valid()
      modifies this, reader, reader.input`cursor, reader.input`position, reader.input`length
      modifies reader.fields, reader.memory, reader.name
      modifies writer, writer.out`cursor, writer.out`position, writer.out`length, writer.out.memory
      ensures Valid() && Did(Step(old(Now()), Sent))
    {
      ghost var v := Now();
      if !state.Halted? {
        sendLock := true;
        assert Now() == Entered(v, Sent);
        WorkerRun();
      }
    }

    /** The timer of worker_run_soon. */
    method TimerEvent()
      requires Valid()
      modifies this, reader, reader.input`cursor, reader.input`position, reader.input`length
      modifies reader.fields, reader.memory, reader.name
      modifies writer, writer.out`cursor, writer.out`position, writer.out`length, writer.out.memory
      ensures Valid() && Did(Step(old(Now()), Timer))
    {
      ghost var v := Now();
      if timerArmed && !state.Halted? {
        timerArmed := false;
        assert Now() == Entered(v, Timer);
        WorkerRun();
      }
    }

    /** disconnect */
    method DisconnectEvent()
      requires Valid()
      modifies this`state, this`timerArmed
      ensures Valid() && Did(Step(old(Now()), Disconnect))
    {
      if !state.Halted? {
        Stop();
      }
    }

    /** No interrupt comes until the receiver is armed again. */
    method Disarm()
      requires Shape()
      modifies this`interruptArmed
      ensures Shape() && Now() == old(Now()).(interruptArmed := false)
    {
      interruptArmed := false;
    }

    /** gpio_callback: the receiver has stored its times, then signal_received. */
    method SignalEvent(edges: seq<uint16>)
      requires Valid()
      modifies this, reader, reader.input`cursor, reader.input`position, reader.input`length
      modifies reader.fields, reader.memory, reader.name
      modifies writer, writer.out`cursor, writer.out`position, writer.out`length, writer.out.memory
      ensures Valid() && Did(Step(old(Now()), Signal(edges)))
    {
      ghost var v := Now();
      if interruptArmed && !state.Halted? {
        StoreCapture(Fitting(edges));
        EnteredWF(v, Signal(edges));
        assert Now() == Entered(v, Signal(edges));
        WorkerRun();
      }
    }

    method StoreCapture(times: seq<uint16>)
      requires Shape() && |times| <= TIMES_MAX && TypeOf(reader.consumed) == RECEIVE_REQUEST && stationSize == 0
      modifies this`interruptArmed, this`stationSize, reader`bufferBase, reader.memory
      ensures Shape() && Now() == Signalled(old(Now()), times)
    {
      Disarm();
      StoreTimes(times);
    }

    /** The times go behind the cursor of the station. */
    method StoreTimes(times: seq<uint16>)
      requires Shape() && |times| <= TIMES_MAX && TypeOf(reader.consumed) == RECEIVE_REQUEST && stationSize == 0
      modifies this`stationSize, reader`bufferBase, reader.memory
      ensures Shape()
      ensures Now() == old(Now()).(base := WithCapture(old(reader.bufferBase), times), captured := |times|)
    {
      CopyBytes(reader.memory, TIME_LENGTH * stationSize, StoredTimes(times));
      stationSize := stationSize + |times|;
      reader.bufferBase := reader.memory[..];
      ReceiveLeavesBuffer(old(reader.bufferBase), reader.consumed);
      ReceiveLeavesBuffer(reader.bufferBase, reader.consumed);
    }

    /** The same for a station that takes its samples from the pin, over any clock: what it sees is an event
        like any other, with the times that it has captured. The interrupt calls it only when it is armed. */
    method SampleEvent(levels: nat -> bool, clock: nat -> nat, ghost bound: nat)
      returns (ghost n: nat, ghost times: seq<uint16>)
      requires Valid() && interruptArmed && !state.Halted?
      requires Regular(clock, TWO_TO_THE_32 - SIGNAL_TIMEOUT)
      requires bound > 0 && clock(bound) - clock(0) >= SIGNAL_TIMEOUT
      modifies this, reader, reader.input`cursor, reader.input`position, reader.input`length
      modifies reader.fields, reader.memory, reader.name
      modifies writer, writer.out`cursor, writer.out`position, writer.out`length, writer.out.memory
      ensures Valid() && Did(Step(old(Now()), Signal(times))) && CapturedFrom(levels, clock, n, times)
    {
      ghost var v := Now();
      n, times := CaptureSignal(levels, clock, bound);
      EnteredWF(v, Signal(times));
      assert Now() == Entered(v, Signal(times));
      WorkerRun();
    }

    method CaptureSignal(levels: nat -> bool, clock: nat -> nat, ghost bound: nat)
      returns (ghost n: nat, ghost times: seq<uint16>)
      requires Shape() && TypeOf(reader.consumed) == RECEIVE_REQUEST && stationSize == 0
      requires Regular(clock, TWO_TO_THE_32 - SIGNAL_TIMEOUT)
      requires bound > 0 && clock(bound) - clock(0) >= SIGNAL_TIMEOUT
      modifies this`interruptArmed, this`stationSize, reader`bufferBase, reader.memory
      ensures CapturedFrom(levels, clock, n, times)
      ensures Shape() && Now() == Signalled(old(Now()), times)
    {
      Disarm();
      n, times := ListenIn(levels, clock, bound);
    }

    /** signal_receive on the buffer of the worker. */
    method ListenIn(levels: nat -> bool, clock: nat -> nat, ghost bound: nat)
      returns (ghost n: nat, ghost times: seq<uint16>)
      requires Shape() && TypeOf(reader.consumed) == RECEIVE_REQUEST && stationSize == 0
      requires Regular(clock, TWO_TO_THE_32 - SIGNAL_TIMEOUT)
      requires bound > 0 && clock(bound) - clock(0) >= SIGNAL_TIMEOUT
      modifies this`stationSize, reader`bufferBase, reader.memory
      ensures CapturedFrom(levels, clock, n, times) && Shape()
      ensures Now() == old(Now()).(base := WithCapture(old(reader.bufferBase), times), captured := |times|)
    {
      stationSize, n, times := Listen(reader.memory, TIME_LENGTH * stationSize, levels, clock, bound);
      reader.bufferBase := reader.memory[..];
      ReceiveLeavesBuffer(old(reader.bufferBase), reader.consumed);
      ReceiveLeavesBuffer(reader.bufferBase, reader.consumed);
    }

    /** One event, through its entry point. */
    method Handle(e: Event)
      requires Valid() && Delivered(e)
      modifies this, reader, reader.input, reader.fields, reader.memory, reader.name
      modifies writer, writer.out`cursor, writer.out`position, writer.out`length, writer.out.memory
      ensures Valid() && Did(Step(old(Now()), e))
    {
      match e {
        case Connect => ConnectEvent();
        case Received(data) =>
          var buffer := new byte[|data|](i requires 0 <= i < |data| => data[i]);
          assert buffer[..|data|] == data;
          ReceiveEvent(buffer, |data|);
        case Sent => SentEvent();
        case Timer => TimerEvent();
        case Disconnect => DisconnectEvent();
        case Signal(edges) => SignalEvent(edges);
      }
    }

    /** Any events in any order: the worker does what the machine does over the whole run. */
    method HandleAll(events: seq<Event>)
      requires Valid() && forall e :: e in events ==> Delivered(e)
      modifies this, reader, reader.input, reader.fields, reader.memory, reader.name
      modifies writer, writer.out`cursor, writer.out`position, writer.out`length, writer.out.memory
      ensures Valid() && Did(Trace(old(Now()), events))
      decreases |events|
    {
      if events != [] {
        TraceStep(Now(), events);
        ghost var o, p := Step(Now(), events[0]), Trace(Step(Now(), events[0]).view, events[1..]);
        Handle(events[0]);
        HandleAll(events[1..]);
        InTwo(old(log), o.entries, p.entries);
      }
    }
  }

  /** The SDK counts received bytes in 16 bits. */
  predicate Delivered(e: Event) {
    e.Received? ==> |e.data| < TWO_TO_THE_16
  }

  /** From power-on, and so by RunsFollowTheRules within the rules. */
  method PowerOn(events: seq<Event>) returns (worker: Worker)
    requires forall e :: e in events ==> Delivered(e)
    ensures worker.Valid() && worker.log == Trace(INITIAL, events).entries
    ensures !Audit(Idle, worker.log).Broken?
  {
    worker := new Worker();
    worker.HandleAll(events);
    RunsFollowTheRules(events);
  }
}
