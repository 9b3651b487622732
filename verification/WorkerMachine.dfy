/** The worker of server.c as a machine over events. */
module WorkerMachine {
  import opened Bytes
  import opened Streams
  import opened Requests
  import opened RequestStates
  import opened Responses

  /** The states of the worker, and one for a processor that has run into an exception. */
  datatype Phase = Ready | Requesting | Processing | Responding | Finishing | Halted

  /** What the SDK may call, in any order. A signal brings the durations between the edges that
      were seen. */
  datatype Event = Connect | Received(data: seq<byte>) | Sent | Timer | Disconnect | Signal(edges: seq<uint16>)

  /** What the worker does to the world. */
  datatype Entry =
    | Accepted(request: Request)
    | Emitted(frequency: uint32, slots: seq<uint16>)
    | Responded(bytes: seq<byte>)
    | Configured(ssid: seq<byte>, password: seq<byte>)
    | Restarted

  /** The worker between two events. `consumed` is what the parser has read since the last reset,
      `base` what the buffer held then; `fragment` is the data of the last receive event and
      `unread` what the input stream still offers of it. `socket` says whether it has a client. */
  datatype View = View(
    phase: Phase,
    consumed: seq<byte>,
    unread: seq<byte>,
    fragment: seq<byte>,
    base: seq<byte>,
    processState: nat,
    receiveState: nat,
    responseState: nat,
    captured: nat,
    socket: bool,
    sendLock: bool,
    timerArmed: bool,
    interruptArmed: bool)

  datatype Outcome = Outcome(view: View, entries: seq<Entry>)

  // ----- one event -----

  function TypeOf(c: seq<byte>): byte {
    if c == [] then 0 else c[0]
  }

  /** A whole request has been read and nothing else. */
  predicate Whole(c: seq<byte>) {
    Judge(c).Accept? && Judge(c).end == |c|
  }

  ghost predicate Fresh(v: View) {
    v.processState == v.receiveState == v.responseState == 0 && !v.interruptArmed
  }

  ghost predicate WF(v: View) {
    && |v.base| == 2 * BUFFER_LENGTH && v.captured <= TIMES_MAX
    && (v.interruptArmed ==> TypeOf(v.consumed) == RECEIVE_REQUEST && v.captured == 0)
    && match v.phase
       case Ready => v.consumed == [] && v.unread == v.fragment && Fresh(v)
       case Requesting => Undecided(v.consumed) && Fresh(v)
       case Processing =>
         && Whole(v.consumed) && v.processState == 1 && v.receiveState <= 1 && v.responseState == 0
         && (v.interruptArmed ==> v.receiveState == 1)
       case Responding => Whole(v.consumed) && v.responseState == 1 && v.sendLock
       case Finishing => true
       case Halted => true
  }

  function Buffer(v: View): seq<byte> {
    BufferImage(v.base, v.consumed)
  }

  /** ir_worker_reset */
  function Restart(v: View): Outcome {
    Outcome(v.(phase := Ready, consumed := [], unread := v.fragment, base := Buffer(v), processState := 0,
               receiveState := 0, responseState := 0, socket := false, interruptArmed := false),
            [Restarted])
  }

  /** A text that the parser has located in the buffer. */
  function TextIn(buffer: seq<byte>, t: Text): seq<byte> {
    if t.start + t.length <= |buffer| then buffer[t.start..t.start + t.length] else []
  }

  /** finish, and the reset after it. */
  function RunFinish(v: View): Outcome {
    if !LegalType(TypeOf(v.consumed)) then Outcome(v.(phase := Finishing, timerArmed := true), [])
    else
      var o := Restart(v);
      if TypeOf(v.consumed) == CONFIG_REQUEST
      then
        var e := Configured(TextIn(Buffer(v), SsidText(v.consumed)), TextIn(Buffer(v), PasswordText(v.consumed)));
        o.(entries := [e] + o.entries)
      else o
  }

  function Response(v: View): seq<byte>
    requires |v.base| == 2 * BUFFER_LENGTH && v.captured <= TIMES_MAX
  {
    if TypeOf(v.consumed) == SEND_REQUEST then EncodeHead(SEND_RESPONSE, 0)
    else if TypeOf(v.consumed) == RECEIVE_REQUEST then EncodeCapture(TimesOf(Buffer(v), v.captured))
    else EncodeHead(CONFIG_RESPONSE, 0)
  }

  /** write_response: it is sent unless a sent event has set the lock, which also holds it back.
      Without a client, socket_send goes through a null pointer. */
  function RunRespond(v: View): Outcome
    requires |v.base| == 2 * BUFFER_LENGTH && v.captured <= TIMES_MAX
  {
    var w := v.(phase := Responding, responseState := 1);
    if v.sendLock then Outcome(w, [])
    else if v.responseState == 0 && !v.socket then Outcome(w.(phase := Halted), []) else
    var o := RunFinish(w.(phase := Finishing));
    if v.responseState == 0 then o.(entries := [Responded(Response(v))] + o.entries) else o
  }

  /** There is a half period of this frequency, as Signal.HalfPeriodIff says. */
  predicate Sendable(frequency: uint32) {
    1 <= frequency <= 500000
  }

  /** process. Without a half period, the first mark of signal_send divides by zero. */
  function RunProcess(v: View): Outcome
    requires |v.base| == 2 * BUFFER_LENGTH && v.captured <= TIMES_MAX && Whole(v.consumed)
  {
    if v.processState == 0 then Outcome(v.(phase := Processing, processState := 1, timerArmed := true), [])
    else if TypeOf(v.consumed) == SEND_REQUEST then
      if !Sendable(LongWord(v.consumed, 3)) then Outcome(v.(phase := Halted), []) else
      var o := RunRespond(v);
      o.(entries := [Emitted(LongWord(v.consumed, 3), TimesOf(Buffer(v), TIMES_MAX))] + o.entries)
    else if TypeOf(v.consumed) == RECEIVE_REQUEST && v.receiveState == 0 then
      Outcome(v.(phase := Processing, receiveState := 1, captured := 0, interruptArmed := true), [])
    else RunRespond(v)
  }

  function RunRequest(v: View): Outcome
    requires |v.base| == 2 * BUFFER_LENGTH && v.captured <= TIMES_MAX
  {
    var t := v.consumed + v.unread;
    match Judge(t)
    case More => Outcome(v.(phase := Requesting, consumed := t, unread := []), [])
    case Stop(end) =>
      var n := Min(end, |t|);
      Outcome(v.(phase := Finishing, consumed := t[..n], unread := t[n..], timerArmed := true), [])
    case Accept(end, request) =>
      AcceptedIsEncoded(t);
      JudgePrefix(t[..end], t);
      var o := RunProcess(v.(phase := Processing, consumed := t[..end], unread := t[end..]));
      o.(entries := [Accepted(request)] + o.entries)
  }

  /** worker_run */
  function Run(v: View): Outcome
    requires WF(v)
  {
    match v.phase
    case Ready => RunRequest(v)
    case Requesting => RunRequest(v)
    case Processing => RunProcess(v)
    case Responding => RunRespond(v)
    case Finishing => RunFinish(v)
    case Halted => Outcome(v, [])
  }

  /** The times of a capture as signal_receive stores them. */
  function StoredTimes(times: seq<uint16>): (s: seq<byte>)
    ensures |s| == 2 * |times|
  {
    if times == [] then [] else StoredTimes(times[..|times| - 1]) + InMemory(times[|times| - 1])
  }

  function WithCapture(base: seq<byte>, times: seq<uint16>): seq<byte>
    requires 2 * |times| <= |base|
  {
    Overwritten(base, 0, StoredTimes(times))
  }

  /** As many times as the buffer has room for. */
  function Fitting(edges: seq<uint16>): (times: seq<uint16>)
    ensures |times| <= TIMES_MAX && times <= edges && (|edges| <= TIMES_MAX ==> times == edges)
  {
    edges[..Min(|edges|, TIMES_MAX)]
  }

  /** signal_receive has filled the buffer and set the station's cursor. */
  function Signalled(v: View, times: seq<uint16>): View
    requires 2 * |times| <= |v.base|
  {
    v.(interruptArmed := false, base := WithCapture(v.base, times), captured := |times|)
  }

  /** What the entry point of an event changes before the worker runs, if it does. A client is taken when
      the worker is ready and sent away otherwise. */
  function Entered(v: View, e: Event): View
    requires |v.base| == 2 * BUFFER_LENGTH
  {
    match e
    case Connect => v.(socket := v.socket || v.phase.Ready?)
    case Received(data) => v.(unread := data, fragment := data)
    case Sent => v.(sendLock := true)
    case Timer => v.(timerArmed := false)
    case Disconnect => v.(phase := Finishing, timerArmed := true)
    case Signal(edges) => if v.interruptArmed then Signalled(v, Fitting(edges)) else v
  }

  /** A timer or an interrupt that is not armed does not fire. */
  predicate Wakes(v: View, e: Event) {
    match e
    case Connect => false
    case Received(_) => true
    case Sent => true
    case Timer => v.timerArmed
    case Disconnect => false
    case Signal(_) => v.interruptArmed
  }

  lemma EnteredWF(v: View, e: Event)
    requires WF(v)
    ensures WF(Entered(v, e))
  {
  }

  /** The event entry points. Nothing happens any more after an exception. */
  function Step(v: View, e: Event): Outcome
    requires WF(v)
  {
    if v.phase.Halted? then Outcome(v, []) else
    EnteredWF(v, e);
    if Wakes(v, e) then Run(Entered(v, e)) else Outcome(Entered(v, e), [])
  }

  /** After power-on. */
  const INITIAL := View(Ready, [], [], [], seq(2 * BUFFER_LENGTH, _ => 0), 0, 0, 0, 0, false, false, false, false)
}
