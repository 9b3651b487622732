/** The states of the resumable request parser of server.c, as functions of the bytes it has been given:
    what its buffers hold, where its switches stand, and how its counters settle a verdict. */
module RequestStates {
  import opened Bytes
  import opened Streams
  import opened Requests

  // ----- where the bytes of a request end up in memory -----

  /** Which byte of the request `c` is stored at offset i of the worker's buffer; -1 if none is.
      Times come in network order and are stored byte-swapped. */
  function BufferSource(c: seq<byte>, i: nat): (k: int)
    ensures k < |c|
  {
    if c == [] then -1
    else if c[0] == SEND_REQUEST then
      var k := if i % 2 == 0 then 10 + i else 8 + i;
      if k < |c| then k else -1
    else if c[0] == CONFIG_REQUEST && |c| > 3 && |c| > SsidAt(c) then
      var s := SsidAt(c);
      if i < c[s] then (if s + 1 + i < |c| then s + 1 + i else -1)
      else if |c| > PasswordAt(c) then
        var p := PasswordAt(c);
        var k := p + 1 + i - c[s];
        if i - c[s] < c[p] && k < |c| then k else -1
      else -1
    else -1
  }

  /** The same for the server's name buffer. */
  function NameSource(c: seq<byte>, i: nat): (k: int)
    ensures k < |c|
  {
    if |c| > 3 && c[0] == CONFIG_REQUEST && c[3] <= NAME_LENGTH_MAX && i < c[3] && 4 + i < |c| then 4 + i else -1
  }

  function From(c: seq<byte>, k: int, otherwise: byte): byte
    requires k < |c|
  {
    if k >= 0 then c[k] else otherwise
  }

  /** The buffer after the bytes `c` of a request have been parsed, if it held `base` before. */
  function BufferImage(base: seq<byte>, c: seq<byte>): (r: seq<byte>)
    ensures |r| == |base|
    ensures forall i :: 0 <= i < |base| ==> r[i] == From(c, BufferSource(c, i), base[i])
  {
    seq(|base|, i requires 0 <= i < |base| => From(c, BufferSource(c, i), base[i]))
  }

  function NameImage(base: seq<byte>, c: seq<byte>): (r: seq<byte>)
    ensures |r| == |base|
    ensures forall i :: 0 <= i < |base| ==> r[i] == From(c, NameSource(c, i), base[i])
  {
    seq(|base|, i requires 0 <= i < |base| => From(c, NameSource(c, i), base[i]))
  }

  lemma ImageOfHead(base: seq<byte>, c: seq<byte>, d: seq<byte>)
    requires c <= d
    requires |d| <= 3 || (d[0] == SEND_REQUEST && |d| <= 9) || (d[0] != SEND_REQUEST && |d| <= 4)
    ensures BufferImage(base, d) == BufferImage(base, c) == base
    ensures NameImage(base, d) == NameImage(base, c) == base
  {
  }

  lemma ImageOfNothing(base: seq<byte>)
    ensures BufferImage(base, []) == NameImage(base, []) == base
  {
  }

  lemma ImageOfTimes(base: seq<byte>, c: seq<byte>, chunk: seq<byte>, r: nat, position: nat)
    requires c != [] && c[0] == SEND_REQUEST && |c| == 9 + 2 * r + position
    requires position + |chunk| <= 2 && 2 * r + 2 <= |base|
    ensures BufferImage(base, c + chunk) == Placed(BufferImage(base, c), 2 * r, 2, true, position, chunk)
  {
    var d, p := c + chunk, Placed(BufferImage(base, c), 2 * r, 2, true, position, chunk);
    forall i | 0 <= i < |base|
      ensures BufferImage(base, d)[i] == p[i]
    {
      var k := if i % 2 == 0 then 10 + i else 8 + i;
      if 2 * r <= i < 2 * r + 2 {
        assert k == 9 + 2 * r + Slot(2, true, i - 2 * r);
      } else {
        assert k < |c| <==> k < |d|;
      }
    }
  }

  lemma NameOfSend(base: seq<byte>, c: seq<byte>)
    requires c != [] && c[0] != CONFIG_REQUEST
    ensures NameImage(base, c) == base
  {
  }

  lemma ImageOfName(base: seq<byte>, c: seq<byte>, chunk: seq<byte>)
    requires |c| >= 4 && c[0] == CONFIG_REQUEST && c[3] <= NAME_LENGTH_MAX <= |base|
    requires |c| + |chunk| <= SsidAt(c)
    ensures NameImage(base, c + chunk) == Placed(NameImage(base, c), 0, c[3], false, |c| - 4, chunk)
  {
  }

  lemma BufferOfName(base: seq<byte>, c: seq<byte>)
    requires |c| >= 4 && c[0] == CONFIG_REQUEST && |c| <= SsidAt(c) + 1
    ensures BufferImage(base, c) == base
  {
  }

  lemma NameSettled(base: seq<byte>, c: seq<byte>, d: seq<byte>)
    requires c <= d && |c| >= 4 && c[0] == CONFIG_REQUEST && |c| >= SsidAt(c)
    ensures NameImage(base, d) == NameImage(base, c)
  {
  }

  lemma ImageOfSsid(base: seq<byte>, c: seq<byte>, chunk: seq<byte>)
    requires |c| >= 4 && c[0] == CONFIG_REQUEST && |c| > SsidAt(c)
    requires |c| + |chunk| <= PasswordAt(c)
    requires c[SsidAt(c)] <= |base|
    ensures BufferImage(base, c + chunk)
         == Placed(BufferImage(base, c), 0, c[SsidAt(c)], false, |c| - SsidAt(c) - 1, chunk)
  {
    var s, d := SsidAt(c), c + chunk;
    assert SsidAt(d) == s && d[s] == c[s] && PasswordAt(d) == PasswordAt(c);
  }

  lemma BufferOfSsid(base: seq<byte>, c: seq<byte>, d: seq<byte>)
    requires c <= d && |c| >= 4 && c[0] == CONFIG_REQUEST && |c| > SsidAt(c) && |c| >= PasswordAt(c)
    requires |d| <= PasswordAt(c) + 1
    ensures BufferImage(base, d) == BufferImage(base, c)
  {
    var s := SsidAt(c);
    assert SsidAt(d) == s && d[s] == c[s] && PasswordAt(d) == PasswordAt(c);
  }

  lemma ImageOfPassword(base: seq<byte>, c: seq<byte>, chunk: seq<byte>)
    requires |c| >= 4 && c[0] == CONFIG_REQUEST && |c| > SsidAt(c) && |c| > PasswordAt(c)
    requires |c| + |chunk| <= PasswordAt(c) + 1 + c[PasswordAt(c)]
    requires c[SsidAt(c)] + c[PasswordAt(c)] as int <= |base|
    ensures BufferImage(base, c + chunk)
         == Placed(BufferImage(base, c), c[SsidAt(c)], c[PasswordAt(c)], false, |c| - PasswordAt(c) - 1, chunk)
  {
    var s, p, d := SsidAt(c), PasswordAt(c), c + chunk;
    assert SsidAt(d) == s && d[s] == c[s] && PasswordAt(d) == p && d[p] == c[p];
  }

  /** The bound that is checked is the capacity in bytes, so a request for more than TIMES_MAX
      times is stored past the end of the buffer as soon as its 129th time begins to arrive,
      and only such a request is, whether it is accepted or rejected in the end. */
  lemma WritesPastTheBufferIff(c: seq<byte>)
    requires Judge(c).More? || Judge(c).end == |c|
    ensures (exists i: nat :: i >= BUFFER_LENGTH && BufferSource(c, i) >= 0)
       <==> (|c| > 9 + BUFFER_LENGTH && c[0] == SEND_REQUEST)
    ensures |c| > 9 + BUFFER_LENGTH && c[0] == SEND_REQUEST ==> Word(c, 7) > TIMES_MAX
  {
    if |c| > 9 + BUFFER_LENGTH && c[0] == SEND_REQUEST {
      assert BufferSource(c, BUFFER_LENGTH + 1) == 9 + BUFFER_LENGTH;
    }
  }

  /** There are such requests: one for 129 times is accepted, and stored past the end. */
  lemma TooManyTimesAreAccepted(frequency: uint32, times: seq<uint16>)
    requires TIMES_MAX < |times| <= BUFFER_LENGTH
    ensures var r := Send(frequency, times);
            WellFormed(r) && Judge(Encode(r)) == Accept(|Encode(r)|, r) && BufferSource(Encode(r), BUFFER_LENGTH) >= 0
  {
    var r := Send(frequency, times);
    EncodedHead(r);
    EncodedIsAccepted(r, []);
    assert Encode(r) + [] == Encode(r);
    assert BufferSource(Encode(r), BUFFER_LENGTH) == 10 + BUFFER_LENGTH;
  }

  /** After an accepted send request the buffer holds its times, in memory order, and what it
      held before behind them. */
  lemma TimesInBuffer(base: seq<byte>, c: seq<byte>, r: Request)
    requires r.Send? && Judge(c) == Accept(|c|, r) && |base| >= 2 * BUFFER_LENGTH
    ensures var b := BufferImage(base, c);
            && (forall i :: 0 <= i < |r.times| ==> Stored(b[2 * i], b[2 * i + 1]) == r.times[i])
            && b[2 * |r.times|..] == base[2 * |r.times|..]
  {
    var b, n := BufferImage(base, c), |r.times|;
    assert |c| == 9 + 2 * n;
    forall i | 0 <= i < n
      ensures Stored(b[2 * i], b[2 * i + 1]) == r.times[i]
    {
      assert BufferSource(c, 2 * i) == 10 + 2 * i && BufferSource(c, 2 * i + 1) == 9 + 2 * i;
    }
    forall j | 2 * n <= j < |base|
      ensures b[j] == base[j]
    {
      assert BufferSource(c, j) == -1;
    }
  }

  /** After an accepted configuration request the three texts lie where the server looks for them. */
  lemma TextsInBuffers(base: seq<byte>, nameBase: seq<byte>, c: seq<byte>, r: Request)
    requires r.Config? && Judge(c) == Accept(|c|, r) && |base| >= BUFFER_LENGTH && |nameBase| == NAME_LENGTH_MAX
    ensures |r.name| <= NAME_LENGTH_MAX && |r.ssid| + |r.password| <= BUFFER_LENGTH
    ensures NameImage(nameBase, c)[..|r.name|] == r.name
    ensures BufferImage(base, c)[..|r.ssid|] == r.ssid
    ensures BufferImage(base, c)[|r.ssid|..|r.ssid| + |r.password|] == r.password
  {
    var s, p := SsidAt(c), PasswordAt(c);
    assert r == RequestAt(c);
    assert |r.name| == c[3] && |r.ssid| == c[s] && |r.password| == c[p];
  }

  // ----- the state of the parser, as a function of the bytes it has been given -----

  // Offsets of the request fields in memory.
  const TYPE := 0
  const LENGTH := 1
  const FREQUENCY := 3
  const COUNT := 7
  const TEXT_LENGTH := 9
  const FIELDS := 10

  /** The fields in memory are those of the request that begins with `c`. */
  ghost predicate FieldsHold(f: seq<byte>, c: seq<byte>)
    requires |f| == FIELDS
  {
    && f[TYPE] == (if |c| > 0 then c[0] else 0)
    && (|c| > 1 ==> f[LENGTH + 1] == c[1])
    && (|c| > 2 ==> f[LENGTH] == c[2])
    && (|c| > 3 && c[0] == SEND_REQUEST ==> f[FREQUENCY + 3] == c[3])
    && (|c| > 4 && c[0] == SEND_REQUEST ==> f[FREQUENCY + 2] == c[4])
    && (|c| > 5 && c[0] == SEND_REQUEST ==> f[FREQUENCY + 1] == c[5])
    && (|c| > 6 && c[0] == SEND_REQUEST ==> f[FREQUENCY] == c[6])
    && (|c| > 7 && c[0] == SEND_REQUEST ==> f[COUNT + 1] == c[7])
    && (|c| > 8 && c[0] == SEND_REQUEST ==> f[COUNT] == c[8])
  }

  /** string_t: where a text lies in the worker's buffer. */
  datatype Text = Text(start: nat, length: nat)

  const NO_TEXT := Text(0, 0)

  /** Where the server will look for the ssid and the password once it has read `c`. */
  function SsidText(c: seq<byte>): Text {
    if |c| > 3 && c[0] == CONFIG_REQUEST && c[3] <= NAME_LENGTH_MAX && |c| > SsidAt(c)
    then Text(0, c[SsidAt(c)]) else NO_TEXT
  }

  function PasswordText(c: seq<byte>): Text {
    if && |c| > 3 && c[0] == CONFIG_REQUEST && c[3] <= NAME_LENGTH_MAX && |c| > SsidAt(c) && |c| > PasswordAt(c)
       && c[SsidAt(c)] as int + c[PasswordAt(c)] <= BUFFER_LENGTH
    then Text(c[SsidAt(c)], c[PasswordAt(c)]) else NO_TEXT
  }

  /** The switch states and counters of the request struct, and the cursors of the buffers. */
  datatype Control = Control(state: nat, read: nat, sendState: nat, sendRead: nat, configState: nat,
                             ssid: Text, password: Text, bufferPosition: nat, nameSize: nat)

  /** Before the payload: which head field is being read, and how much of it has come. */
  ghost predicate AtHead(c: seq<byte>, k: Control, position: nat) {
    && k.state < 2 && k.read == 0
    && k.sendState == 0 && k.sendRead == 0 && k.configState == 0 && k.bufferPosition == 0
    && k.ssid == k.password == NO_TEXT
    && (k.state == 0 ==> |c| == 0 && position == 0)
    && (k.state == 1 ==> 1 <= |c| < 3 && position == |c| - 1)
  }

  ghost predicate AtSend(c: seq<byte>, k: Control, position: nat) {
    var n := |c|;
    && n >= 3 && c[0] == SEND_REQUEST
    && k.ssid == k.password == NO_TEXT
    && (k.sendState < 2 ==> k.sendRead == 0 && k.bufferPosition == 0)
    && match k.sendState {
         case 0 => n < 7 && position == n - 3
         case 1 => 7 <= n < 9 && position == n - 7
         case 2 => && n >= 9 && Word(c, 7) <= BUFFER_LENGTH
                   && k.sendRead <= Word(c, 7) && k.bufferPosition == 2 * k.sendRead
                   && n == 9 + 2 * k.sendRead + position && position < 2 && n <= 9 + 2 * Word(c, 7)
         case _ => false
       }
  }

  /** `length` is the length field that the three texts share. */
  ghost predicate AtConfig(c: seq<byte>, k: Control, length: byte, position: nat) {
    var n := |c|;
    && n >= 3 && c[0] == CONFIG_REQUEST
    && (k.configState < 4 ==> k.bufferPosition == 0)
    && (k.configState > 0 ==> n > 3 && c[3] <= NAME_LENGTH_MAX)
    && (k.configState > 1 ==> n >= SsidAt(c) && k.nameSize == c[3])
    && (k.configState > 2 ==> n > SsidAt(c) && k.ssid == Text(0, c[SsidAt(c)]))
    && (k.configState < 3 ==> k.ssid == NO_TEXT)
    && (k.configState < 5 ==> k.password == NO_TEXT)
    && (k.configState > 3 ==> n >= PasswordAt(c) && k.bufferPosition == c[SsidAt(c)])
    && (k.configState > 4 ==> && n > PasswordAt(c) && c[SsidAt(c)] as int + c[PasswordAt(c)] <= BUFFER_LENGTH
                              && k.password == Text(c[SsidAt(c)], c[PasswordAt(c)]))
    && match k.configState {
         case 0 => n == 3 && position == 0
         case 1 => length == c[3] && k.nameSize == 0 && n <= SsidAt(c) && position == n - 4
         case 2 => n == SsidAt(c) && position == 0
         case 3 => n <= PasswordAt(c) && position == n - SsidAt(c) - 1
         case 4 => n == PasswordAt(c) && position == 0
         case 5 => n <= PasswordAt(c) + 1 + c[PasswordAt(c)] && position == n - PasswordAt(c) - 1
         case _ => false
       }
  }

  /** A parser that has been given `c` and waits for more. */
  ghost predicate WaitingAt(c: seq<byte>, k: Control, length: byte, position: nat) {
    && Undecided(c)
    && if |c| < 3 then AtHead(c, k, position) else
       k.state == 2 && k.read == |c| - 3 && AtBody(c, k, length, position)
  }

  ghost predicate AtBody(c: seq<byte>, k: Control, length: byte, position: nat) {
    && c != []
    && if c[0] == SEND_REQUEST then k.configState == 0 && AtSend(c, k, position)
       else k.sendState == 0 && k.sendRead == 0 && AtConfig(c, k, length, position)
  }

  /** A sub-parser that holds `c`, with `rest` unread, has done what the scan `s` of both says. */
  ghost predicate Scanned(s: Scan, c: seq<byte>, rest: seq<byte>, done: bool, stop: bool) {
    && done == s.Complete? && stop == s.Overflow?
    && if s.Incomplete? then rest == [] else |c| == s.end
  }

  lemma SendOutcome(c: seq<byte>, rest: seq<byte>, done: bool, stop: bool)
    requires !(done && stop) && (!done && !stop ==> rest == [])
    requires stop ==> |c| == 9 && Word(c, 7) > BUFFER_LENGTH
    requires done ==> |c| >= 9 && |c| == 9 + 2 * Word(c, 7) && Word(c, 7) <= BUFFER_LENGTH
    requires !done && !stop ==> |c| >= 9 ==> |c| < 9 + 2 * Word(c, 7) && Word(c, 7) <= BUFFER_LENGTH
    ensures Scanned(ScanSend(c + rest), c, rest, done, stop)
  {
  }

  lemma ConfigOutcome(c: seq<byte>, k: Control, length: byte, position: nat, rest: seq<byte>, done: bool, stop: bool)
    requires !(done && stop) && (!done && !stop ==> rest == [])
    requires stop ==> || (|c| == 4 && c[0] == CONFIG_REQUEST && c[3] > NAME_LENGTH_MAX)
                      || (&& |c| > 3 && c[3] <= NAME_LENGTH_MAX && |c| > SsidAt(c) && |c| == PasswordAt(c) + 1
                          && c[SsidAt(c)] as int + c[PasswordAt(c)] > BUFFER_LENGTH)
    requires !stop ==> AtConfig(c, k, length, position)
    requires done ==> k.configState == 5 && |c| == PasswordAt(c) + 1 + c[PasswordAt(c)]
    requires !done && !stop && k.configState == 5 ==> |c| < PasswordAt(c) + 1 + c[PasswordAt(c)]
    ensures Scanned(ScanConfig(c + rest), c, rest, done, stop)
  {
    var t := c + rest;
    assert forall i :: 0 <= i < |c| ==> t[i] == c[i];
  }

  /** Within a text, bytes that come only move the position. */
  lemma TextStep(c: seq<byte>, chunk: seq<byte>, k: Control, length: byte, position: nat)
    requires AtConfig(c, k, length, position)
    requires (k.configState == 3 && |c| + |chunk| <= PasswordAt(c))
          || (k.configState == 5 && |c| + |chunk| <= PasswordAt(c) + 1 + c[PasswordAt(c)])
    ensures AtConfig(c + chunk, k, length, position + |chunk|)
    ensures PasswordAt(c + chunk) == PasswordAt(c)
  {
    var d := c + chunk;
    assert SsidAt(d) == SsidAt(c) && d[SsidAt(c)] == c[SsidAt(c)] && PasswordAt(d) == PasswordAt(c);
  }

  lemma SsidDone(c: seq<byte>, k: Control, length: byte, position: nat)
    requires AtConfig(c, k, length, position) && k.configState == 3 && |c| == PasswordAt(c)
    ensures AtConfig(c, k.(configState := 4, bufferPosition := k.bufferPosition + k.ssid.length), length, 0)
  {
  }

  /** The parser stands at or in a payload, or before a type it will refuse. */
  ghost predicate AtPayload(c: seq<byte>, k: Control, length: byte, position: nat) {
    && |c| >= 3 && k.state == 2 && k.read == |c| - 3
    && if c[0] == SEND_REQUEST || c[0] == CONFIG_REQUEST
       then AtBody(c, k, length, position) && ScanPayload(c).Incomplete?
       else |c| == 3 && k.ssid == k.password == NO_TEXT && k.bufferPosition == 0
  }

  lemma FreshPayload(c: seq<byte>, k: Control, length: byte, position: nat)
    requires |c| == 3 && k.state == 2 && AtHead([], k.(state := 0), position)
    ensures AtPayload(c, k, length, position)
  {
  }

  /** A parser that holds `c`, with `rest` unread, has come to the verdict `v` on both. */
  ghost predicate Judged(v: Verdict, c: seq<byte>, rest: seq<byte>, done: bool, stop: bool) {
    && done == v.Accept? && stop == v.Stop?
    && if v.More? then rest == [] else |c| == v.end
  }

  /** No payload is long enough for the 16-bit counter of payload bytes to wrap. */
  lemma ScanIsShort(t: seq<byte>)
    requires |t| >= 3 && LegalType(t[0])
    ensures ScanPayload(t).Incomplete? ==> |t| < TWO_TO_THE_16
    ensures !ScanPayload(t).Incomplete? ==> ScanPayload(t).end < TWO_TO_THE_16
  {
  }

  /** An illegal type is refused with the head. */
  lemma IllegalOutcome(c: seq<byte>, rest: seq<byte>)
    requires |c| == 3 && !LegalType(c[0])
    ensures Judged(Judge(c + rest), c, rest, false, true)
  {
  }

  /** The comparison of the counter with the length field settles the verdict. */
  lemma PayloadOutcome(c: seq<byte>, rest: seq<byte>, done: bool, stop: bool)
    requires |c| >= 3 && LegalType(c[0])
    requires Scanned(ScanPayload(c + rest), c, rest, done, stop)
    ensures var same := |c| - 3 == Word(c, 1);
            && Word(c, 1) == Word(c + rest, 1)
            && Judged(Judge(c + rest), c, rest, done && same, stop || done != same)
    ensures !done && !stop && |c| - 3 != Word(c, 1) ==> Undecided(c)
  {
    if rest == [] {
      assert c + rest == c;
    }
  }

  lemma Settled(c: seq<byte>, rest: seq<byte>, complete: bool, overflow: bool, done: bool, stop: bool)
    requires |c| >= 3 && LegalType(c[0])
    requires Scanned(ScanPayload(c + rest), c, rest, complete, overflow)
    requires var same := |c| - 3 == Word(c, 1);
             done == (complete && same) && stop == (overflow || complete != same)
    ensures Judged(Judge(c + rest), c, rest, done, stop)
    ensures !done && !stop ==> Undecided(c) && !complete && !overflow
  {
    PayloadOutcome(c, rest, complete, overflow);
  }

  /** Reading a primitive of the head or of a send request updates the fields of the request. */
  lemma FieldsStep(f: seq<byte>, c: seq<byte>, off: nat, n: nat, position: nat, chunk: seq<byte>)
    requires |f| == FIELDS && FieldsHold(f, c)
    requires position + |chunk| <= n
    requires || (off == TYPE && n == 1 && |c| == 0)
             || (off == LENGTH && n == 2 && |c| == 1 + position)
             || (off == FREQUENCY && n == 4 && |c| == 3 + position && c[0] == SEND_REQUEST)
             || (off == COUNT && n == 2 && |c| == 7 + position && c[0] == SEND_REQUEST)
             || (off == TEXT_LENGTH && n == 1 && |c| >= 3 && c[0] == CONFIG_REQUEST)
    ensures FieldsHold(Placed(f, off, n, true, position, chunk), c + chunk)
  {
    var d, g := c + chunk, Placed(f, off, n, true, position, chunk);
    assert forall i :: 0 <= i < |c| ==> d[i] == c[i];
    assert forall i :: |c| <= i < |d| ==> d[i] == chunk[i - |c|];
    assert forall i :: 0 <= i < FIELDS ==> g[i] == PlacedAt(f, off, n, true, position, chunk, i);
  }

  lemma TextsOfConfig(c: seq<byte>, k: Control, length: byte, position: nat)
    requires AtConfig(c, k, length, position)
    ensures TextsHold(c, k)
  {
  }

  /** The references to the texts, the size of the name once it has been read, and the cursor of the
      buffer, which nothing but the payload of a send or configuration request moves. */
  ghost predicate TextsHold(c: seq<byte>, k: Control) {
    && k.ssid == SsidText(c) && k.password == PasswordText(c)
    && (NameRead(c) ==> k.nameSize == c[3])
    && (c == [] || (c[0] != SEND_REQUEST && c[0] != CONFIG_REQUEST) ==> k.bufferPosition == 0)
  }

  /** The name of a configuration request, and a byte behind it. */
  predicate NameRead(c: seq<byte>) {
    |c| > 3 && c[0] == CONFIG_REQUEST && c[3] <= NAME_LENGTH_MAX && |c| > SsidAt(c)
  }

  lemma NameIsRead(c: seq<byte>, rest: seq<byte>)
    requires Judge(c + rest).Accept? && Judge(c + rest).end == |c|
    ensures c != [] && (c[0] == CONFIG_REQUEST ==> NameRead(c))
  {
    var t := c + rest;
    assert forall i :: 0 <= i < |c| ==> t[i] == c[i];
  }

  /** So after an accepted configuration request the server finds the three texts of the request: the
      name in its own buffer, as long as it has noted, the others where the references lead. */
  lemma TextsAreFound(base: seq<byte>, nameBase: seq<byte>, c: seq<byte>, k: Control, r: Request)
    requires r.Config? && Judge(c) == Accept(|c|, r) && TextsHold(c, k)
    requires |base| >= BUFFER_LENGTH && |nameBase| == NAME_LENGTH_MAX
    ensures k.nameSize == |r.name| <= NAME_LENGTH_MAX && NameImage(nameBase, c)[..k.nameSize] == r.name
    ensures k.ssid == Text(0, |r.ssid|) && k.password == Text(|r.ssid|, |r.password|)
    ensures |r.ssid| + |r.password| <= |base|
    ensures BufferImage(base, c)[..|r.ssid|] == r.ssid
    ensures BufferImage(base, c)[|r.ssid|..|r.ssid| + |r.password|] == r.password
  {
    TextsInBuffers(base, nameBase, c, r);
    assert r == RequestAt(c);
  }

  /** Bytes behind the fields leave them alone. */
  lemma LaterFields(f: seq<byte>, c: seq<byte>, d: seq<byte>)
    requires |f| == FIELDS && FieldsHold(f, c) && c <= d
    requires |c| >= 9 || (|c| >= 3 && c[0] != SEND_REQUEST)
    ensures FieldsHold(f, d)
  {
  }
}
