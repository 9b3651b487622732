/** The resumable request parser of server.c (read_request and its sub-parsers), proved against
    the one-shot decoder. */
module RequestParsing {
  import opened Bytes
  import opened Streams
  import opened Requests
  import opened RequestStates

  /** The request struct of ir_worker_t with the input stream, the worker's buffer and the
      server's name buffer it parses into. */
  class RequestReader {
    const input: Stream
    const fields: array<byte>
    const memory: array<byte>
    const name: array<byte>

    var state: nat
    var read: uint16
    var sendState: nat
    var sendRead: uint16
    var configState: nat
    var ssid: Text
    var password: Text
    var bufferPosition: nat
    var nameSize: nat

    ghost var consumed: seq<byte>
    ghost var bufferBase: seq<byte>
    ghost var nameBase: seq<byte>

    ghost predicate Shape()
      reads this`bufferBase, this`nameBase, input
    {
      && fields.Length == FIELDS
      && memory.Length == |bufferBase| == 2 * BUFFER_LENGTH
      && name.Length == |nameBase| == NAME_LENGTH_MAX
      && fields != memory && fields != name && memory != name
      && input.Valid() && input.swapEndian
      && input.memory != fields && input.memory != memory && input.memory != name
    }

    ghost predicate Valid()
      reads this`bufferBase, this`nameBase, this`consumed, input, fields, memory, name
    {
      && Shape()
      && FieldsHold(fields[..], consumed)
      && memory[..] == BufferImage(bufferBase, consumed)
      && name[..] == NameImage(nameBase, consumed)
    }

    ghost function Position(): Control
      reads this
    {
      Control(state, read, sendState, sendRead, configState, ssid, password, bufferPosition, nameSize)
    }

    ghost predicate Waiting()
      requires Shape()
      reads this, input, fields
    {
      WaitingAt(consumed, Position(), fields[TEXT_LENGTH], input.position)
    }

    /** All the bytes of the request that have come, parsed or not. */
    ghost function Total(): seq<byte>
      requires Shape()
      reads this`bufferBase, this`nameBase, this`consumed, input, input.memory
    {
      consumed + input.Unread()
    }

    /** The parser part of ir_worker_create, with zeroed memory. */
    constructor ()
      ensures Valid() && consumed == [] && AtHead(consumed, Position(), input.position)
      ensures input.size == 0 && input.cursor == 0 && nameSize == 0
      ensures bufferBase == seq(2 * BUFFER_LENGTH, _ => 0)
      ensures fresh(input) && fresh(fields) && fresh(memory) && fresh(name) && fresh(input.memory)
    {
      var nothing := new byte[0];
      input := new Stream(nothing, 0, true);
      fields := new byte[FIELDS](_ => 0);
      memory := new byte[2 * BUFFER_LENGTH](_ => 0);
      name := new byte[NAME_LENGTH_MAX](_ => 0);
      state, read, sendState, sendRead, configState := 0, 0, 0, 0, 0;
      ssid, password, bufferPosition, nameSize := NO_TEXT, NO_TEXT, 0, 0;
      consumed := [];
      bufferBase, nameBase := seq(2 * BUFFER_LENGTH, _ => 0), seq(NAME_LENGTH_MAX, _ => 0);
      new;
      ImageOfNothing(bufferBase);
      ImageOfNothing(nameBase);
    }

    /** The parser part of ir_worker_reset. The input buffer is rewound, not emptied. */
    method Reset()
      requires Shape()
      modifies this`state, this`read, this`sendState, this`sendRead, this`configState, this`ssid, this`password
      modifies this`bufferPosition, this`consumed, this`bufferBase, this`nameBase
      modifies input`cursor, input`position, fields
      ensures Valid() && input.cursor == 0
      ensures AtHead(consumed, Position(), input.position)
      ensures consumed == [] && bufferBase == memory[..] && nameBase == name[..]
    {
      ClearRequest();
      Rebase();
      input.Reset();
    }

    /** A new request begins: what the buffers hold now is what they held before it. */
    ghost method Rebase()
      requires Shape() && (forall k :: 0 <= k < fields.Length ==> fields[k] == 0)
      modifies this`consumed, this`bufferBase, this`nameBase
      ensures Valid() && consumed == [] && bufferBase == memory[..] && nameBase == name[..]
    {
      consumed, bufferBase, nameBase := [], memory[..], name[..];
      ImageOfNothing(bufferBase);
      ImageOfNothing(nameBase);
    }

    /** m_memset of the request struct, and stack_buffer_reset of the buffer. */
    method ClearRequest()
      modifies this`state, this`read, this`sendState, this`sendRead, this`configState, this`ssid, this`password
      modifies this`bufferPosition, fields
      ensures AtHead([], Position(), 0)
      ensures forall k :: 0 <= k < fields.Length ==> fields[k] == 0
    {
      ClearBytes(fields);
      state, read, sendState, sendRead, configState := 0, 0, 0, 0, 0;
      ssid, password, bufferPosition := NO_TEXT, NO_TEXT, 0;
    }

    /** A primitive that goes to the request struct. */
    method ReadField(off: nat, n: nat) returns (done: bool, ghost chunk: seq<byte>)
      requires Shape() && off + n <= FIELDS && input.position < n
      modifies this`consumed, input`cursor, input`position, input`length, fields
      ensures Shape() && Total() == old(Total())
      ensures |chunk| <= n - old(input.position) && consumed == old(consumed) + chunk
      ensures done == (old(input.position) + |chunk| == n)
      ensures if done then input.position == 0
              else input.Unread() == [] && input.position == old(input.position) + |chunk|
      ensures fields[..] == Placed(old(fields[..]), off, n, true, old(input.position), chunk)
    {
      ghost var u := input.Unread();
      done := input.ReadPrimitive(fields, off, n);
      chunk := u[..|u| - |input.Unread()|];
      consumed := consumed + chunk;
    }

    method ReadFrequency() returns (done: bool)
      requires Valid() && AtSend(consumed, Position(), input.position) && sendState == 0
      modifies this`consumed, input`cursor, input`position, input`length, fields
      ensures Valid() && Total() == old(Total()) && old(consumed) <= consumed
      ensures if done then |consumed| == 7 && input.position == 0
              else input.Unread() == [] && AtSend(consumed, Position(), input.position)
    {
      ghost var chunk;
      done, chunk := ReadField(FREQUENCY, 4);
      FieldsStep(old(fields[..]), old(consumed), FREQUENCY, 4, old(input.position), chunk);
      ImageOfHead(bufferBase, old(consumed), consumed);
      ImageOfHead(nameBase, old(consumed), consumed);
    }

    method ReadCount() returns (done: bool)
      requires Valid() && AtSend(consumed, Position(), input.position) && sendState == 1
      modifies this`consumed, input`cursor, input`position, input`length, fields
      ensures Valid() && Total() == old(Total()) && old(consumed) <= consumed
      ensures if done then |consumed| == 9 && input.position == 0
              else input.Unread() == [] && AtSend(consumed, Position(), input.position)
    {
      ghost var chunk;
      done, chunk := ReadField(COUNT, 2);
      FieldsStep(old(fields[..]), old(consumed), COUNT, 2, old(input.position), chunk);
      ImageOfHead(bufferBase, old(consumed), consumed);
      ImageOfHead(nameBase, old(consumed), consumed);
    }

    method ReadTime() returns (done: bool)
      requires Valid() && AtSend(consumed, Position(), input.position)
      requires sendState == 2 && sendRead < Word(consumed, 7)
      modifies this`consumed, input`cursor, input`position, input`length, memory
      ensures Valid() && Total() == old(Total()) && old(consumed) <= consumed
      ensures if done then |consumed| == 9 + 2 * (sendRead + 1) && input.position == 0
              else input.Unread() == [] && AtSend(consumed, Position(), input.position)
    {
      ghost var u, c := input.Unread(), consumed;
      done := input.ReadPrimitive(memory, bufferPosition, TIME_LENGTH);
      ghost var chunk := u[..|u| - |input.Unread()|];
      consumed := c + chunk;
      ImageOfTimes(bufferBase, c, chunk, sendRead, old(input.position));
      NameOfSend(nameBase, consumed);
      NameOfSend(nameBase, c);
      LaterFields(fields[..], c, consumed);
    }

    method ReadTimes() returns (done: bool)
      requires Valid() && AtSend(consumed, Position(), input.position) && sendState == 2
      modifies this`consumed, this`sendRead, this`bufferPosition
      modifies input`cursor, input`position, input`length, memory
      ensures Valid() && Total() == old(Total()) && old(consumed) <= consumed
      ensures AtSend(consumed, Position(), input.position)
      ensures if done then |consumed| == 9 + 2 * Word(consumed, 7)
              else input.Unread() == [] && |consumed| < 9 + 2 * Word(consumed, 7)
    {
      while true
        modifies this`consumed, this`sendRead, this`bufferPosition, input`cursor, input`position, input`length, memory
        invariant Valid() && Total() == old(Total()) && old(consumed) <= consumed
        invariant AtSend(consumed, Position(), input.position)
        decreases BUFFER_LENGTH - sendRead
      {
        if sendRead == Stored(fields[COUNT], fields[COUNT + 1]) {
          return true;
        }
        var ok := TakeTime();
        if !ok { break; }
      }
      return false;
    }

    /** One more time, if it comes to its end. */
    method TakeTime() returns (done: bool)
      requires Valid() && AtSend(consumed, Position(), input.position)
      requires sendState == 2 && sendRead < Word(consumed, 7)
      modifies this`consumed, this`sendRead, this`bufferPosition
      modifies input`cursor, input`position, input`length, memory
      ensures Valid() && Total() == old(Total()) && old(consumed) <= consumed
      ensures AtSend(consumed, Position(), input.position)
      ensures if done then sendRead == old(sendRead) + 1
              else input.Unread() == [] && |consumed| < 9 + 2 * Word(consumed, 7)
    {
      done := ReadTime();
      if done {
        bufferPosition := bufferPosition + TIME_LENGTH;
        sendRead := sendRead + 1;
      }
    }

    /** Cases 0 and 1 of read_send_request. */
    method ReadSendHead() returns (done: bool, stop: bool)
      requires Valid() && AtSend(consumed, Position(), input.position) && sendState < 2
      modifies this`consumed, this`sendState, input`cursor, input`position, input`length, fields
      ensures Valid() && Total() == old(Total()) && old(consumed) <= consumed
      ensures stop ==> !done && |consumed| == 9 && Word(consumed, 7) > BUFFER_LENGTH
      ensures !stop ==> AtSend(consumed, Position(), input.position)
      ensures if done then sendState == 2 else !stop ==> sendState < 2 && input.Unread() == []
    {
      done, stop := false, false;
      if sendState == 0 {
        var ok := ReadFrequency();
        if !ok { return; }
        sendState := sendState + 1;
      }
      var ok := ReadCount();
      if !ok { return; }
      if Stored(fields[COUNT], fields[COUNT + 1]) > BUFFER_LENGTH {
        stop := true;
        return;
      }
      sendState := sendState + 1;
      done := true;
    }

    /** read_send_request */
    method ReadSend() returns (done: bool, stop: bool)
      requires Valid() && AtSend(consumed, Position(), input.position) && ScanSend(consumed).Incomplete?
      modifies this`consumed, this`sendState, this`sendRead, this`bufferPosition
      modifies input`cursor, input`position, input`length, fields, memory
      ensures Valid() && Total() == old(Total()) && old(consumed) <= consumed
      ensures Scanned(ScanSend(Total()), consumed, input.Unread(), done, stop) && TextsHold(consumed, Position())
      ensures !done && !stop ==> AtSend(consumed, Position(), input.position)
    {
      done, stop := false, false;
      if sendState < 2 {
        var ok;
        ok, stop := ReadSendHead();
        if !ok {
          SendOutcome(consumed, input.Unread(), false, stop);
          return;
        }
      }
      done := ReadTimes();
      SendOutcome(consumed, input.Unread(), done, false);
    }

    /** One of the three length bytes of a configuration request. */
    method ReadTextLength() returns (done: bool)
      requires Valid() && AtConfig(consumed, Position(), fields[TEXT_LENGTH], input.position)
      requires configState == 0 || configState == 2 || configState == 4
      modifies this`consumed, input`cursor, input`position, input`length, fields
      ensures Valid() && Total() == old(Total()) && old(consumed) <= consumed && input.position == 0
      ensures if done then |consumed| == |old(consumed)| + 1 && fields[TEXT_LENGTH] == consumed[|old(consumed)|]
              else input.Unread() == [] && consumed == old(consumed)
    {
      ghost var chunk, c := [], consumed;
      done, chunk := ReadField(TEXT_LENGTH, 1);
      FieldsStep(old(fields[..]), c, TEXT_LENGTH, 1, 0, chunk);
      if configState == 0 {
        ImageOfHead(bufferBase, c, consumed);
        ImageOfHead(nameBase, c, consumed);
      } else {
        NameSettled(nameBase, c, consumed);
        if configState == 2 {
          BufferOfName(bufferBase, c);
          BufferOfName(bufferBase, consumed);
        } else {
          BufferOfSsid(bufferBase, c, consumed);
        }
      }
    }

    /** A run of text that goes to one of the buffers. */
    method ReadText(dest: array<byte>, off: nat, n: uint16) returns (done: bool, ghost chunk: seq<byte>)
      requires Shape() && (dest == name || dest == memory)
      requires off + n <= dest.Length && input.position <= n
      modifies this`consumed, input`cursor, input`position, input`length, dest
      ensures Shape() && Total() == old(Total())
      ensures |chunk| <= n - old(input.position) && consumed == old(consumed) + chunk
      ensures done == (old(input.position) + |chunk| == n)
      ensures if done then input.position == 0
              else input.Unread() == [] && input.position == old(input.position) + |chunk|
      ensures dest[..] == Placed(old(dest[..]), off, n, false, old(input.position), chunk)
    {
      ghost var u := input.Unread();
      done := input.Read(dest, off, n);
      chunk := u[..|u| - |input.Unread()|];
      consumed := consumed + chunk;
    }

    method ReadName() returns (done: bool)
      requires Valid() && AtConfig(consumed, Position(), fields[TEXT_LENGTH], input.position) && configState == 1
      modifies this`consumed, input`cursor, input`position, input`length, name
      ensures Valid() && Total() == old(Total()) && old(consumed) <= consumed
      ensures if done then |consumed| == SsidAt(consumed) && input.position == 0
              else input.Unread() == [] && AtConfig(consumed, Position(), fields[TEXT_LENGTH], input.position)
    {
      ghost var c, chunk := consumed, [];
      done, chunk := ReadText(name, 0, fields[TEXT_LENGTH]);
      ImageOfName(nameBase, c, chunk);
      BufferOfName(bufferBase, c);
      BufferOfName(bufferBase, consumed);
      LaterFields(fields[..], c, consumed);
    }

    method ReadSsid() returns (done: bool)
      requires Valid() && AtConfig(consumed, Position(), fields[TEXT_LENGTH], input.position) && configState == 3
      modifies this`consumed, input`cursor, input`position, input`length, memory
      ensures Valid() && Total() == old(Total()) && old(consumed) <= consumed
      ensures AtConfig(consumed, Position(), fields[TEXT_LENGTH], |consumed| - SsidAt(consumed) - 1)
      ensures if done then |consumed| == PasswordAt(consumed) && input.position == 0
              else input.Unread() == [] && input.position == |consumed| - SsidAt(consumed) - 1
    {
      ghost var c, chunk := consumed, [];
      done, chunk := ReadText(memory, bufferPosition, ssid.length);
      ImageOfSsid(bufferBase, c, chunk);
      NameSettled(nameBase, c, consumed);
      LaterFields(fields[..], c, consumed);
      TextStep(c, chunk, Position(), fields[TEXT_LENGTH], old(input.position));
    }

    method ReadPassword() returns (done: bool)
      requires Valid() && AtConfig(consumed, Position(), fields[TEXT_LENGTH], input.position) && configState == 5
      modifies this`consumed, input`cursor, input`position, input`length, memory
      ensures Valid() && Total() == old(Total()) && old(consumed) <= consumed
      ensures AtConfig(consumed, Position(), fields[TEXT_LENGTH], |consumed| - PasswordAt(consumed) - 1)
      ensures if done
              then |consumed| == PasswordAt(consumed) + 1 + consumed[PasswordAt(consumed)] && input.position == 0
              else input.Unread() == [] && |consumed| < PasswordAt(consumed) + 1 + consumed[PasswordAt(consumed)]
                   && input.position == |consumed| - PasswordAt(consumed) - 1
    {
      ghost var c, chunk := consumed, [];
      done, chunk := ReadText(memory, bufferPosition, password.length);
      ImageOfPassword(bufferBase, c, chunk);
      NameSettled(nameBase, c, consumed);
      LaterFields(fields[..], c, consumed);
      TextStep(c, chunk, Position(), fields[TEXT_LENGTH], old(input.position));
    }

    /** Case 0 of read_config_request. */
    method ConfigNameLength() returns (done: bool, stop: bool)
      requires Valid() && AtConfig(consumed, Position(), fields[TEXT_LENGTH], input.position) && configState == 0
      modifies this`consumed, this`configState, this`nameSize, input`cursor, input`position, input`length, fields
      ensures Valid() && Total() == old(Total()) && old(consumed) <= consumed
      ensures stop ==> !done && |consumed| == 4 && consumed[3] > NAME_LENGTH_MAX && TextsHold(consumed, Position())
      ensures !stop ==> AtConfig(consumed, Position(), fields[TEXT_LENGTH], input.position)
      ensures if done then configState == 1 else !stop ==> configState == 0 && input.Unread() == []
    {
      stop := false;
      done := ReadTextLength();
      if done {
        if fields[TEXT_LENGTH] > name.Length {
          return false, true;
        }
        nameSize := 0;
        configState := configState + 1;
      }
    }

    /** Cases 0 and 1 of read_config_request. */
    method ConfigName() returns (done: bool, stop: bool)
      requires Valid() && AtConfig(consumed, Position(), fields[TEXT_LENGTH], input.position) && configState < 2
      modifies this`consumed, this`configState, this`nameSize, input`cursor, input`position, input`length, fields, name
      ensures Valid() && Total() == old(Total()) && old(consumed) <= consumed
      ensures stop ==> !done && |consumed| == 4 && consumed[3] > NAME_LENGTH_MAX && TextsHold(consumed, Position())
      ensures !stop ==> AtConfig(consumed, Position(), fields[TEXT_LENGTH], input.position)
      ensures if done then configState == 2 else !stop ==> configState < 2 && input.Unread() == []
    {
      done, stop := false, false;
      if configState == 0 {
        var more;
        more, stop := ConfigNameLength();
        if !more { return; }
      }
      var ok := ReadName();
      if !ok { return; }
      nameSize := nameSize + fields[TEXT_LENGTH];
      configState := configState + 1;
      done := true;
    }

    /** Case 2 of read_config_request. A length byte never exceeds the empty buffer, so there is no
        overflow to report. */
    method ConfigSsidLength() returns (done: bool)
      requires Valid() && AtConfig(consumed, Position(), fields[TEXT_LENGTH], input.position) && configState == 2
      modifies this`consumed, this`configState, this`ssid
      modifies input`cursor, input`position, input`length, fields
      ensures Valid() && Total() == old(Total()) && old(consumed) <= consumed
      ensures AtConfig(consumed, Position(), fields[TEXT_LENGTH], input.position)
      ensures if done then configState == 3 else configState == 2 && input.Unread() == []
    {
      done := ReadTextLength();
      if done {
        assert fields[TEXT_LENGTH] <= BUFFER_LENGTH - bufferPosition;
        ssid := Text(bufferPosition, fields[TEXT_LENGTH]);
        configState := configState + 1;
      }
    }

    /** Cases 2 and 3 of read_config_request. */
    method ConfigSsid() returns (done: bool)
      requires Valid() && AtConfig(consumed, Position(), fields[TEXT_LENGTH], input.position)
      requires configState == 2 || configState == 3
      modifies this`consumed, this`configState, this`ssid, this`bufferPosition
      modifies input`cursor, input`position, input`length, fields, memory
      ensures Valid() && Total() == old(Total()) && old(consumed) <= consumed
      ensures AtConfig(consumed, Position(), fields[TEXT_LENGTH], input.position)
      ensures if done then configState == 4 else configState < 4 && input.Unread() == []
    {
      if configState == 2 {
        done := ConfigSsidLength();
        if !done { return; }
      }
      done := ReadSsid();
      if done {
        SsidDone(consumed, Position(), fields[TEXT_LENGTH], |consumed| - SsidAt(consumed) - 1);
        bufferPosition := bufferPosition + ssid.length;
        configState := configState + 1;
      }
    }

    /** Case 4 of read_config_request. */
    method ConfigPasswordLength() returns (done: bool, stop: bool)
      requires Valid() && AtConfig(consumed, Position(), fields[TEXT_LENGTH], input.position) && configState == 4
      modifies this`consumed, this`configState, this`password
      modifies input`cursor, input`position, input`length, fields
      ensures Valid() && Total() == old(Total()) && old(consumed) <= consumed
      ensures if done
              then !stop && AtConfig(consumed, Position(), fields[TEXT_LENGTH], input.position) && configState == 5
              else Scanned(ScanConfig(Total()), consumed, input.Unread(), false, stop)
                   && TextsHold(consumed, Position())
                   && (!stop ==> AtConfig(consumed, Position(), fields[TEXT_LENGTH], input.position))
    {
      stop := false;
      done := ReadTextLength();
      if !done {
        TextsOfConfig(consumed, Position(), fields[TEXT_LENGTH], input.position);
        ConfigOutcome(consumed, Position(), fields[TEXT_LENGTH], input.position, input.Unread(), false, false);
      } else if fields[TEXT_LENGTH] > BUFFER_LENGTH - bufferPosition {
        done, stop := false, true;
        ConfigOutcome(consumed, Position(), fields[TEXT_LENGTH], input.position, input.Unread(), false, true);
      } else {
        password := Text(bufferPosition, fields[TEXT_LENGTH]);
        configState := configState + 1;
      }
    }

    /** Cases 4 and 5 of read_config_request. */
    method ConfigPassword() returns (done: bool, stop: bool)
      requires Valid() && AtConfig(consumed, Position(), fields[TEXT_LENGTH], input.position)
      requires configState == 4 || configState == 5
      modifies this`consumed, this`configState, this`password, this`bufferPosition
      modifies input`cursor, input`position, input`length, fields, memory
      ensures Valid() && Total() == old(Total()) && old(consumed) <= consumed
      ensures Scanned(ScanConfig(Total()), consumed, input.Unread(), done, stop) && TextsHold(consumed, Position())
      ensures !done && !stop ==> AtConfig(consumed, Position(), fields[TEXT_LENGTH], input.position)
    {
      done, stop := true, false;
      if configState == 4 {
        done, stop := ConfigPasswordLength();
      }
      if done {
        done := ConfigPasswordText();
      }
    }

    /** Case 5 of read_config_request. */
    method ConfigPasswordText() returns (done: bool)
      requires Valid() && AtConfig(consumed, Position(), fields[TEXT_LENGTH], input.position) && configState == 5
      modifies this`consumed, this`bufferPosition
      modifies input`cursor, input`position, input`length, memory
      ensures Valid() && Total() == old(Total()) && old(consumed) <= consumed
      ensures Scanned(ScanConfig(Total()), consumed, input.Unread(), done, false) && TextsHold(consumed, Position())
      ensures !done ==> AtConfig(consumed, Position(), fields[TEXT_LENGTH], input.position)
    {
      done := ReadPassword();
      ghost var k := Position();
      TextsOfConfig(consumed, k, fields[TEXT_LENGTH], |consumed| - PasswordAt(consumed) - 1);
      ConfigOutcome(consumed, k, fields[TEXT_LENGTH], |consumed| - PasswordAt(consumed) - 1, input.Unread(),
                    done, false);
      if done {
        bufferPosition := bufferPosition + ssid.length;
      }
    }

    /** Cases 0 to 3 of read_config_request. */
    method ConfigNameAndSsid() returns (done: bool, stop: bool)
      requires Valid() && AtConfig(consumed, Position(), fields[TEXT_LENGTH], input.position) && configState < 4
      modifies this`consumed, this`configState, this`nameSize, this`ssid, this`bufferPosition
      modifies input`cursor, input`position, input`length, fields, name, memory
      ensures Valid() && Total() == old(Total()) && old(consumed) <= consumed
      ensures stop ==> !done && |consumed| == 4 && consumed[3] > NAME_LENGTH_MAX && TextsHold(consumed, Position())
      ensures !stop ==> AtConfig(consumed, Position(), fields[TEXT_LENGTH], input.position)
      ensures if done then configState == 4 else !stop ==> configState < 4 && input.Unread() == []
    {
      done, stop := true, false;
      if configState < 2 {
        done, stop := ConfigName();
      }
      if done {
        done := ConfigSsid();
      }
    }

    /** read_config_request */
    method ReadConfig() returns (done: bool, stop: bool)
      requires Valid() && AtConfig(consumed, Position(), fields[TEXT_LENGTH], input.position)
      modifies this`consumed, this`configState, this`nameSize, this`ssid, this`password, this`bufferPosition
      modifies input`cursor, input`position, input`length, fields, name, memory
      ensures Valid() && Total() == old(Total()) && old(consumed) <= consumed
      ensures Scanned(ScanConfig(Total()), consumed, input.Unread(), done, stop) && TextsHold(consumed, Position())
      ensures !done && !stop ==> AtConfig(consumed, Position(), fields[TEXT_LENGTH], input.position)
    {
      done, stop := true, false;
      if configState < 4 {
        done, stop := ConfigNameAndSsid();
      }
      if done {
        done, stop := ConfigPassword();
      } else {
        if !stop {
          TextsOfConfig(consumed, Position(), fields[TEXT_LENGTH], input.position);
        }
        ConfigOutcome(consumed, Position(), fields[TEXT_LENGTH], input.position, input.Unread(), false, stop);
      }
    }

    /** Cases 0 and 1 of read_request. */
    method ReadHead() returns (done: bool)
      requires Valid() && AtHead(consumed, Position(), input.position)
      modifies this`consumed, this`state, input`cursor, input`position, input`length, fields
      ensures Valid() && Total() == old(Total()) && old(consumed) <= consumed
      ensures if done then |consumed| == 3 && AtHead([], Position().(state := 0), input.position) && state == 2
              else input.Unread() == [] && AtHead(consumed, Position(), input.position)
    {
      done := false;
      ghost var chunk;
      if state == 0 {
        var ok;
        ok, chunk := ReadField(TYPE, 1);
        FieldsStep(old(fields[..]), old(consumed), TYPE, 1, 0, chunk);
        ImageOfHead(bufferBase, old(consumed), consumed);
        ImageOfHead(nameBase, old(consumed), consumed);
        if !ok { return; }
        state := state + 1;
      }
      ghost var c, f, position := consumed, fields[..], input.position;
      done, chunk := ReadField(LENGTH, 2);
      FieldsStep(f, c, LENGTH, 2, position, chunk);
      ImageOfHead(bufferBase, c, consumed);
      ImageOfHead(nameBase, c, consumed);
      if done {
        state := state + 1;
      }
    }

    /** The sub-parser for the type of the request. */
    method ReadBody() returns (done: bool, stop: bool)
      requires Valid() && AtPayload(consumed, Position(), fields[TEXT_LENGTH], input.position) && LegalType(consumed[0])
      modifies this`consumed, this`sendState, this`sendRead, this`configState
      modifies this`nameSize, this`ssid, this`password, this`bufferPosition
      modifies input`cursor, input`position, input`length, fields, name, memory
      ensures Valid() && Total() == old(Total()) && old(consumed) <= consumed
      ensures Scanned(ScanPayload(Total()), consumed, input.Unread(), done, stop) && TextsHold(consumed, Position())
      ensures !done && !stop ==> AtBody(consumed, Position(), fields[TEXT_LENGTH], input.position)
    {
      if fields[TYPE] == SEND_REQUEST {
        done, stop := ReadSend();
      } else if fields[TYPE] == RECEIVE_REQUEST {
        done, stop := true, false;
      } else {
        done, stop := ReadConfig();
      }
    }

    /** Case 2 of read_request. */
    method ReadPayload() returns (done: bool, stop: bool)
      requires Valid() && AtPayload(consumed, Position(), fields[TEXT_LENGTH], input.position)
      modifies this`consumed, this`read, this`sendState, this`sendRead, this`configState
      modifies this`nameSize, this`ssid, this`password, this`bufferPosition
      modifies input`cursor, input`position, input`length, fields, name, memory
      ensures Valid() && Total() == old(Total())
      ensures Judged(Judge(Total()), consumed, input.Unread(), done, stop) && TextsHold(consumed, Position())
      ensures !done && !stop ==> Waiting()
    {
      if !LegalType(fields[TYPE]) {
        IllegalOutcome(consumed, input.Unread());
        return false, true;
      }
      var count;
      done, stop, count := ReadCounted();
      done, stop := CheckLength(count, done, stop);
    }

    /** The payload as far as it has come, and how many bytes of it. */
    method ReadCounted() returns (done: bool, stop: bool, count: uint16)
      requires Valid() && AtPayload(consumed, Position(), fields[TEXT_LENGTH], input.position) && LegalType(consumed[0])
      modifies this`consumed, this`sendState, this`sendRead, this`configState
      modifies this`nameSize, this`ssid, this`password, this`bufferPosition
      modifies input`cursor, input`position, input`length, fields, name, memory
      ensures Valid() && Total() == old(Total()) && old(consumed) <= consumed && count == |consumed| - |old(consumed)|
      ensures Scanned(ScanPayload(Total()), consumed, input.Unread(), done, stop) && TextsHold(consumed, Position())
      ensures !done && !stop ==> AtBody(consumed, Position(), fields[TEXT_LENGTH], input.position)
    {
      var start := input.cursor;
      done, stop := ReadBody();
      count := input.cursor - start;
    }

    /** The end of case 2 of read_request: `count` more bytes of payload have been read. */
    method CheckLength(count: uint16, complete: bool, overflow: bool) returns (done: bool, stop: bool)
      requires Valid() && |consumed| >= 3 && LegalType(consumed[0])
      requires state == 2 && read + count == |consumed| - 3 && TextsHold(consumed, Position())
      requires Scanned(ScanPayload(Total()), consumed, input.Unread(), complete, overflow)
      requires !complete && !overflow ==> AtBody(consumed, Position(), fields[TEXT_LENGTH], input.position)
      modifies this`read
      ensures Valid() && Total() == old(Total())
      ensures Judged(Judge(Total()), consumed, input.Unread(), done, stop) && TextsHold(consumed, Position())
      ensures !done && !stop ==> Waiting()
    {
      ScanIsShort(Total());
      done, stop := complete, overflow;
      read := (read + count) % TWO_TO_THE_16;
      var same := read == Stored(fields[LENGTH], fields[LENGTH + 1]);
      if done != same {
        done, stop := false, true;
      }
      Settled(consumed, input.Unread(), complete, overflow, done, stop);
    }

    /** read_request: whatever the fragments were in which the bytes came, it does what the
        one-shot decoder says about all of them. */
    method ReadRequest() returns (done: bool, stop: bool)
      requires Valid() && Waiting()
      modifies this`consumed, this`state, this`read, this`sendState, this`sendRead, this`configState
      modifies this`nameSize, this`ssid, this`password, this`bufferPosition
      modifies input`cursor, input`position, input`length, fields, name, memory
      ensures Valid() && Total() == old(Total())
      ensures Judged(Judge(Total()), consumed, input.Unread(), done, stop) && TextsHold(consumed, Position())
      ensures !done && !stop ==> Waiting()
      ensures done ==> consumed != [] && (consumed[0] == CONFIG_REQUEST ==> |consumed| > 3 && nameSize == consumed[3])
    {
      if state < 2 {
        var ok := ReadHead();
        if !ok { return false, false; }
        FreshPayload(consumed, Position(), fields[TEXT_LENGTH], input.position);
      }
      done, stop := ReadPayload();
      if done {
        NameIsRead(consumed, input.Unread());
      }
    }
  }
}
