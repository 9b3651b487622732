# A verified model of the infrared server firmware

The firmware turns an ESP8266 into a small server that sends and receives infrared signals. A client
connects over TCP and sends one request: emit these times, capture a signal, or store this name and
this network. The project models the parts of the firmware where bytes, pointers and events have to
work together, and proves what they guarantee.

| file | what it models |
|---|---|
| `Bytes.dfy` | machine integers, the byte order of the wire and of memory |
| `Streams.dfy` | the resumable stream of `src/user/util.c` |
| `Requests.dfy` | the request format and a one-shot decoder, independent of any parser |
| `RequestStates.dfy` | the states of the resumable parser of `src/user/server.c`, and where it puts the bytes |
| `RequestParsing.dfy` | the parser itself, proved against the decoder |
| `Responses.dfy` | the writers of responses and beacons |
| `WorkerMachine.dfy` | the worker as a machine over events |
| `WorkerRuns.dfy` | what holds over all its runs |
| `WorkerServices.dfy` | whole requests: from the client that is taken to the answer, or the reset |
| `WorkerSignals.dfy` | the worker together with the station that emits and captures |
| `WorkerObject.dfy` | the worker as the object it is in the firmware, proved against that machine |
| `Update.dfy` | the over-the-air update receiver |
| `HashTable.dfy`, `LinkedList.dfy`, `Rings.dfy` | the containers of `src/user/util.c` |
| `Captures.dfy` | what the samples of a signal show, and what that adds up to |
| `TimeBuffers.dfy` | the buffer of times that capture and emission share |
| `Signal.dfy` | capture and emission of signals |
| `Uart.dfy` | the receive ring of the UART driver |
| `FlashConfig.dfy` | the configuration in flash |

Code that changes fields, links or buffers in place is modelled by classes and arrays that do the same;
every method is proved to do what a function of the old state says, and the theorems are about these
functions. `Requests`, `WorkerMachine` and the map laws of `HashTable` are such specifications: they do
not repeat the code but say in one step what it takes many to do. 16-bit and 32-bit wrapping is
written out wherever the firmware could meet it.

## How the parser, the worker and the client fit together

`Judge` says what a server should make of all the bytes that have come since it was reset: wait,
give up, or accept a request. `RequestReader.ReadRequest`, which keeps nothing but switch states,
counters and a partly filled primitive, comes to the same verdict on every call
(`RequestParsing.RequestReader.ReadRequest`), for any split of the bytes. So a request is accepted under
one fragmentation if and only if it is under every other one, and exactly when the stream begins with
the encoding of a well-formed request (`Requests.AcceptedIffEncoded`). The worker object does what
`WorkerMachine.Step` says for every event; `WorkerObject.PowerOn` drives it through any list of events from
power-on, and what it has done is what `WorkerRuns.RunsFollowTheRules` is about. That a request is served
at all, from the client that is taken to the answer it can read, is `WorkerServices.ClientIsServed`.

## Where the code departs from its intent

These are modelled as they are coded. The members named say when each of them matters.

* The count of times of a send request is compared with the size of the buffer in bytes
  (`src/user/server.c:274`), so counts from 129 to 256 pass. Bytes are stored behind the buffer exactly
  when more than 128 times have begun to arrive (`RequestStates.WritesPastTheBufferIff`), and such
  requests are accepted (`RequestStates.TooManyTimesAreAccepted`). The memory
  behind the buffer is modelled as 256 more bytes of the same array, which is why the theorems about
  parsing hold for every count that passes, not only for counts up to 128.
* Accepting does not depend on the fragmentation, but rejecting does: a length field that is too small is
  only noticed if a fragment ends there (`Requests.RejectionDependsOnFragments`, and exactly when in
  `Requests.InconclusiveStreamIsRejectedIff`).
* A reset rewinds the input buffer but does not empty it (`src/user/server.c:158`), so an event that finds
  the worker ready parses the last fragment again, as if it were the beginning of a request
  (`WorkerRuns.ReadyAcceptsIff`). If a whole send request came in that fragment, the sent event that
  follows the response repeats it (`WorkerRuns.SentRepeatsTheRequest`).
* A frequency of 0, or one above 500000, has no half period (`Signal.HalfPeriodIff`), and the first mark
  divides by it (`src/user/signal.c:68`). Nothing checks the frequency of a request, so such a request is
  accepted and halts the processor (`WorkerRuns.BadFrequencyHalts`).
* A reset forgets the socket (`src/user/server.c:155`), but data of the client that is being disconnected
  may still come. A second request before the next client is processed, and its response goes through a
  null pointer (`src/user/server.c:432`, `WorkerRuns.SecondRequestHalts`). These two are all that halts the
  processor in the model, and exactly when is `WorkerRuns.HaltsIff`; afterwards nothing happens any more
  (`WorkerRuns.HaltedIsForever`).
* The send lock is set by the sent event and never released (`src/user/server.c:433`,
  `src/user/server.c:602`). A processed request is answered if and only if the lock is open, the client is
  still known and the frequency, of a send request, can be sent (`WorkerRuns.AnsweredIff`), so after the
  first sent event there is no response any more (`WorkerRuns.NoResponseAfterSent`), and the worker waits
  until a disconnect (`WorkerRuns.RespondingUntilDisconnect`).
* A worker that has read an illegal type never gets ready again (`WorkerRuns.ReadyAfterFinishIff`,
  `WorkerRuns.IllegalTypeIsReached`, `WorkerRuns.IllegalTypeIsForever`).
* The configuration callback is called for every finished request of that type, accepted or not
  (`WorkerRuns.ConfiguresIff`, `WorkerRuns.BrokenOffConfigurationIsApplied`).
* An emission always covers all 128 slots of the buffer, so what earlier requests left there is
  emitted behind the times of the request (`WorkerRuns.EmissionHasLeftovers`).
* The swapped branch of `stream_write_primitive` stays in its buffer exactly when all that is left of
  the primitive fits or nothing does (`Streams.SwappedWriteStaysInRoomIff`). Split over several buffers, a
  swapped write puts out the wire order, whatever the bytes are, if and only if no call with room is too
  short for what is left (`Streams.SwappedInOrderIff`).
* The count of half periods of a mark is kept in 16 bits (`src/user/signal.c:68`). An emission keeps to
  its error bound if and only if the counts of all its marks fit (`Signal.EmissionError`), as they do for
  times of one or two bytes (`Signal.ShortTimesAreCountable`).
* The edge counter that `signal_receive` compares with the length of the buffer never advances
  (`src/user/signal.c:163`), so a capture ends only by a timeout, or at an edge when there is no buffer at
  all (`Captures.Ends`, which `Signal.Station.Receive` ensures); `time_write` drops what does not fit
  (`Signal.Station.TimeWrite`).
* `data_write_auto` does not count its padding in the position (`src/user/config.c:45`), so texts may
  overlap in flash, and the position is never set back, so that after enough saves they leave the sector
  that is erased. Texts of given lengths are restored by the next load, whatever they are and whatever
  the flash held, if and only if they lie in that sector, where the head must begin, and their regions
  are disjoint (`FlashConfig.RestoredIff`); the paddings decide whether they are
  (`FlashConfig.PaddingDecides`).
  `FlashConfig.PaddingFails` and `FlashConfig.SavesLeaveTheSector` are saves that fail.
* The update receiver notices that the firmware is complete only with the next chunk
  (`Update.DoneIff`).
* The UART ring uses 257 positions, from 0 to `RX_BUFF_SIZE` inclusive (`src/driver/uart.c:205`), of which one stays free (`Uart.OneMore`).

## Model

| member | source | states |
|---|---|---|
| Bytes.WordOfBytes | src/user/util.c:642-658 | a 16-bit number is read off two bytes of the wire if and only if they are its big-endian bytes |
| Bytes.LongWordOfBytes | src/user/util.c:642-658 | the same for 32 bits |
| Streams.PlacedInTwo | src/user/util.c:642-658 | storing part of a primitive and later the rest is storing it at once |
| Streams.PlacedWhole | src/user/util.c:642-658 | a completed primitive is its wire bytes in memory order, its neighbours untouched |
| Streams.ReadChunksIsOneRead | src/user/util.c:642-658 | over any fragmentation a read stores source byte k in its slot, is complete exactly when enough bytes came, and then has position 0 |
| Streams.SurplusIsUnread | src/user/util.c:642-658 | a completed read has used no more buffers than it needed, and the surplus of the last one is still unread |
| Streams.WriteChunksConcat | src/user/util.c:660-676 | an unswapped write cut into buffers of any size puts out the bytes of the primitive in order, as far as there is room |
| Streams.SwappedWriteStaysInRoomIff | src/user/util.c:664-670 | a swapped write keeps to the room left if and only if there is none or enough for all that is left of the primitive |
| Streams.SwappedWriteWhole | src/user/util.c:664-670 | with enough room it puts the wire order, from where it stands, into the buffer |
| Streams.SwappedInOrderIff | src/user/util.c:660-676 | with several buffers all primitives of a length come out in wire order if and only if no call that has any room is too short for what is left |
| Streams.WriteThenRead | src/user/util.c:642-676 | what a whole write has put into a buffer is read back unchanged under any fragmentation, in either byte order |
| Streams.SplitWriteThenRead | src/user/util.c:642-676 | for unswapped streams also when the write was cut into several buffers |
| Streams.Stream.Data | src/user/util.h:235-239 | a new buffer; a read in progress goes on |
| Streams.Stream.Reset | src/user/util.h:240-243 | the read in progress is forgotten, the buffer rewound |
| Streams.Stream.Begin | src/user/util.c:618-624 | how many bytes can be moved now |
| Streams.Stream.End | src/user/util.c:626-635 | cursor and position move; a complete primitive resets the position |
| Streams.Stream.CopyIn | src/user/util.c:642-658 | the byte-swapping loop stores exactly the placed bytes |
| Streams.Stream.CopyOut | src/user/util.c:660-676 | the byte-swapping loop writes exactly the swapped bytes |
| Streams.Stream.ReadPrimitive | src/user/util.c:642-658 | one call is one step of the fragmented read |
| Streams.Stream.Read | src/user/util.c:678-682 | the same without swapping |
| Streams.Stream.WritePrimitive | src/user/util.c:660-676 | what is written, where, and whether it is complete, in both byte orders |
| Streams.Stream.Write | src/user/util.c:684-688 | as many bytes as there is room for, in order |
| Requests.ScanPrefix | src/user/server.c:262-356 | parsing more bytes never revises what fewer bytes have settled |
| Requests.RequestPrefix | src/user/server.c:262-356 | what is read off a complete payload does not depend on what follows |
| Requests.EncodedIsAccepted | src/user/server.c:212-356 | every well-formed request, followed by anything, is accepted at its last byte and decoded to itself |
| Requests.AcceptedIsEncoded | src/user/server.c:212-356 | what is accepted has a legal type, a length field that counts the payload and a payload in its bounds: it is the encoding of a well-formed request |
| Requests.JudgePrefix | src/user/server.c:245-259 | on every proper prefix of an accepted request the server waits |
| Requests.FragmentationIndependence | src/user/server.c:212-356 | however the stream is cut, empty fragments included, all calls wait but the one that holds the last byte, which accepts and leaves the rest |
| Requests.AcceptedIffEncoded | src/user/server.c:212-356 | under every fragmentation a request is accepted if and only if the stream begins with its encoding and it is well formed |
| Requests.ConclusiveStreamsAreDecidedAlike | src/user/server.c:245-254 | once the payload can be judged by itself, accepting and rejecting are the same under every fragmentation |
| Requests.InconclusiveStreamIsRejectedIff | src/user/server.c:247-253 | before that, a request is rejected exactly when a fragment ends where the length field says the request should |
| Requests.RejectionDependsOnFragments | src/user/server.c:247-253 | a stream that one fragmentation rejects and another does not |
| RequestStates.ImageOfTimes | src/user/server.c:283-290 | reading part of a time changes the buffer as the whole-request image says |
| RequestStates.ImageOfName | src/user/server.c:316-320 | the same for the name |
| RequestStates.ImageOfSsid | src/user/server.c:333-336 | the same for the ssid |
| RequestStates.ImageOfPassword | src/user/server.c:349-352 | the same for the password, behind the ssid |
| RequestStates.TimesInBuffer | src/user/server.c:283-290 | after an accepted send request the buffer holds its times as the processor reads them, and behind them what it held before |
| RequestStates.TextsInBuffers | src/user/server.c:313-352 | after an accepted configuration request the bytes of name, ssid and password lie in the two buffers |
| RequestStates.TextsAreFound | src/user/server.c:305-352 | and the recorded size of the name and the references to the texts, as every call of the parser keeps them, lead exactly to the texts of the request |
| RequestStates.WritesPastTheBufferIff | src/user/server.c:274-288 | bytes are stored behind the buffer exactly when more than 128 times have begun to arrive, whether the request is accepted or rejected in the end |
| RequestStates.TooManyTimesAreAccepted | src/user/server.c:274-288 | requests for 129 to 256 times are accepted and stored past the end |
| RequestStates.ScanIsShort | src/user/server.c:245-246 | no payload is long enough for the 16-bit count of payload bytes to wrap |
| RequestStates.PayloadOutcome | src/user/server.c:245-254 | comparing the count with the length field settles the verdict of the decoder |
| RequestStates.FieldsStep | src/user/server.c:215-272 | a partly read field of the request struct holds exactly the bytes that have come |
| RequestParsing.RequestReader.ReadRequest | src/user/server.c:212-260 | every call comes to the verdict of the one-shot decoder on all bytes so far, and reads up to where that verdict is; the references to the texts are kept, and after an accepted configuration the recorded size of the name is the one in the request |
| RequestParsing.RequestReader.ReadHead | src/user/server.c:213-223 | type and length are read, or all bytes are used up |
| RequestParsing.RequestReader.ReadPayload | src/user/server.c:224-256 | from the payload on, the verdict of the decoder, the references to the texts and the size of a name that has been read |
| RequestParsing.RequestReader.ReadBody | src/user/server.c:229-243 | the sub-parser for the type does what the scan says; references and size of the name as above |
| RequestParsing.RequestReader.CheckLength | src/user/server.c:245-254 | the count of payload bytes and its comparison |
| RequestParsing.RequestReader.ReadSend | src/user/server.c:262-294 | a send payload under any fragmentation |
| RequestParsing.RequestReader.ReadSendHead | src/user/server.c:265-281 | frequency and count, and the bound that is checked |
| RequestParsing.RequestReader.ReadTimes | src/user/server.c:283-290 | the loop over the times |
| RequestParsing.RequestReader.ReadConfig | src/user/server.c:301-356 | a configuration payload under any fragmentation; references and size of the name as above |
| RequestParsing.RequestReader.ConfigName | src/user/server.c:305-321 | the name, and its bound |
| RequestParsing.RequestReader.ConfigSsid | src/user/server.c:322-337 | the ssid |
| RequestParsing.RequestReader.ConfigPassword | src/user/server.c:338-353 | the password, and its bound; references and size of the name as above |
| RequestParsing.RequestReader.Reset | src/user/server.c:158-164 | a new request begins with all states and fields zero, the buffers keep their bytes |
| Responses.CaptureDecodes | src/user/server.c:468-538 | the length field counts exactly what follows the head, and a client recovers the number of times and each of them |
| Responses.HeadDecodes | src/user/server.c:468-478 | a client reads exactly the type and the length off a head |
| Responses.BeaconDecodes | src/user/server.c:100-128 | a listener recovers port and name from exactly the frames that are beacons |
| Responses.SwappedTimesAreEncoded | src/user/server.c:515-535 | byte-swapping the buffer on its way out is encoding its times |
| Responses.WriteHead | src/user/server.c:468-478 | type and length are appended to the output as a client reads them (Responses.HeadDecodes) |
| Responses.CaptureWriter.WriteCapture | src/user/server.c:488-538 | for up to 128 times the whole response of 9 + 2n bytes is written with no short write |
| Responses.CaptureWriter.WriteCount | src/user/server.c:499-513 | frequency and count |
| Responses.CaptureWriter.WriteTimes | src/user/server.c:515-535 | the loop over the times |
| Responses.PackBeacon | src/user/server.c:100-128 | the beacon if its name fits, none otherwise |
| WorkerRuns.StepKeepsWF | src/user/server.c:153-204 | what every event keeps: phase, switch states, timers and interrupt fit together |
| WorkerRuns.RunsFollowTheRules | src/user/server.c:176-204 | over every sequence of events: a request is accepted only when none is pending, it is emitted at most once with its own times and its own frequency, which then can be sent, answered at most once, with the type and length that its client waits for, and only after its emission, and its configuration is applied with its own texts |
| WorkerRuns.PhasesAdvance | src/user/server.c:169-204 | between two resets phases only advance, over every event |
| WorkerRuns.ReadyAfterFinishIff | src/user/server.c:193-198 | a finishing worker is ready after its next run if and only if its type is legal |
| WorkerRuns.IllegalTypeIsForever | src/user/server.c:548-563 | otherwise it never is, and does nothing any more but arm its timer again |
| WorkerRuns.IllegalTypeIsReached | src/user/server.c:239-242 | a request with the type of a response gets any ready worker there |
| WorkerRuns.AnsweredIff | src/user/server.c:390-466 | a processed request is answered in the same run if and only if the send lock is open, the client is there, and the frequency of a send request has a half period |
| WorkerRuns.HaltsIff | src/user/server.c:390-435 | the same run halts the processor if and only if that frequency has none, or the lock is open and there is no client |
| WorkerRuns.OnlyProcessingHalts | src/user/server.c:176-204 | no other run halts it |
| WorkerRuns.HaltedIsForever | src/user/server.c:176-204 | nothing follows a halt |
| WorkerRuns.BadFrequencyHalts | src/user/signal.c:67-75 | a request for a frequency of 0 or above 500000 is accepted by any ready worker and halts it |
| WorkerRuns.SecondRequestHalts | src/user/server.c:153-155 | so does a second request after the first has been answered and before another client has come |
| WorkerRuns.NoResponseAfterSent | src/user/server.c:425-466 | from the first sent event on no run brings a response |
| WorkerRuns.RespondingUntilDisconnect | src/user/server.c:463-464 | a worker held by the lock stays where it is until a disconnect |
| WorkerRuns.ReceiveIsJudged | src/user/server.c:591-598 | a receive event does what the verdict on all bytes says |
| WorkerRuns.FragmentedRequestIsAccepted | src/user/server.c:591-616 | the whole worker, too, accepts a request at its last byte under every fragmentation, whatever other events but a disconnect come in between, and does nothing before |
| WorkerRuns.InterruptedRequestIsAccepted | src/user/server.c:591-616 | the same from any state in which part of a request has been read |
| WorkerRuns.ReadyAcceptsIff | src/user/server.c:153-158 | when an event makes a ready worker accept a request: the fragment received, or one left from before |
| WorkerRuns.SentRepeatsTheRequest | src/user/server.c:600-604 | a send request that came in one fragment to a ready worker with an open lock and a client, for a frequency that can be sent, is emitted twice, with the same frequency and times |
| WorkerRuns.ConfiguresIff | src/user/server.c:548-574 | a finishing worker applies a configuration exactly when the type says so |
| WorkerRuns.BrokenOffConfigurationIsApplied | src/user/server.c:565-574 | a configuration request that breaks off is applied with empty texts |
| WorkerRuns.EmissionHasLeftovers | src/user/server.c:390-400 | what is emitted is the times of the request and then what the buffer held before |
| WorkerRuns.CaptureReachesTheClient | src/user/server.c:488-538 | what a client that is there decodes from the response is what was captured, up to 128 times |
| WorkerServices.ClientIsServed | src/user/server.c:576-616 | a ready worker with an open lock takes a client, and over the events that its request takes accepts it, does what it asks for, sends the answer that this client can read, and is ready and at rest again |
| WorkerServices.SendIsServed | src/user/server.c:390-400 | for a send request: accepted, emitted with its own frequency and times, acknowledged, reset |
| WorkerServices.ReceiverIsArmed | src/user/server.c:402-415 | a receive request has armed the receiver once the timer has fired |
| WorkerServices.ReceiveIsServed | src/user/server.c:402-419 | for a receive request: accepted, and at the signal answered with what was captured, reset |
| WorkerServices.ConfigIsServed | src/user/server.c:548-574 | for a configuration: accepted, acknowledged, applied with its own texts, reset |
| WorkerServices.LockedClientIsHeld | src/user/server.c:437-466 | a client that is taken while the lock is set gets no answer, and its worker waits to respond |
| WorkerServices.LateClientIsSentAway | src/user/server.c:576-581 | a client that comes while a request is processed is not taken |
| WorkerServices.RejectedIsReset | src/user/server.c:169-172 | a rejected request of a legal type is forgotten when the timer has fired, with nothing emitted or answered |
| WorkerServices.DisconnectIsReset | src/user/server.c:606-609 | so is any request when its client has gone away |
| WorkerSignals.SameTimes | src/user/signal.c:77-120 | the times that the station stores and reads are those that the response is written from |
| WorkerSignals.CaptureInBuffer | src/user/signal.c:99-120 | a capture is seen by the worker as its times in front of what the buffer held |
| WorkerSignals.EmissionLasts | src/user/signal.c:139-151 | every emission of a run lasts as long as its 128 slots say, but for less than half a period for each mark |
| WorkerSignals.CapturedDurations | src/user/signal.c:153-192 | the captured times are the durations between the edges, the first 128 of them, unchanged; if there are no more they add up to the time from start to last edge |
| WorkerSignals.ClientSeesTheDurations | src/user/server.c:488-538 | a client decodes exactly these durations from the response, with the same sum |
| WorkerSignals.ClientSeesTheSignal | src/user/signal.c:153-192 | of a whole signal a client sees one duration for each change of the level, up to 128, and each is the time between neighbouring changes |
| WorkerSignals.Play | src/user/signal.c:139-151 | the station plays all 128 slots of the worker's buffer, or there is no half period |
| WorkerSignals.Listen | src/user/signal.c:153-192 | the station captures into the worker's buffer, with the timeouts of the server, and up to the sample that ends the signal |
| WorkerObject.Worker.Stop | src/user/server.c:169-172 | finishing, with the timer armed |
| WorkerObject.Worker.Reset | src/user/server.c:153-167 | the whole state after a reset, the forgotten socket included |
| WorkerObject.Worker.WorkerRun | src/user/server.c:176-204 | the fall-through switch does one step of the machine |
| WorkerObject.Worker.Request | src/user/server.c:181-184 | reading a request and what follows |
| WorkerObject.Worker.ReadIn | src/user/server.c:212-260 | what the verdict of the parser means for the worker |
| WorkerObject.Worker.Process | src/user/server.c:358-388 | processing and what follows |
| WorkerObject.Worker.SendSignal | src/user/server.c:390-400 | the station is given the request's frequency and the whole buffer, and the pin is driven accordingly; without a half period the processor halts |
| WorkerObject.Worker.StartReceiver | src/user/server.c:402-415 | the receiver is armed, its cursor that of the worker's buffer, which is at the start |
| WorkerObject.Worker.SendBuffer | src/user/server.c:425-435 | what is sent, if the lock allows it and there is a client; with an open lock and no client the processor halts |
| WorkerObject.Worker.WriteResponse | src/user/server.c:440-461 | the response that belongs to the type |
| WorkerObject.Worker.Respond | src/user/server.c:437-466 | responding and what follows |
| WorkerObject.Worker.FinishRequest | src/user/server.c:548-563 | finishing and the reset behind it |
| WorkerObject.Worker.ApplyConfig | src/user/server.c:565-574 | the callback gets the two texts the parser located |
| WorkerObject.Worker.ReceiveEvent | src/user/server.c:591-598 | the event does one step of the machine |
| WorkerObject.Worker.SentEvent | src/user/server.c:600-604 | the event does one step of the machine |
| WorkerObject.Worker.TimerEvent | src/user/server.c:206-210 | the event does one step of the machine |
| WorkerObject.Worker.DisconnectEvent | src/user/server.c:606-609 | the event does one step of the machine |
| WorkerObject.Worker.SignalEvent | src/user/server.c:611-616 | the event does one step of the machine |
| WorkerObject.Worker.SampleEvent | src/user/signal.c:207-213 | the interrupt, with the sampling loop run on the worker's own buffer, does the step of a signal event with the times that the samples show |
| WorkerObject.Worker.ConnectEvent | src/user/server.c:576-589 | the event does one step of the machine |
| WorkerObject.Worker.HandleAll | src/user/server.c:576-616 | over any list of events the object does what the machine does over the run |
| WorkerObject.PowerOn | src/user/server.c:130-147 | from power-on everything the object has done keeps the rules |
| Update.CodedSliceIsExact | src/network/update.c:82-110 | none of the mixed 16-bit and 32-bit wrapping changes which bytes are taken |
| Update.WindowGrows | src/network/update.c:82-110 | a further chunk adds exactly its part of the window |
| Update.StepKeepsInv | src/network/update.c:39-116 | state, flag, position and what was delivered fit together over every callback |
| Update.WindowDelivered | src/network/update.c:39-116 | over every run and chunking a busy receiver has delivered exactly the window of what came, and reboot happens only after all of it |
| Update.RunsAreSessions | src/network/update.c:39-116 | over every run from boot, state, position and delivered bytes are those that the events alone call for: the chunks since the client was taken, up to the one that finishes, unless it has gone away |
| Update.UploadIsDelivered | src/network/update.c:82-110 | over any chunking of an upload the position is the number of bytes that have come, and exactly their window has been handed over |
| Update.UploadReboots | src/network/update.c:85-116 | when the firmware is there, one more chunk finishes the update with exactly its bytes handed over, and the timer reboots |
| Update.DoneIsForever | src/network/update.c:39-116 | nothing leads out of the done state or delivers anything in it |
| Update.DoneIff | src/network/update.c:82-110 | a busy receiver becomes done exactly on a chunk that comes when everything has been delivered |
| Update.Receiver.Accept | src/network/update.c:39-61 | the callback does one step |
| Update.Receiver.Disconnect | src/network/update.c:63-73 | the callback does one step |
| Update.Receiver.Expire | src/network/update.c:75-80 | the callback does one step |
| Update.Receiver.Receive | src/network/update.c:82-110 | the callback, in its own number widths, does one step |
| Update.Receiver.Pass | src/network/update.c:82-110 | the slice that is handed to the flash writer is the part inside the window |
| Update.Receiver.Reboot | src/network/update.c:112-116 | the callback does one step |
| Update.Receiver.constructor | src/network/update.c:35-36 | the receiver is ready, and writes to the image that is not running |
| Update.Receiver.HandleAll | src/network/update.c:39-116 | over any list of events the callbacks do what the machine does over the run |
| Update.Boot | src/network/update.c:22-116 | so from boot the receiver is where the events alone say |
| HashTable.PutLaws | src/user/util.c:500-523 | a put is seen through every equal key and by no other, keeps keys apart, and grows the map exactly when the key was new |
| HashTable.RemoveLaws | src/user/util.c:535-551 | the same for remove |
| HashTable.IntTableIsAMap | src/user/util.c:390-464 | for numbers under == the table is an ordinary map |
| HashTable.OnePlace | src/user/util.c:553-573 | equal keys are the key of one entry in one place |
| HashTable.WalkFinds | src/user/util.c:553-573 | a walk through one bucket decides whether an equal key is stored anywhere |
| HashTable.AppendKeeps | src/user/util.c:500-523 | an entry added to its bucket keeps the table in order |
| HashTable.RemoveKeeps | src/user/util.c:535-551 | an entry taken out keeps the table in order |
| HashTable.VisitsOnce | src/user/util.c:575-600 | a visit comes to every key exactly once |
| HashTable.Table.Find | src/user/util.c:553-573 | the entry of the key, the one before it, and the bucket |
| HashTable.Table.Lookup | src/user/util.c:525-529 | the value of the class of the key |
| HashTable.Table.Contains | src/user/util.c:531-533 | whether there is one |
| HashTable.Table.Insert | src/user/util.c:500-523 | returns the old value and is a put of the map |
| HashTable.Table.AddEntry | src/user/util.c:508-522 | a new entry is linked behind the last of its bucket |
| HashTable.Table.Delete | src/user/util.c:535-551 | returns the old value and is a remove of the map |
| HashTable.Table.Unlink | src/user/util.c:539-547 | the entry leaves its chain, all others stay |
| HashTable.Table.Visit | src/user/util.c:575-600 | the entries, bucket by bucket, with the values of the map |
| LinkedList.WithoutFirstAt | src/user/util.c:280-300 | what removing the first occurrence leaves |
| LinkedList.List.AddFirst | src/user/util.c:248-255 | the list is a sequence with the element in front |
| LinkedList.List.AddLast | src/user/util.c:257-265 | and with the element at the end |
| LinkedList.List.RemoveFirst | src/user/util.c:267-278 | without its first, if it has one |
| LinkedList.List.RemoveFind | src/user/util.c:280-300 | without exactly the first occurrence, in the same order |
| LinkedList.List.Visit | src/user/util.c:302-308 | every element once, in order |
| Rings.NextSlotIsFreeIff | src/user/util.c:198-201 | the next slot is unused exactly when the ring is not full, else it is that of the oldest element |
| Rings.PutAppends | src/user/util.c:198-201 | a put appends to the view, across the end of the array |
| Rings.RemoveDrops | src/user/util.c:209-212 | a remove drops the oldest |
| Rings.Ring.Put | src/user/util.c:198-201 | the view and the history of the ring after a put |
| Rings.Ring.Remove | src/user/util.c:209-212 | the view and the history after a remove: first in, first out |
| Rings.Ring.Poll | src/user/util.c:203-207 | the oldest element |
| Rings.Ring.PollSlot | src/user/util.c:336-340 | the slot of the oldest element, which it still holds |
| Rings.Ring.Visit | src/user/util.c:351-356 | every element once, oldest first |
| Rings.EqualsArray | src/user/util.c:218-225 | equality of a slice of the view with an array, both ways |
| Signal.HalfPeriodIsExactIff | src/user/signal.c:39-48 | half the period is positive and fits its 16-bit field exactly for 8 to 500000 Hz |
| Signal.HalfPeriodIff | src/user/signal.c:39-48 | there is a half period at all, exact or not, exactly for 1 to 500000 Hz |
| Signal.HalfPeriodFits | src/user/signal.c:39-48 | two half periods, in whole microseconds, are as long as a period of the frequency allows |
| Signal.DelayOfMark | src/user/signal.c:67-75 | a mark lasts the whole half periods that fit its time if and only if their count fits 16 bits |
| Signal.TogglesAlternate | src/user/signal.c:67-75 | the pin goes 1, 0, 1, ... in a mark |
| Signal.EmissionError | src/user/signal.c:139-151 | an emission is never longer than its times, and shorter by less than half a period for each mark if and only if the counts of all marks fit 16 bits |
| Signal.EmissionShows | src/user/signal.c:62-75 | in an emission the pin is low during every space for exactly its time, high and low in turn for half a period each during every mark, and low after each of them |
| Signal.ShortTimesAreCountable | src/user/signal.c:67-97 | they do for times of one or two bytes |
| Captures.DurationsTelescope | src/user/signal.c:153-192 | the captured durations add up to the time from the start to the last edge |
| Captures.ChangesCounted | src/user/signal.c:179-188 | there are as many durations as samples that see another level than the one before |
| Captures.DurationsUpTo | src/user/signal.c:179-188 | up to each change they add up to the time since the start |
| Captures.DurationBetween | src/user/signal.c:179-188 | each duration is the time between neighbouring changes |
| Captures.WholeSignalIsSampled | src/user/signal.c:166-178 | a signal whose changes are close enough and that is short enough is sampled to its end |
| Captures.Elapsed | src/user/signal.c:167-170 | the differences of the 32-bit readings are the times that have passed |
| Captures.CaptureConserves | src/user/signal.c:153-192 | a capture that fits is stored without loss and adds up to less than the signal timeout, for any clock that does not go back |
| Captures.CutIsLossless | src/user/signal.c:99-120 | nothing is lost in the narrow store of a duration below the pulse timeout, if that fits |
| Signal.Station.Init | src/user/signal.c:39-48 | the half period, the reading position |
| Signal.Station.EmitMark | src/user/signal.c:67-75 | the loop of a mark; without a half period nothing comes out and the division fails |
| Signal.Station.EmitSpace | src/user/signal.c:62-65 | a space takes its time exactly |
| Signal.Station.TimeRead | src/user/signal.c:77-97 | the next time, as wide as it is stored |
| Signal.Station.Send | src/user/signal.c:139-151 | the whole buffer is emitted, marks and spaces in turn, if there is a half period; otherwise the first mark fails |
| Signal.Station.TimeWrite | src/user/signal.c:99-120 | a time is appended, or nothing changes when the buffer is full |
| Signal.Station.Receive | src/user/signal.c:153-192 | the first durations, as many as fit, are stored, each below the pulse timeout, nothing behind the buffer; when all fit they add up to the time from start to last edge, below the signal timeout; and why it stops |
| Signal.Station.Sample | src/user/signal.c:165-189 | one turn of the sampling loop, with the clock modulo 2^32 |
| Uart.OneMore | src/driver/uart.c:198-218 | one byte more, in a ring that is full or not |
| Uart.KeptMore | src/driver/uart.c:198-218 | which bytes are kept after one more |
| Uart.RcvMsgBuff.Receive | src/driver/uart.c:198-218 | the body of the loop keeps the last 256 bytes in order |
| Uart.RcvMsgBuff.Interrupt | src/driver/uart.c:193-219 | so does any interrupt; the state changes exactly when a carriage return or a line feed has come, and then stays |
| FlashConfig.HeadRoundTrip | src/user/config.h:24-34 | the stored head is read back field by field |
| FlashConfig.BlankTakes | src/user/config.c:25-33 | erased flash takes any data |
| FlashConfig.KeptBehind | src/user/config.c:25-33 | a write changes nothing elsewhere |
| FlashConfig.AutoStart | src/user/config.c:38-43 | the address arithmetic finds the next word of four bytes |
| FlashConfig.PaddingDecides | src/user/config.c:35-48 | the texts are disjoint in flash exactly when the padding does not shrink from one that is there to the next |
| FlashConfig.PaddingFails | src/user/config.c:35-48 | from any word of four bytes on, a name of three bytes and an ssid of one put ssid and password in the same place, and some are not restored |
| FlashConfig.SaveThenLoad | src/user/config.c:50-118 | whatever the flash held and wherever the position stood, texts in disjoint regions of the sector are restored by the next load |
| FlashConfig.PowerCycle | src/user/config.c:50-118 | the same for the methods: saved by one object and loaded by a fresh one on the same flash, name, ssid and password are back |
| FlashConfig.OverlapIsLost | src/user/config.c:92-104 | when regions overlap, texts of these lengths that writing does not leave in the flash |
| FlashConfig.OutsideIsLost | src/user/config.c:35-48 | a text that reaches out of the erased sector is lost on a flash that was not erased there |
| FlashConfig.RestoredIff | src/user/config.c:50-118 | all texts of given lengths are restored, on every flash of a size and from every position, if and only if they lie in the erased sector and their regions are disjoint; for the head it is enough that its magic number and version lie there |
| FlashConfig.RefLost | src/user/config.c:81-118 | where the head crosses the end of the sector, a reference is lost or leads to a text that is |
| FlashConfig.NothingIsRestored | src/user/config.c:50-118 | three empty texts are restored as soon as the mark of the head is |
| FlashConfig.SavesLeaveTheSector | src/user/config.c:45 | after enough saves of texts of the same lengths the next one is not always restored |
| FlashConfig.FindsIff | src/user/config.c:16-23 | when data_read yields a text whatever the buffer held |
| FlashConfig.AcceptedIff | src/user/config.c:53-62 | a flash is accepted exactly if the bytes of the magic number, the version and three lengths with room for them stand at their places |
| FlashConfig.TextOfZeroFilled | src/user/config.c:96-97 | a zero-filled field gives its text back |
| FlashConfig.Config.DataRead | src/user/config.c:16-23 | the bytes a reference leads to, or nothing |
| FlashConfig.Config.DataWrite | src/user/config.c:25-33 | the flash after a write |
| FlashConfig.Config.DataWriteAuto | src/user/config.c:35-48 | the aligned place, the flash and the position after it |
| FlashConfig.Config.SaveTexts | src/user/config.c:92-104 | the three texts and their references |
| FlashConfig.Config.Save | src/user/config.c:81-118 | flash, head and position after a save |
| FlashConfig.Config.Load | src/user/config.c:50-79 | when a flash is accepted, and every buffer after it |
| FlashConfig.Config.LoadRestores | src/user/config.c:50-79 | name, ssid and password are back, zero-filled |

## Left out

- The calls into the SDK (sockets, timers, interrupts, GPIO, flash, upgrade, restart) are events, logs, an array of flash and a sequence of samples; flash operations succeed wherever there is flash.
- `src/user/network.c`, `src/network/socket.c`, `src/network/beacon.c`, `src/user/user_main.c`, `src/test` and `src/debug` only connect the parts that are modelled to the SDK.
- `src/user/util.c:41-97` and `src/user/util.c:107-154`: the string matchers, character helpers and array searches would add easy members only.
- `list_clear`, `int_table_clear`, `hash_table_clear` and the functions that destroy: memory is never given back in the model, and allocation does not fail.
- Streams.Stream.ReadPrimitive: reading with no destination, into the stream's own primitive buffer (`src/user/util.c:637-640`), is not modelled; the server never does it.
- Streams.Stream.WritePrimitive: where a short swapped write reaches past the buffer, the model has memory there; what else might lie in it is not modelled. The server's writes are proved never to be short.
- WorkerObject.Worker.ApplyConfig: the beacon that is packed at this point (`src/user/server.c:568`) is proved separately in Responses.PackBeacon and is not part of the worker's state.
- WorkerObject.Worker.ReceiveEvent: the data of an event is assumed to stay unchanged until the next one, which the parse of a stale fragment relies on.
- WorkerObject.Worker.ConnectEvent: which client a socket belongs to is not modelled, nor that a client may be gone before its socket is forgotten; what the SDK does about an exception, a restart, is not modelled either.
- RequestParsing.RequestReader.ConfigPassword: where the buffer's cursor ends (`src/user/server.c:351`) is not stated; nothing reads it before the next reset.
- RequestParsing.RequestReader.ConfigSsid: the bound on the ssid (`src/user/server.c:325`) can never be exceeded by one length byte, so that branch is proved away.
- Signal.Station.Receive: the clock does not go back, moves by less than 2^32 microseconds less the signal timeout between two samples, and gets past the signal timeout some time; without the last the loop of the firmware does not end either.
- FlashConfig.Config.Save: `strlen` stops at the end of the field instead of running into the memory behind it, which gives the same length after the minimum is taken as long as it fits 16 bits.
- FlashConfig.RestoredIff: is about a flash of less than 2^32 bytes, which 32-bit addresses can reach.
- HashTable.Table.Insert: values are always present, so a stored NULL, which the firmware cannot tell from no value, is not modelled; nor is a 16-bit size that wraps.
- Liveness: no eventual response is claimed, see WorkerRuns.NoResponseAfterSent.
