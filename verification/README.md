# A model of the smartwin security-chip link

The program talks to a security chip over a serial line. Four layers stack on one another, and
this project models each of them and proves what holds of the stack.

* **Transport** (`Timer.dfy`, `Transport.dfy`, `Lines.dfy`): reads and writes that make partial
  progress under a countdown, and the two ways of cutting the byte stream into lines. The
  operating system is a class, `Transport.Line`, whose methods hand over or accept any chunk, time
  out, are interrupted or fail, as they like; its monotonic clock advances with each call, and it
  keeps a record of the waits it was told to make and of its failures.
* **Framing** (`Framing.dfy`, `ErrorDetection.dfy`, `Receiver.dfy`, `Comm.dfy`): the frame format
  STX, command, direction, two length bytes, payload, ETX, exclusive or; sending a frame; and the
  receive thread, which hunts for STX and makes four chained reads through one scratch buffer,
  each of which may fall short.
* **Mailboxes and fields** (`Mailboxes.dfy`, `Devices.dfy`, `Fields.dfy`): the callback that routes
  frames to five queues, the client calls that read a queue in one step and erase from it in a
  later one while the callback goes on pushing, and the parameter blocks of requests and replies.
* **Whole system** (`Bus.dfy`, `Pipeline.dfy`): any number of threads with their locks on one line,
  and the layers put together end to end.

`Bytes.dfy` holds bytes, exclusive or on natural numbers digit by digit, and its algebra.

The parts of the program that work in place are classes and methods with loops
(`Transport.SerialImpl`, `Lines.Serial`, `Comm.SmartwinComm`, `Devices.SmartwinDevices`,
`Fields.Block`, `Timer.MillisecondTimer`). Each method is proved against a function or a step
system, and the lemmas are about that function or step system. For instance
`Comm.SmartwinComm.CmdRecvThread` ends, for every pattern of short and timed-out reads, where
`Receiver.Receive` says, and `Receiver` proves soundness, resynchronisation and exact delivery of
that function. `Devices.SmartwinDevices` carries its history as ghost state and is shown to be a
run of the step system of `Mailboxes` whatever frames arrive between two steps of a call.

## Where the code departs from its evident intent

The model keeps the code as it is. In each case the exact condition is proved.

* A payload read may put more bytes into the scratch buffer than it has (`include/smartwin_comm.h:43`,
  `src/smartwin_comm.cpp:131-133`). The model stops with `Overrun` there. `Receiver.OverrunIff` says
  when a pass does, and `Receiver.OverrunPossibleIff` which streams can make one: a length field
  above 1024 is not enough, more than 1024 bytes must arrive
  before the read times out. A stalled frame with a larger length field does no harm, and
  `Receiver.StalledFrameSkipped` says what becomes of it, with `Receiver.OversizeHeaderHarmless` as
  an instance. `Receiver.DeliverableIff` says that a request arrives as itself if and only if it has
  at most 1024 parameter bytes.
* The two length bytes of a request hold sixteen bits, while the parameters are appended whole
  (`src/smartwin_devices.cpp:63-68`): `Framing.RequestWellFormedIff`. The same kind of cut in the
  length fields of parameter blocks: `Fields.RoundTripIff`, `Fields.LvarExact`.
* The reply loop compares an unsigned command byte with an `int8_t` (`src/smartwin_devices.cpp:72,
  80`). Answers to codes from 0x80 on never match and are thrown away by the very call that waits
  for them: `Mailboxes.AnswerReturnedIff`, `Mailboxes.HighReplyDropped`, `Pipeline.ReplyPipeline`.
* The reply loop erases from the vector its range-for walks over (`src/smartwin_devices.cpp:79-109`).
  `Devices.LiteralScanIff` says for which queues the loop as written agrees with the loop as meant
  (look at the front, take it off, stop at a match); `Mailboxes` and `RecvFromList` model the latter.
* The touch position is moved to the other origin in unsigned arithmetic
  (`src/smartwin_devices.cpp:495-511`), so the test `y < 0` never holds: a reported height above
  239 comes out as 239 and not as 0. `Devices.TouchExact` has the condition.
* A write makes its first wait without looking whether its countdown has run down already, and cuts
  the negative number of milliseconds that is then left to thirty-two bits
  (`src/serial/unix.cpp:625-634`). `Transport.SerialImpl.Write` says for which waits that happens: the
  first one, exactly if it begins after the end of the countdown. `Transport.LateFirstWait` shows that one
  millisecond is enough for a wait of forty-nine days.
* The two line readers disagree for terminators with a border (a proper prefix that is also a
  suffix), because reading all lines at once looks for the terminator in the whole buffer and not
  in the current line: `Lines.AgreeIffBorderFree`.

## Model

| member | source | states |
|---|---|---|
| `Framing.XorCheck` | src/smartwin_comm.cpp:60-66 | the accumulating loop computes the exclusive or of all bytes; see `ErrorDetection.XorAllIsColumnParity` for what that is |
| `Framing.RequestWellFormedIff` | src/smartwin_devices.cpp:58-70 | the length field of a request tells the truth if and only if the parameters are fewer than 65536 bytes |
| `Framing.RequestOnWire` | src/smartwin_devices.cpp:58-70 | what goes onto the line for a request, byte by byte: 0x02, command, 0x2F, two length digits, the parameters, 0x03, check byte |
| `Framing.BareRequest` | src/smartwin_devices.cpp:58-70 | the seven bytes of a request without parameters, with the value of its check byte |
| `Framing.WirePrefixFree` | src/smartwin_comm.cpp:73-82 | two streams that agree and begin with a wire frame each begin with the same frame and go on alike |
| `Framing.WiresInjective` | src/smartwin_comm.cpp:68-98 | a concatenation of wire frames determines the list of bodies |
| `Framing.RequestStreamInjective` | src/smartwin_devices.cpp:58-70 | the bytes sent for a list of requests determine command and parameters of all of them |
| `ErrorDetection.XorAllIsColumnParity` | src/smartwin_comm.cpp:60-66 | bit j of the check byte is the parity of the number of ones in bit column j |
| `ErrorDetection.XorAllDamage` | src/smartwin_comm.cpp:60-66 | the check byte of a damaged string is that of the string combined with that of the damage |
| `ErrorDetection.AcceptedIffColumnsEven` | src/smartwin_comm.cpp:142-152 | damage that spares the length bytes is accepted if and only if ETX is intact and each of the eight bit columns, over command, direction, data and check byte, has an even number of flips |
| `ErrorDetection.OddFlipsRejected` | src/smartwin_comm.cpp:142-152 | any odd number of flipped bits is rejected, for every payload length |
| `ErrorDetection.BurstsRejected` | src/smartwin_comm.cpp:142-152 | any non-zero burst of at most eight consecutive bits, in the order the line sends them, is rejected |
| `Receiver.PassSound` | src/smartwin_comm.cpp:116-158 | what one pass delivers is exactly the wire encoding of its frame at the interval it consumed, for any short reads |
| `Receiver.ReceiveSound` | src/smartwin_comm.cpp:105-158 | on every byte stream and every pattern of short or timed-out reads the delivered frames come from disjoint, increasing intervals, each exactly the wire encoding of its frame |
| `Receiver.OverrunIff` | src/smartwin_comm.cpp:116-136 | the buffer is overrun exactly by a start byte with a complete header whose length field exceeds 1024, if more than 1024 bytes follow and none of the three reads times out before |
| `Receiver.OverrunPossibleIff` | src/smartwin_comm.cpp:105-158 | a stream can overrun the buffer, under some pattern of short reads and timeouts, if and only if somewhere in it STX and a header with a length field above 1024 are followed by more than 1024 bytes |
| `Receiver.StalledFrameSkipped` | src/smartwin_comm.cpp:131-158 | a frame whose payload falls silent early, whatever length its header claims, costs only the bytes that came; the loop goes on behind them and delivers what follows |
| `Receiver.OversizeHeaderHarmless` | src/smartwin_comm.cpp:131-136 | a header that claims 2000 bytes, of which three come, does not keep the next frame from being delivered |
| `Receiver.LineReceived` | src/smartwin_comm.cpp:105-158 | on a line of noise without STX and candidate frames, the loop delivers in order exactly the bodies with right ETX and check byte, and reads everything |
| `Receiver.DamagedItem` | src/smartwin_comm.cpp:142-152 | nothing is delivered of a damaged frame if and only if ETX is hit or a bit column is odd |
| `Receiver.DamagedFrameDropped` | src/smartwin_comm.cpp:105-158 | resynchronisation: a frame with detectable damage is dropped whole and everything around it is delivered as if it had not been there |
| `Receiver.RequestsDelivered` | src/smartwin_comm.cpp:105-158 | requests of at most 1024 parameter bytes, with noise between them, are delivered as exactly their bodies, once each, in order |
| `Receiver.DeliverableIff` | include/smartwin_comm.h:43 | a single request arrives as its own body if and only if it has at most 1024 parameter bytes |
| `Receiver.AmpleGrants` | src/smartwin_comm.cpp:116-141 | reads that yield all they ask for, in whatever chunks they were gathered, lead to the same run |
| `Comm.SmartwinComm.SendCmd` | src/smartwin_comm.cpp:68-98 | the line takes a prefix of the wire frame; the code is 0 if and only if it took all of it, -110 if and only if the port is closed, -1 only if the countdown of the write ran down; an exception escapes only if the system failed |
| `Comm.SmartwinComm.Fetch` | src/smartwin_comm.cpp:116-141 | a read into the scratch buffer puts the next bytes of the stream at its front and consumes just these; it falls short only by using up a countdown, and throws only if the system failed |
| `Comm.SmartwinComm.ReceiveOnce` | src/smartwin_comm.cpp:111-158 | one turn of the thread does what the pass function says for the reads that happened, hands the callback exactly the frame delivered, and consumes something unless a read used up its countdown |
| `Comm.SmartwinComm.ReceiveRest` | src/smartwin_comm.cpp:131-157 | the same for the half of the turn behind the header, for every length field, up to the point where the buffer is overrun |
| `Comm.SmartwinComm.CmdRecvThread` | src/smartwin_comm.cpp:101-170 | after any number of turns the callback has been given exactly what the receive function delivers for the reads that happened, soundly, and the stream stands where that function says; every turn makes progress while input waits, except those in which a read used up its countdown, and the clock shows how many these can be; a run ends early only by an overrun or a failure of the system |
| `Comm.PassExtends` | src/smartwin_comm.cpp:105-158 | a further pass extends a run of the receive function, and keeps its intervals disjoint and increasing |
| `Timer.MillisecondTimer.constructor` | src/serial/unix.cpp:59-71 | the expiry is normalized and is exactly now plus the milliseconds, for every 32-bit count |
| `Timer.MillisecondTimer.Remaining` | src/serial/unix.cpp:73-80 | what is left is the exact difference in nanoseconds, cut to whole milliseconds towards zero |
| `Timer.CountdownExact` | src/serial/unix.cpp:59-80 | a countdown never shows more than it was set to, never grows, and shows zero or less if and only if less than a millisecond is left |
| `Timer.FromMsExact` | src/serial/unix.cpp:99-106 | milliseconds become a normalized time without loss |
| `Timer.FromMsInjective` | src/serial/unix.cpp:99-106 | different counts of milliseconds become different times |
| `Transport.SerialImpl.Read` | src/serial/unix.cpp:533-607 | the buffer receives exactly the next n bytes of the line, whatever the chunks, and nothing else changes; the system is asked at least once; n is short only once constant plus multiplier times size, cut to 32 bits, has run down in milliseconds; every wait is for exactly what is left of that, or for the inter-byte timeout if that is less; it throws only if the system failed; over-reading is unreachable and the loop ends |
| `Transport.SerialImpl.ReadReady` | src/serial/unix.cpp:562-583 | takes the next chunk of the line into the buffer behind what has been read |
| `Transport.SerialImpl.Write` | src/serial/unix.cpp:609-695 | the line takes exactly the first n bytes of the data, whatever it accepts at a time; a write is attempted whatever the timeouts; n is short without exception only once the whole countdown has run down; every wait is for exactly what is left of it, unless it is the first and begins later; it throws only if the system failed; over-writing is unreachable and the loop ends |
| `Transport.SerialImpl.WriteReady` | src/serial/unix.cpp:657-687 | the line takes the next chunk behind what it has taken |
| `Transport.WaitOutlasts` | src/serial/unix.cpp:636-658 | a wait for what a countdown has left, cut to 32 bits, outlasts the countdown if it times out, also when the countdown is already negative |
| `Transport.LateFirstWait` | src/serial/unix.cpp:625-634 | a first wait that begins one millisecond after the countdown has run down is for 4294967295 milliseconds |
| `Lines.Serial.Readline` | src/serial/serial.cpp:176-201 | returns the first line of what arrived before the line fell silent and consumes just that; a line that is neither terminated nor full has been waited for until the countdown of a read ran down |
| `Lines.Serial.Readlines` | src/serial/serial.cpp:211-250 | returns all lines, within the budget, of what arrived before the line fell silent, and consumes just these bytes; less than the budget only after the countdown of a read ran down |
| `Lines.EndsWithIff` | src/serial/serial.cpp:191-193 | the window test holds if and only if the buffer is something followed by the terminator |
| `Lines.NoOverlap` | src/serial/serial.cpp:190-193 | occurrences of a border-free terminator never overlap |
| `Lines.WindowStaysInLine` | src/serial/serial.cpp:231-238 | for a border-free terminator, looking in the whole buffer finds just what looking in the current line finds |
| `Lines.LinesAgree` | src/serial/serial.cpp:176-250 | for a border-free terminator both ways of reading give the same lines on every stream and budget |
| `Lines.BordersDisagree` | src/serial/serial.cpp:231-238 | for every terminator with a border there is a stream on which they differ |
| `Lines.AgreeIffBorderFree` | src/serial/serial.cpp:176-250 | the two ways agree on all streams and budgets if and only if the terminator has no border |
| `Lines.CutAtEveryEnd` | src/serial/serial.cpp:231-238 | reading all lines at once cuts the stream behind every occurrence of the terminator, overlapping ones included |
| `Lines.AllLinesPartition` | src/serial/serial.cpp:211-250 | for every terminator the lines are the bytes read, cut into non-empty pieces, and are no more than the budget |
| `Lines.LinesTerminated` | src/serial/serial.cpp:211-250 | with a border-free terminator each line but possibly the last ends in it, and no line has it anywhere else |
| `Fields.WordRoundTrip` | src/smartwin_devices.cpp:1074-1077 | the four bytes of a 32-bit number read back as that number |
| `Fields.WordBigEndian` | src/smartwin_devices.cpp:91-94 | the first byte of a number is its highest |
| `Fields.FieldRoundTrip` | src/smartwin_devices.cpp:1079-1083 | a field reads back as its value, whatever follows it, if and only if it has room for the value |
| `Fields.RoundTripIff` | src/smartwin_devices.cpp:1071-1098 | a block of any fields reads back as its values if and only if each field has room for its value |
| `Fields.DecodeSound` | src/smartwin_devices.cpp:578-587 | whatever can be read off a block is what the builders would have written there, to the byte |
| `Fields.EncodeInjective` | src/smartwin_devices.cpp:1071-1098 | blocks whose values fit are prefix-free |
| `Fields.LvarExact` | src/smartwin_devices.cpp:122-146 | the slice behind a one-byte (two-byte) length is the value written if and only if it is shorter than 256 (65536) bytes |
| `Fields.ReadTracks` | src/smartwin_devices.cpp:572-590 | the track reader finds exactly the three fields of a well-formed reply, and runs beyond the reply on all others |
| `Fields.FormatTracks` | src/smartwin_devices.cpp:600-617 | the bytes of the three tracks behind their one-byte lengths; they read back if and only if no track is longer than 255 bytes |
| `Fields.EncodeAppend` | src/smartwin_devices.cpp:1071-1098 | pushing a field at the end of a block is encoding the longer list of fields |
| `Fields.Block.PushWord` | src/smartwin_devices.cpp:1074-1077 | four shifted bytes append a 32-bit field to what the block encodes |
| `Fields.Block.PushFixed` | src/smartwin_devices.cpp:1645-1647 | appends a field of fixed width |
| `Fields.Block.PushLvar` | src/smartwin_devices.cpp:1657-1660 | appends a field behind a one-byte length |
| `Fields.Block.PushLlvar` | src/smartwin_devices.cpp:1079-1083 | appends a field behind a two-byte length |
| `Fields.UpdateWorkKey` | src/smartwin_devices.cpp:1071-1098 | the bytes of index, three keys behind two-byte lengths, and mode; they read back if and only if each key is shorter than 65536 bytes |
| `Fields.SerialDownload` | src/smartwin_devices.cpp:1639-1688 | the bytes of the ten fields, by name and in order; they read back if and only if each has room for its value |
| `Mailboxes.RunKeeps` | src/smartwin_devices.cpp:20-48 | every step of callback and client keeps the invariant of queues, fates, results and the client's position |
| `Mailboxes.RoutingTable` | src/smartwin_devices.cpp:20-47 | which queue a frame goes to, for every frame, in bytes |
| `Mailboxes.RoutedIsArrivals` | src/smartwin_devices.cpp:20-48 | what was routed to a queue is, in order, the arrivals whose command and direction call for it |
| `Mailboxes.QueuesConserve` | src/smartwin_devices.cpp:20-48 | in every run each frame that arrived for a queue has left it with one fate or is still queued, in order, and a queue holds only its own, well-formed frames |
| `Mailboxes.KeysLinearize` | src/smartwin_devices.cpp:404-424 | keys returned since the last clear followed by the keys queued are exactly the keys that arrived since |
| `Mailboxes.ReturnsIncrease` | src/smartwin_devices.cpp:404-517 | in every run the frames returned from a queue are strictly increasing in arrival number: none twice, none out of order |
| `Mailboxes.NewestIsFresh` | src/smartwin_devices.cpp:660-694 | a newest-wins result is a frame that arrived after the call began to watch |
| `Mailboxes.NewestIsLast` | src/smartwin_devices.cpp:488-493 | the frame read is the last of all that had arrived at the read step |
| `Mailboxes.WatchStartsAtClear` | src/smartwin_devices.cpp:666-672 | a status check watches, for 2000 attempts, from behind all frames that had arrived when it cleared the queue, whatever arrives while it sends its request |
| `Mailboxes.RepliesMatched` | src/smartwin_devices.cpp:72-120 | a returned reply is the earliest frame, queued at the start or arrived since, that answers the command; all before it were dropped; the code is below 0x80 |
| `Mailboxes.RepliesConserve` | src/smartwin_devices.cpp:72-120 | queue at the start ++ arrivals == frames dropped ++ reply returned ++ queue at the end, none of the dropped being one that the call could return; the same without a reply for a call that gives up |
| `Mailboxes.FrameReached` | src/smartwin_devices.cpp:74-114 | no reply is overlooked: under any interleaving of arrivals and client steps, a wait that is bound to come to a frame decides on it at exactly the computed step, returning the first that matches and dropping the others |
| `Mailboxes.AnswerReturnedIff` | src/smartwin_devices.cpp:72-114 | under any interleaving, an answer that the wait comes to is returned if and only if the code is below 0x80, and dropped otherwise |
| `Mailboxes.WaitUnderwayOrOver` | src/smartwin_devices.cpp:74-120 | under any interleaving a wait is under way without result, or has ended with one result behind which the queue stands |
| `Mailboxes.NothingOverlooked` | src/smartwin_devices.cpp:74-120 | a call that gives up has dropped whatever had arrived when it still had an attempt before it |
| `Mailboxes.GivesUpLate` | src/smartwin_devices.cpp:73-119 | under any interleaving a call gives up only after it has made all its attempts |
| `Mailboxes.SilentWait` | src/smartwin_devices.cpp:73-119 | on a queue that stays empty a wait makes exactly 2000 attempts before it gives up |
| `Mailboxes.NoReplyDrains` | src/smartwin_devices.cpp:105-109 | in every run a call that gave up had dropped every frame it passed, none of which answered its command if the code is below 0x80 |
| `Mailboxes.MatchesIff` | src/smartwin_devices.cpp:80 | a frame matches if and only if it answers the command and the code is below 0x80 |
| `Mailboxes.HighReplyDropped` | src/smartwin_devices.cpp:72-109 | in every run each frame with a code from 0x80 on that has left the reply queue was dropped |
| `Mailboxes.CallsEnd` | src/smartwin_devices.cpp:74-114 | every step of a call brings it closer to its end and no arrival puts the end off |
| `Devices.SmartwinDevices.Callback` | src/smartwin_devices.cpp:20-47 | the frame joins the end of the queue that its first two bytes call for, given in bytes for all five queues, and the other queues stay as they are; this is the arrival step of the step system |
| `Devices.SmartwinDevices.Interfere` | src/smartwin_devices.cpp:20-47 | arrivals between two steps of a client only extend queues |
| `Devices.SmartwinDevices.SendRequestCmd` | src/smartwin_devices.cpp:58-70 | with code 0 the line has gained, byte by byte, 0x02, command, 0x2F, length digits, parameters, 0x03 and check byte; otherwise a proper prefix, and on an open port only because the countdown ran down or the system failed |
| `Devices.RequestNeverAnswers` | src/smartwin_devices.cpp:61-64 | no request is taken for an answer to any command |
| `Devices.SmartwinDevices.KeyboardClearCache` | src/smartwin_devices.cpp:392-402 | afterwards the key queue holds exactly the keys that have arrived since the call began; `02 33 2F 00 00 03 1C` goes out, unless the system fails or a timeout runs out; the code is that of the reply, or -121 |
| `Devices.SmartwinDevices.KeyboardGetInput` | src/smartwin_devices.cpp:404-424 | returns the key of the front as the call found it, and erases that frame and no other, whatever arrives in between |
| `Devices.SmartwinDevices.TpGetTouchCoordinate` | src/smartwin_devices.cpp:477-516 | returns the newest position as the call found it and leaves the queue empty |
| `Devices.TouchExact` | src/smartwin_devices.cpp:495-511 | positions are on the screen, and where they should be if and only if the reported height is at most 239 |
| `Devices.TouchRoundTrip` | src/smartwin_devices.cpp:495-511 | the coordinates that the device puts into a touch frame are what the caller gets, cut to the screen and with the height turned over |
| `Devices.SmartwinDevices.SearchCardGetStatus` | src/smartwin_devices.cpp:861-889 | returns what the newest search frame, as the call found it, holds, and leaves the queue empty |
| `Devices.CardRoundTrip` | src/smartwin_devices.cpp:871-884 | status, type and key byte that the device put into a search frame are what the caller gets: the signed status, the type, and the key exactly for odd types; of a bare status word the status |
| `Devices.StatusWordExact` | src/smartwin_devices.cpp:91-97 | shifting and adding four bytes in signed 32-bit arithmetic gives their two's-complement value |
| `Devices.SmartwinDevices.IcCardCheckStatus` | src/smartwin_devices.cpp:660-694 | sends its request and returns the signed status of a frame that arrived after the clear at its start, or -121 after 2000 attempts, whatever arrives in between |
| `Devices.SmartwinDevices.PollIcStatus` | src/smartwin_devices.cpp:672-693 | the polling loop of that call |
| `Devices.StatusRoundTrip` | src/smartwin_devices.cpp:681-685 | the status that the device puts into a card status frame is what the caller gets, as a signed number |
| `Devices.SmartwinDevices.RecvFromList` | src/smartwin_devices.cpp:72-120 | the nested loop, with arrivals between read and erase, is one call of the step system: it adds one reply for this command and returns its signed status, and all its data exactly if that is zero, or -121 if it has no status; or one failure with -121 after 2000 attempts; the queue then stands right behind that reply, or behind the frames dropped |
| `Devices.ReplyOfIs` | src/smartwin_devices.cpp:74-103 | code and data of a reply in numbers; -121 for a reply without a status word |
| `Devices.SmartwinDevices.ScanQueue` | src/smartwin_devices.cpp:79-110 | one pass over the queue returns its first match with the queue right behind it, or none, with one attempt less |
| `Devices.SmartwinDevices.TakeFront` | src/smartwin_devices.cpp:80-108 | takes off the front it looked at and no other frame, whatever arrives in between |
| `Devices.LiteralScanIff` | src/smartwin_devices.cpp:79-110 | the loop that erases what it walks over does what is meant if and only if the queue has at most one frame, or its front matches, or a later frame happens to repeat the reply at double its place |
| `Bus.RunKeeps` | src/smartwin_comm.cpp:84-86 | every move keeps lock owners right and the line a sequence of whole or cut frames |
| `Bus.NoInterleaving` | src/smartwin_comm.cpp:68-98 | with any number of senders the output is always ended sends, whole or cut short, and at most one prefix in progress; each stands in one piece behind those that ended before; one with code 0 stands there whole; no two threads are inside the write |
| `Bus.EndedOnLine` | src/smartwin_comm.cpp:84-86 | where on the line each ended send is found |
| `Bus.SuccessfulSends` | src/smartwin_comm.cpp:84-97 | if all sends reported success the line has taken exactly their wire frames, in the order in which they ended |
| `Bus.LockOrder` | src/smartwin_comm.cpp:113-158 | a thread waits only for a lock of higher rank than all it holds: bus before queue, read or write mutex |
| `Bus.OwnerGoesOn` | src/serial/serial.cpp:35-64 | the owner of a lock can go on, or waits for an inner lock whose owner can |
| `Bus.NoDeadlock` | src/smartwin_comm.cpp:113-158 | in every state that any number of threads reach, a thread not at rest can go on, or the owner of the lock it waits for can, or the owner of the lock that one waits for |
| `Bus.MovesEnd` | src/smartwin_comm.cpp:68-158 | every move within a call brings its thread closer to rest and moves no other |
| `Bus.RestIsReached` | src/smartwin_comm.cpp:68-158 | without new calls the moves are bounded by the work there was, and no move is possible any more if and only if all threads are at rest |
| `Bus.StuckIffAtRest` | src/smartwin_comm.cpp:68-158 | in every state that keeps the invariant, nothing can move if and only if no thread is in a call |
| `Pipeline.ThreadDelivers` | src/smartwin_comm.cpp:101-158 | when the thread has worked through requests with noise around them, in any chunks and without timeouts, it has delivered exactly the bodies, once each, in order |
| `Pipeline.ReceiveRequests` | src/smartwin_comm.cpp:101-158 | the thread, run over a line that carries requests with noise around them, uses up the line and gives the callback exactly the bodies, once each, in order, unless the system fails or a read uses up its countdown |
| `Pipeline.ConcurrentSendsDelivered` | src/smartwin_comm.cpp:68-158 | bodies sent by any number of threads at once, all with success, are received whole in the order in which the sends ended |
| `Pipeline.ReplyRead` | src/smartwin_devices.cpp:88-103 | the caller gets the two's-complement value of the four status bytes, and exactly the data if and only if it is zero |
| `Pipeline.ReplyDelivered` | src/smartwin_comm.cpp:113-152 | a response behind noise is delivered as one frame |
| `Pipeline.ReplyReturned` | src/smartwin_devices.cpp:43-109 | a frame that answers the command of a waiting client, whatever is queued before it and arrives around it, is returned if and only if its code is below 0x80 and its command is not one of the four diverted to event queues |
| `Pipeline.ArrivalOnTrack` | src/smartwin_devices.cpp:43-109 | the next frame for the reply queue is one that a waiting client with an attempt left is bound to come to, within a bounded number of steps |
| `Pipeline.ReplyPipeline` | src/smartwin_comm.cpp:113-152 | from the bytes on the line to the caller, for any status, at most 1020 bytes of data, and any interleaving: the answer is delivered as one frame, ends the wait if and only if the code is below 0x80 and not diverted, and yields the signed status, with the data exactly if that is zero |
| `Pipeline.KeyReturned` | src/smartwin_devices.cpp:20-25 | a key frame that arrives at an empty key queue, with any frames behind it, is what the next call returns: 0 and its eighth byte |

## Left out

How to read the model:

- Bytes are numbers from 0 to 255 and other integers unbounded, with the program's cuts to 8, 16 and 32 bits and its unsigned wrap-around written out where they occur.
- The timer's floating-point steps are exact for 32-bit milliseconds and are modelled as integer arithmetic with rounding towards zero.
- A log of reads lists how many bytes each yielded; a number above every length field stands for a read that was not cut short, and an empty log for a run without timeouts.
- The scratch buffer of the model goes on behind its 1024 bytes, so that a read which overruns it can be told from one that only asks for more; the run ends with the first that does.
- Each vector operation is atomic, and one client thread drains the queues; `Bus` has any number of threads but no queue contents.
- Where the program would read beyond a short frame, the model returns no value. Of a search frame with exactly four payload bytes it returns the code and no card type.
- Silence on the line while `readline` or `readlines` reads a byte ends the stream, as it ends the call; the window that starts before the buffer counts as no match.

Weaker than the source, or not captured:

- Comm.SmartwinComm.CmdRecvThread: a run ends with the first exception inside the locked section. In the program the bus mutex is then held for good: the thread blocks on it at its next turn with input, or has died of an exception it does not catch, and delivers nothing more. That every turn makes progress is stated for a line whose queries answer with more than none while bytes wait; the program takes the system at its word there.
- Comm.SmartwinComm.ReceiveRest: is the second half of a loop body that the program has in one piece.
- Transport.SerialImpl.ReadReady: is part of the loop body of the read, which the program has in one piece; so are `WriteReady` of the write, `TakeFront` and `ScanQueue` of `RecvFromList`, and `PollIcStatus` and `TakeIcStatus` of `IcCardCheckStatus`.
- Lines.Serial.Readline: a size of zero is excluded, because the program then writes past an empty buffer.
- Devices.SmartwinDevices.RecvFromList: models the scan as meant; `Devices.LiteralScanIff` says when the loop as written agrees with it.
- Bus.NoDeadlock: holds for runs without exceptions, because an exception between lock and unlock leaves the bus locked for good.
- Fields.Block.PushByte: the block class stands for the runs of `push_back` that each request builder repeats.

Not modelled:

- Opening and closing the port, its settings and modem lines: foreign calls without an algorithm of their own.
- The C interface: thin wrappers over headers that are not part of this model.
- The sixty or so commands that send a constant and wait, and the remaining request builders: further instances of the same field schema.
- `mifare_card_authentication`: it writes only the high byte of a length, which no reader could use.
- Meaning of the cryptographic commands, which the device computes.
- Splitting of files and bitmaps into numbered packets, which only comments describe.
- Logging, sleeping, the interactive menu, and the memory model of unlocked reads.
