# Telnet protocol engine of rexmu-telnet, in Dafny

This project models the protocol engine of the rexmu-telnet Deno Telnet
server and proves properties of it. The engine has four parts:

- **Framing** (`codec.dfy`, `utils.dfy`). `TelnetMessage` is a value with a
  kind (DATA, COMMAND, NEGOTIATION, SUBNEGOTIATION) and its bytes.
  - The `from*` constructors serialise outgoing messages.
  - `FromBytes` peels the next complete message off a byte buffer. When it
    needs more input, it returns no message and `bytesRead` 0.
  - The byte scanners (`scanUntilIAC`, `scanUntilIACSE`,
    `scanForLineEndings`) are each a specification function plus the loop
    the source runs, proved equal to it. `appendBytes` is a method on arrays.
- **Option negotiation** (`protocol.dfy`). Each option has a local and a
  remote perspective, and each perspective has an `enabled` and a
  `negotiating` flag. These are classes whose fields the methods update in
  place.
  - `onNegotiate` is given twice: once as the transition function
    `Negotiate`, and once as the method `TelnetOption.OnNegotiate`. The
    method is proved to carry out that transition on the flags, the
    pending signals (`Awaitable`) and the session's outgoing queue.
  - `startNegotiation` is modelled the same way, with the function `Start`.
  - The two concrete options, Suppress-Go-Ahead (option 3) and
    Negotiate-About-Window-Size (option 31), are the cases of the
    `OptionKind` datatype.
  - A session (`TelnetProtocol`) dispatches negotiations and
    subnegotiations, assembles incoming DATA into lines cut at CR LF, and
    normalises outgoing text to CR LF line endings.
- **Stream stages** (`transform.dfy`).
  - The incoming stage appends each chunk to a buffer and enqueues every
    complete message.
  - The outgoing stage turns each message into one chunk.
  - Each stage switches on a zlib object after a particular
    subnegotiation. The zlib object is abstract: a function from the bytes
    written to it so far and a new chunk to what a write plus a flush makes
    readable.
  - The loops are proved against the functions `Drain` and `OutRun`. The
    lemmas about those functions state the byte bookkeeping and the exact
    switch-over point.

`codes.dfy` holds the byte type and the Telnet code constants that the
model uses, with the values of `src/codes.ts`. `wrappers.dfy` holds
`Option`, and `seqs.dfy` holds one sequence fact shared by the proofs.

Bytes are the `byte` newtype `0 <= b < 256`. A source `Uint8Array` that is
always replaced and never written in place is modelled as a `seq<byte>`
field that the methods reassign. `appendBytes` keeps its arrays. A JS
`undefined` result is an `Option`.

## Where the code departs from the Telnet standards

The model follows the code in every case below.

- **DONT is routed to the remote perspective.** Under RFC 854 ("General
  Considerations" and "Telnet Command Structure"), a received DO or DONT
  asks the receiver about its own side of the option, and a received WILL
  or WONT concerns the sender's side. The code routes DO and WONT to the
  local perspective, and WILL and DONT to the remote one
  (src/protocol.ts:125-166).
  - `Route` and `Negotiate` model this.
  - `SGAWillDoesNotSettle` shows one consequence. Suppress-Go-Ahead opens
    its local perspective with DO, but a peer's WILL addresses the remote
    perspective. So the WILL is refused and the local signal stays
    pending.
- **An accepted peer request never sets `enabled`.** Under RFC 854, an
  acknowledged request puts the option into effect for that side. When
  the code accepts a peer's enable request, it calls the enable callback
  and then `sendNegotiate`, but never assigns `enabled`
  (src/protocol.ts:186-189). `AcceptedRequestLeavesDisabled` states this
  for DO on Suppress-Go-Ahead. (As written, that callback call fails
  before the reply is sent; see `Protocol.TelnetOption.OnNegotiate` under
  "Left out".)
- **Subnegotiation payloads are not escaped.** RFC 855 requires a 255
  byte inside subnegotiation parameters to be doubled. `fromSubNegotiate`
  copies the payload as it is (src/codec.ts:64-70). So
  `SubNegotiateRoundTrip` needs an option and a payload free of IAC.
- **The subnegotiation accessors read one byte too far.** RFC 855 frames
  a subnegotiation as `IAC SB <option> <parameters> IAC SE`, so the
  option is byte 2 and the parameters start at byte 3. For a
  SUBNEGOTIATION, `getOption` reads index 3 and `getSub` returns index 4
  up to the closing IAC SE, while `fromSubNegotiate` stores the option at
  index 2 (src/codec.ts:30-70). `SubnegotiationAccessors` states what the
  accessors return on a constructed message.
- **The compression triggers test the wrong byte.** In the MUD Client
  Compression Protocol (MCCP versions 2 and 3), compression starts right
  after `IAC SB MCCP2 IAC SE` (or `IAC SB MCCP3 IAC SE`). Both stages
  instead test the byte at index 4 (src/transform.ts:40,
  src/transform.ts:95). So that standard sequence switches on nothing
  (`StandardStartIgnored`).
- **Not every buffer yields a message.** A buffer that starts
  `IAC SB IAC SE` scans to length 4. It never yields a message, however
  many bytes follow (`StuckSubnegotiation`).
- **Teardown only frees.** The outgoing `flush` frees the encoder without
  writing out any bytes it still holds (src/transform.ts:105-119).
- **The incoming decoder is a `ZlibEncoder`.** `enableMCCP3` constructs a
  `ZlibEncoder` as its decoder (src/transform.ts:60). The abstract
  `zlib` function of the incoming stage stands for whatever that object
  produces.
- **The registration test is always false.** `option in this.options`
  tests the properties of a `Map` object, not its keys
  (src/protocol.ts:422, src/protocol.ts:447).
  - The model takes the lookup's outcome as the parameter
    `registered: TelnetOption?`. `null` means not registered.
  - So the model states both the dispatch path and the refusal path.

## Model

| member | source | states |
|---|---|---|
| Utils.UntilIAC | src/utils.ts:4-11 | the index of the first IAC byte, or the length when there is none; no earlier byte is IAC |
| Utils.ScanUntilIAC | src/utils.ts:4-11 | the `for` loop with early return computes the first IAC index |
| Utils.ScanIACSEFromFinds | src/utils.ts:13-31 | scanning from an even-IAC position visits no second half of an escaped pair and stops exactly after the first unescaped IAC SE, or finds none |
| Utils.UntilIACSE | src/utils.ts:13-31 | -1 exactly when no unescaped IAC SE exists (so always for fewer than 2 bytes); otherwise 2 <= k <= length, bytes k-2 and k-1 are IAC SE, unescaped, and no unescaped IAC SE starts earlier |
| Utils.ScanUntilIACSE | src/utils.ts:13-31 | the `while` loop that advances by one or two bytes returns the first unescaped IAC SE end |
| Utils.AppendBytes | src/utils.ts:33-38 | a fresh array of the summed length holding the original bytes followed by the new ones |
| Utils.LineEndFrom | src/utils.ts:45-54 | the least CR LF position at or after i, or -1 when none exists there |
| Utils.LineEnd | src/utils.ts:45-54 | -1 exactly when the data holds no CR LF; otherwise the least index of a CR LF pair |
| Utils.ScanForLineEndings | src/utils.ts:45-54 | the `for` loop with `break` returns the least CR LF index, or -1 |
| Codec.TelnetMessage.GetOption | src/codec.ts:30-39 | defined only for NEGOTIATION and SUBNEGOTIATION, and then a byte of the message |
| Codec.TelnetMessage.GetCommand | src/codec.ts:41-49 | defined only for COMMAND and NEGOTIATION, and then a byte of the message; `CommandAccessors` and `NegotiationAccessors` pin it to the command byte |
| Codec.TelnetMessage.GetSub | src/codec.ts:51-58 | defined exactly for SUBNEGOTIATION; the message is its first four bytes, the payload and its last two bytes (empty for a message shorter than 6) |
| Codec.FromBytes | src/codec.ts:80-134 | bytesRead never exceeds the buffer; a message is returned exactly when bytesRead > 0; the message was read from exactly the first bytesRead bytes; a subnegotiation spans at least 5 bytes |
| Codec.NeedMoreInput | src/codec.ts:80-109 | an empty buffer, a lone IAC, or IAC plus a verb without its option byte gives no message and bytesRead 0 |
| Codec.TwoByteMessages | src/codec.ts:99-122 | IAC IAC is a DATA message holding one 255 with bytesRead 2; IAC followed by a byte that is not IAC, a verb or SB is a 2-byte COMMAND |
| Codec.NegotiationMessage | src/codec.ts:103-110 | IAC, a verb and an option byte give the NEGOTIATION of exactly those 3 bytes |
| Codec.SubnegotiationMessage | src/codec.ts:111-119 | IAC SB gives the SUBNEGOTIATION of the first k bytes, where k is the scan result, when k >= 5; otherwise no message and bytesRead 0 |
| Codec.DataMessage | src/codec.ts:126-132 | a buffer not starting with IAC gives its longest IAC-free prefix as DATA, of length at least 1 |
| Codec.StuckSubnegotiation | src/codec.ts:111-117 | a buffer starting IAC SB IAC SE never yields a message, whatever follows |
| Codec.NegotiateRoundTrip | src/codec.ts:60-110 | a serialised negotiation reparses as itself, with bytesRead 3 |
| Codec.CommandRoundTrip | src/codec.ts:72-122 | a serialised command that is not IAC, a verb or SB reparses as itself, with bytesRead 2 |
| Codec.DataRoundTrip | src/codec.ts:76-132 | non-empty IAC-free data reparses as itself, with all bytes read |
| Codec.SubNegotiateRoundTrip | src/codec.ts:64-119 | a serialised subnegotiation with no IAC in option or payload reparses as one SUBNEGOTIATION of all its 5 + n bytes |
| Codec.ScanIACSEFromExtends | src/utils.ts:13-31 | once the scan finds a terminator, appending bytes does not move it |
| Codec.FromBytesExtends | src/codec.ts:86-124 | every message that starts with IAC is self-delimiting: more input yields the same message and bytesRead |
| Codec.NegotiationAccessors | src/codec.ts:30-62 | a constructed negotiation answers its own code and option and has no payload |
| Codec.SubnegotiationAccessors | src/codec.ts:30-70 | on a constructed subnegotiation, getOption gives the first payload byte (or the closing IAC) and getSub drops that byte; there is no command |
| Codec.CommandAccessors | src/codec.ts:30-74 | a constructed command answers its own command byte, and has no option and no payload |
| Codec.DataAccessors | src/codec.ts:30-78 | a DATA message answers no accessor |
| Codec.FromNegotiate | src/codec.ts:60-62 | no contract of its own: the three bytes `IAC code option`; `NegotiationAccessors` and `NegotiateRoundTrip` state what reading it back gives |
| Codec.FromSubNegotiate | src/codec.ts:64-70 | no contract of its own: `IAC SB option`, the payload undoubled, then `IAC SE`; `SubnegotiationAccessors`, `SubNegotiateRoundTrip` and `SubNegotiateStart` state what reading it back gives |
| Codec.FromCommand | src/codec.ts:72-74 | no contract of its own: the two bytes `IAC command`; `CommandAccessors` and `CommandRoundTrip` state what reading it back gives |
| Codec.FromData | src/codec.ts:76-78 | no contract of its own: the payload as it is; `DataAccessors` and `DataRoundTrip` state what reading it back gives |
| Protocol.TelnetOptionState.constructor | src/protocol.ts:46-54 | two distinct fresh perspectives, neither enabled nor negotiating |
| Protocol.Awaitable.constructor | src/utils.ts:56-66 | a new signal is not triggered |
| Protocol.Awaitable.Trigger | src/utils.ts:68-72 | afterwards the signal is triggered |
| Protocol.TelnetOptionPerspective.constructor | src/protocol.ts:46-49 | a new perspective is neither enabled nor negotiating |
| Protocol.OptionPolicies | src/protocol.ts:231-274 | the policy of `OptionKind`: Suppress-Go-Ahead (code 3) allows and starts only the local direction, NAWS (code 31) only the remote one; each option starts exactly the direction it allows |
| Protocol.Route | src/protocol.ts:125-166 | a perspective is selected exactly for the four verbs: DO and WONT select the local one, WILL and DONT the remote one |
| Protocol.Negotiate | src/protocol.ts:115-201 | onNegotiate as a transition; its own contract: a reply is only ever sent to a verb, is itself a verb, and speaks about the same direction (WILL or WONT to a verb routed local, DO or DONT otherwise); `NegotiateSpec` states the whole table |
| Protocol.NegotiateSpec | src/protocol.ts:115-201 | the whole onNegotiate table: other codes change nothing; a verb touches only its own perspective; completing our own request sends nothing and sets enabled to whether the peer agreed; a peer enable is answered with exactly one accept or refuse and never assigns enabled; a peer disable is confirmed exactly when the perspective was enabled; the pending signal is triggered exactly when it exists and the verb either enables (completing our request or allowed for the peer) or refuses our own request on a disabled perspective, and in no other case (not for a disable of an enabled perspective, a refused peer enable or any peer disable); in every case without an enable callback (a refused peer enable, a peer disable, a disable completing our own request) the pending signal is kept as it was |
| Protocol.DisableSettles | src/protocol.ts:193-199 | loop avoidance: answering the same disable request a second time sends nothing and changes nothing |
| Protocol.StartOpensSignals | src/protocol.ts:215-226 | startNegotiation opens a pending signal and sets negotiating on exactly the perspectives the policy starts, with one request sent for each |
| Protocol.StartedDirectionSettles | src/protocol.ts:168-226 | after startNegotiation, a verb addressing a started perspective is not answered, clears negotiating and triggers its signal |
| Protocol.Start | src/protocol.ts:215-226 | startNegotiation as a function: DO is sent exactly when the local direction is started and WILL exactly when the remote one is, and nothing else; a started direction becomes negotiating with a pending signal and keeps its enabled flag; the other direction is unchanged |
| Protocol.SGAWillDoesNotSettle | src/protocol.ts:136-248 | Suppress-Go-Ahead sends DO; a peer's WILL then goes to the remote perspective, is refused with DONT and leaves the local signal pending |
| Protocol.AcceptedRequestLeavesDisabled | src/protocol.ts:186-189 | DO on Suppress-Go-Ahead is answered WILL while local enabled stays false |
| Protocol.Refusal | src/protocol.ts:422-438 | a reply exists exactly for the four verbs; it is always WONT or DONT, and DONT exactly for WILL and WONT |
| Protocol.Negotiations | src/protocol.ts:211-226 | one NEGOTIATION message per verb, in order, for the given option |
| Protocol.Replies | src/protocol.ts:186-199 | at most one message, and one exactly when there is a reply: the negotiation carrying that reply for the option |
| Protocol.SplitLines | src/protocol.ts:455-467 | no contract of its own: the lines cut at each CR LF, first to last, and the partial line left; `SplitLinesJoin` and `SplitLinesCuts` state that nothing is lost and every CR LF is cut |
| Protocol.SplitLinesJoin | src/protocol.ts:455-467 | cutting a buffer into lines loses nothing: the lines, each followed by CR LF, then the rest give back the buffer |
| Protocol.SplitLinesCuts | src/protocol.ts:455-467 | every CR LF is cut: neither a line nor the rest holds one |
| Protocol.CutFirstLine | src/protocol.ts:459-465 | proof step for the `HandleData` loop: cutting off the first line and splitting the remainder gives the same lines and rest as splitting the whole buffer |
| Protocol.NoLineLeft | src/protocol.ts:460 | proof step for the `HandleData` loop: a buffer without CR LF yields no line and stays as it is |
| Protocol.StripCR | src/protocol.ts:543 | the result holds no CR, is no longer than the input, and equals an input that has no CR |
| Protocol.StripCRConcat | src/protocol.ts:543 | dropping CRs distributes over concatenation |
| Protocol.ExpandLF | src/protocol.ts:544 | the result is no shorter than the input and never starts with a lone LF |
| Protocol.ExpandLFConcat | src/protocol.ts:544 | expanding LFs distributes over concatenation |
| Protocol.ExpandLFStrip | src/protocol.ts:543-544 | expanding LFs and then dropping CRs drops only the CRs, so no payload byte is lost or added |
| Protocol.ExpandLFCanonical | src/protocol.ts:543-544 | expanding LFs in CR-free text gives canonical endings: every CR is followed by LF and every LF is preceded by CR |
| Protocol.ExpandLFEnding | src/protocol.ts:544-547 | the expanded text ends in CR LF exactly when the text ended in LF |
| Protocol.AppendEndOfLine | src/protocol.ts:547-549 | appending CR LF keeps canonical text canonical and adds exactly one LF to its CR-free form |
| Protocol.NormalizeText | src/protocol.ts:543-549 | no contract of its own: drop every CR, expand every LF to CR LF, and append CR LF when forced and missing; `NormalizeTextSpec` and `NormalizeTextIdempotent` state its properties |
| Protocol.NormalizeTextSpec | src/protocol.ts:534-552 | outgoing text has canonical line endings and ends in CR LF when an end of line is forced; dropping its CRs gives the CR-free input, plus one LF exactly when a forced end of line was missing |
| Protocol.NormalizeTextIdempotent | src/protocol.ts:543-549 | normalising already normalised text changes nothing |
| Protocol.TelnetOption.constructor | src/protocol.ts:56-64 | a new option belongs to its session, has fresh perspectives and starts in the initial state with no pending signal |
| Protocol.TelnetOption.GetNegotiators | src/protocol.ts:66-75 | one entry per pending signal, local first |
| Protocol.TelnetOption.OnLocalEnable | src/protocol.ts:93-98 | a pending local signal is triggered and dropped |
| Protocol.TelnetOption.OnRemoteEnable | src/protocol.ts:100-105 | a pending remote signal is triggered and dropped |
| Protocol.TelnetOption.OnLocalDisable | src/protocol.ts:107-109 | the body is empty and the method may modify nothing, so nothing changes |
| Protocol.TelnetOption.OnRemoteDisable | src/protocol.ts:111-113 | the body is empty and the method may modify nothing, so nothing changes |
| Protocol.TelnetOption.SendNegotiate | src/protocol.ts:211-213 | exactly one `IAC code option` message, for this option, is appended to the session's queue |
| Protocol.TelnetOption.SendSubNegotiate | src/protocol.ts:207-209 | exactly one subnegotiation message, for this option, is appended to the session's queue |
| Protocol.TelnetOption.OnSubNegotiate | src/protocol.ts:267-273 | a window size is decoded exactly for NAWS with at least four bytes; width and height are the big-endian 16-bit values of bytes 0-1 and 2-3 |
| Protocol.TelnetOption.StartNegotiation | src/protocol.ts:215-226 | the state becomes the one `Start` gives; the queue gains exactly the DO and WILL requests `Start` lists; each started perspective gets a fresh, untriggered signal, and the others keep theirs |
| Protocol.TelnetOption.OnNegotiate | src/protocol.ts:115-201 | the perspectives and pending signals end in the state `Negotiate` gives; the queue gains exactly its reply, if any; a signal is triggered exactly when the transition settles its perspective |
| Protocol.TelnetOption.Conclude | src/protocol.ts:168-184 | the negotiating branch of onNegotiate carries out `Negotiate`: nothing is sent, and the pending signal is triggered as the transition says |
| Protocol.TelnetOption.Answer | src/protocol.ts:185-200 | the peer-initiated branch of onNegotiate carries out `Negotiate`, sending at most its one reply |
| Protocol.TelnetProtocol.constructor | src/protocol.ts:291-297 | a new session has an empty outgoing queue, an empty partial line, no lines handed over, and `forceEndline` false (the `Capabilities` default, src/protocol.ts:37) |
| Protocol.TelnetProtocol.Send | src/protocol.ts:341-347 | the message is appended to the outgoing queue |
| Protocol.TelnetProtocol.HandleNegotiation | src/protocol.ts:415-441 | a message without option or command changes nothing; an unregistered option gets exactly the reply `Refusal` gives; a registered option makes the transition `Negotiate` gives, queues its reply and, as `OnNegotiate` promises, triggers a pending signal exactly when the transition settles it while a kept signal stays the same object; without a verb the option and its signals are unchanged |
| Protocol.TelnetProtocol.HandleSubnegotiation | src/protocol.ts:443-453 | a window size is reported exactly for a registered NAWS option whose subnegotiation payload has at least four bytes, and it is the option's own report: the big-endian width from payload bytes 0-1 and height from bytes 2-3 |
| Protocol.TelnetProtocol.ProcessLine | src/protocol.ts:469-471 | the line is handed over after all earlier ones |
| Protocol.TelnetProtocol.HandleData | src/protocol.ts:455-467 | the lines handed over are those of the old buffer plus the payload, in order, and the new buffer is the rest; by `SplitLinesJoin` and `SplitLinesCuts` nothing is lost and no CR LF remains |
| Protocol.TelnetProtocol.SendText | src/protocol.ts:534-552 | empty text sends nothing; other text sends exactly one DATA message with the normalised text, whose properties `NormalizeTextSpec` states |
| Transform.SubNegotiateStart | src/transform.ts:39-45 | a constructed subnegotiation triggers compression exactly when its payload's second byte is the compression code |
| Transform.StandardStartIgnored | src/transform.ts:94-100 | the standard `IAC SB code IAC SE` never triggers compression |
| Transform.IsCompressionStart | src/transform.ts:39-40 | no contract of its own: a SUBNEGOTIATION whose byte at index 4 is the code, as both stages test it (also src/transform.ts:94-95); `SubNegotiateStart` and `StandardStartIgnored` state which constructed messages match |
| Transform.Drain | src/transform.ts:25-46 | the loop ends on an empty buffer or one without a complete message; an installed decoder is kept |
| Transform.DrainStep | src/transform.ts:25-46 | proof step for the `Transform` loop: one turn enqueues the message at the head and goes on with the bytes after it, passed through a new decoder on the first trigger |
| Transform.DrainDone | src/transform.ts:25-31 | proof step for the `Transform` loop: an empty or incomplete buffer enqueues nothing and is kept |
| Transform.DrainKeepsBytes | src/transform.ts:25-37 | with no switch-over, the enqueued messages' bytes in order, followed by the final buffer, are exactly the input |
| Transform.DrainSwitchOver | src/transform.ts:39-64 | if a decoder appears, it appeared at the first MCCP3 trigger read from plain bytes: it holds exactly the bytes after the trigger, and every later message is parsed from its output |
| Transform.TriggerInstalls | src/transform.ts:39-43 | conversely, an MCCP3 trigger enqueued while no decoder is installed always switches one on |
| Transform.Inflow | src/transform.ts:18-23 | without a decoder the chunk is appended as it is; with one, the decoder's history grows by the chunk |
| Transform.TelnetIncomingTransformer.constructor | src/transform.ts:6-8 | a new incoming stage has an empty buffer, no decoder and nothing enqueued |
| Transform.TelnetIncomingTransformer.Transform | src/transform.ts:16-47 | the queue gains exactly the messages `Drain` gives for the old buffer plus the inflowing bytes, and buffer and decoder become what `Drain` leaves |
| Transform.TelnetIncomingTransformer.Flush | src/transform.ts:50-55 | afterwards no decoder is installed |
| Transform.TelnetIncomingTransformer.EnableMCCP3 | src/transform.ts:57-64 | a new decoder is installed and the whole pending buffer is replaced by its output |
| Transform.TelnetIncomingTransformer.DisableMCCP3 | src/transform.ts:66-69 | afterwards no decoder is installed |
| Transform.OutStep | src/transform.ts:82-102 | with no encoder the chunk is the payload, and an encoder, starting empty, is installed exactly on a trigger; with an encoder, the encoder's history grows by the payload and it is never replaced |
| Transform.OutRun | src/transform.ts:82-102 | exactly one chunk per message |
| Transform.OutRunPlain | src/transform.ts:82-102 | with no encoder and no trigger, every chunk is its message's payload and no encoder is installed |
| Transform.OutRunCompressed | src/transform.ts:84-92 | with an encoder, every message is compressed in order after everything sent before it, and no trigger replaces the encoder |
| Transform.OutRunSwitchOver | src/transform.ts:94-100 | the first MCCP2 trigger and every message before it leave as their payloads; every later message is compressed by an encoder that started empty right after the trigger |
| Transform.OutRunAppend | src/transform.ts:82-102 | two batches run one after the other give the same chunks and encoder as the batches run together |
| Transform.TelnetOutgoingTransformer.constructor | src/transform.ts:73-74 | a new outgoing stage has no encoder and nothing enqueued |
| Transform.TelnetOutgoingTransformer.Transform | src/transform.ts:82-102 | the queue gains exactly the one chunk `OutStep` gives and the encoder becomes the one it gives |
| Transform.TelnetOutgoingTransformer.Flush | src/transform.ts:105-110 | afterwards no encoder is installed |
| Transform.TelnetOutgoingTransformer.EnableMCCP2 | src/transform.ts:112-114 | a fresh, empty encoder is installed |
| Transform.TelnetOutgoingTransformer.DisableMCCP2 | src/transform.ts:116-119 | afterwards no encoder is installed |

## Left out

- The socket, TLS, the async `run`, `runNegotiation` and `runReader` tasks,
  and the race of the pending signals against the 250 ms timer are I/O
  and concurrency. Only the synchronous handlers they call are modelled.
  An `Awaitable` is just its `triggered` flag.
- The WebSocket relay (`startWebsocket`, `runWsWriter`, `runWsReader`,
  `handleWsMessage`, `handleWsClose`, `handleWsMSSP`) and its JSON are I/O
  to an external server. `processLine` appends the line to a sequence
  instead of enqueueing JSON for the relay.
- `convertBufferToString` and `TextEncoder` are library text codecs.
  Lines stay bytes, and `sendText` works on the UTF-8 bytes of its text.
  CR and LF are single bytes in UTF-8 and never occur inside a multi-byte
  character, so the two `replaceAll` calls and the `endsWith` test act on
  the bytes in the same way. The empty string is the empty byte sequence.
- Protocol.TelnetProtocol.SendText: the `prompt` flag is not modelled,
  because the code never reads it. The `undefined` check is not modelled
  either. `forceEndline` is a field of the session, and no core code sets it.
- Protocol.TelnetProtocol.Send: the exception thrown when the outgoing
  stream controller does not exist yet is not modelled. Sending always
  appends to the queue. The session constructor is modelled by its field
  initialisers only; the stream wiring it does, which sets the controller,
  is left out.
- Protocol.TelnetOption.OnNegotiate: the source copies the callbacks into
  local variables and calls them without a receiver
  (src/protocol.ts:127-172, src/protocol.ts:188). The model calls them as
  methods of the option, with the effects written in `onLocalEnable` and
  `onRemoteEnable`.
  - Class code runs in strict mode, so as written `this` is `undefined`
    inside an enable callback, and reading `this.localNegotiator` or
    `this.remoteNegotiator` throws a `TypeError`.
  - So the code as written never answers an allowed peer enable: the
    `sendNegotiate` at src/protocol.ts:189 is not reached.
  - When the peer confirms our own request, the code sets the flags
    (src/protocol.ts:170-171) but never triggers the pending signal.
  - In both cases the error propagates out of the handler.
  - The model promises the behaviour of the callbacks as methods: the
    signal is triggered and dropped, and the accept is sent. It does not
    model the exception.
  - `onLocalDisable` and `onRemoteDisable` are empty in the base class and
    in both options, so the missing receiver does not matter for them.
    They are modelled as methods that do nothing.
- The `Map` registry of options, and `option in this.options`, are replaced
  by the parameter `registered` (see above).
- `getOptionName` is left out: the code only declares it and nothing
  calls it.
- Logging is left out. `NAWSOption.onSubNegotiate` only logs the window
  size, so the model returns the size instead.
- The other `Capabilities` fields are not part of the core.
- `handleCommand` does nothing in the source and is not part of the core.
- The zlib library (deflate itself) is abstract. A stream is the history
  written to it, and its output is an uninterpreted function of that
  history and the new bytes. Freeing a zlib object is not modelled,
  beyond clearing the field.
- Transform.TelnetIncomingTransformer.DisableMCCP3: requires an installed
  decoder. The source would fail on `free()` of `undefined`, and `flush`
  calls it only when a decoder is installed.
- Transform.TelnetOutgoingTransformer.DisableMCCP2: requires an installed
  encoder, for the same reason.
- The transformers' `start` methods are empty. The stream controller is
  modelled as the `enqueued` and `chunks` sequences.
- `src/server.ts`, `mod.ts`, `deps.ts`, `generateRandomString` and
  `generateTelnetName` are not part of this model.
