# aemlib: a verified model of the MQTT client

aemlib is a small MQTT 3.1.1 client for QoS 0 with caller-owned buffers and cooperative
polling. This project models its four parts and proves them together:

- the **codec** (`RemainingLength`, `FixedHeader`, `Packets`): encoders that reserve four
  length bytes and close the gap in place, and the decoders;
- **inbound framing** (`Framing`, `Inbound`): cutting a byte stream into packets through a
  bounded buffer, from the CONNACK on;
- **outbound staging** (`Outbound`, `Overwrite`, `PollReach`, `PollRuns`): partial writes, the
  staged rest, what the peer sees, and when a send, a poll or a run of polls damages what is
  staged;
- the **state machine, clocks and counters** (`Connection`, `Progress`, `Timing`), what every
  call answers (`Answers`), and the **ring buffer** with its loopback pair
  (`VirtualTransport`), composed end to end in `EndToEnd` (over the ring) and `Relay` (two
  whole clients in any runs, with a broker or a relay between them).

`Client` holds the client as an object that updates its buffers and counters in place, and
`Packets` and `RemainingLength` hold the encoding and decoding loops over arrays. Each method
is proved to take exactly one transition of `ClientModel` (or to leave exactly the buffer that
a specification function describes), and the theorems are lemmas about those transitions over
all runs.

What the transport and the clock answer are parameters of each call (`WriteReply`,
`ReadReply`, `PollEnv`), so every statement covers every network and every clock: a write
takes any prefix, a read gives any bytes that fit, and WOULD_BLOCK or a hard error moves
nothing. A count reported with WOULD_BLOCK is arbitrary, and such a read may scribble on the
free part of the buffer. The message callback appends to a log. The state carries the history
of the current connection attempt: bytes taken and given by the transport since the last
accepted connect call, accepted packets, delivered messages, PINGREQ times.

Bytes are integers below 256 and their masks and shifts are written with `/` and `%`; 16, 32
and 64-bit wrap-around is written out where the program has it (length prefix, Remaining
Length accumulator and body length, packet identifier, clock differences).

Properties that hold only under a condition, with the condition proved exact:

- Every sender encodes into the transmit buffer before it is refused (core/client.c:208-217,
  224-233, 287-297 and 315-324 against 44). include/aemlib/aemlib.h:92-93 promises that staged
  bytes stay there until they are flushed; a refused send overwrites them. `Overwrite` has the
  exact condition for each sender and for one poll (`Overwrite.PollSafeExactly`), also as a
  condition on the state alone, whatever the transport and the clock answer
  (`PollReach.PollSafeIffState`). Over runs no such care helps: a caller who does nothing but
  connect and poll can rely on the stream if and only if no PINGREQ can ever be encoded,
  because the transmit buffer has one byte or no CONNACK fits (`PollRuns.PollOnlySafeExactly`;
  the run that breaks it is in `PollRuns.StalledBreaksStream`: the transport takes one byte of
  a PINGREQ and is then blocked until the next keepalive is due). So `Outbound.OutboundStream`
  is about runs in which transport and clock happen to spare the staged bytes. A publish made
  while connecting is overwritten too (`Overwrite.ConnectingPublishBreaksStream`).
- A flush that fails hard ends the poll before the state machine is looked at
  (core/client.c:339-340), so with bytes staged on a dead link the CONNACK timeout never fires
  and a disconnect is never carried out (`Timing.WaitOutlastsExactly`,
  `Timing.DeadLinkFreezes`).
- The keepalive is announced in 16 bits of seconds: intervals above 65535999 ms announce less
  than the client keeps (`Timing.AnnouncedExactly`), and then every gap between keepalives
  exceeds one and a half times what was announced (`Timing.KeepAliveMissesGrace`); an
  announced 0 means no keepalive at all.
- `aemlib_connect` clears both buffers before it looks at the state
  (`Overwrite.ConnectSafeExactly`, `Inbound.StrayConnectSafeExactly`).
- With less than 17 bytes of transmit buffer, the client can become connected without ever
  having sent CONNECT (`Connection.ConnectFirstIffRoom`).
- Byte 3 of a CONNACK is taken for its return code, which it is only behind a two-byte header
  (`Packets.ReturnCodeReadExactly`). Behind a header of three or four bytes, which spells its
  length with leading zero digits, the client connects although the broker refused
  (`Inbound.ConnectedMeansAcceptedExactly`); such lengths are accepted
  (`RemainingLength.ReencodeExactly`).
- Topics above 65535 bytes are encoded under a truncated length
  (`Packets.PublishSurvivesCompaction`).

Check the whole project with `dafny verify dfyconfig.toml`.

## Model

| member | source | states |
|---|---|---|
| RemainingLength.RoundTrip | proto/proto.c:94-148 | decoding an encoded value with any bytes behind it gives the value and the encoded length, which is 1 to 4 bytes, for every value up to 268435455 (section 2.2.3 of MQTT 3.1.1) |
| RemainingLength.FitsFourBytes | proto/proto.c:94-119 | exactly the values up to 268435455 fit the four bytes the encoders reserve |
| RemainingLength.DecodeSound | proto/proto.c:121-148 | a decoded field takes 1 to 4 bytes, is the unbounded base-128 sum of them, and is never shorter than the encoding of its value, which is therefore minimal |
| RemainingLength.ReencodeExactly | proto/proto.c:121-148 | encoding a decoded value gives the same bytes back if and only if the field has one byte or its last byte is not zero |
| RemainingLength.VerdictExactly | proto/proto.c:121-148 | a field is accepted if and only if one of its first four bytes is below 128, and too long if and only if it has five bytes of which the first four are not |
| RemainingLength.DecodeStable | proto/proto.c:130-147 | a verdict on a field is the same on every extension, and only inputs below five bytes are undecided |
| RemainingLength.EncodeRemainingLength | proto/proto.c:94-119 | the loop writes the recursive encoding at the start of the buffer and nothing else, and fails exactly when it does not fit |
| RemainingLength.DecodeRemainingLength | proto/proto.c:121-148 | the loop over 32-bit accumulators that may wrap computes the unbounded reference decoding, so a wrapped sum is never returned |
| FixedHeader.DecodeStable | proto/proto.c:173-199 | prefix stability: an accepted or rejected header is the same on every extension; too-small is possible only below six bytes |
| FixedHeader.DecodeBounds | proto/proto.c:52-90 | an accepted header has 2 to 5 bytes inside the input, a length of at most 268435455, flags legal for its type, and comes from the first byte; a refusal is one of two statuses |
| FixedHeader.DecodeExactly | proto/proto.c:52-90 | in the bytes themselves: a header is accepted if and only if its first byte is one of the 20 that table 2.2 of MQTT 3.1.1 allows the packets this client knows and one of the next four ends the length, and when it is rejected and when it needs more bytes |
| FixedHeader.DecodeFixedHeader | proto/proto.c:173-199 | over the array, the result is the reference decoding of the first len bytes |
| Packets.EncodingExact | proto/proto.c:203-246 | any encoder succeeds if and only if 5 + body length fits the buffer and the body length modulo 2^32 is at most 268435455; then the output is type byte, Remaining Length and the moved body, intact |
| Packets.EncodingFramed | proto/proto.c:284-326 | the header decoded from an encoder's output gives its type, its flags and the output's own length |
| Packets.PacketHeader | proto/proto.c:173-199 | a packet followed by anything announces its own type, flags and length |
| Packets.PublishRoundTrip | proto/proto.c:284-372 | PUBLISH packet followed by anything: header of type PUBLISH, flags 0 and the packet's length; topic and payload are recovered if and only if the topic is at most 65535 bytes |
| Packets.PublishSurvivesCompaction | proto/proto.c:284-372 | the same from the buffer the in-place encoder leaves behind, with whatever stale bytes follow the packet |
| Packets.DecodePublishBody | proto/proto.c:328-372 | behind any header the decoder cuts topic and payload at the topic length modulo 65536 and loses no byte of either |
| Packets.SubscribeRoundTrip | proto/proto.c:376-419 | identifier, filter length modulo 65536, filter and requested QoS stand where section 3.8 of MQTT 3.1.1 puts them, behind a SUBSCRIBE header with flags 2 that announces the packet's length |
| Packets.PingreqBytes | proto/proto.c:250-263 | over any buffer of two bytes or more the encoded PINGREQ is C0 00 in front of the untouched rest, which decodes as type 12, flags 0, length 0 |
| Packets.PublishRefusedExactly | proto/proto.c:341-360 | which PUBLISH packets are refused, with which status: QoS above 0, cut short, or a body that does not hold the topic it announces |
| Packets.ConnackRead | proto/proto.c:423-436 | the four-byte CONNACK decodes as one, with its session flag and its return code |
| Packets.ReturnCodeReadExactly | proto/proto.c:423-436 | the CONNACK decoder reads the real return code of every CONNACK with a given header size if and only if that size is 2 |
| Packets.WriteUtf8 | proto/proto.c:152-169 | appends the 16-bit length modulo 65536 and the bytes, or leaves the buffer alone when they do not fit |
| Packets.FinishPacket | proto/proto.c:313-325 | leaves the buffer with the length digits in front of the body moved by an overlapping copy; fails when the length needs more than four digits |
| Packets.EncodeConnect | proto/proto.c:203-246 | leaves exactly the buffer of the reference encoding of CONNECT, also when it fails half way |
| Packets.EncodePublish | proto/proto.c:284-326 | leaves exactly the buffer of the reference encoding; for bodies up to 268435455 succeeds if and only if 5 + body fits, and then the output is the PUBLISH packet of topic and payload |
| Packets.EncodeSubscribe | proto/proto.c:376-419 | leaves exactly the buffer of the reference encoding of SUBSCRIBE, also when it fails half way |
| Packets.EncodePingreq | proto/proto.c:250-263 | writes the two bytes of PINGREQ and nothing else, or nothing when they do not fit |
| Framing.FrontStable | core/client.c:158-193 | what stands at the front of the buffer (packet, error) never changes when more bytes arrive; incomplete implies room |
| Framing.FrontExactly | core/client.c:158-193 | for every content of the receive buffer: incomplete, a whole packet with the messages it delivers, or stuck, with the status for a bad header, a full buffer, a packet that does not fit, and a PUBLISH that is refused |
| Framing.ParseSplit | core/client.c:140-200 | parsing a stream in two parts, keeping the unparsed rest in between, is parsing it in one, for every split and buffer size |
| Framing.ParseContinue | core/client.c:140-200 | the rest left in the buffer, continued with any bytes, continues the parse of the whole stream, also after an error |
| Framing.StuckForGood | core/client.c:164-193 | after an error any continuation gives the same verdict and delivers nothing |
| Framing.ParseRoom | core/client.c:166-188 | after an OK verdict fewer bytes are left than the buffer holds |
| Framing.ParsePublishes | core/client.c:99-121 | parsing the concatenated PUBLISH packets of any deliverable messages gives exactly those messages, nothing left, no error |
| Framing.SplitPrefix | core/client.c:163-198 | a stream of self-delimiting packets cut short anywhere splits into the first of them |
| Framing.SplitConcat | core/client.c:163-198 | concatenated self-delimiting packets split at their announced lengths in exactly one way |
| Client.Client.ClientSend | core/client.c:40-66 | takes the Send transition: refused while bytes are staged, unsent rest moved to the buffer front, hard errors change nothing else |
| Client.Client.FlushPendingBytes | core/client.c:69-97 | takes the FlushPending transition on the real buffer |
| Client.Client.DispatchPacket | core/client.c:99-135 | a PUBLISH that decodes is appended to the log, other packets deliver nothing, a decode error is passed on and delivers nothing |
| Client.Client.CutPackets | core/client.c:158-199 | the in-place loop over the receive buffer terminates and computes the one-shot parse of its content: log, rest and status |
| Client.Client.ReadPackets | core/client.c:140-200 | takes the ClientRead transition |
| Client.Client.SendConnectPacket | core/client.c:203-218 | takes the SendConnect transition |
| Client.Client.SendPingreq | core/client.c:221-234 | takes the SendPing transition |
| Client.Client.HandleConnecting | core/core.c:158-178 | takes the ConnectTransport transition |
| Client.Client.HandleConnectSent | core/core.c:180-268 | takes the AwaitConnack transition |
| Client.Client.ConsumeConnack | core/core.c:224-247 | the CONNACK leaves the buffer, accepted or not, and the bytes behind it stay |
| Client.Client.PollCore | core/core.c:75-102 | takes the CorePoll transition |
| Client.Client.RequestConnect | core/client.c:249-260 | takes the Connect transition: buffers cleared in every state, state changed only when disconnected |
| Client.Client.StartConnecting | core/core.c:105-119 | on cleared buffers takes the Connect transition: refused unless disconnected |
| Client.Client.RequestDisconnect | core/core.c:121-135 | takes the Disconnect transition |
| Client.Client.PublishMessage | core/client.c:271-298 | takes the Publish transition: encodes before it may be refused, looks at no state |
| Client.Client.DrawPacketId | core/core.c:137-148 | draws the successor of the counter, skipping zero on 16-bit wrap-around |
| Client.Client.SubscribeTopic | core/client.c:300-325 | takes the Subscribe transition, drawing an identifier even if it then fails |
| Client.Client.PollConnection | core/client.c:333-379 | takes the Poll transition: flush, state machine, then CONNECT once or inbound packets and keepalive |
| Client.Client.constructor | core/core.c:52-73 | a configured client starts disconnected, with empty buffers and packet identifier 1 |
| ClientModel.Run | core/client.c:40-200 | over every run the staged length stays within the transmit buffer and the receive length within the receive buffer |
| Inbound.ChunkingIndependence | core/client.c:140-200 | for every sequence of transport answers the log and buffer are those of a one-shot parse of all bytes read, the last verdict agrees, and an OK read leaves room |
| Inbound.SameBytesSameResult | core/client.c:137-139 | two ways of cutting the same bytes into reads deliver the same messages, leave the same bytes and give the same status |
| Inbound.ReadTakesExactly | core/client.c:140-161 | a read appends as much of what is there as fits; one that would block appends nothing and only cuts up what is buffered |
| Inbound.ErrorsStick | core/client.c:164-193 | a failed read leaves the offending packet at the buffer front |
| Inbound.StickyErrors | core/client.c:164-193 | from then on no reads deliver anything, and each that the transport does not fail answers the same error |
| Inbound.StuckPoll | core/client.c:360-371 | no later poll answers OK, those the transport does not fail answer that error, and each stays connected and sends no keepalive |
| Inbound.StuckRun | core/client.c:333-379 | over any polls and sends the client then stays connected, delivers nothing and sends no PINGREQ |
| Inbound.Handshake | core/core.c:180-247 | the client becomes connected if and only if the stream starts with a complete CONNACK of at least 4 bytes with byte 3 = 0, which is cut off while everything behind it stays |
| Inbound.ConnectedMeansAcceptedExactly | core/core.c:224-241 | among CONNACKs with a two-byte body behind a header of n bytes, only those whose return code is 0 connect the client, if and only if n is 2 or 5 |
| Inbound.JudgesRightExactly | core/core.c:224-246 | those with return code 0 and no others connect the client, if and only if n is 2 |
| Inbound.InboundStream | core/core.c:180-247 | over every run that loses no input, bytes read before and after the CONNACK are one stream: the CONNACK, then what has been delivered and what the buffer still parses to |
| Inbound.PollDeliversAll | core/client.c:360-363 | after any such run, a poll that answers OK and is connected has delivered the parse of everything behind the CONNACK, kept exactly the unparsed rest, and has room |
| Inbound.StrayConnectSafeExactly | core/client.c:255-259 | a connect call keeps the inbound stream if and only if it loses nothing: always when disconnected or connecting, while waiting only with an empty receive buffer, and later only if the buffer parses, in full, to no message |
| Outbound.StepKeepsStream | core/client.c:40-97 | each call that encodes over no staged bytes keeps: bytes taken ++ staged bytes = concatenation of accepted packets |
| Outbound.OutboundStream | core/client.c:40-97 | the same over every such run, whatever the transport takes, refuses or fails |
| Outbound.AcceptedPacketsFramed | core/client.c:271-325 | every packet accepted in any run announces its own length |
| Outbound.StepAccepts | core/client.c:202-234 | a call accepts at most one packet, of the type that belongs to the call |
| Outbound.PeerRecoversPackets | core/client.c:37-39 | splitting the bytes on the wire at the announced lengths gives the first of the accepted packets, in order, and with those still staged all of them |
| Outbound.FlushMoves | core/client.c:69-97 | a flush moves a prefix of the staged bytes to the wire and keeps the exact unsent suffix |
| Outbound.FlushDrains | core/client.c:69-97 | if every write takes a byte, k staged bytes are on the wire in order after k flushes and nothing is staged |
| Outbound.PollFlushesFirst | core/client.c:339-340 | a poll puts on the wire the staged bytes the transport takes, ahead of anything else |
| Overwrite.SendEncodedSafeExactly | core/client.c:40-46 | any send keeps the outbound stream if and only if what its encoder left in the buffer starts with the staged bytes |
| Overwrite.SendsSafeIffNothingStaged | include/aemlib/aemlib.h:92-94 | every publish and subscribe keeps the outbound stream if and only if nothing is staged |
| Overwrite.PingSafeExactly | core/client.c:221-234 | a keepalive keeps the stream if and only if nothing is staged, the buffer has one byte, or the overwritten bytes are those of a PINGREQ |
| Overwrite.ConnectEncodingOver | proto/proto.c:203-246 | the bytes an encoded CONNECT leaves in a transmit buffer of any size, stale and partly written ones included |
| Overwrite.SendConnectSafeExactly | core/client.c:203-218 | a CONNECT keeps the stream if and only if those bytes are the staged ones; not if the first staged byte is another than 0x10 |
| Overwrite.PollSafeExactly | core/client.c:333-379 | a poll keeps the stream if and only if it encodes over no staged bytes, or over staged bytes equal to what it encodes |
| Overwrite.PollSafeForAllExactly | core/client.c:333-379 | one poll from a state keeps the stream whatever transport and clock answer if and only if nothing is staged or, for each packet a poll from there can come to encode, every suffix of the staged bytes survives it |
| PollReach.AckableExactly | core/core.c:180-247 | some continuation of what a waiting client has read is an accepting CONNACK that fits the buffer, with readable bytes behind it, if and only if the complete header or the one, two or three bytes read of it, and the buffer size, allow one |
| PollReach.WhatPollsEncode | core/client.c:345-372 | which packets those are, read off the state: PINGREQ from a connected client whose input is not in error and from a waiting one if and only if what it has read can become an accepting CONNACK; CONNECT from a connecting one and from a waiting one that still owes it and whose wait is undecided; nothing when disconnected or disconnecting |
| PollReach.PollSafeIffState | include/aemlib/aemlib.h:92-94 | the safety of one poll, whatever it is answered, as an if and only if on the client's buffers, state and flag |
| PollRuns.PollOnlySafeExactly | core/client.c:333-379 | every run of connect calls of a disconnected client and polls keeps the outbound stream, whatever transport and clock answer, if and only if the transmit buffer has one byte or the receive buffer fewer than four |
| PollRuns.StalledBreaksStream | core/client.c:365-371 | with larger buffers, for every interval, connect and three polls from the start break it |
| Overwrite.PollBreaksStream | core/client.c:365-371 | a poll whose flush is blocked and whose keepalive is due answers WOULD_BLOCK and has broken the stream |
| Overwrite.ConnectBreaksStream | core/client.c:347-352 | a poll that reaches the transport with a blocked flush breaks the stream of a client with staged bytes that do not start like a CONNECT |
| Overwrite.ConnectingPublishBreaksStream | core/client.c:287-297 | connect, publish while connecting, poll: the run from the start that does it |
| Overwrite.ConnectSafeExactly | core/client.c:255-259 | a connect call keeps the outbound stream if and only if the client is disconnected or nothing is staged |
| Outbound.SendingFrame | core/client.c:271-325 | publish and subscribe change nothing but the sending side and the identifier counter, in any state |
| Answers.PublishAnswers | core/client.c:271-298 | what a publish answers, in the order of the questions: QoS, room, staged bytes, transport; a refused one changes nothing but the buffer, an accepted one has put a prefix of the PUBLISH packet on the wire and staged the rest |
| Answers.SubscribeAnswers | core/client.c:300-325 | the same for a subscribe, whose packet carries the identifier after the last one, skipping zero |
| Answers.PingAnswers | core/client.c:221-234 | the same for a keepalive: two bytes of buffer, and the packet is C0 00 |
| Answers.ConnectAnswers | core/client.c:203-218 | the same for CONNECT: seventeen bytes of buffer, and the fourteen bytes of the packet |
| Answers.CallsByState | core/core.c:105-135 | a connect call is accepted if and only if the client is disconnected, a disconnect call if and only if it is connected; refused ones answer (General, StateInvalid) |
| Progress.IdlePoll | core/core.c:152-156 | a poll of a disconnected client whose flush does not fail answers OK and at most flushes |
| Progress.ConnectingPoll | core/core.c:158-178 | the three outcomes of a poll while connecting: reached, and CONNECT sent; not yet, and nothing changes but what was flushed; failed, with exactly the transport's status |
| Progress.ConnectingRun | core/core.c:171-173 | any number of polls leaves the client connecting if and only if the transport answers each with WOULD_BLOCK, and then changes nothing but what was flushed |
| Progress.OwedConnect | core/client.c:347-358 | a CONNECT that is owed is sent once, its answer is the poll's, and the flag is set if and only if that is OK |
| Progress.Verdict | core/core.c:207-268 | what the buffered bytes and the clock decide while waiting: accepted, refused with each status, consumed or not, or, undecided, waiting on for less than 5000 ms and timed out from then on |
| Progress.WaitingPoll | core/core.c:180-268 | a poll that reads without failure and is still undecided goes on waiting for less than 5000 ms after the last activity and disconnects with (General, Timeout) from then on |
| Progress.FailedWait | core/core.c:190-195 | a failed read ends the wait with its status and the transport closed |
| Progress.WaitRun | core/core.c:180-268 | over any number of polls an undecided wait whose reads and flushes do not fail goes on if and only if every clock reading is less than 5000 ms after the last activity, which is when the transport connected, and otherwise ends disconnected |
| Progress.DisconnectingPoll | core/core.c:309-317 | a poll carries out a disconnect, transport included, and answers OK, if and only if its flush does not fail |
| Progress.DisconnectCompletes | core/core.c:121-135 | a disconnect call and any polls leave the client disconnected if and only if one of the polls finds nothing staged or a transport that does not fail, and otherwise disconnecting and unchanged |
| Progress.ConnectionCompletes | core/core.c:75-102 | from any disconnected client, a connect call, any number of tries, a transport that is reached and an accepting CONNACK in any number of pieces within 5000 ms lead to a connection |
| Progress.ConnectionCycle | core/core.c:75-135 | and a disconnect call and one poll lead back to where a connect call is accepted again |
| Connection.OnlyCodedEdges | core/core.c:75-135 | a step stays in its state or takes one of the seven coded edges, by the call that owns it, and the transport is connected exactly in the states that need it |
| Connection.LinkFollowsState | core/core.c:158-317 | the same over every run: a disconnected client never leaves the transport open |
| Connection.ConfiguredHolds | core/core.c:52-73 | the invariants of the runs hold of a configured client: link, CONNECT count, both streams, packet lengths |
| Connection.LossIsReported | core/core.c:158-268 | a call that ends a connection attempt or a connection never answers OK |
| Connection.ConnectedOnlyByConnack | core/core.c:180-247 | in every run that loses no input, connected is entered only by a poll, from the waiting state, with a CONNACK of at least 4 bytes and byte 3 = 0 at the stream head |
| Connection.AtMostOneConnect | core/client.c:347-358 | in every run at most one CONNECT is accepted per connection attempt, and the flag says whether it was |
| Connection.ConnectEncodes | core/client.c:203-218 | CONNECT with an empty client identifier is encoded if and only if the transmit buffer has at least 17 bytes |
| Connection.ConnectFirstIffRoom | core/client.c:347-358 | on all runs without hard write errors and with sends only when connected, a connected client has CONNECT as its first accepted packet if and only if the transmit buffer has at least 17 bytes |
| Connection.SmallBufferSkipsConnect | core/core.c:180-247 | the run that shows it: connected with nothing accepted |
| Timing.ConnackTimeout | core/core.c:259-267 | after any run with a monotone clock, a poll that answers OK and still waits read the clock less than 5000 ms after the transport connected |
| Timing.WaitEnds | core/client.c:339-345 | 5000 ms or more after the transport connected, a poll leaves the waiting state, unless, and only unless, bytes are staged and their flush fails hard |
| Timing.WaitOutlastsExactly | core/core.c:259-267 | any number of polls after those 5000 ms leave the client waiting if and only if bytes are staged and every flush fails hard |
| Timing.DeadLinkFreezes | core/client.c:339-340 | polls whose flush fails hard over staged bytes change nothing, in any state: no timeout, no disconnect |
| Timing.ConnectedPoll | core/client.c:365-371 | an OK poll of a connected client accepts one PINGREQ, the bytes C0 00, if and only if the interval since the last activity is over |
| Timing.HandshakeFresh | core/core.c:236-241 | the poll that completes the handshake leaves the client inside its keepalive interval |
| Timing.KeepAliveGaps | core/client.c:365-371 | with OK polls at most d apart and any sends between them, PINGREQs are at least the interval and less than the interval plus d apart |
| Timing.KeepAliveFromStart | core/client.c:365-371 | after any run from the start, from the CONNACK on, all PINGREQs of the connection are at least the interval and less than the interval plus d apart |
| Timing.KeepAliveWithinGrace | core/client.c:203-218 | for intervals of 1000 to 65535999 ms and polls close enough, every gap is under one and a half times the announced keepalive (section 3.1.2.10 of MQTT 3.1.1) |
| Timing.AnnouncedExactly | core/client.c:203-218 | the 16-bit field announces the interval, to the whole second, if and only if it is at most 65535999 ms; above that the interval exceeds one and a half times what is announced |
| Timing.KeepAliveMissesGrace | core/client.c:203-218 | for those intervals every gap between PINGREQs, however attentive the polls, exceeds one and a half times the announced keepalive |
| Timing.ConnectBytes | proto/proto.c:203-246 | the fourteen bytes of CONNECT as section 3.1 of MQTT 3.1.1 lays them out, announcing the keepalive |
| Timing.NthPacketId | core/core.c:137-148 | the n-th identifier drawn from p is (p - 1 + n) % 65535 + 1, never 0 |
| Timing.PacketIdsDistinct | core/core.c:137-148 | no identifier repeats among 65535 consecutive draws (section 2.3.1 of MQTT 3.1.1) |
| Timing.RunPacketIds | core/client.c:312-313 | after any run the counter has advanced once for each subscribe call at QoS 0, failed ones included |
| Timing.IdsFromStart | core/core.c:65 | after n draws since it was configured the counter stands at n % 65535 + 1, so the first identifier is 2 |
| Timing.SubscribeCarriesId | core/client.c:312-324 | an accepted SUBSCRIBE is the packet of the standard under the identifier just drawn |
| Timing.SubscribeIdsDiffer | core/client.c:312-324 | two SUBSCRIBE packets accepted in a run with fewer than 65534 other draws between them carry different, nonzero identifiers in their bytes |
| VirtualTransport.Channel.Write | platform/virtual_transport.c:58-78 | over the ring, across wrap-around: appends the first min(len, space) bytes to the content, and blocks exactly when full |
| VirtualTransport.QueueExactly | platform/virtual_transport.c:58-96 | the abstract queue: WOULD_BLOCK if and only if something is written into a full one, otherwise as much is appended as there is room for; a read gives what is asked for or all there is |
| VirtualTransport.Channel.Read | platform/virtual_transport.c:80-96 | over the ring: removes and returns the first min(len, content) bytes |
| VirtualTransport.Endpoint.Write | platform/virtual_transport.c:123-130 | writes one channel as above and leaves the other alone; closed when not connected |
| VirtualTransport.Endpoint.Read | platform/virtual_transport.c:114-121 | reads one channel as above and leaves the other alone; closed when not connected |
| VirtualTransport.PairInit | platform/virtual_transport.c:32-44 | what one endpoint writes is what the other reads, in both directions, both ends closed |
| VirtualTransport.PairRun | platform/virtual_transport.c:58-96 | conservation for the pair as two queues: over any interleaving, in each direction, bytes written = bytes read ++ content, within capacity |
| VirtualTransport.Perform | platform/virtual_transport.c:100-130 | one call on one of two wired endpoints leaves rings, wiring and flags as the step of the pair says, and a write takes, or a read returns, exactly the bytes that the step moves |
| VirtualTransport.PerformAll | platform/virtual_transport.c:32-130 | any sequence of calls on two wired endpoints does the same for the run of the pair, and in each direction: ring content before ++ bytes the writes took = bytes the reads returned ++ ring content after |
| VirtualTransport.DirectionsIndependent | platform/virtual_transport.c:32-44 | leaving out all traffic in one direction changes nothing in the other, of the runs that PerformAll carries out |
| EndToEnd.DeliveredInOrder | core/client.c:40-200 | publishes, flushes and reads interleaved in any order over a channel of any capacity: the delivered log is a prefix of the accepted messages, equal to it once nothing is staged or in the channel |
| EndToEnd.NoReadFails | core/client.c:140-200 | in every such interleaving the receiver's read of the channel answers OK |
| EndToEnd.EverythingArrives | core/client.c:69-200 | alternating flushes and reads, as many as bytes are on their way, deliver every accepted message |
| Relay.ParseReadable | core/client.c:99-135 | concatenated packets of any types that fit the buffer parse to the messages of the PUBLISHes among them, with no error |
| Relay.BadPacketStops | core/client.c:158-193 | readable packets in front of one that cannot be read are delivered, then the verdict is that packet's and it stays at the front |
| Relay.RunCarries | core/client.c:271-298 | over any run the accepted packets carry exactly the messages whose publish call answered OK |
| Relay.RelayedInOrder | core/client.c:271-379 | a sender in any run that encodes over no staged bytes, a receiver in any run that loses no input, and a peer that relays the sender's bytes behind the receiver's CONNACK: the receiver has delivered a prefix of what was published, without error, and all of it once it has read and used up all of it |
| Relay.ForwardedInOrder | core/client.c:99-135 | the same two runs with a broker between them, which cuts the PUBLISH packets out of the sender's bytes and sends the first of them to the receiver among packets of its own: prefix, no error, and everything once all was forwarded and read |

## Left out

- Logging, status strings and the storage seam (core/log.c, core/status.c, platform/storage.h): no effect on behaviour.
- NULL arguments, function-pointer plumbing and config validation: a configured client with non-empty, distinct buffers is where the model starts.
- POSIX sockets and the demos (examples/): outside calls; the demo broker repeats the read loop.
- Callbacks that call back into the client: the callback only records.
- SUBACK decoding and the DISCONNECT encoder (proto/proto.c:267-280, 440-453): nothing in the client calls them.
- QoS 1 and 2, a DISCONNECT packet on shutdown and UTF-8 validity: not implemented by the program.
- size_t wrap-around in capacity checks (proto/proto.c:12): lengths are unbounded integers here.
- EndToEnd.DeliveredInOrder: is about two clients that are already connected and about messages whose topic fits 65535 bytes and whose packet fits the receiver's buffer; a publish while bytes are staged is not made.
- Timing.KeepAliveGaps: says nothing about polls that answer an error, after which no keepalive need follow.
- Relay.RelayedInOrder: is about publishes whose topic fits 65535 bytes and packets that fit the receiver's buffer.
- Relay.ForwardedInOrder: the same, and the broker forwards packets byte by byte unchanged, to one receiver, from one connection of the sender; topic filters and retained messages are not modelled.
- Client: talks to a transport object that answers from its arguments; the ring buffer endpoint answers by `VirtualTransport.AnswerWrite`, the answer `EndToEnd` uses, but no object holds both.
