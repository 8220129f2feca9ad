# A Dafny model of socket-flow

socket-flow is a WebSocket endpoint (RFC 6455) with permessage-deflate (RFC 7692). This project
models its sender pipeline, its receiver, the compression contexts of both, the negotiation and
handshake that connect them, and the event stream of its ready-made server.

Code that works by changing things is modelled by classes and methods with loops (`Writers.Writer`,
`ReadStreams.ReadStream`, `Sender.WSWriter`, `Deflate.Encoder`, `Deflate.Decoder`,
`Request.ParseHttpRequest`, the methods of `Handshake`). Each is proved equal to a function of its
inputs and old state; the theorems are about those functions.

| file | content |
|---|---|
| `Basics.dfy`, `Frames.dfy`, `Utf8Text.dfy` | bytes, errors, opcodes, frames, messages, UTF-8 |
| `Wire.dfy`, `Writers.dfy` | the frame format: encoding, parsing, canonical form; the writer |
| `Deflate.dfy` | compression contexts over an abstract DEFLATE; when two contexts agree |
| `Reader.dfy`, `ReadStreams.dfy` | one frame, a list of frames, a byte stream; the reader task among other tasks |
| `Grammar.dfy` | the meaning of a frame stream without the state machine; control frames |
| `Sender.dfy` | compression decision, fragmentation, RSV1; the user's writer |
| `Delivery.dfy` | end-to-end delivery, Close in the middle |
| `LargeSends.dfy` | what becomes of `send_large_data_fragmented` |
| `Quiescence.dfy`, `Conversation.dfy` | two endpoints answering each other; what their users are delivered |
| `Text.dfy`, `Negotiation.dfy` | strings; negotiation and wiring |
| `Request.dfy`, `Handshake.dfy`, `HandshakeChecks.dfy` | the HTTP head; both handshakes; their checks on any head |
| `Connection.dfy` | handshake and traffic together |
| `ServerEvents.dfy` | the event stream under any interleaving of tasks |

## How the parts are modelled

- A byte is an integer below 256. FIN, RSV1 and opcode occupy disjoint bits of the first byte, so
  they are combined by addition; exclusive or is defined bit by bit.
- DEFLATE is a list of literals and back-references obtained from the bytes by an arbitrary function
  `parse`, the format. A compressor may return any stream whose references stay within its window
  and its history and that expands to the message; what is delivered is proved for every format and
  every such choice. `Deflate.StoredStreams` shows that there always is one. What is lost is proved
  for every format that can express all of DEFLATE's tokens (`Deflate.Expressive`), or for every
  format that has, or refuses, the stream in question.
- Random masks are an arbitrary function of the frame's number. SHA-1 and base64 are an arbitrary
  function from keys to accept values. Client ids are fresh numbers.
- The mutex around the writer is taken per frame, so two tasks interleave at frame granularity:
  delivery is stated for every sequence of frames whose data frames are those of the user's writer.
- The reader shares the writer with other tasks and its channel with a user who may leave: what the
  others write before each of its turns, and how many items the channel takes, are arbitrary
  (`ReadStreams.Surroundings`). The same holds for a client task and the server's event channel.
- The handshake reads a stream as a string with one character for each byte. Heads are ASCII, as the
  library prints them: white space and letter case are those of ASCII.
- A size that is not configured is 0. A chunk size of 0 and window sizes outside 9 to 15 panic in
  the source and are preconditions.

## Where the code differs from its documentation

- src/extensions.rs:18-39 describes `client_no_context_takeover` as a matter of the client's encoder
  and the server's decoder. In src/handshake.rs:61-77 and 204-220 both ends build their decoder from
  the client's parameters and their encoder from the server's. `Negotiation.WiringSoundness` gives the
  exact condition under which every run round-trips, in any expressive format: the client flag only together with the server
  flag, and the server's window no larger than the client's. `Deflate.ResetMismatch` is a run of two
  messages that is lost otherwise.
- src/split.rs:221-222 says RSV1 is set on the first frame of a compressed message only.
  `send_large_data_fragmented` calls `write_frames` once per fragment and sets it on all.
  `Sender.LargeSendAgrees` says exactly when the two sends put the same frames on the wire.
  The peer decompresses the last fragment by itself, puts the result behind the others and
  decompresses the whole (`LargeSends.LargeSendSeveral`). `LargeSends.LargeSendDelivered` says exactly
  when the data is delivered all the same, and `LargeSends.LargeSendGuaranteed` what can be counted
  on without knowing the format: data that is not empty, is UTF-8 and is not compressed.
- src/split.rs:102 takes any bytes and sends them as Text; those that are not UTF-8 end the peer's
  connection (`LargeSends.LargeSendPlain`).
- src/read.rs:219-221 limits control frames to 125 bytes, before decompression. A Ping with RSV1 is
  decompressed afterwards and answered in full (`Reader.PingAnswered`). `Reader.ReplyBound` says
  exactly when a reply is longer than 125 bytes; `Reader.LongPong` shows that one is in every format
  with a stream of at most 125 bytes for a byte and a copy of it 125 times.
- `send_large_data_fragmented` with no data sends no frame; an empty message is one empty frame.
- Extensions given with `permessage_deflate: false` add a line end after the head
  (src/extensions.rs:128-143), which the peer reads as a frame (`Handshake.StrayStops`).
- CONFIG.md speaks of a threshold of 8 KB for compression; the constant in src/split.rs:17 is 1 byte.

## Model

| member | source | states |
|---|---|---|
| Wire.FrameRoundTrip | src/read.rs:168-290 | for every frame, mask and continuation of the stream, parsing the encoded frame gives the frame back and leaves exactly the continuation, or fails with the first applicable error |
| Wire.CanonicalForm | src/read.rs:216-245 | an accepted frame depends on nothing after it, re-encodes to no more bytes, parses back alike, and re-encodes to the same bytes iff the shortest length form was used |
| Wire.FrameProgress | src/read.rs:204-235 | every accepted frame takes at least two bytes off the front and respects the frame limit, the control-frame limit and the RSV1 rule |
| Wire.FrameLayout | src/write.rs:30-131 | the bytes of every frame one by one: FIN, RSV1 and the opcode's number, the mask bit and the length, the extended length in network byte order, the mask, and the payload with exactly the bits inverted that are set in the mask's byte at i modulo 4 |
| Wire.MaskedMeaning | src/read.rs:272-276 | masking inverts, bit by bit, what the mask sets |
| Wire.HeaderErrors | src/read.rs:178-221 | which first two bytes are refused and with which error, by their bits, in the order of the checks |
| Wire.CutFrame | src/read.rs:223-270 | a stream that ends inside a frame gives an I/O error, unless the header or the length has already been refused |
| Utf8Text.ValidMeansEncoded | src/message.rs:14 | a payload is a text iff it is a sequence of encoded Unicode scalar values, each in its shortest form |
| Writers.Writer.WriteFrameServer | src/write.rs:30-68 | appends exactly the unmasked encoding of the frame |
| Writers.Writer.WriteFrameClient | src/write.rs:71-131 | appends exactly the encoding of the frame under the next random mask |
| Writers.Writer.WriteFrame | src/write.rs:23-28 | chooses by the kind of writer |
| Writers.ClientsMask | src/write.rs:23-28 | clients mask every frame, with the next random mask; servers mask none |
| Writers.MaskPayload | src/write.rs:123-126 | the masking loop computes the bytewise exclusive or with the repeated mask |
| Deflate.Encoder.Compress | src/encoder.rs:23-76 | returns a stream without its trailer that stands for the payload in the current context, and advances or resets the context; nothing happens for an empty payload |
| Deflate.Decoder.Decompress | src/decoder.rs:33-80 | restores the trailer, resets before the message if configured, and expands it in the remaining context or fails |
| Deflate.CopyMeaning | src/decoder.rs:54-75 | which back-references a decompressor accepts, and that one repeats byte for byte what lies so far back, its own output included |
| Deflate.InflateDeflated | src/decoder.rs:44-47 | one message: a decoder in step with the encoder recovers it and stays in step |
| Deflate.RunStaysInSync | src/split.rs:147-163 | whole runs, with bypassed 0- and 1-byte messages: all messages are recovered |
| Deflate.ContextAgreement | src/encoder.rs:69-72 | in every expressive format every run round-trips, whatever the compressor chooses, iff the encoder's window fits the decoder's and the decoder resets only if the encoder does |
| Deflate.ResetMismatch | src/decoder.rs:44-47 | in every expressive format, a run of two messages lost when only the decoder resets |
| Deflate.WindowMismatch | src/decoder.rs:21-31 | in every expressive format, a message lost when the encoder's window is the larger |
| Deflate.PlainIsExpressive | src/decoder.rs:33-80 | expressive formats exist |
| Deflate.StoredStreams | src/encoder.rs:54-67 | every non-empty message has an encoding in every context |
| Reader.PollRuns | src/read.rs:56-60 | on any bytes at all the loop runs the frames the stream begins with, ends with the error of the first byte sequence that is no frame unless a frame has ended it before, and leaves unread exactly what follows the frames it looked at |
| Reader.PollStops | src/read.rs:56-157 | on any input the loop ends in an error, or right after a Close that it answers last |
| Reader.ReplyBound | src/read.rs:144-166 | no reply exceeds 125 bytes, except iff the run gets to a Ping with RSV1 that is decompressed to more; so never without compression |
| Reader.StepReplies | src/read.rs:144-166 | the same for each accepted frame |
| Reader.PingAnswered | src/read.rs:279-282 | in every format and context a Ping with RSV1 is answered by a Pong with whatever it is decompressed to |
| Reader.LongPong | src/read.rs:279-282 | in every format with a stream of at most 125 bytes for a literal and a copy of it 125 times, in every context, that Ping is answered by a Pong of 126 bytes |
| Reader.BufferBound | src/read.rs:64-90 | after any number of turns over any bytes the pending buffer is at most the larger of the two limits |
| Reader.RunConcat | src/read.rs:58-60 | runs compose: a run over a concatenation is the second run from the state the first leaves |
| ReadStreams.ReadStream.ReadFrame | src/read.rs:168-290 | reads, checks, unmasks and, with FIN and RSV1, decompresses one frame as `ParseFrame` and `Arrive` say |
| ReadStreams.Unmask | src/read.rs:272-276 | the in-place loop applies the repeated mask to the whole payload |
| ReadStreams.ReadStream.TransmitMessage | src/read.rs:300-311 | hands a message to the user unless a Text payload is not UTF-8 or the user has left |
| ReadStreams.ReadStream.SendPongFrame | src/read.rs:159-166 | writes one Pong with the Ping's payload |
| ReadStreams.ReadStream.SendCloseFrame | src/read.rs:292-298 | writes one empty Close |
| ReadStreams.ReadStream.Continuation | src/read.rs:80-122 | continuation frames: size check, completion, decompression, delivery, errors |
| ReadStreams.ReadStream.PollMessages | src/read.rs:56-157 | the loop has exactly the effect of `PollAmid` on the user's channel and on the wire, whatever other tasks write between its frames and whenever the user leaves, and returns its error |
| ReadStreams.Undisturbed | src/read.rs:159-166 | among other tasks the reader delivers, ends and replies as it does alone, its frames and theirs interleaved in their orders; when the user leaves after n items it has delivered the first n and ends with CommunicationError at the next |
| ReadStreams.ReadStream.ReaderTask | src/handshake.rs:130-134 | the user's stream is that of `Poll` alone: the messages, then the error if any, as far as the user listens |
| Grammar.ControlTransparency | src/read.rs:144-166 | Pings and Pongs change neither deliveries nor the end of a run; the replies answer the frames looked at: the Pongs have the payloads of the Pings, in order, each in one frame without RSV1, none over 125 bytes when no Ping is |
| Grammar.RunWhole | src/read.rs:95-117 | a whole message, single or fragmented, yields what its total payload means, decompressed once at either of the two places |
| Grammar.Reassembly | src/read.rs:61-132 | the run of any data frames is the verdict of their unique longest reading as (single, or start cont* final)*, an unfinished message and the first violating frame, with the matching error |
| Grammar.OneReading | src/read.rs:76-79 | two readings of the same frames are equal |
| Grammar.LongerReading | src/read.rs:76-79 | no reading goes past a violating frame |
| Grammar.StreamMeaning | src/read.rs:56-157 | for any bytes: the frames up to the first Close, without Pings and Pongs, have one longest reading; that is what is delivered, and the loop ends at its first violation, else at the Close, else with the error of the bytes that are no frame; the Pongs written have the payloads of the Pings looked at, in order, each at most 125 bytes; and what follows the frames looked at is unread |
| Sender.CutFrames | src/split.rs:186-208 | the fragmenting loop yields one frame per chunk, opcode on the first, FIN on the last |
| Sender.WSWriter.CheckCompression | src/split.rs:147-163 | compresses exactly payloads of more than one byte, when enabled, and advances the encoder |
| Sender.WSWriter.ConvertToFrames | src/split.rs:165-209 | the frames of a message for what the compressor returned; one empty frame for an empty message |
| Sender.WSWriter.WriteFrames | src/split.rs:220-237 | writes the frames in order, RSV1 on the first only |
| Sender.WSWriter.WriteMessage | src/split.rs:211-218 | refuses a message over the limit without any effect, otherwise writes its frames |
| Sender.WSWriter.SendLargeDataFragmented | src/split.rs:102-145 | both size errors, and otherwise one frame per fragment with RSV1 on each if compressed |
| Sender.WSWriter.SendPing | src/split.rs:95-98 | writes one empty Ping |
| Sender.WSWriter.CloseConnection | src/split.rs:61-65 | writes one empty Close |
| Sender.FragmentationShape | src/split.rs:186-208 | ceil(n/m) frames that form one whole message and concatenate to the payload, all but the last of length m, RSV1 on the first iff compressed |
| Sender.LargeSendAgrees | src/split.rs:102-145 | the large send puts the same frames on the wire as a Text message cut alike iff there is data and it is uncompressed or fits one fragment; otherwise they differ exactly in RSV1 |
| Delivery.PollFrames | src/read.rs:56-60 | reading the bytes of legal frames is running the frames; what follows a stop stays unread |
| Delivery.FramingOfWire | src/read.rs:168-290 | the bytes of legal frames, however masked, are framed as those frames and then as what follows |
| Delivery.FramingStops | src/read.rs:168-290 | the first frame that breaks a rule of size, RSV or control frames ends the framing there with the matching error |
| Delivery.DeliverOne | src/split.rs:211-218 | the frames of an accepted message mean exactly that message to a peer in step |
| Delivery.SendMessages | src/split.rs:211-218 | a sequence of sends on the writer object: the refused messages leave no trace, the others are an accepted run whose frames, in order, are what is on the wire |
| Delivery.Transfer | src/split.rs:211-218 | on the objects: `poll_messages` over the bytes that a sequence of sends has written delivers exactly the messages the writer did not refuse |
| Delivery.EndToEnd | src/read.rs:56-157 | any run of accepted sends, under any masks, compressor choices and interleaved Pings and Pongs within the reader's limits, is delivered exactly and in order, and both ends stay in step |
| Delivery.CutsAgree | src/read.rs:279-282 | one message cut in any two ways gives the same delivery and the same decoder afterwards |
| Delivery.CloseCutsCleanly | src/read.rs:133-143 | a Close at any frame boundary: exactly the messages completed before it are delivered, one Close is written, last, and nothing after it is read |
| LargeSends.LargeSendSeveral | src/split.rs:130-142 | what the peer makes of a compressed large send in several fragments, in every format and for every stream: the last fragment decompressed alone, put behind the others, and the whole decompressed, with the error of the first step that fails |
| LargeSends.LargeSendRead | src/split.rs:130-142 | a large send that is uncompressed or in one fragment is read as the one message it is |
| LargeSends.LargeSendPlain | src/split.rs:130-142 | what the peer makes of an uncompressed large send: nothing, the Text message, or FromUtf8Error |
| LargeSends.LargeSendDelivered | src/split.rs:102-145 | for every format, stream, mask and pair of contexts in step: the data is delivered as one Text message iff there is data, it is UTF-8, and it is uncompressed, or in one fragment, or in several that are rejoined to a stream of the same data |
| LargeSends.LargeSendGuaranteed | src/split.rs:102-145 | all formats and compressors deliver it iff there is data, it is UTF-8 and it is not compressed |
| LargeSends.LargeSendLost | src/split.rs:130-142 | a compressed stream in several fragments whose last one the format refuses is lost with IOError, and delivered when `send_message` cuts it alike |
| Quiescence.Quiesces | src/read.rs:133-150 | every run of two connected endpoints is at most as long as a measure of its first state |
| Quiescence.TakenFromBytes | src/read.rs:56-60 | a turn of a reader in the network is what `poll_messages` makes of the frame's bytes, however masked |
| Quiescence.FinalStates | src/read.rs:133-150 | a state has no further step iff the users are done and no living reader has a frame to read |
| Quiescence.RepliesOverRuns | src/read.rs:159-166 | in every state reachable from a fresh connection the Pongs each endpoint has written have the payloads of the Pings it accepted, one each, in order, and it has written at most one Close by itself, none while its reader lives |
| Conversation.ConversationDelivers | src/read.rs:56-157 | over every run of two endpoints, the replies of both readers among the frames of both users: each user has been delivered a prefix of what the other sends, no reader fails but by reading a Close, and in a final state a user whose reader lives has got everything, which without a Close holds of both |
| Conversation.WayDelivers | src/split.rs:211-218 | the same in one direction, from an invariant of the states |
| Negotiation.ParseExtensions | src/extensions.rs:47-79 | the parsing loop computes `ParsedExtensions` |
| Negotiation.ParsedMeaning | src/extensions.rs:47-79 | for any header value, whoever wrote it: nothing without a piece "permessage-deflate"; a flag is set iff some piece begins with its name; a window is what the last piece of that name says, 15 without a value, otherwise the number after the last '=', if it is one below 256; other pieces say nothing |
| Negotiation.BrowserOffer | src/extensions.rs:59-60 | the usual offer of a client window without a value is a window of 15 |
| Negotiation.AddExtensionHeaders | src/extensions.rs:122-146 | appends the printed parameters, separated by semicolons, and the line ends |
| Negotiation.HeaderText | src/extensions.rs:128-141 | the text of a header value, letter by letter |
| Negotiation.HeaderRoundTrip | src/extensions.rs:122-146 | parsing a printed header gives every parameter back, for any window value; only flags set to false are dropped |
| Negotiation.NegotiationAgreement | src/extensions.rs:85-119 | for all configurations of both sides: the client reads back what the server agreed to; compression iff both enable it; windows within all bounds and no tighter; flags as requested and mentioned; merging again changes nothing |
| Negotiation.WiringSoundness | src/handshake.rs:61-77 | in every expressive format every run round-trips over the wired contexts iff the client flag implies the server flag and the server's window is at most the client's |
| Negotiation.SoundStartsInSync | src/handshake.rs:204-220 | under that condition a fresh connection starts with its contexts in step |
| Negotiation.SoundFromConfigurations | src/handshake.rs:254-258 | that condition in terms of the two configurations |
| Negotiation.Defaults | src/handshake.rs:61-77 | a parameter that was not agreed is no reset, and a window of 15 |
| Text.ShowU8Parses | src/extensions.rs:63 | a printed window value parses to itself |
| Text.ParseU8Meaning | src/extensions.rs:63 | what is read as a number: exactly an optional plus sign, any zeros and a number below 256 as it is printed |
| Text.TrimMeaning | src/request.rs:117 | trimming takes the space off both ends and nothing else |
| Text.SplitMeaning | src/extensions.rs:48 | splitting loses nothing and leaves no separator |
| Request.ParseHttpRequest | src/request.rs:81-140 | the reading and header loops compute `ParseHttp` |
| Request.HeadBoundary | src/request.rs:89-97 | for any stream exactly the bytes through the first empty line are consumed, or all if there is none |
| Request.LinesMeaning | src/request.rs:106-107 | lines end at LF or CR LF |
| Request.WordsMeaning | src/request.rs:108-111 | the words of the first line, whatever space is between them |
| Request.PaddedHeader | src/request.rs:115-118 | a header's value is trimmed, its name put in lower case |
| Request.NoHeader | src/request.rs:116-117 | a line without ": " is no header |
| Request.LowerMeaning | src/request.rs:117 | the case of ASCII letters does not matter, and nothing else changes |
| Request.ShortFirstLine | src/request.rs:109-111 | what is wrong with a first line of less than three words |
| Request.NoHead | src/request.rs:100-107 | no empty line, or nothing before it |
| Request.ParseBlock | src/request.rs:99-119 | a printed head, whatever follows, parses to its lines and leaves what follows |
| Handshake.ParseHandshakeServer | src/handshake.rs:233-272 | the server's checks, agreement and response |
| Handshake.ParseHandshakeClient | src/handshake.rs:274-296 | the client's check and what it reads back |
| Handshake.SecondStageHandshake | src/handshake.rs:91-109 | reader and writer are new objects that share one frame writer and start from the wired contexts, the given compressor and the limits of the configuration |
| Handshake.AcceptAsyncWithConfig | src/handshake.rs:49-89 | a server connection of new objects starts right after the head with the agreed extensions |
| Handshake.ConnectAsyncWithConfig | src/handshake.rs:195-231 | a client connection of new objects starts right after the head with the extensions it read |
| Handshake.RequestParses | src/request.rs:58-65 | what a server finds in a client's request |
| Handshake.ResponseParses | src/handshake.rs:262-263 | what a client finds in a server's response |
| Handshake.HandshakeAgreement | src/handshake.rs:233-296 | from text to text: both ends hold the same parameters, and each reader starts right after the head but for a stray line end |
| HandshakeChecks.ClientCheck | src/handshake.rs:278-295 | for any status line and headers, the client goes on iff the accept value it expects occurs in the last accept header, or else ends with InvalidAcceptKey |
| HandshakeChecks.WrongAccept | src/handshake.rs:285-288 | this library's response with another accept value, or without one, is refused |
| HandshakeChecks.ServerCheck | src/handshake.rs:238-271 | for any method and headers: a method but GET, a missing Host and a missing key are refused in this order, and otherwise the server agrees to the merge with the last offer |
| HandshakeChecks.RequestLines | src/request.rs:58-65 | the request, line by line |
| HandshakeChecks.ResponseLines | src/handshake.rs:24-28 | the response, line by line |
| HandshakeChecks.ConfiguredLimits | src/read.rs:233-235 | what each configured size and the extensions do to a reader |
| Handshake.StrayStops | src/extensions.rs:127-143 | the stray line end is read as a frame and ends the connection with InvalidOpcode |
| Connection.Direction | src/handshake.rs:91-136 | one direction of a negotiated connection delivers exactly its traffic |
| Connection.ConnectionDelivers | src/handshake.rs:49-231 | handshake and traffic together: under the soundness condition both users receive exactly what the other sent |
| ServerEvents.TurnSendsNext | src/server.rs:69-86 | a client task's turn sends the next event of its story and touches no other client |
| ServerEvents.EventLanguage | src/server.rs:31-95 | under every interleaving a client's events are a prefix of NewClient, its messages in order, at most one error, Disconnect, complete iff its task has ended; an id whose setup failed has one error |
| ServerEvents.StoryOfReader | src/server.rs:69-86 | the story of a client in terms of what its connection's reader did |
| ServerEvents.ClientTask | src/server.rs:69-86 | the task's loop sends the messages up to the first error, the error and Disconnect, whatever other tasks send in between; the channel's events about its client are exactly these |
| ServerEvents.ProjectAmid | src/server.rs:69-86 | events that other tasks send about other clients do not change a client's own sequence |

## Left out

- TCP and TLS streams, certificates, URL parsing and DNS: input and output and foreign libraries.
- Write errors and timeouts: the peer is taken to keep up. The receiver of the server's events is taken to live; the source panics without it.
- The internals of zlib, its buffers and status loops, and streams that end with a final block.
- SHA-1, base64, random keys and UUIDs: arbitrary functions or fresh values.
- The Content-Length body branch (src/request.rs:122-128): header keys are lowercased before the lookup, so it is never taken.
- White space and lowercasing beyond ASCII in a head, and heads that are not UTF-8.
- RSV1 on a control or continuation frame from a foreign peer: its behaviour is in `Reader.Step`, and `Reader.ReplyBound` treats its effect on replies; the grammar and delivery theorems exclude it.
- `connection.rs`, `event.rs`, the `Stream` implementations and the thin wrappers of `send_message`.
