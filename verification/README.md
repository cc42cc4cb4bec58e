# A verified model of the WebSocket protocol core

The repository implements RFC 6455 twice, as the C++ library `wscpp` and the Rust crate `ws-rs`. This
project models the protocol core of both in Dafny and proves what the two implementations achieve:
frames and masking, the incremental parsers, the connection state machines, the opening handshake, and
the protocols by which several threads send on, close and shut down connections.

Check everything with `dafny verify dfyconfig.toml`.

## How it is organised

| file | what it holds |
|---|---|
| `Bytes`, `Masking`, `Utf8`, `Frames`, `CloseCodes` | octets, XOR masking by words, UTF-8, wire images of frames and the whole-input decoder, close codes |
| `WireFormat` | the frame format of section 5.2 of RFC 6455 bit by bit, apart from encoder and decoder, and the examples of its section 5.7 |
| `Builder` | the Rust and C++ frame encoders on a growing vector |
| `Parser`, `CppParser` | the two incremental parsers as classes with a ghost record of the octets absorbed |
| `Session`, `RustConnection` | what a Rust endpoint does as functions on values, and the class that does it byte by byte |
| `Senders` | which frame each call puts on the wire, in the terms of `WireFormat`, and what a failing write or codec leaves |
| `EndToEnd`, `EchoServer`, `RoleDuality` | what two endpoints achieve together, over every script of sends and every run |
| `Delivery` | two connections joined: a script sent, the bytes cut into any pieces, everything read |
| `Reassembly`, `CppReader`, `CppReassembly`, `CppStale` | the reassembly rules as a fold over frames, the C++ reader, the simulation of the one by the other, and exactly where it breaks |
| `BothReaders` | the Rust connection against the same rules, and the agreement of the two implementations |
| `MessageForm` | what the reassembly rules come to, by the positions of frames in the stream |
| `Validation` | exactly which frames both implementations refuse, said on the octets |
| `SendLocks`, `ConcurrentSends` | the lock protocol of the Rust connection: code paths, interleavings, what the wire carries, absence of deadlock |
| `CloseGate`, `CloseRaces` | the C++ close and send gate as steps of interleaved threads, and exactly which programs of threads race at it |
| `ServerShutdown` | the server's shutdown sweep as steps of interleaved threads |
| `Boundary`, `Socket`, `HttpText`, `Headers`, `Handshake`, `HandshakeAgreement` | reading up to a delimiter, short reads and writes, the text of the handshake, both header parsers, both ends |

Three decoders are related to one specification, `Frames.Decode`: the Rust parser, the C++ parser and the
inline reader of the C++ connection. Two connections are related to two specifications: the Rust
connection to `Session`, and the C++ reader to `Reassembly.Fold`. None of these stands alone: `WireFormat`
says what `Frames.Decode` and `Frames.Encode` do in terms of bits and positions, `Senders` and `Validation`
what is written and what is refused, `MessageForm` which frames make up a message. `EndToEnd` and `CppStale`
show that both connections deliver what a sender's script means, and `BothReaders` that both follow the same
rules on every input and deliver the same messages wherever no frame is empty.

## What turned out not to hold

Where the code does not do what one would state first, the model keeps the code, a lemma gives an input,
and another says exactly when the property holds.

- A last frame with an empty payload is not reported by the incremental parsers until one more byte
  arrives: an empty message is not read (`EndToEnd.EmptyMessageNotRead`), an empty ping not answered
  (`EndToEnd.EmptyPingNotAnswered`); exactly `EndToEnd.DeliveryExact`.
- The C++ reader handles an empty frame with the previous frame's payload:
  `CppStale.EmptyMessageDeliveredStale`, exactly `CppStale.StaleExact` for one frame and
  `CppStale.RunExact` for whole runs.
- A length above 2^63-1 makes the C++ reader's buffer throw out of its thread, which ends the process:
  `CppReader.OverlongCrashes`, exactly `CppReassembly.CrashExact`.
- The C++ parser does not say how much it consumed: `CppParser.CutHeaderIsLost`; exactly the cuts of
  `CppParser.SafeCut` lose nothing, by the contract of `CppParser.FrameParser.Parse`. Its `bytes_needed` is
  wrong before a 64-bit length (`CppParser.WrongBeforeLength`) and before the end of an empty payload
  (`CppParser.WrongAtEmptyPayload`), and in no other state: `CppParser.BytesNeededExact`.
- A sender can write after the CLOSE of `handle_close_frame`, which clears `is_open_` only after it has
  dropped the mutex: `CloseRaces.DataAfterReply`. It can happen exactly if one thread would close first by
  answering the peer's CLOSE and another begins with data or a ping: `CloseRaces.NoLateDataExact`.
- Two threads can write two CLOSE frames and call back twice: `CloseRaces.TwoCloses`. It can happen exactly if
  two threads have an operation that closes: `CloseRaces.AtMostOnceExact`.
- The shutdown sweep can reach a registered connection before it has adopted its socket and then leave
  it open: `ServerShutdown.MissedConnection`, exactly `ServerShutdown.SweepExact`.
- A `Sec-WebSocket-Key` that begins with white space is answered as if it did not:
  `HandshakeAgreement.SpacedKeyRefused`, exactly `HandshakeAgreement.AgreementExact`. `client_upgrade` draws
  its key from `generate_key`, which gives base64; only a direct caller of `build_client_request` can send
  such a key.

## Model

| member | source | states |
|---|---|---|
| `Masking.ApplyMask` | include/wscpp/detail/mask.hpp:36-85 | for every length and both byte orders the 64-, 32-, 8-, 4- and 1-byte loops XOR octet k with key octet k mod 4 and touch nothing before the slice |
| `Masking.CopyAndUnmask` | include/wscpp/detail/mask.hpp:88-117 | the destination range becomes the source masked as if it began at the given payload offset, and nothing else changes |
| `Masking.MaskInvolution` | rust/ws-rs/src/frame/mask.rs:28-75 | masking twice with the same key and offset is the identity |
| `Masking.MaskSplit` | rust/ws-rs/src/frame/mask.rs:77-108 | masking the pieces of a payload with running offsets is masking the whole |
| `Masking.WordMasks64` | rust/ws-rs/src/frame/mask.rs:23-26 | loading eight octets, XORing with the doubled key word and storing is byte-wise masking, in either byte order |
| `Masking.WordMasks32` | rust/ws-rs/src/frame/mask.rs:65-69 | the same for a four-octet word |
| `Bytes.XorBitsAt` | rust/ws-rs/src/frame/mask.rs:43-69 | bit i of the XOR of two words of any width is set exactly if it is set in one of them and not in the other |
| `Bytes.XorMeaning` | rust/ws-rs/src/frame/mask.rs:71-74 | the XOR of two octets is the octet each of whose eight bits is set exactly if it is set in one of the two and not in the other |
| `WireFormat.MaskedHello` | rust/ws-rs/src/frame/mask.rs:29-75 | "Hello" masked with the key 37 FA 21 3D is 7F 9F 4D 51 58, as in section 5.7 of RFC 6455 |
| `Utf8.IsValidUtf8` | include/wscpp/detail/utf8.hpp:12-75 | the two loops answer true exactly on well-formed octets |
| `Utf8.ScanMultibyte` | rust/ws-rs/src/utf8.rs:15-67 | the strict loop decides well-formedness of the rest from any position |
| `Utf8.WellFormedIffEncoding` | rust/ws-rs/src/utf8.rs:3-68 | well-formed octets are exactly the encodings of sequences of Unicode scalar values (section 4 of RFC 3629) |
| `Utf8.EncodingUnique` | rust/ws-rs/src/utf8.rs:3-68 | the sequence of scalar values is unique |
| `Utf8.KnownEncodings` | rust/ws-rs/src/utf8.rs:15-67 | characters of one to four octets have the encodings section 7 of RFC 3629 gives them; overlong forms, surrogates, values above 10FFFF, lone and missing continuations are refused |
| `Utf8.AsciiSkip` | include/wscpp/detail/utf8.hpp:14-21 | skipping eight octets whose word has no high bit never changes the answer |
| `Frames.RoundTrip` | rust/ws-rs/src/frame/builder.rs:9-63 | decoding an encoded frame followed by any octets gives the frame back and consumes exactly its octets |
| `Frames.RoundTripVisible` | rust/ws-rs/src/frame/parser.rs:134-160 | an incremental parser reports the frame as soon as its payload or one later octet is there |
| `Frames.UniqueDecoding` | rust/ws-rs/src/frame/builder.rs:38-63 | a concatenation of encoded frames determines the list of frames |
| `Frames.DecodePrefix` | rust/ws-rs/src/frame/parser.rs:181-300 | octets that follow never change a decoded frame or a detected error |
| `Frames.LengthFormMinimal` | rust/ws-rs/src/frame/builder.rs:19-32 | no length field the decoder accepts is shorter than the one written, and only that one is as short |
| `Frames.EncodeIsMinimal` | rust/ws-rs/src/frame/builder.rs:38-63 | the written image is the shortest that decodes to the frame, and the only one of that length |
| `Frames.HeldBackFrame` | rust/ws-rs/src/frame/parser.rs:270-274 | the frames reported of a stream are all its complete frames except a last empty one ending with the stream |
| `Frames.ParseEncoded` | rust/ws-rs/src/frame/parser.rs:134-160 | parsing a concatenation of encoded frames reports these frames and goes on with what follows |
| `WireFormat.OpcodeNumbers` | rust/ws-rs/src/frame/parser.rs:5-31 | the opcodes are the numbers 0, 1, 2, 8, 9 and 10, in reading and in writing |
| `WireFormat.DecodeIffLayout` | rust/ws-rs/src/frame/parser.rs:181-300 | octets are decoded as a frame if and only if they are laid out as it: the bits of the first two octets, the length in one of three forms, the key, and each payload octet masked by its key octet, all said bit by bit |
| `WireFormat.DecodeInStream` | rust/ws-rs/src/frame/parser.rs:134-160 | in a longer stream a frame of n octets is found if and only if the first n octets are laid out as it |
| `WireFormat.DecodeErrorExact` | rust/ws-rs/src/frame/parser.rs:193-242 | the decoder reports an error if and only if the opcode number is none of the six or the length is 2^63 or more |
| `WireFormat.EncodeLaysOut` | rust/ws-rs/src/frame/builder.rs:9-63 | the image written for a frame is laid out as that frame |
| `WireFormat.HelloUnmasked` | rust/ws-rs/src/frame/builder.rs:38-63 | the unmasked text frame of section 5.7 of RFC 6455, octet for octet |
| `WireFormat.HelloMasked` | rust/ws-rs/src/frame/builder.rs:38-63 | the masked text frame of that section |
| `WireFormat.HelloFragments` | rust/ws-rs/src/frame/builder.rs:38-63 | the two fragments of that section |
| `WireFormat.HelloPing` | rust/ws-rs/src/frame/builder.rs:38-63 | the ping of that section |
| `WireFormat.HelloPong` | rust/ws-rs/src/frame/builder.rs:38-63 | the pong that answers it |
| `WireFormat.Binary256` | rust/ws-rs/src/frame/builder.rs:19-32 | the 256-octet binary frame of that section, with a 16-bit length |
| `WireFormat.Binary65536` | rust/ws-rs/src/frame/builder.rs:19-32 | the 64-KiB binary frame of that section, with a 64-bit length |
| `WireFormat.CloseExamples` | rust/ws-rs/src/frame/builder.rs:245-271 | CLOSE frames with code 1000 and with code 1002 and a reason, octet for octet |
| `Builder.PushHeader` | rust/ws-rs/src/frame/builder.rs:9-33 | the header octets appended are those of the frame, with the shortest length form |
| `Builder.EncodeInto` | rust/ws-rs/src/frame/builder.rs:38-63 | copy then mask leaves exactly the wire image of the frame |
| `Builder.FrameBuilder.BuildInto` | rust/ws-rs/src/frame/builder.rs:135-181 | mask then copy leaves the same wire image, all three RSV bits included |
| `Builder.BuildCloseInto` | rust/ws-rs/src/frame/builder.rs:245-271 | the close encoder gives the image of a CLOSE frame with the code octets and the reason |
| `Builder.AppendPayloadLength` | src/frame/builder.cpp:11-32 | the C++ length field is the shortest form |
| `Builder.CppBuildInto` | src/frame/builder.cpp:55-88 | the C++ encoder leaves the same wire image as the Rust ones |
| `Builder.CppBuildCloseInto` | src/frame/builder.cpp:98-133 | both reason branches leave the image of the same CLOSE frame |
| `Parser.Parser.Parse` | rust/ws-rs/src/frame/parser.rs:134-160 | whatever pieces came before, the result is what the whole-input decoder says of all octets of the current frame and the new ones: the frame and its exact end, the error, or more needed; never past the frame |
| `Parser.Parser.ParseHeader` | rust/ws-rs/src/frame/parser.rs:181-219 | the two header octets are absorbed and agree with the decoder, or an undefined opcode is an error there too |
| `Parser.Parser.ParsePayloadLength` | rust/ws-rs/src/frame/parser.rs:221-256 | the extended length agrees with the decoder, which rejects exactly the lengths rejected here |
| `Parser.Parser.ParseMaskingKey` | rust/ws-rs/src/frame/parser.rs:258-268 | the key absorbed is the one the decoder uses |
| `Parser.Parser.ParsePayload` | rust/ws-rs/src/frame/parser.rs:270-300 | the piece is unmasked at its running offset; completion is reported exactly when the decoder sees the frame |
| `Parser.Parser.TakeFrame` | rust/ws-rs/src/frame/parser.rs:174-179 | hands out the completed frame and leaves the parser ready |
| `Parser.ParseChunks` | rust/ws-rs/src/frame/parser.rs:134-160 | feeding a stream in any pieces, presenting again what was not consumed, reports exactly the frames of the whole stream and an error exactly if the stream has one |
| `CloseCodes.IsValid` | rust/ws-rs/src/close.rs:4-21 | accepts exactly the codes that section 7.4 of RFC 6455 lets an endpoint send |
| `CloseCodes.Sanitize` | rust/ws-rs/src/close.rs:24-30 | a code that may be sent is kept and any other becomes 1002 |
| `CloseCodes.ReceivedCode` | rust/ws-rs/src/close.rs:33-40 | 1000 for a payload without a code, otherwise the code in it if that may be sent, otherwise 1002 |
| `CloseCodes.ReceivedReason` | rust/ws-rs/src/close.rs:33-40 | the reason is what follows the code |
| `Senders.CloseReceived` | rust/ws-rs/src/close.rs:33-40 | reading a CLOSE payload back gives the code, or 1002, and the reason it was written with |
| `RustConnection.Connection.Send` | rust/ws-rs/src/blocking/connection.rs:114-165 | every public sender writes exactly the image of its frame, or the part the transport took, and reports which |
| `RustConnection.Connection.CloseConnection` | rust/ws-rs/src/blocking/connection.rs:168-176 | writes a CLOSE with a sanitized code and closes only if it could be written |
| `Senders.CallWrites` | rust/ws-rs/src/blocking/connection.rs:114-165 | on a transport that takes everything each sender writes one frame: the opcode of the call, its FIN bit, masked exactly by clients, RSV1 and compressed data exactly for final text and binary messages where deflate is negotiated and built, otherwise RSV1 clear and the data itself; a failing compression writes nothing and is the error |
| `Senders.SendFrameWrites` | rust/ws-rs/src/blocking/connection.rs:101-112 | one frame of the layout, with a new masking key for each frame of a client and none for a server |
| `Senders.CloseWrites` | rust/ws-rs/src/blocking/connection.rs:168-176 | `close` writes one CLOSE, with 1002 in place of a code that may not be sent, and closes the connection |
| `Senders.CloseFails` | rust/ws-rs/src/blocking/connection.rs:168-176 | if it cannot be written, `close` fails and the connection stays as open as it was |
| `Senders.ViolationReported` | rust/ws-rs/src/blocking/connection.rs:183-186 | a violation is reported as such even if the CLOSE for it cannot be written |
| `RustConnection.Connection.ParseBuffered` | rust/ws-rs/src/blocking/connection.rs:231-241 | parsing from the cursor on hands out the frame the decoder sees in the pending bytes and leaves exactly the bytes after it pending |
| `RustConnection.Connection.ReadFrame` | rust/ws-rs/src/blocking/connection.rs:223-274 | for any chunking of the input, the frame, error or end that the specification gives for the concatenated input; buffer and cursor conserve every byte |
| `RustConnection.Connection.DeliverMessage` | rust/ws-rs/src/blocking/connection.rs:276-298 | delivers the plain message, or fails with the close the specification prescribes |
| `RustConnection.Connection.HandleCloseFrame` | rust/ws-rs/src/blocking/connection.rs:300-309 | records the peer's code and reason and echoes the code |
| `RustConnection.Connection.HandleFrame` | rust/ws-rs/src/blocking/connection.rs:318-364 | each opcode has the effect the specification gives it on fragments, output and result |
| `Senders.PingWrites` | rust/ws-rs/src/blocking/connection.rs:328-331 | a ping is answered by one pong with the same payload and changes nothing else |
| `Senders.PingFails` | rust/ws-rs/src/blocking/connection.rs:328-331 | if the pong cannot be written that is the error of the call |
| `Senders.IllFormedTextReported` | rust/ws-rs/src/blocking/connection.rs:290-293 | ill-formed text is closed with 1007; if that cannot be written the write error is reported instead |
| `Senders.CloseAnswered` | rust/ws-rs/src/blocking/connection.rs:300-309 | the peer's code and reason are remembered, the reply is one CLOSE with that code and no reason, after which the connection is closed; if it cannot be written the connection stays open |
| `Validation.AcceptableExact` | rust/ws-rs/src/blocking/connection.rs:188-220 | a header is accepted if and only if it is masked exactly for a server, RSV2 and RSV3 are clear, and RSV1 is set only on text and binary frames with deflate |
| `Validation.BadFrameExact` | rust/ws-rs/src/blocking/connection.rs:188-220 | the same said on the first two octets of a complete frame |
| `Validation.BadFrameRefused` | rust/ws-rs/src/blocking/connection.rs:242-246 | reading a frame that is not acceptable is a protocol error, delivers nothing and changes nothing else |
| `Validation.UnmaskedRefused` | rust/ws-rs/src/blocking/connection.rs:213-215 | a server refuses the unmasked frame 82 01 07 |
| `Validation.ClosedReadsNothing` | rust/ws-rs/src/blocking/connection.rs:224-226 | a closed connection reads nothing |
| `RustConnection.Connection.ReadMessage` | rust/ws-rs/src/blocking/connection.rs:312-366 | result, state and remaining input are those of the specification on the concatenated input, for any chunking |
| `RustConnection.Connection.ReadMessages` | rust/ws-rs/src/blocking/connection.rs:312-366 | calling until nothing is delivered gives the messages, the last result and the state of the specification on the concatenated input, for any chunking |
| `RustConnection.Connection.EchoSession` | rust/ws-rs/src/blocking/server.rs:103-123 | the session's result and output are those of the specification on the concatenated input |
| `RustConnection.Connection.FramesConserved` | rust/ws-rs/src/blocking/connection.rs:231-273 | bytes received are the images of the emitted frames, then what the parser holds, then the unread buffer; all complete frames received were emitted except an empty one held back |
| `Session.DeliveredKeepsParser` | rust/ws-rs/src/blocking/connection.rs:312-366 | a call that delivers a message never leaves the parser broken |
| `EndToEnd.SendAllWrites` | rust/ws-rs/src/blocking/connection.rs:101-165 | a script of sends puts whole frames on the wire, one per call and in order |
| `EndToEnd.MessagesDelivered` | rust/ws-rs/src/blocking/connection.rs:223-366 | for every well-ordered script with valid text, any fragmentation, interleaved pings and pongs and any keys, the peer reads exactly the messages in order, then the end, and has written exactly the pongs for the pings in order |
| `Delivery.Transfer` | rust/ws-rs/src/blocking/connection.rs:114-366 | one connection sends any such script, its bytes arrive in any pieces, and the other reads exactly the messages in order, then the end, and has written exactly the pongs for the pings |
| `EndToEnd.DeliveryExact` | rust/ws-rs/src/frame/parser.rs:270-274 | all messages are read and all pings answered if and only if the last frame has a payload, or neither completes a message nor is a ping |
| `EndToEnd.EmptyMessageNotRead` | rust/ws-rs/src/frame/parser.rs:137-137 | an empty binary message sent alone is never read |
| `EndToEnd.EmptyPingNotAnswered` | rust/ws-rs/src/frame/parser.rs:137-137 | an empty ping sent alone is never answered |
| `EndToEnd.FrameAccepted` | rust/ws-rs/src/blocking/connection.rs:188-220 | every frame a sender emits passes the opposite role's validation; RSV1 only on complete compressed messages |
| `EndToEnd.FragmentsJoin` | rust/ws-rs/src/blocking/connection.rs:333-361 | the message of a fragmented script is its parts in order, of the kind of its first call |
| `EndToEnd.ControlIsTransparent` | rust/ws-rs/src/blocking/connection.rs:328-332 | pings and pongs between the fragments do not change the messages |
| `EchoServer.RepliesMeaning` | rust/ws-rs/src/blocking/server.rs:108-120 | the replies of an echo session carry exactly the messages received |
| `EchoServer.EchoRoundTrip` | rust/ws-rs/src/blocking/server.rs:103-123 | a client that sends a script to an echo server reads back exactly its own messages in order |
| `Delivery.EchoTransfer` | rust/ws-rs/src/blocking/server.rs:103-123 | the same between connections, with the bytes cut into any pieces both ways |
| `RoleDuality.LegalIsAcceptable` | rust/ws-rs/src/blocking/connection.rs:188-220 | a frame legal for one role passes the validation of the opposite role with the same flag |
| `RoleDuality.RunWritesLegalFrames` | rust/ws-rs/src/blocking/connection.rs:114-309 | over every run of sends, closes, reads and arrivals, everything written is whole legal frames, or as much as a failing transport takes: masked by role, RSV1 only on final data frames with deflate, every CLOSE with a code that may be sent |
| `CppReader.DecodersAgree` | src/connection.cpp:404-466 | for defined opcodes and lengths below 2^63 the inline reader needs the same octets as the decoder and finds the same header and unmasked payload |
| `CppReader.Connection.ParseHeader` | src/connection.cpp:404-441 | reads exactly the octets of the header and finds its fields, or fails at the end of the stream |
| `CppReader.Connection.ReadExact` | src/connection.cpp:371-375 | exactly the next octets of the stream, or a failure that has consumed what there was |
| `CppReader.Connection.ReadOneFrame` | src/connection.cpp:385-402 | reads one frame's octets and no more, and leaves the state the specification gives for it |
| `CppReader.Connection.ReadPayload` | src/connection.cpp:449-466 | the payload buffer holds the unmasked payload, its old contents after an empty frame, what a cut-off read left in it, or the resize throws |
| `CppReader.Connection.FailWithClose` | src/connection.cpp:241-256 | one CLOSE if the connection was open, then closed, and the callback recorded |
| `CppReader.Connection.DeliverMessage` | src/connection.cpp:302-324 | delivers the plain message or fails with 1002 or 1007 |
| `CppReader.Connection.HandleCloseFrame` | src/connection.cpp:516-539 | echoes the peer's code, or 1002 for one that may not be sent, and reports code and reason |
| `CppReader.Connection.HandleFrame` | src/connection.cpp:468-514 | each opcode has the effect the reader's specification gives it |
| `CppReader.Connection.Run` | src/connection.cpp:377-402 | the read loop ends in exactly the state the specification gives for the whole input |
| `CppReassembly.HeaderChecksAgree` | src/connection.cpp:262-300 | the C++ header checks accept exactly the headers with a defined opcode that the Rust validation accepts |
| `Validation.HeaderProblemExact` | src/connection.cpp:262-300 | the C++ reader refuses a header if and only if its first two octets have an undefined opcode, the wrong mask bit, RSV2, RSV3, or an RSV1 that deflate does not explain |
| `Validation.BadHeaderRefused` | src/connection.cpp:434-444 | at such a header, before its payload, it writes one CLOSE with 1002, reports it once, delivers nothing and stops |
| `Validation.UnmaskedClosed` | src/connection.cpp:291-294 | a C++ server closes on the unmasked frame 82 01 07 with the reason for it |
| `Validation.ReasonMeaning` | src/connection.cpp:241-250 | the reason of such a CLOSE is the text, octet by octet |
| `CppReassembly.HandleSimulates` | src/connection.cpp:468-514 | handling an accepted frame has exactly the effect the reassembly rules give it |
| `CppReassembly.ReaderSimulates` | src/connection.cpp:241-514 | on every input: the messages of the rules in order, a pong for each ping, and at the first violation one CLOSE (1007 for bad UTF-8, otherwise 1002) as the last thing written, one callback with its code, nothing delivered afterwards |
| `CppReader.OverlongCrashes` | src/connection.cpp:456-456 | a header with length 2^63 ends the process |
| `CppReassembly.CrashExact` | src/connection.cpp:449-459 | the process is ended exactly by an acceptable header with a length above 2^63-1 after frames that leave the session open |
| `CppReassembly.NonEmptyFrames` | src/connection.cpp:377-514 | over any stream of non-empty frames that is exactly the fold over the frames as sent |
| `CppStale.StaleExact` | src/connection.cpp:449-454 | an empty frame has its proper effect if and only if the stale octets are none, unused, or say the same |
| `CppStale.RunExact` | src/connection.cpp:449-454 | the reader agrees with the rules after every number of frames if and only if every empty frame met harmless octets |
| `CppStale.EmptyMessageDeliveredStale` | src/connection.cpp:449-454 | an empty binary message after the message [1] is delivered as [1] |
| `CppStale.RustToCpp` | src/connection.cpp:377-514 | a C++ reader delivers exactly the messages of a Rust sender's script of non-empty frames and answers exactly its pings |
| `BothReaders.DispatchFollows` | rust/ws-rs/src/blocking/connection.rs:318-364 | handling an accepted frame in the Rust connection has the effect the reassembly rules give it |
| `BothReaders.RustFolds` | rust/ws-rs/src/blocking/connection.rs:223-366 | on every input successive reads give exactly the messages of the rules, answer every ping, echo and remember the peer's CLOSE, and report the first violation: without a CLOSE for a refused header or a codec failure, after exactly one with the rule's code for any other |
| `BothReaders.SameMessages` | src/connection.cpp:377-514 | from every input without empty frames, legal or not, the C++ reader delivers the messages the Rust connection reads, and writes the same bytes if the session ends with the peer's CLOSE or the last frame |
| `BothReaders.OnlyPresentable` | src/connection.cpp:302-324 | whatever octets arrive, both implementations deliver only binary messages and well-formed text |
| `MessageForm.OrderExact` | rust/ws-rs/src/blocking/connection.rs:333-354 | after any frames that left the session open, a continuation is refused for its place if and only if no message is unfinished, and a new message if and only if one is, said by the positions of the frames |
| `MessageForm.MessageExact` | src/connection.cpp:468-514 | when the last frame of a message arrives, what is completed is the parts from its first frame on, in order, with the kind and the compression of the first frame |
| `CppParser.FrameParser.Parse` | src/frame/parser.cpp:64-114 | the result is the decoder's on all octets of the frame so far; an incomplete call has absorbed its input if and only if it ends at a safe cut; the state is left on exactly the octets it needs |
| `CppParser.FrameParser.ParseHeader` | src/frame/parser.cpp:116-153 | absorbs the two header octets at once or nothing; an undefined opcode is an error exactly where the decoder sees one |
| `CppParser.FrameParser.ParsePayloadLength` | src/frame/parser.cpp:155-187 | absorbs the extended length at once or nothing, and rejects exactly what the decoder rejects |
| `CppParser.FrameParser.ParseMaskingKey` | src/frame/parser.cpp:189-202 | absorbs the key at once or nothing |
| `CppParser.FrameParser.ParsePayload` | src/frame/parser.cpp:204-230 | absorbs any part of the payload, unmasked at its offset, and completes exactly when the decoder sees the frame |
| `CppParser.BytesNeededExact` | src/frame/parser.cpp:39-58 | the answer is the number of octets on which the parser leaves its state if and only if that state is neither before a 64-bit length nor before the end of an empty payload |
| `CppParser.WrongBeforeLength` | src/frame/parser.cpp:43-50 | after a header with a 64-bit length it answers 2 where 8 are needed |
| `CppParser.WrongAtEmptyPayload` | src/frame/parser.cpp:53-54 | after the header of an empty frame it answers 0 where 1 is needed |
| `CppParser.ParseFrames` | src/frame/parser.cpp:64-230 | fed frames with payloads one at a time, the parser reports exactly those frames |
| `CppParser.StreamOfImages` | src/frame/parser.cpp:64-114 | and those are the frames of the concatenated stream |
| `CppParser.DecodersAgreeOn` | src/connection.cpp:404-466 | parser and inline reader find the same header fields and unmasked payload, in any length form |
| `CppParser.CutHeaderIsLost` | src/frame/parser.cpp:116-119 | a header given one octet at a time is lost |
| `SendLocks.ProgramDisciplined` | rust/ws-rs/src/blocking/connection.rs:101-366 | every path of every call takes locks in rank order, drops them all, touches the shared buffer only under its lock, and sends its frames in order |
| `SendLocks.LockedAtStream` | rust/ws-rs/src/blocking/connection.rs:223-364 | which locks each call holds whenever it writes or reads the stream: writes under the lock of the shared buffer, and under that of the fragments exactly for a frame out of order or a refused whole message; reads under the two locks of the reader, which are dropped before a malformed frame is answered |
| `ConcurrentSends.WholeFrames` | rust/ws-rs/src/blocking/connection.rs:101-112 | at every moment of every interleaving the wire is the begun frames in stream-lock order, whole but for a part of the last, and each thread has sent a prefix of its own |
| `ConcurrentSends.AllSent` | rust/ws-rs/src/connection.rs:110-121 | when all threads are done the wire is an interleaving of whole frames, each thread's once each and in order, and all locks are free |
| `ConcurrentSends.PeerSeesWholeFrames` | rust/ws-rs/src/blocking/connection.rs:101-112 | the peer decodes exactly those frames in lock order |
| `ConcurrentSends.NoWaitCycle` | rust/ws-rs/src/blocking/connection.rs:223-366 | in no run do threads wait for each other's locks in a cycle |
| `ConcurrentSends.NoDeadlock` | rust/ws-rs/src/blocking/connection.rs:101-366 | in every run, as long as some thread is not done, some thread can move |
| `CloseGate.CloseIsLast` | src/connection.cpp:88-256 | in every interleaving of single reads, writes, lock operations, socket closes and joins, no data, ping or pong follows a CLOSE of `close` or `fail_with_close` |
| `CloseGate.ShutForGood` | src/connection.cpp:124-140 | in every run, from the moment the connection is closed or closing and no sender has found otherwise under the mutex, nothing but CLOSE frames is written |
| `CloseRaces.NoLateDataExact` | src/connection.cpp:516-539 | no run writes data, a ping or a pong after any CLOSE if and only if no thread's first closing operation is the answer to the peer's CLOSE while another thread begins with such a frame |
| `CloseRaces.AtMostOnceExact` | src/connection.cpp:88-109 | every run writes at most one CLOSE and calls back at most once if and only if at most one thread has an operation that closes |
| `CloseRaces.OneCloseOneCallback` | src/connection.cpp:241-256 | with one closing thread and any number of senders, whatever writes fail, at most one CLOSE is tried and at most one callback made, which only follows that |
| `CloseRaces.DataAfterReply` | src/connection.cpp:528-535 | a data frame after the CLOSE of `handle_close_frame` |
| `CloseRaces.TwoCloses` | src/connection.cpp:88-109 | two CLOSE frames and two callbacks from the reader and a caller of `close`, socket close and join included |
| `CloseGate.AloneIsAtomic` | src/connection.cpp:88-140 | from any state the others may have left, the steps of an operation that is not interrupted have exactly its one-step effect, whether its write succeeds or fails |
| `CloseGate.FailAlone` | src/connection.cpp:241-256 | `fail_with_close` ends the session from any state: not open, socket closed, one more callback; it tries a CLOSE exactly if the connection was open and nobody was closing it |
| `CloseGate.ReaderJoined` | src/connection.cpp:103-108 | in every run the reader has finished before `close` calls back |
| `CloseGate.InTurnCloses` | src/connection.cpp:516-557 | if operations do not overlap, nothing follows any CLOSE and the callback runs once exactly when the write of one was tried |
| `ServerShutdown.SweepExact` | src/server.cpp:450-473 | from the end of the sweep on, in every interleaving, a connection registered before the sweep whose handshake succeeded and whose callback has not run is closed if and only if it was not met before `adopt`, or was found active |
| `ServerShutdown.SweepCloses` | src/server.cpp:303-368 | every such connection that had its socket while the server was running is closed |
| `ServerShutdown.MissedConnection` | src/server.cpp:305-336 | a registered connection that is left open because it adopts its socket after the sweep has passed |
| `Socket.LinuxSocket.WriteAll` | src/net/linux_socket.cpp:105-136 | under any short writes each byte goes out once and in order, or the exact prefix sent is reported with an error |
| `Socket.LinuxSocket.ReadRaw` | src/net/linux_socket.cpp:138-167 | under any short reads exactly the requested bytes in order, or an error with everything there was |
| `Socket.LinuxSocket.ReadUntil` | src/net/linux_socket.cpp:189-216 | from an empty buffer exactly the shortest prefix ending in the delimiter is consumed and every later byte left |
| `HttpText.LinesOfBlock` | rust/ws-rs/src/handshake.rs:69-80 | splitting a header block gives back its lines, whatever follows |
| `HttpText.BlockBoundary` | rust/ws-rs/src/blocking/handshake.rs:22-24 | the first blank line of a stream that begins with a block is the end of that block |
| `HttpText.LinesMeaning` | rust/ws-rs/src/handshake.rs:70-70 | the lines are the pieces between the CR LF pairs: joined by them they are the text, and none contains one |
| `Headers.ParseHttpHeaders` | rust/ws-rs/src/handshake.rs:69-88 | the first line and the fields of the lines up to the first blank one, later fields replacing earlier |
| `Headers.CppParseHttpHeaders` | src/handshake.cpp:87-117 | the same for the C++ rules on line ends and spaces; fails only on an empty text |
| `Headers.ParsedMeaning` | rust/ws-rs/src/handshake.rs:77-86 | for any text: a header has the value of the last line before the first blank one whose name matches, lines without a colon being skipped |
| `Headers.CppParsedMeaning` | src/handshake.cpp:97-115 | the same for the C++ parser |
| `Headers.FieldMeaning` | rust/ws-rs/src/handshake.rs:81-85 | what one line sets, for lines as they are usually written |
| `Headers.SplitMeaning` | rust/ws-rs/src/handshake.rs:81-83 | the name is what stands before the first colon and the value what stands after it |
| `Headers.TrimMeaning` | rust/ws-rs/src/handshake.rs:85-85 | white space is removed at both ends, all of it and nothing else |
| `Headers.TrimStartFrom` | rust/ws-rs/src/handshake.rs:84-84 | white space is removed at the front, all of it and nothing else |
| `Headers.TrimSpacesMeaning` | src/handshake.cpp:111-113 | leading spaces are removed, all of them and nothing else |
| `Headers.KnownSpaces` | rust/ws-rs/src/handshake.rs:84-85 | the white space of ASCII is tab, LF, VT, FF, CR and space; no-break and ideographic spaces count too, the zero-width one does not |
| `Headers.GetLinesMeaning` | src/handshake.cpp:89-98 | the lines of `getline` are the pieces between LFs |
| `Headers.ParsesBack` | rust/ws-rs/src/handshake.rs:69-88 | the Rust parser gives back first line and fields of a block as written, whatever was read beyond it |
| `Headers.CppParsesBack` | src/handshake.cpp:87-117 | so does the C++ parser |
| `Handshake.BuildClientRequest` | rust/ws-rs/src/handshake.rs:33-53 | the request is exactly the block of its request line and header fields |
| `Handshake.BuildServerResponse` | rust/ws-rs/src/handshake.rs:56-66 | the response is exactly the block of its status line and header fields |
| `Handshake.RequestWritten` | rust/ws-rs/src/handshake.rs:40-52 | the request as literal lines, with path, host, port unless it is a default one, and key in their places, and the extension line if one is offered |
| `Handshake.ResponseWritten` | rust/ws-rs/src/handshake.rs:57-65 | the response as literal lines, with the accept value and the extension line in their places |
| `Handshake.ContainsMeaning` | rust/ws-rs/src/extensions/negotiate.rs:6-8 | a text contains another if and only if it is something, then that, then something |
| `Handshake.LowerMeaning` | rust/ws-rs/src/handshake.rs:92-93 | the letters A to Z are replaced by a to z and no other character changes |
| `Handshake.OfferIs` | rust/ws-rs/src/extensions/negotiate.rs:2-3 | the offer names the extension and its two parameters |
| `Handshake.ServerDecisionExact` | rust/ws-rs/src/handshake.rs:91-110 | for every header map the server accepts if and only if upgrade is "websocket" in any case, connection has "upgrade" in it in any case, the version is "13" and there is a key; it answers for that key and grants the extension exactly if its name stands in the offer |
| `Handshake.ClientDecisionExact` | rust/ws-rs/src/handshake.rs:113-128 | for every text the client accepts if and only if it begins with "HTTP/1.1 101" and its accept header is the expected value; it keeps the extension exactly if it offered it and the response names it |
| `HandshakeAgreement.ServerAccepts` | rust/ws-rs/src/handshake.rs:91-110 | for line-clean fields the server parses the request back as sent, accepts it, and answers with the flag the client asked for |
| `HandshakeAgreement.CppServerAccepts` | src/handshake.cpp:132-155 | so does the C++ server, answering for the key without leading spaces |
| `HandshakeAgreement.ClientAccepts` | rust/ws-rs/src/handshake.rs:113-128 | the client keeps its flag on the expected accept value and refuses any other |
| `HandshakeAgreement.AgreementExact` | rust/ws-rs/src/handshake.rs:33-128 | both ends hold the flag asked for if and only if the key and the key without leading white space have the same accept value; the server always accepts |
| `HandshakeAgreement.SpacedKeyRefused` | rust/ws-rs/src/handshake.rs:84-84 | the server accepts key " k" and answers for "k", and the client refuses, if the two hash differently |
| `HandshakeAgreement.TextStream.ReadUntilHeadersEnd` | rust/ws-rs/src/blocking/handshake.rs:11-29 | under any pieces: a text with the first blank line and less than one read beyond it, failing only if there is none within 64 KiB |
| `HandshakeAgreement.ServerUpgrade` | rust/ws-rs/src/blocking/handshake.rs:68-90 | answers and keeps the flag the decision on the text read prescribes; refuses and writes nothing when the decision is to refuse or no blank line came within the limit |
| `HandshakeAgreement.ClientFinish` | rust/ws-rs/src/blocking/handshake.rs:45-65 | the client's result is the decision on the text read, or an error when no blank line came within the limit |
| `HandshakeAgreement.OpeningHandshake` | rust/ws-rs/src/blocking/handshake.rs:32-90 | whatever pieces the texts arrive in, both ends finish with the flag the client asked for |

## Left out

- zlib inside permessage-deflate: compression and decompression are arbitrary functions that may fail; theorems that need them to be inverse say so for the messages sent.
- SHA-1, base64 and random numbers: the accept hash is any function whose values have no line ends and no leading white space; masking keys are arbitrary.
- TLS, the ASIO socket, tokio transports, DNS, accepting connections, URL parsing, logging and error strings: not part of this model.
- The async Rust connection: it has the same state and lock paths as the blocking one, plus a public `send_raw` and `handle_incoming`, whose paths `SendLocks` includes; its methods are not modelled again.
- Liveness: Rust readers hold the stream lock while they wait for the peer; absence of deadlock is proved for the locks, not that a peer ever answers.
- Failed writes under concurrency: `ConcurrentSends` covers runs in which no write fails; in `CloseGate` any write may fail, but the part of a frame such a write may leave on the wire is not shown; in the sequential connection models a write may fail after any number of bytes.
- Flushing is part of writing; allocation failure, capacity reservation and 32-bit `usize` are not modelled; `static_cast<int>` of lengths above 2^31 passed to the TLS library is not modelled.
- The C++ client's own check of the status line, which does not look at the accept value: not part of this model.
- The flags `is_open_` and `is_closing_` are plain variables in the C++ connection; `CloseGate` treats each access as one indivisible step. The shared `outbound_frame_` is built before the mutex is taken; `CloseGate` takes the frame of each operation as its own value.
- The code `close()` of the C++ connection sends in place of an invalid one (1000) is not modelled: `CloseGate` does not look into frames.
- Reconnecting on the same C++ connection object and callbacks that call back into it: one activation, and callbacks that only record.
- Control-frame FIN, the 125-byte limit of control frames and minimal lengths on input are not checked by the code and not claimed.
- Rust end-to-end runs start at an upgraded connection: the header reader discards what it read beyond the blank line.
- `from_utf8_lossy` on the reason of a received CLOSE is an arbitrary function in the Rust model.
- Handshake text is a sequence of characters, as after decoding; the UTF-8 encoding of characters outside ASCII, which the caller may put into host, path or key, and the size of such text in octets are not modelled, nor are transport failures during the handshake.
- Running out of memory, for instance on a payload length below 2^63 that cannot be allocated, is not modelled.
- A read error of the Rust transport comes after the last byte; one that is followed by more data, such as a read timeout, is not modelled.
