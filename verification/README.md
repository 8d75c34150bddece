# A verified model of the WebSocket codec and its synchronous driver

This project models the WebSocket message codec of `websocket-codec` (RFC 6455, sections 5.2 to 5.5) and the
synchronous stream driver of `websocket-lite`, and proves what they promise together: where a stream is cut does not
matter, fragmentation and masking do not show, exactly the streams that the protocol allows are accepted, and what one
side sends the other receives.

Verify it with `dafny verify dfyconfig.toml` (Dafny 4.11).

## How the model is laid out

| file | contents |
|---|---|
| `Bytes.dfy` | octets, network byte order, little-endian words, the growable buffer `BytesMut` (an allocation at an arbitrary address, with spare bytes holding anything) |
| `Mask.dfy` | the masking kernels on arrays, and `Masked`, the definition in section 5.3 of RFC 6455 |
| `Utf8.dfy` | well-formed UTF-8 by the grammar in section 4 of RFC 3629, the encodings of scalar values that it spells, and character boundaries |
| `Frame.dfy` | frame headers: lengths, parser, printers, and their layout stated by arithmetic |
| `Opcode.dfy`, `Close.dfy`, `Message.dfy` | opcodes, close codes, messages and their constructors |
| `Decoders.dfy` | what a streaming decoder is, and chunk independence |
| `Codec.dfy` | the class `MessageCodec` with its `Decode` and `Encode`, and the function `Decoded` that `Decode` computes |
| `Streams.dfy` | cutting streams, whole runs, and the bounds on lengths |
| `Wire.dfy` | streams as frames, mask transparency, safety of every reachable state, conservation |
| `Waiting.dfy` | when the decoder waits for more bytes, and when it waits in vain |
| `Acceptance.dfy` | the protocol's rules stated without the decoder, and the proof that the decoder follows them |
| `RoundTrip.dfy` | encoding and decoding, both ways round, and reassembly of fragmented messages |
| `Sync.dfy` | the driver `Framed` over a stream that answers reads as it likes |
| `EndToEnd.dfy` | the codec under the driver |

Conventions. `usize` has 64 bits and the machine is little-endian. Slices have addresses, and `align_to` splits a slice
at the next multiple of four, or at its end. Masks are inputs, not random draws. Errors are a datatype; their texts are
not modelled. `decode_eof` is the default of tokio-util: decode once more, and if that gives nothing, an empty buffer is
the end of the stream and a non-empty one an error. A read returns any non-zero number of bytes while there are any, and
may fail on a stream that is not reliable.

## Main results

* **Chunk independence** (`Streams.DecodedChunk`, `Streams.CuttingIsInvisible`). Bytes that arrive later continue what
  the decoder left undecided and change nothing that it decided, so every way of cutting a stream gives the same
  messages, the same first error and the same half-received message. One error is exempt, the one that blames the
  address space: `AddressSpaceBlame` says exactly when it persists, `AddressSpaceSuffices` that it cannot occur in a
  buffer of at most 2^63 - 14 bytes, and `AddressSpaceBoundTight` that it can in one byte more.
* **Exact acceptance** (`Acceptance.AnyStreamAcceptedExactly`, `Acceptance.StreamRejectedExactly`). For any bytes, the
  run is free of errors if and only if the rules allow every frame in its place and what follows the last frame is an
  incomplete header or the start of a frame of the right length; then it delivers exactly the messages that the frames
  complete. Otherwise it stops at the first frame that breaks a rule; the error names the first rule it breaks, and the
  state and the bytes left are determined. Frames after a close frame are still accepted.
* **When the decoder waits** (`Waiting.DecoderWaits`, `Waiting.WaitsWhenShort`, `Waiting.BadLengthRefusedAtOnce`). It
  waits exactly while the header is incomplete or the bytes are the start of a frame of the right length, and refuses a
  length in the wrong form as soon as the header is complete.
* **Independent definitions of what is on the wire.** Headers have the layout of section 5.2 of RFC 6455, stated by
  arithmetic on the bytes (`Frame.HeaderBytesLaidOut`, `Frame.ParsedLaidOut`); what is encoded is one such header and the
  payload masked with its key if and only if the codec masks (`Codec.MessageCodec.Encode`); text is accepted if and only
  if it is the encodings of Unicode scalar values (`Utf8.ValidUtf8IsText`); close codes are those of their numbers
  (`Close.NumberedExactly`).
* **Reassembly** (`RoundTrip.Reassembly`), **mask transparency** (`Wire.MasksDoNotShow`), **conservation**
  (`Wire.Conservation`) and **safety of every reachable state and message** (`Wire.RunIsSafe`).
* **Masking kernels** (`Mask.MaskSliceCopy`, `Mask.MaskSlice`). All code paths compute section 5.3 of RFC 6455 for every
  length and every pair of addresses; the length assertions in the source are preconditions here and are proved at every
  call.
* **Round trips** (`Frame.ParseOfHeaderBytes`, `Frame.HeaderBytesOfParse`, `RoundTrip.RoundTripExactly`,
  `RoundTrip.StreamReverseRoundTrip`).
* **The driver** (`Sync.Framed.Receive`, `EndToEnd.ReceiveAll`, `EndToEnd.SendThenReceive`, `EndToEnd.HandOver`). For any
  chunk-independent decoder and any sizes of reads, `receive` has the outcome of offering the decoder the whole stream at
  once, does not read while it can decide, and loses nothing when the codec is replaced.

Three things the source does that its documentation does not say. A control message with more than 125 bytes of payload
can be built and encoded, and the decoder then refuses it; `RoundTrip.RoundTripExactly` states the exact condition and
`RoundTrip.LongPingRefused` gives an instance. The comment on `header_len` (websocket-codec/src/frame.rs:149) says that
headers have at most 10 bytes; with a mask they have up to 14, which is what the code computes and the model follows.
And the decoder does not look at a length before the header is complete, so it can wait for a frame that no bytes can
complete: `Waiting.WaitsInVain` gives the three bytes `82 7F 80`, which announce at least 2^63 bytes, and
`Waiting.IncompleteCanBecomeFrame` states exactly which incomplete headers can still become a frame: those whose length
digits so far leave some right length open.

## Model

| member | source | states |
|---|---|---|
| Bytes.ReadOfWriteBigEndian | websocket-codec/src/frame.rs:250-260 | a number that fits k bytes survives being written and read in network byte order |
| Bytes.WriteOfReadBigEndian | websocket-codec/src/frame.rs:187-196 | bytes survive being read as a number and written again |
| Bytes.WordBytesOfXor | websocket-codec/src/mask.rs:46-48 | one exclusive-or of two words is four exclusive-ors of their bytes |
| Bytes.WordBytesOfRotation | websocket-codec/src/mask.rs:68-71 | rotating the mask right by eight bits moves its bytes one place towards the front |
| Bytes.WordBytesAreDigits | websocket-codec/src/frame.rs:262-266 | the bytes of a mask are its base-256 digits, least significant first |
| Mask.MaskU8Copy | websocket-codec/src/mask.rs:63-74 | masks up to three bytes, changes nothing else, and returns the mask rotated by as many places |
| Mask.MaskAlignedCopy | websocket-codec/src/mask.rs:43-49 | masking aligned words is masking their bytes by section 5.3 of RFC 6455 |
| Mask.MaskUnalignedCopy | websocket-codec/src/mask.rs:51-61 | the same when the source words are not aligned |
| Mask.MaskedParts | websocket-codec/src/mask.rs:32-40 | bytes, whole words and bytes, the last two parts with the rotated mask, together mask the payload |
| Mask.MaskSliceCopy | websocket-codec/src/mask.rs:25-41 | for all lengths and addresses the slice gets the masked data and nothing else changes |
| Mask.MaskU8InPlace | websocket-codec/src/mask.rs:84-94 | masks up to three bytes in place and returns the rotated mask |
| Mask.MaskAlignedInPlace | websocket-codec/src/mask.rs:96-100 | masks aligned words in place and changes nothing else |
| Mask.MaskSlice | websocket-codec/src/mask.rs:77-82 | in-place masking computes the same function for all lengths and addresses |
| Mask.MaskedTwice | websocket-codec/src/mask.rs:132-147 | masking twice with one key is the identity |
| Mask.CopyThenUnmask | websocket-codec/src/mask.rs:25-82 | in-place masking at one alignment undoes copying masking at any other |
| Utf8.BoundaryIffValidPrefix | websocket-codec/src/message.rs:208-208 | in valid text the one-byte boundary test holds exactly where the prefix is valid text |
| Utf8.BoundaryWithinThree | websocket-codec/src/message.rs:208-210 | a boundary is at most three bytes back |
| Utf8.ValidUtf8IsText | websocket-codec/src/message.rs:41-45 | text is accepted exactly if it is the encodings, by arithmetic, of Unicode scalar values: none missing, no overlong form, no surrogate |
| Frame.DataLengthOf | websocket-codec/src/frame.rs:22-33 | the chosen form spells the length, and a small form holds at most 125 |
| Frame.ShortestForm | websocket-codec/src/frame.rs:22-33 | the chosen form is the shortest that spells the length, with the exact bounds of each form |
| Frame.OneAcceptedForm | websocket-codec/src/frame.rs:35-62 | a form is accepted as n exactly if it is the form chosen for n and n is below 2^63 |
| Frame.HeaderLen | websocket-codec/src/frame.rs:152-165 | headers have 2 to 14 bytes |
| Frame.HeaderBytes | websocket-codec/src/frame.rs:227-267 | a printed header has the length computed for it; `HeaderBytesLaidOut` says what its bytes are |
| Frame.ParseSlice | websocket-codec/src/frame.rs:223-224 | the number of bytes parsed is the length computed for the header, and they are all there; `ParsedLaidOut` says what the fields are |
| Frame.HeaderBytesLaidOut | websocket-codec/src/frame.rs:227-267 | by arithmetic: FIN is worth 128, then reserved bits and opcode; the mask bit is worth 128, then the length, 126 or 127; the length most significant byte first; the mask least significant byte first |
| Frame.ParsedLaidOut | websocket-codec/src/frame.rs:167-225 | in any buffer the parsed fields are those that the bytes spell in the same layout |
| Frame.ParseOfHeaderBytes | websocket-codec/src/frame.rs:167-267 | parsing a printed header followed by anything returns the header and its length |
| Frame.HeaderBytesOfParse | websocket-codec/src/frame.rs:167-225 | printing a parsed header, whatever its length form, gives back the bytes it was parsed from |
| Frame.ParseWaits | websocket-codec/src/frame.rs:167-213 | the parser waits exactly while the header announced by the first two bytes is incomplete |
| Frame.ParseStable | websocket-codec/src/frame.rs:167-225 | bytes after the header do not affect the parser |
| Frame.WriteToSlice | websocket-codec/src/frame.rs:227-267 | every byte of the header is written and no other byte is |
| Frame.WriteToBytes | websocket-codec/src/frame.rs:270-287 | appends the header, whatever the newly exposed bytes held, and makes room for the payload |
| Frame.DecodeHeader | websocket-codec/src/frame.rs:297-309 | takes exactly the bytes that print the header it returns, or none |
| Opcodes.OpcodeOf | websocket-codec/src/opcode.rs:33-59 | the two opcode tables are inverse |
| Close.CloseCodeOf | websocket-codec/src/close.rs:96-147 | every 16-bit code survives conversion to a close code and back |
| Close.NumberedExactly | websocket-codec/src/close.rs:96-147 | with the numbers written out: a number becomes the close code that has it, reserved, registered and library ranges and all others included, and each is written as its number |
| Messages.New | websocket-codec/src/message.rs:31-51 | succeeds exactly on valid messages, unchanged |
| Messages.NewExactly | websocket-codec/src/message.rs:31-51 | accepts text, and the reason of a close message, exactly if they encode Unicode scalar values |
| Messages.NewText | websocket-codec/src/message.rs:54-59 | the text read back is the string given |
| Messages.NewBinary | websocket-codec/src/message.rs:62-67 | the opcode byte is 2 and the data is unchanged |
| Messages.NewClose | websocket-codec/src/message.rs:82-87 | the opcode byte is 8, there is no close frame in it, and it fits one control frame |
| Messages.NewPing | websocket-codec/src/message.rs:110-115 | the opcode byte is 9 and the data is unchanged, whatever its length |
| Messages.NewPong | websocket-codec/src/message.rs:120-125 | the opcode byte is 10 and the data is unchanged, whatever its length |
| Messages.AsText | websocket-codec/src/message.rs:144-150 | there is text exactly for text messages, it is the payload, and for a valid message it is valid UTF-8, as the unchecked conversion assumes |
| Messages.AsClose | websocket-codec/src/message.rs:154-165 | a valid close message has a close frame exactly if it has a payload, the payload is the code and the reason, and the reason is valid UTF-8, as the unchecked conversion assumes |
| Messages.AsCloseReads | websocket-codec/src/message.rs:154-165 | a payload whose first two bytes are the number n, most significant first, is read as a given close code exactly if that code has number n, and the rest is the reason |
| Messages.TruncateFloorCharBoundary | websocket-codec/src/message.rs:202-216 | cuts to the longest valid prefix within the limit, at most three steps back |
| Messages.ClosePayload | websocket-codec/src/message.rs:96-99 | the code in network byte order and then the text |
| Messages.CopyWithin | websocket-codec/src/message.rs:98-98 | the overlapping shift preserves the bytes moved |
| Messages.CloseWithReason | websocket-codec/src/message.rs:92-105 | the message fits a control frame, its first two bytes are the number of the code, it is read back as the code of that number, which is the code given if that is the one for its number, and its reason is the longest prefix within 123 bytes |
| Codec.UnmaskInPlace | websocket-codec/src/message.rs:275-279 | unmasks the payload and leaves the rest of the allocation alone |
| Codec.SplitFrame | websocket-codec/src/message.rs:259-279 | the frame leaves the buffer, the rest stays, the payload is unmasked |
| Codec.TakeFrame | websocket-codec/src/message.rs:225-279 | consumes a frame only when all of it is there, and otherwise makes room for it, at most 2^30 bytes at a time, and a further header |
| Codec.Apply | websocket-codec/src/message.rs:271-324 | the checks and the transition on the half-received message |
| Codec.Turn | websocket-codec/src/message.rs:224-324 | every turn of the loop that goes on consumes at least two bytes |
| Codec.TakeTurn | websocket-codec/src/message.rs:224-326 | one turn on the buffer itself |
| Codec.MessageCodec.constructor | websocket-codec/src/message.rs:194-199 | a new codec has no half-received message |
| Codec.MessageCodec.Client | websocket-codec/src/message.rs:180-182 | the codec for a client masks |
| Codec.MessageCodec.Server | websocket-codec/src/message.rs:188-190 | the codec for a server does not |
| Codec.MessageCodec.Decode | websocket-codec/src/message.rs:222-327 | result, saved state and remaining buffer are those of `Decoded`, the subject of the stream theorems; waiting leaves room for the frame announced, at most 2^30 bytes of it, and 512 bytes more |
| Codec.PutMasked | websocket-codec/src/message.rs:346-354 | appends exactly the masked data, whatever the newly exposed bytes held |
| Codec.EncodedIsCarrier | websocket-codec/src/message.rs:341-360 | the bytes of a message are a header in the layout of section 5.2 of RFC 6455 with the mask asked for, and the payload with octet i exclusive-or octet i % 4 of the key that ends the header |
| Codec.MessageCodec.Encode | websocket-codec/src/message.rs:341-360 | data already in the buffer stays, and what is appended is one final frame with the opcode and length of the message, masked with the drawn key exactly if the codec masks, every octet stated |
| Streams.DecodedChunk | websocket-codec/src/message.rs:222-327 | decoding a ++ b is decoding a and then the leftover ++ b; an item or final error found in a is found in a ++ b |
| Streams.DecodedChunkIndependent | websocket-codec/src/message.rs:222-327 | the message codec is chunk independent, apart from the error that blames the address space |
| Streams.FrameLengthFits | websocket-codec/src/message.rs:235-236 | the length of a frame never overflows |
| Streams.AddressSpaceSuffices | websocket-codec/src/message.rs:242-248 | the second length error is unreachable in buffers of at most 2^63 - 14 bytes |
| Streams.AddressSpaceBoundTight | websocket-codec/src/message.rs:246-248 | in a buffer of one byte more it is reached |
| Streams.AddressSpaceBlame | websocket-codec/src/message.rs:237-248 | the second length error persists exactly until the frame is complete |
| Streams.RunAllConcat | websocket-codec/src/message.rs:222-327 | a run over a ++ b is the run over a and then the run over its leftover ++ b |
| Streams.CuttingIsInvisible | websocket-codec/src/message.rs:222-327 | a stream fed in any chunks gives the messages, state and first error of the whole |
| Streams.CuttingIsInvisibleWhenShort | websocket-codec/src/message.rs:222-327 | without proviso for streams of at most 2^63 - 14 bytes |
| Wire.ReadOfToBytes | websocket-codec/src/message.rs:225-261 | a frame at the front of a buffer is read as itself, or refused for its length form alone |
| Wire.ToBytesOfRead | websocket-codec/src/message.rs:259-279 | the frame that is read prints as the bytes it was read from |
| Waiting.ReadFrameWaits | websocket-codec/src/message.rs:225-257 | no frame is taken and no error raised exactly while the header is incomplete, or the buffer is the start of a frame of the right length that the address space could hold once more |
| Waiting.DecoderWaits | websocket-codec/src/message.rs:222-257 | the whole decoder waits, keeping every byte and its state, exactly then |
| Waiting.WaitsWhenShort | websocket-codec/src/message.rs:225-257 | in buffers of at most 2^63 - 14 bytes: exactly while the header is incomplete or the buffer is the start of a frame of the right length |
| Waiting.BadLengthRefusedAtOnce | websocket-codec/src/message.rs:235-235 | a complete header with a length in the wrong form or too long is refused whatever follows it, and nothing is consumed |
| Waiting.IncompleteCanBecomeFrame | websocket-codec/src/message.rs:225-233 | an incomplete header can become a frame exactly if its length digits so far leave a right length open |
| Waiting.WaitsInVain | websocket-codec/src/message.rs:225-233 | three bytes that no bytes can complete are waited on all the same |
| Wire.RunAllOfFrames | websocket-codec/src/message.rs:222-327 | a stream of frames is decoded as those frames one by one and then the rest; after an error, the bytes left are those of the frames not consumed and the rest |
| Wire.MasksDoNotShow | websocket-codec/src/message.rs:275-279 | changing, adding or removing masks changes neither messages, nor error, nor state, nor leftover |
| Wire.SplitFramesJoins | websocket-codec/src/message.rs:225-261 | every stream is the bytes of its complete frames and a remainder without one |
| Wire.SplitOfWireBytes | websocket-codec/src/message.rs:225-261 | the bytes of frames split into those frames |
| Wire.DecodedIsSafe | websocket-codec/src/message.rs:222-327 | the half-received message is text or binary, every item is well-formed, and an error forgets the half-received message unless a complete message has bad text |
| Wire.RunIsSafe | websocket-codec/src/message.rs:222-327 | the same over whole runs |
| Wire.RunFramesConserves | websocket-codec/src/message.rs:296-324 | payload bytes of data frames end up in messages or in the half-received message |
| Wire.Conservation | websocket-codec/src/message.rs:223-324 | over error-free runs no byte of the stream and no byte of payload is lost or invented |
| Acceptance.StepFollowsRules | websocket-codec/src/message.rs:271-326 | after allowed frames the next goes through exactly if the rules allow it, with the result they call for |
| Acceptance.AcceptsExactly | websocket-codec/src/message.rs:235-326 | frames are accepted exactly if the rules allow each in its place, and then deliver what they complete |
| Acceptance.StreamAcceptedExactly | websocket-codec/src/message.rs:235-326 | the same of the bytes of frames |
| Acceptance.AnyStreamAcceptedExactly | websocket-codec/src/message.rs:222-327 | the same of any bytes: no error exactly if the rules allow every frame and what is left is an incomplete header or the start of a frame of the right length |
| Acceptance.ErrorIsJust | websocket-codec/src/message.rs:271-323 | an error names the first rule, in the order of the checks, that the frame breaks, and the state and frames left after it are determined |
| Acceptance.RejectsExactly | websocket-codec/src/message.rs:235-326 | frames that break a rule are refused at the first that does, after the messages before it, with state and frames left |
| Acceptance.StreamRejectedExactly | websocket-codec/src/message.rs:235-326 | the same of the bytes of frames and whatever follows them, with the bytes left |
| Acceptance.RemainderRejectedExactly | websocket-codec/src/message.rs:235-248 | when the frames are allowed but what follows is not waited for, all messages have been delivered, nothing of the remainder is consumed, and the error names its length |
| RoundTrip.RoundTripExactly | websocket-codec/src/message.rs:222-360 | an encoded message decodes to itself exactly if it is well-formed and not a data message inside another |
| RoundTrip.LongPingRefused | websocket-codec/src/message.rs:110-115 | a ping with 126 bytes can be built and encoded but not decoded |
| RoundTrip.ListRoundTrip | websocket-codec/src/message.rs:588-599 | a list of well-formed messages with any masks decodes to that list |
| RoundTrip.ReverseRoundTrip | websocket-codec/src/message.rs:69-77 | accepted whole unmasked frames are what a server encodes for the messages they carry |
| RoundTrip.StreamReverseRoundTrip | websocket-codec/src/message.rs:222-360 | decoding such a stream and encoding the messages reproduces it byte for byte |
| RoundTrip.ControlsPass | websocket-codec/src/message.rs:296-304 | control frames are delivered at once and leave the half-received message alone |
| RoundTrip.ContinuationsReassemble | websocket-codec/src/message.rs:296-312 | continuation frames complete the message they continue |
| RoundTrip.Reassembly | websocket-codec/src/message.rs:275-326 | a message in any fragments with control messages between them is delivered whole after them |
| Sync.Framed.constructor | websocket-lite/src/sync.rs:14-21 | a new driver has an empty buffer without capacity |
| Sync.Framed.ReplaceCodec | websocket-lite/src/sync.rs:23-30 | the new driver has the stream, the buffers and so the bytes ahead of the old one |
| Sync.Framed.Send | websocket-lite/src/sync.rs:34-42 | writes exactly the encoded item, nothing left over from earlier items; reports failure exactly if a write failed, and then a prefix was written |
| Sync.Framed.DecodeEof | websocket-lite/src/sync.rs:71-73 | at the end of the stream the buffer is offered once more and leftover bytes are an error |
| Sync.Framed.Fill | websocket-lite/src/sync.rs:58-69 | the stream is offered a non-empty buffer and what it delivers is appended; no result exactly if the read failed |
| Sync.Framed.Attempt | websocket-lite/src/sync.rs:51-55 | an answer from the buffered bytes is the answer from the whole stream |
| Sync.Framed.Pull | websocket-lite/src/sync.rs:58-73 | after a read the driver is nearer to the end of the stream, or has the answer, which is a read error exactly if the read failed |
| Sync.Framed.Receive | websocket-lite/src/sync.rs:46-75 | the outcome is that of the whole stream at once; no read while an outcome can be decided; a read error is reported exactly if a read failed; terminates on every finite stream |
| EndToEnd.CodecFitsDriver | websocket-codec/src/message.rs:218-328 | the message codec meets the demands of the driver |
| EndToEnd.ReceiveAll | websocket-lite/src/sync.rs:46-75 | successive calls hand out the messages of the run over the whole input and report how it ends, but for the address-space error, which needs more than 2^63 - 14 bytes |
| EndToEnd.PrefixNeverFails | websocket-codec/src/message.rs:225-257 | no part of a sendable message is an error |
| EndToEnd.SendAll | websocket-lite/src/sync.rs:34-42 | messages sent one by one are their frames one after the other |
| EndToEnd.SendThenReceive | websocket-lite/src/sync.rs:34-75 | any list of well-formed messages sent through one driver is received by another in order, and then the end |
| EndToEnd.ThroughOneBuffer | websocket-codec/src/message.rs:588-599 | the codec objects round-trip any list of well-formed messages through one buffer |
| EndToEnd.HandOver | websocket-lite/src/sync.rs:23-75 | after a change of codec the second sees exactly what the first left, buffered or not |

## Left out

- TLS, TCP, DNS and the asynchronous driver (`websocket-lite/src/ssl.rs`, most of `websocket-lite/src/client.rs`): the stream is a byte sequence and an arbitrary schedule of reads and failures.
- The HTTP upgrade handshake (`websocket-codec/src/upgrade.rs`): httparse, SHA-1 and base64 are not part of this model; `EndToEnd.HandOver` takes any chunk-independent decoder in its place.
- Reference counting in the buffers: buffers split from one another share an allocation, but a half-received message is kept as a value, so its sharing of memory with the read buffer is not modelled.
- Sync.Framed.Receive: the driver calls its decoder through the function it computes, since the decoder is arbitrary; `Codec.MessageCodec.Decode` is proved to compute `Decoded`, and the room it makes in the buffer appears in the driver as an arbitrary reservation.
- Sync.Framed.Send: the encoder is a function that cannot fail, as `MessageCodec::encode` cannot.
- Codec.MessageCodec.Encode: requires the payload to be below 2^63 bytes, which every Rust allocation is.
- EndToEnd.SendThenReceive: each frame must fit a buffer of 2^63 - 1 bytes, which every Rust allocation is.
- Random mask generation: all masks are quantified over.
- Error texts and `Display`.
- 32-bit and big-endian targets.
- `CloseCode::is_allowed`, accessors, `Clone` and `Debug`: they would only add easy members.
