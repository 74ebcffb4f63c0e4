# UA-TCP handshake codec of opcua-go, modelled in Dafny

This project models the connection-handshake codec of the Go library
`opcua-go`: the Hello, Acknowledge and Error messages of the UA-TCP
transport (OPC Unified Architecture Part 6, section 7.1.2) and the 8-byte
frame header around them. The header holds a 3-byte type tag, the chunk type
`'F'` and a little-endian total length. The repository implements this wire
format twice, and both stacks are modelled:

- the `protocol/binary` stack. Its `marshal` methods allocate an exact-size
  slice and fill it in place with `PutUint32`/`PutString`. Its `unmarshal`
  methods read fields at fixed offsets. `MarshalMessage` and `ParseMessage`
  handle the frame;
- the `protocol` stack. Its `marshal` methods append to an `encoding.BinaryEncoder`.
  `EncodeTCP` and `DecodeTCP` handle the frame.

Layout of the model:

| file | module | models |
|---|---|---|
| `little_endian.dfy` | `LittleEndian` | bytes, `uint32`, the little-endian codec, the length-prefixed string layout |
| `errors.dfy` | `Errors` | `Option`, `Result` and the error kinds of the codec |
| `wire.dfy` | `Wire` | message types, tags, encode-time checks, body and frame layouts |
| `binary_encoding.dfy` | `BinaryEncoding` | in-place `PutUint32`/`PutString` on an array |
| `binary_buffer.dfy` | `BinaryBuffer` | the `binary.Buffer` byte builder, as a class |
| `binary_message.dfy` | `BinaryMessage` | `marshal`/`unmarshal` of the `binary` stack |
| `binary_tcp.dfy` | `BinaryTcp` | `MarshalMessage`, `ParseMessage` |
| `encoding_binary.dfy` | `Encoding` | the `encoding.BinaryEncoder` byte builder, as a class |
| `protocol_message.dfy` | `ProtocolMessage` | `marshal(enc)` of the `protocol` stack |
| `protocol_tcp.dfy` | `ProtocolTcp` | `EncodeTCP`, `DecodeTCP`, the `TCPMessage` record |
| `stacks_agree.dfy` | `StacksAgree` | both stacks produce the same bytes and errors |
| `as_written.dfy` | `AsWritten` | the decode paths as written, with their defects and `uint32` wrap-around; a slice's capacity is taken to equal its length |
| `vectors.dfy` | `Vectors` | the byte vectors of the repository's unit tests |

How the Go code maps onto Dafny:

- `uint32` is the subset type `u32`. A Go `string` or `[]byte` is a
  `seq<byte>`. A string that has to fit a 32-bit length prefix has type `Str`.
- The message structs are datatypes. The closed `OPCUAMessage` interface is the
  datatype `Message`.
- A receiver update `*m = ...` in `unmarshal` is a function that takes the old
  receiver and returns the new one together with the error. On an error the old
  receiver comes back unchanged.
- A sub-slice such as `buf[20:]` passed to `PutString` is the array plus an
  offset.
- `bytes.Buffer` is a `seq<byte>` field that every write extends.
- Every Go `error` is a `CodecError`:
  - `Validation` for the buffer-size and URL-length checks;
  - `Truncated` for `io.ErrUnexpectedEOF` and short frames;
  - `Unsupported` for Reverse Hello;
  - `Unrecognized(tag)` for an unknown tag;
  - `InvalidLength` for a frame whose declared total is below 8.

The main model keeps the source's branches, order of checks and constants:

- the minimum buffer size is 8192;
- the longest endpoint URL is 4096 bytes;
- the header is 8 bytes long.

Where the source would panic or read bytes that do not belong to a field, the
main model uses the evidently intended behaviour. These places are marked
`// Deviation:` in the code and listed under "## Findings". Module `AsWritten`
keeps the code as written, including its `uint32` wrap-around, and a lemma
there exhibits each defect. The one simplification there is that a slice's
capacity is taken to equal its length, as for a slice from `make([]byte, n)`.

The code and the documented intent disagree in three places:

- The intent is that every decode rejects a short input instead of panicking.
  The code can panic in several places (see "## Findings"). The model keeps
  the code in `AsWritten` and uses the intended behaviour elsewhere.
- `ParseMessage` ignores the chunk type and the declared total length. The body
  it decodes is everything after the header. The model follows the code and
  does not add a length check there (`BinaryTcp.ParseIgnoresChunkAndLength`).
- `DecodeTCP` does check the declared total against the input length, and the
  model follows it.

## Model

| member | source | states |
|---|---|---|
| `LittleEndian.Wrap32` | protocol/binary/TCPMessage.go:37 | the `uint32(...)` conversion is the identity on values below 2^32 |
| `LittleEndian.LE32` | protocol/binary/encoding.go:7-9 | the little-endian form of a `uint32` is exactly four bytes |
| `LittleEndian.Uint32` | protocol/binary/encoding.go:19-21 | the value read has as its little-endian form exactly the first four input bytes, so it depends on those four bytes and no others |
| `LittleEndian.Uint32OfLE32` | protocol/binary/encoding.go:7-21 | reading back the encoding of `n`, whatever follows it, gives `n` |
| `LittleEndian.LE32Injective` | protocol/binary/encoding.go:7-9 | distinct values have distinct encodings |
| `LittleEndian.LengthPrefixed` | protocol/binary/encoding.go:11-17 | the string layout has length 4 + \|s\|, and the string itself follows the 4-byte prefix |
| `LittleEndian.LengthPrefixedPrefix` | protocol/binary/encoding.go:11-21 | the prefix of a length-prefixed string reads back as its length, and the next \|s\| bytes are the string |
| `BinaryEncoding.PutUint32` | protocol/binary/encoding.go:7-9 | the four bytes at the offset become the little-endian form of `i`, every other byte of the array keeps its value, and `Uint32` reads `i` back |
| `BinaryEncoding.PutString` | protocol/binary/encoding.go:11-17 | the length prefix goes at the offset and the string follows it; every byte before the offset or past the string keeps its value |
| `BinaryBuffer.Buffer.constructor` | protocol/binary/buffer.go:7-13 | the zero-value `Buffer` is empty |
| `BinaryBuffer.Buffer.WriteByte` | protocol/binary/buffer.go:46-48 | appends exactly one byte; the error is nil |
| `BinaryBuffer.Buffer.WriteUint32` | protocol/binary/buffer.go:15-30 | the four chained `WriteByte` calls append exactly the little-endian form of `n`, low byte first; earlier contents stay a prefix |
| `BinaryBuffer.Buffer.WriteString` | protocol/binary/buffer.go:32-40 | appends the length prefix and then the string, 4 + \|s\| bytes; earlier contents stay a prefix |
| `BinaryBuffer.Buffer.Write` | protocol/binary/buffer.go:50-55 | appends `bb` and returns (\|bb\|, nil) |
| `BinaryBuffer.Buffer.Bytes` | protocol/binary/buffer.go:57-61 | returns the current contents and changes nothing |
| `Encoding.BinaryEncoder.constructor` | protocol/encoding/binary.go:10-12 | a fresh `BinaryEncoder{}` holds no bytes |
| `Encoding.BinaryEncoder.WriteByte` | protocol/encoding/binary.go:43-45 | appends exactly one byte; the error is nil |
| `Encoding.BinaryEncoder.WriteUint32` | protocol/encoding/binary.go:16-31 | appends exactly the little-endian form of `n`, low byte first; earlier contents stay a prefix |
| `Encoding.BinaryEncoder.WriteString` | protocol/encoding/binary.go:33-41 | appends the length prefix and then the string; earlier contents stay a prefix |
| `Encoding.BinaryEncoder.Write` | protocol/encoding/binary.go:47-49 | appends `bb` and returns (\|bb\|, nil) |
| `Encoding.BinaryEncoder.Bytes` | protocol/encoding/binary.go:51-55 | returns the contents and changes nothing |
| `Wire.Type` | protocol/binary/Message.go:13-18 | each message's tag is three bytes: HEL exactly for Hello, ACK exactly for Acknowledge, ERR exactly for Error, and never RHE |
| `Wire.CheckBufferSizes` | protocol/binary/Message.go:107-113 | accepts exactly when both sizes are at least 8192; reports the receive buffer when it is too small, otherwise the send buffer |
| `Wire.CheckHello` | protocol/binary/Message.go:43-53 | a Hello passes exactly when both sizes are at least 8192 and the URL has at most 4096 bytes; the URL is blamed only when both sizes pass |
| `Wire.Validate` | protocol/binary/Message.go:158-166 | an Error message is never rejected |
| `Wire.MarshalFailure` | protocol/binary/Message.go:41-53 | marshal fails exactly when validation finds a violation, and then with a validation error |
| `Wire.HelloBody` | protocol/binary/Message.go:55-62 | a Hello body is 24 + \|URL\| bytes long |
| `Wire.AckBody` | protocol/binary/Message.go:115-121 | an Acknowledge body is 20 bytes long |
| `Wire.ErrorBody` | protocol/binary/Message.go:160-163 | an Error body is 8 + \|reason\| bytes long |
| `Wire.Body` | protocol/binary/Message.go:20-25 | each message's body has the length of its layout |
| `Wire.Frame` | protocol/binary/TCPMessage.go:21-46 | a frame is 8 bytes longer than its payload |
| `Wire.FrameParts` | protocol/binary/TCPMessage.go:25-43 | bytes 0-2 of a frame are the tag, byte 3 is 'F', bytes 4-7 hold `uint32(8 + len(payload))`, and the payload follows |
| `Wire.FrameLengthField` | protocol/binary/TCPMessage.go:35-39 | the length field reads back as the length of the whole frame, header included, whenever that fits 32 bits |
| `BinaryMessage.MarshalHello` | protocol/binary/Message.go:41-65 | fails with the first violated check and empty bytes; otherwise returns exactly the Hello layout |
| `BinaryMessage.MarshalAck` | protocol/binary/Message.go:105-124 | fails on a buffer size below 8192 with empty bytes; otherwise returns exactly the 20-byte Acknowledge layout |
| `BinaryMessage.MarshalError` | protocol/binary/Message.go:158-166 | never fails; returns exactly the Error layout |
| `BinaryMessage.Marshal` | protocol/binary/Message.go:20-25 | through the message interface: fails exactly when validation does, otherwise returns the message's body |
| `BinaryMessage.UnmarshalHello` | protocol/binary/Message.go:67-94 | under 24 bytes, or fewer bytes than the URL length announces: truncation, receiver untouched; otherwise success, and the bytes consumed are exactly the Hello layout of the decoded message |
| `BinaryMessage.FieldBytes` | protocol/binary/encoding.go:19-21 | a field read at an offset re-encodes to the four bytes read |
| `BinaryMessage.HelloFields` | protocol/binary/Message.go:72-91 | a Hello built from the fields read at their offsets re-encodes to the bytes read |
| `BinaryMessage.UnmarshalAck` | protocol/binary/Message.go:126-146 | fails, with the receiver untouched, exactly when fewer than 20 bytes are given; small buffer sizes decode; the first 20 bytes are the layout of the decoded message |
| `BinaryMessage.UnmarshalError` | protocol/binary/Message.go:168-187 | under 8 bytes, or fewer bytes than the reason length announces: truncation, receiver untouched; otherwise the bytes consumed are the Error layout of the decoded message |
| `BinaryMessage.ReadField` | protocol/binary/encoding.go:19-21 | a field holding the encoding of `n` reads as `n` |
| `BinaryMessage.HelloRoundTrip` | protocol/binary/Message.go:41-94 | every Hello, valid or not, decodes from its layout, whatever follows and whatever the old receiver was |
| `BinaryMessage.AckRoundTrip` | protocol/binary/Message.go:105-146 | every Acknowledge decodes from its layout, whatever follows |
| `BinaryMessage.ErrorRoundTrip` | protocol/binary/Message.go:158-187 | every Error message decodes from its layout, whatever follows |
| `BinaryTcp.MarshalMessage` | protocol/binary/TCPMessage.go:21-46 | fails exactly when validation does, and then returns only the tag and 'F'; otherwise returns the frame of the tag and the body |
| `BinaryTcp.ParseMessage` | protocol/binary/TCPMessage.go:50-74 | under 8 bytes: truncation; RHE: unsupported; an unknown tag: unrecognized, carrying the tag; HEL/ACK/ERR: success or the body's truncation error, with success exactly when the bytes after the header hold the fixed fields and as many URL or reason bytes as announced (ACK: at least 20 bytes); a parsed message has the frame's tag, and its layout follows the header |
| `BinaryTcp.ParseIgnoresChunkAndLength` | protocol/binary/TCPMessage.go:50-74 | replacing the chunk type and the declared length, bytes 3-7, by any five bytes leaves the result unchanged |
| `BinaryTcp.ParseFrameRoundTrip` | protocol/binary/TCPMessage.go:21-74 | parsing the frame of any message, whatever follows it, gives the message back |
| `BinaryTcp.MarshalThenParse` | protocol/binary/TCPMessage.go:21-74 | `ParseMessage` of what `MarshalMessage` produced for a valid message is that message |
| `ProtocolMessage.MarshalHello` | protocol/Message.go:32-71 | a violated check leaves the encoder untouched and returns empty bytes; otherwise the Hello layout is appended to the encoder and its whole contents are returned |
| `ProtocolMessage.MarshalAck` | protocol/Message.go:84-115 | a buffer size below 8192 leaves the encoder untouched; otherwise the 20-byte Acknowledge layout is appended and the whole contents are returned |
| `ProtocolMessage.MarshalError` | protocol/Message.go:129-140 | never fails; appends the Error layout and returns the whole contents |
| `ProtocolMessage.Marshal` | protocol/Message.go:10-14 | through the message interface: the encoder is untouched on failure, and extended by the body on success |
| `ProtocolTcp.EncodeTCP` | protocol/TCPMessage.go:19-42 | fails exactly when validation does, and then returns the tag and 'F'; otherwise returns the frame of the tag and the body marshalled into a separate encoder |
| `ProtocolTcp.DecodeTCP` | protocol/TCPMessage.go:45-69 | under 8 bytes: truncation; a declared total below 8: invalid length; success exactly when 8 <= declared total <= input length; then the tag is bytes 0-2, the chunk type is 'F' whatever byte 3 holds, the payload size is the declared total minus 8, and the payload is bytes 8 up to the total |
| `ProtocolTcp.DecodeFrameRoundTrip` | protocol/TCPMessage.go:45-69 | decoding a frame whose length fits 32 bits gives back its tag, size and payload, whatever follows |
| `ProtocolTcp.EncodeThenDecode` | protocol/TCPMessage.go:19-69 | `DecodeTCP` of what `EncodeTCP` produced for a valid message has the message's tag, and the marshalled body as its payload and payload size |
| `StacksAgree.BodiesAgree` | protocol/Message.go:32-140 | the `binary` marshal and the `protocol` marshal on a fresh encoder give equal bytes and equal errors |
| `StacksAgree.FramesAgree` | protocol/TCPMessage.go:19-42 | `MarshalMessage` and `EncodeTCP` give equal bytes and equal errors |
| `AsWritten.Slice` | protocol/binary/Message.go:81 | Go's `b[lo:hi]` succeeds exactly when lo <= hi <= len, and then gives those bytes |
| `AsWritten.ReadFive` | protocol/binary/Message.go:72-77 | the five-byte read succeeds exactly when five bytes remain, and yields the value of the first four |
| `AsWritten.UnmarshalAck` | protocol/binary/Message.go:126-146 | as written, in a slice without spare capacity: truncation exactly below 20 bytes, a panic exactly at 20 bytes, success from 21 bytes on |
| `AsWritten.AckExactBodyPanics` | protocol/binary/Message.go:131-135 | as written, in a slice without spare capacity, an Acknowledge body of exactly 20 bytes panics |
| `AsWritten.AckAgreesWithSpareByte` | protocol/binary/Message.go:126-146 | with a 21st byte present, the code as written and the corrected decoder agree |
| `AsWritten.UnmarshalHello` | protocol/binary/Message.go:67-94 | as written, with `25+urlSize` wrapping as a `uint32`, in a slice without spare capacity: truncation exactly below 24 bytes, a panic at exactly 24 bytes, and otherwise either a panic or success without an error, with a URL that lies inside the input |
| `AsWritten.HelloExactBodyPanics` | protocol/binary/Message.go:72-82 | as written, in a slice without spare capacity, the exact layout of every Hello shorter than 2^32 bytes panics (a URL of 2^32 - 1 bytes would be the exception, see `AsWritten.HelloUrlSizeWraps`) |
| `AsWritten.HelloUrlSizeWraps` | protocol/binary/Message.go:77-82 | as written, a 25-byte body announcing a URL of 2^32 - 1 bytes decodes without an error to a Hello with an empty URL, because `25+urlSize` wraps to 24; the corrected decoder reports truncation |
| `AsWritten.HelloUrlOverread` | protocol/binary/Message.go:80-82 | as written, one byte after a Hello body with a non-empty URL is appended to the decoded URL, so the round trip fails |
| `AsWritten.UnmarshalError` | protocol/binary/Message.go:168-187 | as written, with `8+reasonSize` wrapping as a `uint32`, in a slice without spare capacity: truncation exactly below 8 bytes, a panic at exactly 8 bytes, and otherwise either a panic or success without an error, with a reason that lies inside the input |
| `AsWritten.ErrorReasonOverrun` | protocol/binary/Message.go:177-179 | as written, an Error body that announces more reason bytes than it holds panics; the corrected decoder reports truncation |
| `AsWritten.ErrorLongReasonPanics` | protocol/binary/Message.go:174-179 | as written, the layout of an Error message whose reason has at least 2^32 - 8 bytes panics whatever follows, because `8+reasonSize` wraps below 8; the corrected decoder gives the message back |
| `AsWritten.DecodeTCP` | protocol/TCPMessage.go:45-69 | as written, with the `uint32` size arithmetic: truncation under 8 bytes, and a panic exactly when the declared total is below 8 |
| `AsWritten.ParseMessage` | protocol/binary/TCPMessage.go:50-74 | as written, over the as-written decoders: truncation under 8 bytes or under 16 for HEL and ERR; an ACK frame panics exactly when its body is 20 bytes; only HEL, ACK and ERR frames can panic |
| `AsWritten.HelloFrameDoesNotParse` | protocol/binary/TCPMessage.go:21-74 | as written, a valid Hello framed as `MarshalMessage` frames it makes `ParseMessage` panic when the frame sits in a slice without spare capacity, so the frame round trip fails for such a slice |
| `AsWritten.AckFrameDoesNotParse` | protocol/binary/TCPMessage.go:21-74 | as written, a valid Acknowledge framed as `MarshalMessage` frames it makes `ParseMessage` panic when the frame sits in a slice without spare capacity |
| `AsWritten.ErrorFrameDoesNotParse` | protocol/binary/Message.go:173-174 | as written, in a slice without spare capacity, the frame of an Error message with an empty reason makes `ParseMessage` panic, because the reason length is read through `b[4:9]` |
| `AsWritten.DecodeTCPUnderflowPanics` | protocol/TCPMessage.go:52-59 | as written, a declared total below 8 passes the size guard and panics at the payload slice; the corrected decoder reports an invalid length |
| `AsWritten.DecodeTCPAgreesWhenLengthValid` | protocol/TCPMessage.go:45-69 | for a declared total of at least 8, the code as written and the corrected decoder agree |
| `Vectors.PrimitiveVectors` | protocol/binary/encoding_test.go:14-36 | 0 and 55 encode to [0,0,0,0] and [55,0,0,0]; "" and "hello" encode to their length-prefixed forms |
| `Vectors.DefaultHelloRejected` | protocol/binary/Message_test.go:15 | the zero Hello fails validation on its receive buffer |
| `Vectors.SimpleHelloVector` | protocol/binary/Message_test.go:16-20 | the simple Hello passes and encodes to the 24 bytes of the test |
| `Vectors.FullHelloVector` | protocol/binary/Message_test.go:21-28 | the Hello with "opc.tcp://localhost" passes and encodes to the bytes of the test |
| `Vectors.AckVectors` | protocol/binary/Message_test.go:51-63 | the zero Acknowledge fails; the simple and full ones encode to the bytes of the tests |
| `Vectors.ErrorVectors` | protocol/binary/Message_test.go:86-93 | the three Error messages encode to the bytes of the tests |
| `Vectors.ValidationBoundaries` | protocol/binary/Message.go:43-53 | 8191 is rejected and 8192 accepted for each buffer; a 4096-byte URL is accepted and a 4097-byte one rejected |

## Left out

- Growth of `bytes.Buffer` and its `ErrTooLarge` panic are not modelled. A buffer is a sequence that every write extends, and every write error is nil.
- The model does not check that writes stop at the first failing write. No write can fail, so the property says nothing; the `if err == nil` chains are still kept step for step.
- `MarshalMessage` writes to a `bytes.Buffer` directly. It is modelled with the `Buffer` class, whose `Write` and `WriteByte` are those of `bytes.Buffer`.
- Go's `bytes.Buffer.Bytes()` returns a slice that aliases the buffer, and `DecodeTCP`'s payload aliases its input. Aliasing is not modelled: results are values.
- Slice capacity is not modelled. The corrected decoders read exact field bounds. `AsWritten` takes a slice's capacity to equal its length. A frame returned by `MarshalMessage` comes from `bytes.Buffer.Bytes()` and usually has spare capacity: the five-byte reads then take their fifth byte from beyond the length, and the panics that `AsWritten` shows happen only for frames held in exact-size slices.
- Error message texts are not modelled, only error kinds. All four send-buffer checks of the source (protocol/binary/Message.go:47-48 and 111-112, protocol/Message.go:38-39 and 90-91) report "ReceiveBufferSize", like the receive-buffer checks. The model gives them the kind `SendBufferTooSmall`.
- `uint32(len(s))` truncation for strings of 4 GiB or more is excluded. It is ruled out by the type `Str` and by the `|s| < 2^32` preconditions of `PutString` and `WriteString`.
- `ProtocolTcp.DecodeFrameRoundTrip` and `ProtocolTcp.EncodeThenDecode` require a frame shorter than 2^32 bytes. For an Error reason of 2^32 - 16 bytes or more, `uint32(8+len(payload))` in `EncodeTCP` and `MarshalMessage` wraps, and `DecodeTCP` does not give the payload back; that case is not covered.
- The `OPCUAEncoder` interface (protocol/encoding/encoding.go) only declares methods. The marshal methods take the `BinaryEncoder` class directly.
- Reverse Hello decoding is not implemented by the source, so only its rejection is modelled.
- The `TCPMessage` struct of the `binary` package (protocol/binary/TCPMessage.go:12-17) is never used, and it is not modelled.
- The receiver `*m` of `unmarshal` and the pointer results of `ParseMessage`/`DecodeTCP` are modelled as values.
- Strings are byte sequences. UTF-8 validity is neither checked nor needed.
- `LittleEndian.LE32`, `Wire.HelloBody`, `Wire.AckBody`, `Wire.ErrorBody` and `Wire.Frame`: their own contracts state only lengths. Each is the reference layout itself, and what they hold is stated by the lemmas and methods that use them.

## Findings

| source | as written | input that shows it | evidently intended | confidence | as-written member | corrected member |
|---|---|---|---|---|---|---|
| protocol/binary/Message.go:131-135 | each `uint32` field is read through a five-byte slice, `b[16:21]` for the last Acknowledge field | an Acknowledge body of exactly 20 bytes in a slice with no spare capacity: the read of `b[16:21]` panics; with spare capacity, as in the slice `MarshalMessage` returns, the fifth byte comes from beyond the length and nothing fails | read exactly four bytes per field | not executed | `AsWritten.AckFrameDoesNotParse` | `BinaryMessage.AckRoundTrip` |
| protocol/binary/Message.go:81 | the endpoint URL is `b[24 : 25+urlSize]`, one byte longer than the URL | the layout of a Hello with URL "a" followed by one spare byte `x`: the URL decodes as "a" + x; without the spare byte the read panics | URL = `b[24 : 24+urlSize]`, with a truncation error when the body is too short | not executed | `AsWritten.HelloUrlOverread` | `BinaryMessage.HelloRoundTrip` |
| protocol/binary/Message.go:178 | the reason read `b[8 : 8+reasonSize]` is not bounds-checked | an Error body announcing 5 reason bytes and holding 1: the slice panics | report truncation | not executed | `AsWritten.ErrorReasonOverrun` | `BinaryMessage.UnmarshalError` |
| protocol/binary/Message.go:81 | the end of the URL read, `25+urlSize`, is a `uint32` sum and wraps around | a 25-byte Hello body whose bytes 20-23 are 255: `25+urlSize` wraps to 24, and the body decodes without an error to a Hello with an empty URL | report truncation, as the announced URL is missing | not executed | `AsWritten.HelloUrlSizeWraps` | `BinaryMessage.UnmarshalHello` |
| protocol/binary/Message.go:178 | the end of the reason read, `8+reasonSize`, is a `uint32` sum and wraps around | the layout of an Error message with a reason of 2^32 - 8 bytes: the end wraps to 0 and `b[8:0]` panics | decode the reason | not executed | `AsWritten.ErrorLongReasonPanics` | `BinaryMessage.ErrorRoundTrip` |
| protocol/TCPMessage.go:52 | `Uint32(bytes[4:8]) - 8` is computed in `uint32` arithmetic without a check | an 8-byte frame whose length field is 0: the size wraps to 2^32 - 8, the guard passes and `bytes[8:0]` panics | reject a declared total below 8 | not executed | `AsWritten.DecodeTCPUnderflowPanics` | `ProtocolTcp.DecodeTCP` |
