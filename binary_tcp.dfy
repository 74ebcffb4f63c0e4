/** The `binary` package's frame codec: `MarshalMessage` wraps a message body in
    the 8-byte header, `ParseMessage` checks the header size and dispatches on
    the three-byte tag. */
module BinaryTcp {

  import opened LittleEndian
  import opened Errors
  import opened Wire
  import opened BinaryEncoding
  import opened BinaryBuffer
  import opened BinaryMessage

  /** `MarshalMessage`: tag, 'F', length, body, each step only if the previous
      one succeeded. When the body fails validation only the tag and 'F' have
      been written, and those four bytes come back with the error. The source
      builds the frame in a `bytes.Buffer`; the package's `Buffer` wraps the same. */
  method MarshalMessage(msg: Message) returns (r: seq<byte>, err: Option<CodecError>)
    ensures err == MarshalFailure(msg)
    ensures err == None ==> r == Frame(Type(msg), Body(msg))
    ensures err != None ==> r == Type(msg) + [CHUNK_FINAL]
  {
    var tag, payload: seq<byte> := Type(msg), [];
    var buf := new Buffer();
    var written;
    written, err := buf.Write(tag);
    if err == None {
      err := buf.WriteByte(CHUNK_FINAL);
    }
    ghost var prefix := buf.buf;
    assert prefix == tag + [CHUNK_FINAL];
    if err == None {
      payload, err := Marshal(msg);
      assert err == None ==> payload == Body(msg);
    }
    assert buf.buf == prefix;
    if err == None {
      var size := new byte[4](_ => 0);
      PutUint32(size, 0, Wrap32(HEADER_LEN + |payload|));
      assert size[..] == LE32(Wrap32(HEADER_LEN + |payload|));
      written, err := buf.Write(size[..]);
      assert buf.buf == Header(tag, |payload|);
    }
    if err == None {
      written, err := buf.Write(payload);
    }
    r := buf.Bytes();
    assert err == None ==> r == Header(tag, |payload|) + payload;
  }

  /** Converts an `unmarshal` outcome into `ParseMessage`'s result. */
  function Decoded<T>(outcome: (T, Option<CodecError>), wrap: T -> Message): Result<Message, CodecError>
  {
    if outcome.1 == None then Success(wrap(outcome.0)) else Failure(outcome.1.value)
  }

  /** `ParseMessage`. Neither the chunk type nor the declared length is looked
      at: the body is everything after the header. */
  function ParseMessage(b: seq<byte>): (r: Result<Message, CodecError>)
    ensures |b| < HEADER_LEN ==> r == Failure(Truncated)
    ensures |b| >= HEADER_LEN && b[..3] == RHE ==> r == Failure(Unsupported)
    ensures |b| >= HEADER_LEN && b[..3] != HEL && b[..3] != ACK && b[..3] != ERR && b[..3] != RHE
            ==> r == Failure(Unrecognized(b[..3]))
    ensures |b| >= HEADER_LEN && (b[..3] == HEL || b[..3] == ACK || b[..3] == ERR)
            ==> r == Failure(Truncated) || r.Success?
    ensures |b| >= HEADER_LEN && b[..3] == HEL
            ==> (r.Success? <==> |b| >= HEADER_LEN + 24 && |b| >= HEADER_LEN + 24 + Uint32(b[28..32]))
    ensures |b| >= HEADER_LEN && b[..3] == ACK ==> (r.Success? <==> |b| >= HEADER_LEN + 20)
    ensures |b| >= HEADER_LEN && b[..3] == ERR
            ==> (r.Success? <==> |b| >= HEADER_LEN + 8 && |b| >= HEADER_LEN + 8 + Uint32(b[12..16]))
    ensures r.Success? ==> |b| >= HEADER_LEN && Type(r.value) == b[..3]
    ensures r.Success? ==> HEADER_LEN + |Body(r.value)| <= |b|
                           && b[HEADER_LEN..HEADER_LEN + |Body(r.value)|] == Body(r.value)
  {
    if |b| < HEADER_LEN then Failure(Truncated)
    else
      var t, payload := b[..3], b[HEADER_LEN..];
      assert |payload| >= 24 ==> payload[20..24] == b[28..32];
      assert |payload| >= 8 ==> payload[4..8] == b[12..16];
      if t == HEL then
        Decoded(UnmarshalHello(ZERO_HELLO, payload), h => HelloMsg(h))
      else if t == ACK then
        Decoded(UnmarshalAck(ZERO_ACK, payload), a => AckMsg(a))
      else if t == RHE then
        Failure(Unsupported)
      else if t == ERR then
        Decoded(UnmarshalError(ZERO_ERROR, payload), e => ErrorMsg(e))
      else
        Failure(Unrecognized(t))
  }

  /** `ParseMessage` reads neither the chunk type nor the declared length:
      whatever the five header bytes after the tag hold, the result is the same. */
  lemma ParseIgnoresChunkAndLength(b: seq<byte>, c: seq<byte>)
    requires |b| >= HEADER_LEN && |c| == 5
    ensures ParseMessage(b[..3] + c + b[HEADER_LEN..]) == ParseMessage(b)
  {
    var b' := b[..3] + c + b[HEADER_LEN..];
    assert b'[..3] == b[..3] && b'[HEADER_LEN..] == b[HEADER_LEN..];
  }

  /** Frame round trip: parsing the frame of any message gives the message
      back, whatever bytes follow the frame. */
  lemma ParseFrameRoundTrip(m: Message, rest: seq<byte>)
    ensures ParseMessage(Frame(Type(m), Body(m)) + rest) == Success(m)
  {
    var b := Frame(Type(m), Body(m)) + rest;
    assert b[..3] == Type(m);
    assert b[HEADER_LEN..] == Body(m) + rest;
    match m
    case HelloMsg(h) => HelloRoundTrip(ZERO_HELLO, h, rest);
    case AckMsg(a) => AckRoundTrip(ZERO_ACK, a, rest);
    case ErrorMsg(e) => ErrorRoundTrip(ZERO_ERROR, e, rest);
  }

  /** What `MarshalMessage` produces for a valid message, `ParseMessage` parses
      back to that message. */
  method MarshalThenParse(msg: Message) returns (parsed: Result<Message, CodecError>)
    requires Validate(msg) == None
    ensures parsed == Success(msg)
  {
    var frame, err := MarshalMessage(msg);
    parsed := ParseMessage(frame);
    ParseFrameRoundTrip(msg, []);
    assert frame + [] == frame;
  }
}
