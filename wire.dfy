/** The handshake messages of the UA-TCP transport (OPC Unified Architecture
    Part 6, section 7.1.2) and their wire layout. Both codec stacks of the
    repository write exactly these layouts; this module states them once. */
module Wire {

  import opened LittleEndian
  import opened Errors

  /** Smallest receive and send buffer a Hello or Acknowledge may announce. */
  const MIN_BUFFER_SIZE: int := 8192
  /** Longest endpoint URL a Hello may carry, in bytes. */
  const MAX_ENDPOINT_URL: int := 4096
  /** Size of the frame header: tag, chunk type, total length. */
  const HEADER_LEN: int := 8

  /** Message type tags (section 7.1.2.2): "HEL", "ACK", "ERR", "RHE". */
  const HEL: seq<byte> := [72, 69, 76]
  const ACK: seq<byte> := [65, 67, 75]
  const ERR: seq<byte> := [69, 82, 82]
  const RHE: seq<byte> := [82, 72, 69]
  /** The chunk type 'F' (final chunk), the only one produced. */
  const CHUNK_FINAL: byte := 70

  datatype HelloMessage = HelloMessage(
    protocolVersion: u32,
    receiveBufferSize: u32,
    sendBufferSize: u32,
    maxMessageSize: u32,
    maxChunkCount: u32,
    endpointUrl: Str)

  datatype AckMessage = AckMessage(
    protocolVersion: u32,
    receiveBufferSize: u32,
    sendBufferSize: u32,
    maxMessageSize: u32,
    maxChunkCount: u32)

  datatype ErrorMessage = ErrorMessage(error: u32, reason: Str)

  /** The closed set of message types that implement the message interface. */
  datatype Message =
    | HelloMsg(hello: HelloMessage)
    | AckMsg(ack: AckMessage)
    | ErrorMsg(err: ErrorMessage)

  /** The zero values Go's `new(HelloMessage)` etc. allocate. */
  const ZERO_HELLO: HelloMessage := HelloMessage(0, 0, 0, 0, 0, [])
  const ZERO_ACK: AckMessage := AckMessage(0, 0, 0, 0, 0)
  const ZERO_ERROR: ErrorMessage := ErrorMessage(0, [])

  /** `Type()`: the wire tag of each message; never the Reverse Hello tag. */
  function Type(m: Message): (t: seq<byte>)
    ensures |t| == 3 && t != RHE
    ensures t == HEL <==> m.HelloMsg?
    ensures t == ACK <==> m.AckMsg?
    ensures t == ERR <==> m.ErrorMsg?
  {
    match m
    case HelloMsg(_) => HEL
    case AckMsg(_) => ACK
    case ErrorMsg(_) => ERR
  }

  /** The two buffer-size checks, receive buffer first. */
  function CheckBufferSizes(receive: u32, send: u32): (r: Option<Violation>)
    ensures r == None <==> receive >= MIN_BUFFER_SIZE && send >= MIN_BUFFER_SIZE
    ensures r == Some(ReceiveBufferTooSmall) <==> receive < MIN_BUFFER_SIZE
    ensures r == Some(SendBufferTooSmall) <==> receive >= MIN_BUFFER_SIZE && send < MIN_BUFFER_SIZE
  {
    if receive < MIN_BUFFER_SIZE then Some(ReceiveBufferTooSmall)
    else if send < MIN_BUFFER_SIZE then Some(SendBufferTooSmall)
    else None
  }

  /** Encode-time validation of a Hello: buffer sizes, then the URL length. */
  function CheckHello(m: HelloMessage): (r: Option<Violation>)
    ensures r == None <==>
      m.receiveBufferSize >= MIN_BUFFER_SIZE && m.sendBufferSize >= MIN_BUFFER_SIZE
      && |m.endpointUrl| <= MAX_ENDPOINT_URL
    ensures r == Some(EndpointUrlTooLong) <==>
      m.receiveBufferSize >= MIN_BUFFER_SIZE && m.sendBufferSize >= MIN_BUFFER_SIZE
      && |m.endpointUrl| > MAX_ENDPOINT_URL
  {
    var sizes := CheckBufferSizes(m.receiveBufferSize, m.sendBufferSize);
    if sizes.Some? then sizes
    else if |m.endpointUrl| > MAX_ENDPOINT_URL then Some(EndpointUrlTooLong)
    else None
  }

  /** Encode-time validation of every message; an Error message has none. */
  function Validate(m: Message): (r: Option<Violation>)
    ensures m.ErrorMsg? ==> r == None
  {
    match m
    case HelloMsg(h) => CheckHello(h)
    case AckMsg(a) => CheckBufferSizes(a.receiveBufferSize, a.sendBufferSize)
    case ErrorMsg(_) => None
  }

  /** The error a marshal reports: the violation found by validation, if any. */
  function MarshalFailure(m: Message): (r: Option<CodecError>)
    ensures r == None <==> Validate(m) == None
    ensures r.Some? ==> r.value.Validation?
  {
    match Validate(m)
    case None => None
    case Some(v) => Some(Validation(v))
  }

  /** Hello body: the five integers in declaration order, then the endpoint URL. */
  function HelloBody(m: HelloMessage): (r: seq<byte>)
    ensures |r| == 24 + |m.endpointUrl|
  {
    LE32(m.protocolVersion) + LE32(m.receiveBufferSize) + LE32(m.sendBufferSize)
    + LE32(m.maxMessageSize) + LE32(m.maxChunkCount) + LengthPrefixed(m.endpointUrl)
  }

  /** Acknowledge body: the five integers in declaration order. */
  function AckBody(m: AckMessage): (r: seq<byte>)
    ensures |r| == 20
  {
    LE32(m.protocolVersion) + LE32(m.receiveBufferSize) + LE32(m.sendBufferSize)
    + LE32(m.maxMessageSize) + LE32(m.maxChunkCount)
  }

  /** Error body: the error code, then the reason. */
  function ErrorBody(m: ErrorMessage): (r: seq<byte>)
    ensures |r| == 8 + |m.reason|
  {
    LE32(m.error) + LengthPrefixed(m.reason)
  }

  function Body(m: Message): (r: seq<byte>)
    ensures m.HelloMsg? ==> |r| == 24 + |m.hello.endpointUrl|
    ensures m.AckMsg? ==> |r| == 20
    ensures m.ErrorMsg? ==> |r| == 8 + |m.err.reason|
  {
    match m
    case HelloMsg(h) => HelloBody(h)
    case AckMsg(a) => AckBody(a)
    case ErrorMsg(e) => ErrorBody(e)
  }

  /** The 8-byte header: tag, 'F', and the total length `uint32(8 + len(payload))`. */
  function Header(tag: seq<byte>, payloadLength: nat): seq<byte>
  {
    tag + [CHUNK_FINAL] + LE32(Wrap32(HEADER_LEN + payloadLength))
  }

  /** A complete single-chunk frame. */
  function Frame(tag: seq<byte>, payload: seq<byte>): (r: seq<byte>)
    ensures |r| == |tag| + 5 + |payload|
  {
    Header(tag, |payload|) + payload
  }

  /** A frame is the tag, 'F', the length field and the payload, in that order. */
  lemma FrameParts(tag: seq<byte>, payload: seq<byte>)
    requires |tag| == 3
    ensures Frame(tag, payload)[..3] == tag
    ensures Frame(tag, payload)[3] == CHUNK_FINAL
    ensures Frame(tag, payload)[4..8] == LE32(Wrap32(HEADER_LEN + |payload|))
    ensures Frame(tag, payload)[HEADER_LEN..] == payload
  {
  }

  /** The length field of a frame counts the whole frame, header included,
      whenever that count fits in 32 bits. */
  lemma FrameLengthField(tag: seq<byte>, payload: seq<byte>)
    requires |tag| == 3 && HEADER_LEN + |payload| < U32_LIMIT
    ensures Uint32(Frame(tag, payload)[4..8]) == |Frame(tag, payload)|
  {
    var f := Frame(tag, payload);
    assert f[4..8] == LE32(HEADER_LEN + |payload|) + [];
    Uint32OfLE32(HEADER_LEN + |payload|, []);
  }
}
