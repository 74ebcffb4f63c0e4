/** The `binary` package's message codec. Each `marshal` validates, allocates a
    zeroed buffer of the exact body size and fills it by in-place writes at fixed
    offsets; each `unmarshal` checks a minimum length, reads fields at fixed
    offsets and replaces the receiver. The receiver `*m` is passed in and the
    new receiver returned, so "left untouched" means "returned unchanged". */
module BinaryMessage {

  import opened LittleEndian
  import opened Errors
  import opened Wire
  import opened BinaryEncoding

  method MarshalHello(m: HelloMessage) returns (b: seq<byte>, err: Option<CodecError>)
    ensures err == MarshalFailure(HelloMsg(m))
    ensures err == None ==> b == HelloBody(m)
    ensures err != None ==> b == []
  {
    if m.receiveBufferSize < MIN_BUFFER_SIZE {
      return [], Some(Validation(ReceiveBufferTooSmall));
    }
    if m.sendBufferSize < MIN_BUFFER_SIZE {
      return [], Some(Validation(SendBufferTooSmall));
    }
    if |m.endpointUrl| > MAX_ENDPOINT_URL {
      return [], Some(Validation(EndpointUrlTooLong));
    }
    var buf := new byte[24 + |m.endpointUrl|](_ => 0);
    PutUint32(buf, 0, m.protocolVersion);
    PutUint32(buf, 4, m.receiveBufferSize);
    PutUint32(buf, 8, m.sendBufferSize);
    PutUint32(buf, 12, m.maxMessageSize);
    PutUint32(buf, 16, m.maxChunkCount);
    PutString(buf, 20, m.endpointUrl);
    b, err := buf[..], None;
  }

  method MarshalAck(m: AckMessage) returns (b: seq<byte>, err: Option<CodecError>)
    ensures err == MarshalFailure(AckMsg(m))
    ensures err == None ==> b == AckBody(m)
    ensures err != None ==> b == []
  {
    if m.receiveBufferSize < MIN_BUFFER_SIZE {
      return [], Some(Validation(ReceiveBufferTooSmall));
    }
    if m.sendBufferSize < MIN_BUFFER_SIZE {
      return [], Some(Validation(SendBufferTooSmall));
    }
    var buf := new byte[20](_ => 0);
    PutUint32(buf, 0, m.protocolVersion);
    PutUint32(buf, 4, m.receiveBufferSize);
    PutUint32(buf, 8, m.sendBufferSize);
    PutUint32(buf, 12, m.maxMessageSize);
    PutUint32(buf, 16, m.maxChunkCount);
    b, err := buf[..], None;
  }

  /** An Error message has no field constraints: its marshal never fails. */
  method MarshalError(m: ErrorMessage) returns (b: seq<byte>, err: Option<CodecError>)
    ensures err == None && b == ErrorBody(m)
  {
    var buf := new byte[8 + |m.reason|](_ => 0);
    PutUint32(buf, 0, m.error);
    PutString(buf, 4, m.reason);
    b, err := buf[..], None;
  }

  /** `msg.marshal()` through the message interface. */
  method Marshal(m: Message) returns (b: seq<byte>, err: Option<CodecError>)
    ensures err == MarshalFailure(m)
    ensures err == None ==> b == Body(m)
    ensures err != None ==> b == []
  {
    match m
    case HelloMsg(h) => b, err := MarshalHello(h);
    case AckMsg(a) => b, err := MarshalAck(a);
    case ErrorMsg(e) => b, err := MarshalError(e);
  }

  /** Hello `unmarshal`. Decoding does not re-check the 8192 and 4096 rules. */
  function UnmarshalHello(m: HelloMessage, b: seq<byte>): (r: (HelloMessage, Option<CodecError>))
    ensures |b| < 24 ==> r == (m, Some(Truncated))
    ensures r.1 == None <==> |b| >= 24 && |b| >= 24 + Uint32(b[20..24])
    ensures r.1 != None ==> r == (m, Some(Truncated))
    ensures r.1 == None ==> 24 + |r.0.endpointUrl| <= |b| && b[..24 + |r.0.endpointUrl|] == HelloBody(r.0)
  {
    if |b| < 24 then (m, Some(Truncated))
    else
      // Deviation: the source reads every u32 through a five-byte slice
      // (b[0:5], b[4:9], ..., b[20:25]); the field is the first four bytes.
      var urlSize := Uint32(b[20..24]);
      // Deviation: the source slices b[24 : 25+urlSize] with no bounds check,
      // one byte past the URL; the URL is b[24 .. 24+urlSize], and a body too
      // short to hold it is a truncation error.
      if urlSize > 0 && |b| < 24 + urlSize then (m, Some(Truncated))
      else
        var endpoint := if urlSize > 0 then b[24..24 + urlSize] else [];
        var r := HelloMessage(Uint32(b[0..4]), Uint32(b[4..8]), Uint32(b[8..12]),
                              Uint32(b[12..16]), Uint32(b[16..20]), endpoint);
        HelloFields(b, r);
        (r, None)
  }

  /** `LE32` of the value read at `k` gives back the four bytes read. */
  lemma FieldBytes(b: seq<byte>, k: nat)
    requires k + 4 <= |b|
    ensures LE32(Uint32(b[k..k + 4])) == b[k..k + 4]
  {
    assert b[k..k + 4][..4] == b[k..k + 4];
  }

  /** A Hello whose fields were read from `b` re-encodes to the bytes read. */
  lemma HelloFields(b: seq<byte>, r: HelloMessage)
    requires 24 + |r.endpointUrl| <= |b|
    requires r.protocolVersion == Uint32(b[0..4]) && r.receiveBufferSize == Uint32(b[4..8])
    requires r.sendBufferSize == Uint32(b[8..12]) && r.maxMessageSize == Uint32(b[12..16])
    requires r.maxChunkCount == Uint32(b[16..20]) && |r.endpointUrl| == Uint32(b[20..24])
    requires b[24..24 + |r.endpointUrl|] == r.endpointUrl
    ensures b[..24 + |r.endpointUrl|] == HelloBody(r)
  {
    FieldBytes(b, 0);
    FieldBytes(b, 4);
    FieldBytes(b, 8);
    FieldBytes(b, 12);
    FieldBytes(b, 16);
    FieldBytes(b, 20);
    var n := |r.endpointUrl|;
    assert b[20..24 + n] == b[20..24] + r.endpointUrl;
    assert b[..20] == b[0..4] + b[4..8] + b[8..12] + b[12..16] + b[16..20];
    assert b[..24 + n] == b[..20] + b[20..24 + n];
  }

  /** Acknowledge `unmarshal`: any 20 bytes decode, small buffer sizes included. */
  function UnmarshalAck(m: AckMessage, b: seq<byte>): (r: (AckMessage, Option<CodecError>))
    ensures |b| < 20 <==> r == (m, Some(Truncated))
    ensures r.1 != None ==> r == (m, Some(Truncated))
    ensures r.1 == None ==> b[..20] == AckBody(r.0)
  {
    if |b| < 20 then (m, Some(Truncated))
    else
      // Deviation: the source reads each u32 through a five-byte slice
      // (b[0:5] ... b[16:21]); the field is the first four bytes.
      var r := AckMessage(Uint32(b[0..4]), Uint32(b[4..8]), Uint32(b[8..12]),
                          Uint32(b[12..16]), Uint32(b[16..20]));
      assert b[..20] == b[0..4] + b[4..8] + b[8..12] + b[12..16] + b[16..20];
      (r, None)
  }

  /** Error `unmarshal`. */
  function UnmarshalError(m: ErrorMessage, b: seq<byte>): (r: (ErrorMessage, Option<CodecError>))
    ensures |b| < 8 ==> r == (m, Some(Truncated))
    ensures r.1 == None <==> |b| >= 8 && |b| >= 8 + Uint32(b[4..8])
    ensures r.1 != None ==> r == (m, Some(Truncated))
    ensures r.1 == None ==> 8 + |r.0.reason| <= |b| && b[..8 + |r.0.reason|] == ErrorBody(r.0)
  {
    if |b| < 8 then (m, Some(Truncated))
    else
      // Deviation: the source reads both u32 through five-byte slices (b[0:5], b[4:9]).
      var reasonSize := Uint32(b[4..8]);
      // Deviation: the source slices b[8 : 8+reasonSize] without checking the
      // length, which panics on a short body; here that is a truncation error.
      if reasonSize > 0 && |b| < 8 + reasonSize then (m, Some(Truncated))
      else
        var reason := if reasonSize > 0 then b[8..8 + reasonSize] else [];
        assert b[..8 + |reason|] == b[0..4] + (b[4..8] + reason);
        (ErrorMessage(Uint32(b[0..4]), reason), None)
  }

  /** A field written as `LE32(n)` reads back as `n`. */
  lemma ReadField(b: seq<byte>, k: nat, n: u32)
    requires k + 4 <= |b| && b[k..k + 4] == LE32(n)
    ensures Uint32(b[k..k + 4]) == n
  {
    assert b[k..k + 4][..4] == b[k..k + 4];
    LE32Injective(Uint32(b[k..k + 4]), n);
  }

  /** Round trip: any Hello, valid or not, decodes from its body, whatever follows. */
  lemma HelloRoundTrip(m0: HelloMessage, m: HelloMessage, rest: seq<byte>)
    ensures UnmarshalHello(m0, HelloBody(m) + rest) == (m, None)
  {
    var b := HelloBody(m) + rest;
    var url := m.endpointUrl;
    ReadField(b, 0, m.protocolVersion);
    ReadField(b, 4, m.receiveBufferSize);
    ReadField(b, 8, m.sendBufferSize);
    ReadField(b, 12, m.maxMessageSize);
    ReadField(b, 16, m.maxChunkCount);
    ReadField(b, 20, |url|);
    assert b[24..24 + |url|] == url;
  }

  /** Round trip: any Acknowledge decodes from its body, whatever follows. */
  lemma AckRoundTrip(m0: AckMessage, m: AckMessage, rest: seq<byte>)
    ensures UnmarshalAck(m0, AckBody(m) + rest) == (m, None)
  {
    var b := AckBody(m) + rest;
    ReadField(b, 0, m.protocolVersion);
    ReadField(b, 4, m.receiveBufferSize);
    ReadField(b, 8, m.sendBufferSize);
    ReadField(b, 12, m.maxMessageSize);
    ReadField(b, 16, m.maxChunkCount);
  }

  /** Round trip: any Error message decodes from its body, whatever follows. */
  lemma ErrorRoundTrip(m0: ErrorMessage, m: ErrorMessage, rest: seq<byte>)
    ensures UnmarshalError(m0, ErrorBody(m) + rest) == (m, None)
  {
    var b := ErrorBody(m) + rest;
    ReadField(b, 0, m.error);
    ReadField(b, 4, |m.reason|);
    assert b[8..8 + |m.reason|] == m.reason;
  }
}
