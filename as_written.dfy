/** The decode paths of the source as written, with their defects and their
    `uint32` wrap-around, so that each defect can be shown on a concrete input
    and set against the corrected definitions the rest of the model uses. The
    one simplification is capacity. A Go slice expression
    `b[lo:hi]` panics when `hi` exceeds the slice's capacity; here a slice's
    capacity is taken to equal its length, which is what `make([]byte, n)`
    gives, and a panic is the outcome `Panicked`. */
module AsWritten {

  import opened LittleEndian
  import opened Errors
  import opened Wire
  import BinaryMessage
  import ProtocolTcp

  datatype Outcome<T> = Returned(value: T) | Panicked

  /** Go's `b[lo:hi]` on a slice whose capacity is its length. */
  function Slice(b: seq<byte>, lo: nat, hi: nat): (r: Option<seq<byte>>)
    ensures r.Some? <==> lo <= hi <= |b|
    ensures r.Some? ==> |r.value| == hi - lo && r.value == b[lo..hi]
  {
    if lo <= hi <= |b| then Some(b[lo..hi]) else None
  }

  /** `binary.LittleEndian.Uint32(b[k:k+5])`: a five-byte slice, of which the
      first four bytes are read. */
  function ReadFive(b: seq<byte>, k: nat): (r: Option<u32>)
    ensures r.Some? <==> k + 5 <= |b|
    ensures r.Some? ==> r.value == Uint32(b[k..k + 4])
  {
    match Slice(b, k, k + 5)
    case None => None
    case Some(s) => assert s[..4] == b[k..k + 4]; Some(Uint32(s))
  }

  /** Acknowledge `unmarshal` as written: the last read is `b[16:21]`. */
  function UnmarshalAck(m: AckMessage, b: seq<byte>): (r: Outcome<(AckMessage, Option<CodecError>)>)
    ensures |b| < 20 <==> r == Returned((m, Some(Truncated)))
    ensures r == Panicked <==> |b| == 20
    ensures |b| > 20 ==> r.Returned? && r.value.1 == None
  {
    if |b| < 20 then Returned((m, Some(Truncated)))
    else
      var f0, f1, f2 := ReadFive(b, 0), ReadFive(b, 4), ReadFive(b, 8);
      var f3, f4 := ReadFive(b, 12), ReadFive(b, 16);
      if f0.None? || f1.None? || f2.None? || f3.None? || f4.None? then Panicked
      else Returned((AckMessage(f0.value, f1.value, f2.value, f3.value, f4.value), None))
  }

  /** Five-byte reads: an Acknowledge body of exactly 20 bytes, as marshal
      produces, panics in a slice without spare capacity, because the read of
      the last field needs a 21st byte. */
  lemma AckExactBodyPanics(m0: AckMessage, m: AckMessage)
    ensures UnmarshalAck(m0, AckBody(m)) == Panicked
  {
  }

  /** With at least one byte to spare the five-byte reads agree with the
      corrected four-byte reads. */
  lemma AckAgreesWithSpareByte(m0: AckMessage, b: seq<byte>)
    requires |b| >= 21
    ensures UnmarshalAck(m0, b) == Returned(BinaryMessage.UnmarshalAck(m0, b))
  {
  }

  /** Hello `unmarshal` as written: five-byte reads and the URL read
      `b[24 : 25+urlSize]`, one byte longer than the URL, whose end `25+urlSize`
      is a `uint32` sum and wraps around. */
  function UnmarshalHello(m: HelloMessage, b: seq<byte>): (r: Outcome<(HelloMessage, Option<CodecError>)>)
    ensures |b| < 24 <==> r == Returned((m, Some(Truncated)))
    ensures |b| == 24 ==> r == Panicked
    ensures r.Returned? && |b| >= 24 ==> r.value.1 == None && 24 + |r.value.0.endpointUrl| <= |b|
  {
    if |b| < 24 then Returned((m, Some(Truncated)))
    else
      var f0, f1, f2 := ReadFive(b, 0), ReadFive(b, 4), ReadFive(b, 8);
      var f3, f4, urlSize := ReadFive(b, 12), ReadFive(b, 16), ReadFive(b, 20);
      if f0.None? || f1.None? || f2.None? || f3.None? || f4.None? || urlSize.None? then Panicked
      else if urlSize.value > 0 then
        match Slice(b, 24, Wrap32(25 + urlSize.value))
        case None => Panicked
        case Some(url) =>
          Returned((HelloMessage(f0.value, f1.value, f2.value, f3.value, f4.value, url), None))
      else
        Returned((HelloMessage(f0.value, f1.value, f2.value, f3.value, f4.value, []), None))
  }

  /** The Hello of every exact-length body panics: with an empty URL the read
      `b[20:25]` needs a 25th byte, with a non-empty URL the URL read overruns,
      and when `25+urlSize` wraps to less than 24 the slice bounds cross. A URL of
      2^32 - 1 bytes is excluded: its end wraps to exactly 24 and the read
      returns an empty URL (see `HelloUrlSizeWraps`). */
  lemma HelloExactBodyPanics(m0: HelloMessage, m: HelloMessage)
    requires |HelloBody(m)| < U32_LIMIT
    ensures UnmarshalHello(m0, HelloBody(m)) == Panicked
  {
    var b := HelloBody(m);
    if |m.endpointUrl| > 0 {
      BinaryMessage.HelloRoundTrip(m0, m, []);
      assert b + [] == b;
      BinaryMessage.FieldBytes(b, 20);
      LE32Injective(Uint32(b[20..24]), |m.endpointUrl|);
    }
  }

  /** URL off-by-one: with one more byte after the body, the decoded URL has
      that byte appended, so the round trip fails. */
  lemma HelloUrlOverread(m0: HelloMessage, m: HelloMessage, x: byte)
    requires |m.endpointUrl| > 0 && |HelloBody(m)| + 1 < U32_LIMIT
    ensures UnmarshalHello(m0, HelloBody(m) + [x])
            == Returned((m.(endpointUrl := m.endpointUrl + [x]), None))
    ensures m.(endpointUrl := m.endpointUrl + [x]) != m
  {
    var b := HelloBody(m) + [x];
    BinaryMessage.HelloRoundTrip(m0, m, [x]);
    BinaryMessage.FieldBytes(b, 20);
    LE32Injective(Uint32(b[20..24]), |m.endpointUrl|);
    assert b[24..25 + |m.endpointUrl|] == m.endpointUrl + [x];
  }

  /** URL length wrap-around: a declared URL length of 2^32 - 1 makes the end
      of the URL read, `25+urlSize`, wrap to 24. A 25-byte body then decodes
      without an error to a Hello with an empty URL, where the corrected decoder
      reports truncation. */
  lemma HelloUrlSizeWraps(m0: HelloMessage, fields: seq<byte>, x: byte)
    requires |fields| == 20
    ensures var b := fields + LE32(U32_LIMIT - 1) + [x];
            UnmarshalHello(m0, b)
            == Returned((HelloMessage(Uint32(fields[0..4]), Uint32(fields[4..8]), Uint32(fields[8..12]),
                                      Uint32(fields[12..16]), Uint32(fields[16..20]), []), None))
    ensures BinaryMessage.UnmarshalHello(m0, fields + LE32(U32_LIMIT - 1) + [x]) == (m0, Some(Truncated))
  {
    var b := fields + LE32(U32_LIMIT - 1) + [x];
    assert b[20..24] == LE32(U32_LIMIT - 1);
    BinaryMessage.ReadField(b, 20, U32_LIMIT - 1);
    assert b[0..4] == fields[0..4] && b[4..8] == fields[4..8] && b[8..12] == fields[8..12];
    assert b[12..16] == fields[12..16] && b[16..20] == fields[16..20];
    assert Wrap32(25 + (U32_LIMIT - 1)) == 24;
  }

  /** Error `unmarshal` as written: five-byte reads and an unchecked reason read
      `b[8 : 8+reasonSize]`, whose end is a `uint32` sum and wraps around. */
  function UnmarshalError(m: ErrorMessage, b: seq<byte>): (r: Outcome<(ErrorMessage, Option<CodecError>)>)
    ensures |b| < 8 <==> r == Returned((m, Some(Truncated)))
    ensures |b| == 8 ==> r == Panicked
    ensures r.Returned? && |b| >= 8 ==> r.value.1 == None && 8 + |r.value.0.reason| <= |b|
  {
    if |b| < 8 then Returned((m, Some(Truncated)))
    else
      var code, reasonSize := ReadFive(b, 0), ReadFive(b, 4);
      if code.None? || reasonSize.None? then Panicked
      else if reasonSize.value > 0 then
        match Slice(b, 8, Wrap32(8 + reasonSize.value))
        case None => Panicked
        case Some(reason) => Returned((ErrorMessage(code.value, reason), None))
      else
        Returned((ErrorMessage(code.value, []), None))
  }

  /** Unchecked reason read: a body that announces a longer reason than the
      (non-empty) bytes it holds panics, where the corrected decoder reports
      truncation. */
  lemma ErrorReasonOverrun(m0: ErrorMessage, code: u32, declared: u32, held: seq<byte>)
    requires 0 < |held| < declared
    ensures UnmarshalError(m0, LE32(code) + LE32(declared) + held) == Panicked
    ensures BinaryMessage.UnmarshalError(m0, LE32(code) + LE32(declared) + held)
            == (m0, Some(Truncated))
  {
    var b := LE32(code) + LE32(declared) + held;
    assert b[4..8] == LE32(declared);
    BinaryMessage.ReadField(b, 4, declared);
  }

  /** Reason length wrap-around: when the reason is at least 2^32 - 8 bytes
      long, the end of the reason read, `8+reasonSize`, wraps below 8 and the
      slice bounds cross. Such an Error message never decodes, whatever follows
      its body, where the corrected decoder gives it back. */
  lemma ErrorLongReasonPanics(m0: ErrorMessage, m: ErrorMessage, rest: seq<byte>)
    requires |m.reason| >= U32_LIMIT - 8
    ensures UnmarshalError(m0, ErrorBody(m) + rest) == Panicked
    ensures BinaryMessage.UnmarshalError(m0, ErrorBody(m) + rest) == (m, None)
  {
    var b := ErrorBody(m) + rest;
    BinaryMessage.ErrorRoundTrip(m0, m, rest);
    BinaryMessage.FieldBytes(b, 4);
    LE32Injective(Uint32(b[4..8]), |m.reason|);
    assert Wrap32(8 + |m.reason|) == 8 + |m.reason| - U32_LIMIT;
  }

  /** `DecodeTCP` as written: `size := Uint32(bytes[4:8]) - 8` in uint32
      arithmetic, `fSize := int(size + 8)`, then `bytes[8:fSize]`. */
  function DecodeTCP(bytes: seq<byte>): (r: Outcome<Result<ProtocolTcp.TCPMessage, CodecError>>)
    ensures |bytes| < HEADER_LEN ==> r == Returned(Failure(Truncated))
    ensures r == Panicked <==> |bytes| >= HEADER_LEN && Uint32(bytes[4..8]) < HEADER_LEN
  {
    if |bytes| < HEADER_LEN then Returned(Failure(Truncated))
    else
      var size := Wrap32(Uint32(bytes[4..8]) + U32_LIMIT - HEADER_LEN);
      var fSize := Wrap32(size + HEADER_LEN);
      if |bytes| < fSize then Returned(Failure(Truncated))
      else
        match Slice(bytes, HEADER_LEN, fSize)
        case None => Panicked
        case Some(payload) =>
          Returned(Success(ProtocolTcp.TCPMessage(bytes[..3], CHUNK_FINAL, size, payload)))
  }

  /** Length underflow: a declared total below 8 passes the size guard and
      panics in the payload slice, where the corrected decoder reports an
      invalid length. */
  lemma DecodeTCPUnderflowPanics(bytes: seq<byte>)
    requires |bytes| >= HEADER_LEN && Uint32(bytes[4..8]) < HEADER_LEN
    ensures DecodeTCP(bytes) == Panicked
    ensures ProtocolTcp.DecodeTCP(bytes) == Failure(InvalidLength)
  {
    var declared := Uint32(bytes[4..8]);
    assert Wrap32(declared + U32_LIMIT - HEADER_LEN) == declared + U32_LIMIT - HEADER_LEN;
  }

  /** For every declared total of at least 8 the source and the corrected
      decoder agree. */
  lemma DecodeTCPAgreesWhenLengthValid(bytes: seq<byte>)
    requires |bytes| >= HEADER_LEN && Uint32(bytes[4..8]) >= HEADER_LEN
    ensures DecodeTCP(bytes) == Returned(ProtocolTcp.DecodeTCP(bytes))
  {
    var declared := Uint32(bytes[4..8]);
    assert Wrap32(declared + U32_LIMIT - HEADER_LEN) == declared - HEADER_LEN;
  }
  /** Turns an as-written `unmarshal` outcome into `ParseMessage`'s outcome. */
  function Parsed<T>(outcome: Outcome<(T, Option<CodecError>)>, wrap: T -> Message)
    : Outcome<Result<Message, CodecError>>
  {
    match outcome
    case Panicked => Panicked
    case Returned((m, err)) => Returned(if err == None then Success(wrap(m)) else Failure(err.value))
  }

  /** `ParseMessage` as written: the dispatch of the corrected `ParseMessage`
      over the decoders above. */
  function ParseMessage(b: seq<byte>): (r: Outcome<Result<Message, CodecError>>)
    ensures |b| < HEADER_LEN ==> r == Returned(Failure(Truncated))
    ensures |b| >= HEADER_LEN && b[..3] == ACK ==> (r == Panicked <==> |b| == HEADER_LEN + 20)
    ensures |b| >= HEADER_LEN && (b[..3] == HEL || b[..3] == ERR) && |b| < HEADER_LEN + 8
            ==> r == Returned(Failure(Truncated))
    ensures r == Panicked ==> |b| >= HEADER_LEN && (b[..3] == HEL || b[..3] == ACK || b[..3] == ERR)
  {
    if |b| < HEADER_LEN then Returned(Failure(Truncated))
    else
      var t, payload := b[..3], b[HEADER_LEN..];
      if t == HEL then Parsed(UnmarshalHello(ZERO_HELLO, payload), h => HelloMsg(h))
      else if t == ACK then Parsed(UnmarshalAck(ZERO_ACK, payload), a => AckMsg(a))
      else if t == RHE then Returned(Failure(Unsupported))
      else if t == ERR then Parsed(UnmarshalError(ZERO_ERROR, payload), e => ErrorMsg(e))
      else Returned(Failure(Unrecognized(t)))
  }

  /** The frame round trip fails for Hello: some valid Hello, framed as
      `MarshalMessage` frames it, makes `ParseMessage` panic when the frame
      sits in a slice without spare capacity. The slice that `MarshalMessage`
      returns comes from `bytes.Buffer.Bytes()` and usually has spare capacity;
      the panic is for a frame that arrives in an exact-size slice. */
  lemma HelloFrameDoesNotParse()
    ensures exists m: HelloMessage ::
              CheckHello(m) == None && ParseMessage(Frame(HEL, HelloBody(m))) == Panicked
  {
    var m := HelloMessage(0, 8192, 8192, 50, 3, [111, 112, 99]);
    var f := Frame(HEL, HelloBody(m));
    FrameParts(HEL, HelloBody(m));
    HelloExactBodyPanics(ZERO_HELLO, m);
    assert ParseMessage(f) == Panicked;
  }

  /** The frame round trip fails for Acknowledge too, again for a frame in a
      slice without spare capacity. With spare capacity the read of `b[16:21]`
      takes its fifth byte from beyond the length and the Acknowledge decodes. */
  lemma AckFrameDoesNotParse()
    ensures exists m: AckMessage ::
              Validate(AckMsg(m)) == None && ParseMessage(Frame(ACK, AckBody(m))) == Panicked
  {
    var m := AckMessage(0, 8192, 8192, 50, 3);
    var f := Frame(ACK, AckBody(m));
    FrameParts(ACK, AckBody(m));
    AckExactBodyPanics(ZERO_ACK, m);
    assert ParseMessage(f) == Panicked;
  }

  /** The frame round trip fails for an Error message with an empty reason, in
      a slice without spare capacity: the read `b[4:9]` of the reason length
      needs a ninth body byte. */
  lemma ErrorFrameDoesNotParse()
    ensures exists m: ErrorMessage :: m.reason == [] && ParseMessage(Frame(ERR, ErrorBody(m))) == Panicked
  {
    var f := Frame(ERR, ErrorBody(ZERO_ERROR));
    FrameParts(ERR, ErrorBody(ZERO_ERROR));
    assert ParseMessage(f) == Panicked;
  }
}
