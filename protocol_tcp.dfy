/** The `protocol` package's frame codec: `EncodeTCP` wraps a message body,
    marshalled into a separate fresh encoder, in the 8-byte header; `DecodeTCP`
    splits a frame into its header fields and payload without decoding it. */
module ProtocolTcp {

  import opened LittleEndian
  import opened Errors
  import opened Wire
  import opened Encoding
  import opened ProtocolMessage

  /** A received frame, split. */
  datatype TCPMessage = TCPMessage(
    msgType: seq<byte>,
    chunkType: byte,
    payloadSize: u32,
    payload: seq<byte>)

  /** `EncodeTCP`: tag, 'F', length, body, each step only if the previous one
      succeeded; on a validation failure the tag and 'F' come back with the error. */
  method EncodeTCP(msg: Message) returns (r: seq<byte>, err: Option<CodecError>)
    ensures err == MarshalFailure(msg)
    ensures err == None ==> r == Frame(Type(msg), Body(msg))
    ensures err != None ==> r == Type(msg) + [CHUNK_FINAL]
  {
    var tag, payload: seq<byte> := Type(msg), [];
    var enc := new BinaryEncoder();
    var written;
    written, err := enc.Write(tag);
    if err == None {
      err := enc.WriteByte(CHUNK_FINAL);
    }
    ghost var prefix := enc.buf;
    assert prefix == tag + [CHUNK_FINAL];
    if err == None {
      var bodyEnc := new BinaryEncoder();
      payload, err := Marshal(msg, bodyEnc);
      assert err == None ==> payload == Body(msg);
    }
    assert enc.buf == prefix;
    if err == None {
      err := enc.WriteUint32(Wrap32(HEADER_LEN + |payload|));
    }
    if err == None {
      written, err := enc.Write(payload);
    }
    r := enc.Bytes();
    assert err == None ==> r == Header(tag, |payload|) + payload;
  }

  /** `DecodeTCP`. The chunk type is reported as 'F' whatever byte 3 holds, and
      bytes past the declared total length are ignored. */
  function DecodeTCP(bytes: seq<byte>): (r: Result<TCPMessage, CodecError>)
    ensures |bytes| < HEADER_LEN ==> r == Failure(Truncated)
    ensures |bytes| >= HEADER_LEN ==>
              (r == Failure(InvalidLength) <==> Uint32(bytes[4..8]) < HEADER_LEN)
    ensures |bytes| >= HEADER_LEN ==>
              (r.Success? <==> HEADER_LEN <= Uint32(bytes[4..8]) <= |bytes|)
    ensures r.Success? ==>
              && |bytes| >= HEADER_LEN
              && r.value.msgType == bytes[..3]
              && r.value.chunkType == CHUNK_FINAL
              && r.value.payloadSize == |r.value.payload|
              && Uint32(bytes[4..8]) == HEADER_LEN + r.value.payloadSize
              && bytes[HEADER_LEN..HEADER_LEN + r.value.payloadSize] == r.value.payload
  {
    if |bytes| < HEADER_LEN then Failure(Truncated)
    else
      var total := Uint32(bytes[4..8]);
      // Deviation: the source computes `Uint32(bytes[4:8]) - 8` in uint32
      // arithmetic without a check, so a declared total below 8 wraps around
      // and the payload slice bytes[8:total] then panics; here it is an error.
      if total < HEADER_LEN then Failure(InvalidLength)
      else if |bytes| < total then Failure(Truncated)
      else
        assert bytes[4..8][..4] == bytes[4..8];
        Success(TCPMessage(bytes[..3], CHUNK_FINAL, total - HEADER_LEN, bytes[HEADER_LEN..total]))
  }

  /** Decoding a frame gives back its tag and payload, whatever follows it,
      whenever its total length fits the 32-bit length field. */
  lemma DecodeFrameRoundTrip(tag: seq<byte>, payload: seq<byte>, rest: seq<byte>)
    requires |tag| == 3 && HEADER_LEN + |payload| < U32_LIMIT
    ensures DecodeTCP(Frame(tag, payload) + rest)
            == Success(TCPMessage(tag, CHUNK_FINAL, |payload|, payload))
  {
    var f := Frame(tag, payload);
    FrameLengthField(tag, payload);
    assert (f + rest)[4..8] == f[4..8];
    assert (f + rest)[..3] == tag;
    assert (f + rest)[HEADER_LEN..|f|] == payload;
  }

  /** For a valid message, `DecodeTCP` of what `EncodeTCP` produced has the
      message's tag and, as payload, exactly the marshalled body. */
  method EncodeThenDecode(msg: Message) returns (decoded: Result<TCPMessage, CodecError>)
    requires Validate(msg) == None
    requires HEADER_LEN + |Body(msg)| < U32_LIMIT
    ensures decoded == Success(TCPMessage(Type(msg), CHUNK_FINAL, |Body(msg)|, Body(msg)))
  {
    var frame, err := EncodeTCP(msg);
    decoded := DecodeTCP(frame);
    DecodeFrameRoundTrip(Type(msg), Body(msg), []);
    assert frame + [] == frame;
  }
}
