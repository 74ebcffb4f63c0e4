/** The `protocol` package's message codec: each `marshal` validates, then
    appends its fields to the caller's encoder, each write only if the previous
    one succeeded, and returns everything the encoder holds. */
module ProtocolMessage {

  import opened LittleEndian
  import opened Errors
  import opened Wire
  import opened Encoding

  method MarshalHello(m: HelloMessage, enc: BinaryEncoder) returns (b: seq<byte>, err: Option<CodecError>)
    modifies enc
    ensures err == MarshalFailure(HelloMsg(m))
    ensures err != None ==> b == [] && enc.buf == old(enc.buf)
    ensures err == None ==> enc.buf == old(enc.buf) + HelloBody(m) && b == enc.buf
  {
    if m.receiveBufferSize < MIN_BUFFER_SIZE {
      return [], Some(Validation(ReceiveBufferTooSmall));
    }
    if m.sendBufferSize < MIN_BUFFER_SIZE {
      return [], Some(Validation(SendBufferTooSmall));
    }
    if |m.endpointUrl| > MAX_ENDPOINT_URL {
      return [], Some(Validation(EndpointUrlTooLong));
    }
    err := enc.WriteUint32(m.protocolVersion);
    if err == None {
      err := enc.WriteUint32(m.receiveBufferSize);
    }
    if err == None {
      err := enc.WriteUint32(m.sendBufferSize);
    }
    if err == None {
      err := enc.WriteUint32(m.maxMessageSize);
    }
    if err == None {
      err := enc.WriteUint32(m.maxChunkCount);
    }
    if err == None {
      err := enc.WriteString(m.endpointUrl);
    }
    b := enc.Bytes();
  }

  method MarshalAck(m: AckMessage, enc: BinaryEncoder) returns (b: seq<byte>, err: Option<CodecError>)
    modifies enc
    ensures err == MarshalFailure(AckMsg(m))
    ensures err != None ==> b == [] && enc.buf == old(enc.buf)
    ensures err == None ==> enc.buf == old(enc.buf) + AckBody(m) && b == enc.buf
  {
    if m.receiveBufferSize < MIN_BUFFER_SIZE {
      return [], Some(Validation(ReceiveBufferTooSmall));
    }
    if m.sendBufferSize < MIN_BUFFER_SIZE {
      return [], Some(Validation(SendBufferTooSmall));
    }
    err := enc.WriteUint32(m.protocolVersion);
    if err == None {
      err := enc.WriteUint32(m.receiveBufferSize);
    }
    if err == None {
      err := enc.WriteUint32(m.sendBufferSize);
    }
    if err == None {
      err := enc.WriteUint32(m.maxMessageSize);
    }
    if err == None {
      err := enc.WriteUint32(m.maxChunkCount);
    }
    b := enc.Bytes();
  }

  /** An Error message has no field constraints. */
  method MarshalError(m: ErrorMessage, enc: BinaryEncoder) returns (b: seq<byte>, err: Option<CodecError>)
    modifies enc
    ensures err == None
    ensures enc.buf == old(enc.buf) + ErrorBody(m) && b == enc.buf
  {
    err := enc.WriteUint32(m.error);
    if err == None {
      err := enc.WriteString(m.reason);
    }
    b := enc.Bytes();
  }

  /** `msg.marshal(enc)` through the message interface. */
  method Marshal(m: Message, enc: BinaryEncoder) returns (b: seq<byte>, err: Option<CodecError>)
    modifies enc
    ensures err == MarshalFailure(m)
    ensures err != None ==> b == [] && enc.buf == old(enc.buf)
    ensures err == None ==> enc.buf == old(enc.buf) + Body(m) && b == enc.buf
  {
    match m
    case HelloMsg(h) => b, err := MarshalHello(h, enc);
    case AckMsg(a) => b, err := MarshalAck(a, enc);
    case ErrorMsg(e) => b, err := MarshalError(e, enc);
  }
}
