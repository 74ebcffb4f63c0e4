/** The concrete byte vectors of the repository's tests, and the boundary
    values of the encode-time checks, stated about the layouts. */
module Vectors {

  import opened LittleEndian
  import opened Errors
  import opened Wire

  /** "opc.tcp://localhost" and "Some Reasons" as bytes. */
  const LOCALHOST_URL: Str := [111, 112, 99, 46, 116, 99, 112, 58, 47, 47, 108, 111, 99, 97, 108, 104, 111, 115, 116]
  const SOME_REASONS: Str := [83, 111, 109, 101, 32, 82, 101, 97, 115, 111, 110, 115]

  lemma PrimitiveVectors()
    ensures LE32(0) == [0, 0, 0, 0]
    ensures LE32(55) == [55, 0, 0, 0]
    ensures LengthPrefixed([]) == [0, 0, 0, 0]
    ensures LengthPrefixed([104, 101, 108, 108, 111]) == [5, 0, 0, 0, 104, 101, 108, 108, 111]
  {
  }

  lemma DefaultHelloRejected()
    ensures CheckHello(ZERO_HELLO) == Some(ReceiveBufferTooSmall)
  {
  }

  lemma SimpleHelloVector()
    ensures CheckHello(HelloMessage(0, 8192, 8192, 0, 0, [])) == None
    ensures HelloBody(HelloMessage(0, 8192, 8192, 0, 0, []))
            == [0, 0, 0, 0, 0, 32, 0, 0, 0, 32, 0, 0, 0, 0, 0, 0, 0, 0, 0, 0, 0, 0, 0, 0]
  {
  }

  lemma FullHelloVector()
    ensures CheckHello(HelloMessage(0, 8192, 8192, 50, 3, LOCALHOST_URL)) == None
    ensures HelloBody(HelloMessage(0, 8192, 8192, 50, 3, LOCALHOST_URL))
            == [0, 0, 0, 0, 0, 32, 0, 0, 0, 32, 0, 0, 50, 0, 0, 0, 3, 0, 0, 0, 19, 0, 0, 0] + LOCALHOST_URL
  {
  }

  lemma AckVectors()
    ensures Validate(AckMsg(ZERO_ACK)) == Some(ReceiveBufferTooSmall)
    ensures Validate(AckMsg(AckMessage(0, 8192, 8192, 0, 0))) == None
    ensures AckBody(AckMessage(0, 8192, 8192, 0, 0))
            == [0, 0, 0, 0, 0, 32, 0, 0, 0, 32, 0, 0, 0, 0, 0, 0, 0, 0, 0, 0]
    ensures AckBody(AckMessage(0, 8192, 8192, 50, 3))
            == [0, 0, 0, 0, 0, 32, 0, 0, 0, 32, 0, 0, 50, 0, 0, 0, 3, 0, 0, 0]
  {
  }

  lemma ErrorVectors()
    ensures ErrorBody(ZERO_ERROR) == [0, 0, 0, 0, 0, 0, 0, 0]
    ensures ErrorBody(ErrorMessage(50, [])) == [50, 0, 0, 0, 0, 0, 0, 0]
    ensures ErrorBody(ErrorMessage(99, SOME_REASONS)) == [99, 0, 0, 0, 12, 0, 0, 0] + SOME_REASONS
  {
  }

  /** 8191 is rejected and 8192 accepted, for either buffer; a URL of 4096
      bytes is accepted and one of 4097 rejected. */
  lemma ValidationBoundaries(m: HelloMessage)
    ensures m.receiveBufferSize == 8191 ==> CheckHello(m) == Some(ReceiveBufferTooSmall)
    ensures m.receiveBufferSize == 8192 && m.sendBufferSize == 8191
            ==> CheckHello(m) == Some(SendBufferTooSmall)
    ensures m.receiveBufferSize == 8192 && m.sendBufferSize == 8192 && |m.endpointUrl| == 4096
            ==> CheckHello(m) == None
    ensures m.receiveBufferSize == 8192 && m.sendBufferSize == 8192 && |m.endpointUrl| == 4097
            ==> CheckHello(m) == Some(EndpointUrlTooLong)
  {
  }
}
