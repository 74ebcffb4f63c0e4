/** The repository's two codec stacks write the same wire format: for equal
    field values they produce the same bytes and the same errors. */
module StacksAgree {

  import opened LittleEndian
  import opened Errors
  import opened Wire
  import Encoding
  import BinaryMessage
  import BinaryTcp
  import ProtocolMessage
  import ProtocolTcp

  /** The `binary` package's `marshal()` and the `protocol` package's
      `marshal(enc)` on a fresh encoder agree. */
  method BodiesAgree(msg: Message)
    returns (direct: seq<byte>, directErr: Option<CodecError>,
             viaEncoder: seq<byte>, viaEncoderErr: Option<CodecError>)
    ensures direct == viaEncoder && directErr == viaEncoderErr
  {
    direct, directErr := BinaryMessage.Marshal(msg);
    var enc := new Encoding.BinaryEncoder();
    viaEncoder, viaEncoderErr := ProtocolMessage.Marshal(msg, enc);
  }

  /** `MarshalMessage` and `EncodeTCP` agree, on success and on failure. */
  method FramesAgree(msg: Message)
    returns (marshalled: seq<byte>, marshalledErr: Option<CodecError>,
             encoded: seq<byte>, encodedErr: Option<CodecError>)
    ensures marshalled == encoded && marshalledErr == encodedErr
  {
    marshalled, marshalledErr := BinaryTcp.MarshalMessage(msg);
    encoded, encodedErr := ProtocolTcp.EncodeTCP(msg);
  }
}
