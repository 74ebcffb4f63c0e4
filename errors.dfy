/** Error values of the codec. Go's `error` results become values of `CodecError`;
    the message texts are not modelled, only the kind of failure. */
module Errors {

  import opened LittleEndian

  datatype Option<+T> = None | Some(value: T)

  datatype Result<+T, +E> = Success(value: T) | Failure(error: E)

  /** Which encode-time field constraint a message violates. */
  datatype Violation =
    | ReceiveBufferTooSmall
    | SendBufferTooSmall
    | EndpointUrlTooLong

  datatype CodecError =
    /** A field constraint checked before encoding (buffer sizes, URL length). */
    | Validation(violation: Violation)
    /** Input shorter than a parse step needs (`io.ErrUnexpectedEOF`, short frames). */
    | Truncated
    /** The Reverse Hello tag: known, but not implemented. */
    | Unsupported
    /** A frame tag that is none of the four known ones; carries the tag. */
    | Unrecognized(tag: seq<byte>)
    /** A frame whose declared total length is below the 8-byte header size. */
    | InvalidLength
}
