/** The `binary` package's append-only byte builder. Go's `bytes.Buffer`
    underneath is modelled as a sequence that every write extends; its write
    errors are always nil (growth failures panic in Go, and are not modelled). */
module BinaryBuffer {

  import opened LittleEndian
  import opened Errors

  class Buffer {
    /** The bytes written so far, oldest first. */
    var buf: seq<byte>

    /** The zero value of `Buffer` is empty and ready to use. */
    constructor ()
      ensures buf == []
    {
      buf := [];
    }

    /** `WriteByte`: appends exactly one byte. */
    method WriteByte(c: byte) returns (err: Option<CodecError>)
      modifies this
      ensures buf == old(buf) + [c]
      ensures err == None
    {
      buf := buf + [c];
      err := None;
    }

    /** `WriteUint32`: four `WriteByte` calls, low byte first, each made only
        if the previous one succeeded. */
    method WriteUint32(n: u32) returns (err: Option<CodecError>)
      modifies this
      ensures buf == old(buf) + LE32(n)
      ensures err == None
    {
      err := WriteByte(n % 0x100);
      if err == None {
        err := WriteByte((n / 0x100) % 0x100);
      }
      if err == None {
        err := WriteByte((n / 0x1_0000) % 0x100);
      }
      if err == None {
        err := WriteByte(n / 0x100_0000);
      }
    }

    /** `WriteString`: the length as a u32, then the bytes of `s`. */
    method WriteString(s: seq<byte>) returns (err: Option<CodecError>)
      requires |s| < U32_LIMIT
      modifies this
      ensures buf == old(buf) + LengthPrefixed(s)
      ensures err == None
    {
      err := WriteUint32(|s|);
      if err == None {
        var written;
        written, err := Write(s);
      }
    }

    /** `Write`: appends `bb` and reports its length. */
    method Write(bb: seq<byte>) returns (n: nat, err: Option<CodecError>)
      modifies this
      ensures buf == old(buf) + bb
      ensures n == |bb| && err == None
    {
      buf := buf + bb;
      n, err := |bb|, None;
    }

    /** `Bytes`: the contents so far; the buffer is not changed. */
    method Bytes() returns (r: seq<byte>)
      ensures r == buf
    {
      r := buf;
    }
  }
}
