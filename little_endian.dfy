/** Bytes, unsigned 32-bit integers and their little-endian wire form, as Go's
    `encoding/binary.LittleEndian` gives them, plus the length-prefixed string
    layout both codec stacks write. */
module LittleEndian {

  type byte = x: int | 0 <= x < 256

  const U32_LIMIT: int := 0x1_0000_0000

  type u32 = x: int | 0 <= x < U32_LIMIT

  /** A Go string whose length fits the 32-bit length prefix; `uint32(len(s))`
      truncation of longer strings is not modelled. */
  type Str = s: seq<byte> | |s| < U32_LIMIT witness []

  /** Go's `uint32(x)` conversion of a non-negative int: reduction modulo 2^32. */
  function Wrap32(x: nat): (r: u32)
    ensures x < U32_LIMIT ==> r == x
  {
    x % U32_LIMIT
  }

  /** The four bytes `byte(n)`, `byte(n >> 8)`, `byte(n >> 16)`, `byte(n >> 24)`. */
  function LE32(n: u32): (r: seq<byte>)
    ensures |r| == 4
  {
    [n % 0x100, (n / 0x100) % 0x100, (n / 0x1_0000) % 0x100, n / 0x100_0000]
  }

  /** `binary.LittleEndian.Uint32`: only the first four bytes are read, and they
      are exactly the little-endian form of the result. */
  function Uint32(b: seq<byte>): (r: u32)
    requires |b| >= 4
    ensures LE32(r) == b[..4]
  {
    var b0: int, b1: int, b2: int, b3: int := b[0], b[1], b[2], b[3];
    var r := b0 + 0x100 * b1 + 0x1_0000 * b2 + 0x100_0000 * b3;
    assert r % 0x100 == b0 && r / 0x100 == b1 + 0x100 * b2 + 0x1_0000 * b3;
    assert r / 0x1_0000 == b2 + 0x100 * b3;
    assert r / 0x100_0000 == b3;
    r
  }

  /** Decoding the encoding of `n`, with anything after it, gives `n` back. */
  lemma Uint32OfLE32(n: u32, rest: seq<byte>)
    ensures Uint32(LE32(n) + rest) == n
  {
    var e := LE32(n) + rest;
    var q1, q2 := n / 0x100, n / 0x1_0000;
    assert n == n % 0x100 + 0x100 * q1;
    assert q1 == q1 % 0x100 + 0x100 * q2 by { assert q2 == q1 / 0x100; }
    assert q2 == q2 % 0x100 + 0x100 * (n / 0x100_0000) by { assert n / 0x100_0000 == q2 / 0x100; }
    assert e[0] == n % 0x100 && e[1] == q1 % 0x100 && e[2] == q2 % 0x100 && e[3] == n / 0x100_0000;
  }

  /** LE32 is one-to-one, so a 4-byte field determines its value. */
  lemma LE32Injective(m: u32, n: u32)
    requires LE32(m) == LE32(n)
    ensures m == n
  {
    Uint32OfLE32(m, []);
    Uint32OfLE32(n, []);
    assert LE32(m) + [] == LE32(n) + [];
  }

  /** The string layout: `LE32(len(s))` followed by the raw bytes of `s`. */
  function LengthPrefixed(s: Str): (r: seq<byte>)
    ensures |r| == 4 + |s|
    ensures r[4..] == s
  {
    LE32(|s|) + s
  }

  /** The length prefix of a length-prefixed string reads back as its length. */
  lemma LengthPrefixedPrefix(s: Str, rest: seq<byte>)
    ensures Uint32(LengthPrefixed(s) + rest) == |s|
    ensures (LengthPrefixed(s) + rest)[4..4 + |s|] == s
  {
    assert LengthPrefixed(s) + rest == LE32(|s|) + (s + rest);
    Uint32OfLE32(|s|, s + rest);
  }
}
