/** In-place writers of the `binary` package. Go passes sub-slices such as
    `buf[4:8]` or `buf[20:]`; here a slice is the array it views plus the offset
    of its first element, so a write through it is a write into the array. */
module BinaryEncoding {

  import opened LittleEndian

  /** `PutUint32`: the four bytes at `off` become `LE32(i)`; nothing else changes. */
  method PutUint32(b: array<byte>, off: nat, i: u32)
    requires off + 4 <= b.Length
    modifies b
    ensures b[..] == old(b[..off]) + LE32(i) + old(b[off + 4..])
    ensures Uint32(b[off..]) == i
  {
    b[off] := i % 0x100;
    b[off + 1] := (i / 0x100) % 0x100;
    b[off + 2] := (i / 0x1_0000) % 0x100;
    b[off + 3] := i / 0x100_0000;
    assert b[off..] == LE32(i) + old(b[off + 4..]);
    Uint32OfLE32(i, old(b[off + 4..]));
  }

  /** `after` is `before` with the bytes from `at` on replaced by `s`. */
  lemma Spliced(after: seq<byte>, before: seq<byte>, at: nat, s: seq<byte>)
    requires |after| == |before| && at + |s| <= |before|
    requires forall j :: 0 <= j < |s| ==> after[at + j] == s[j]
    requires forall j :: 0 <= j < |after| && !(at <= j < at + |s|) ==> after[j] == before[j]
    ensures after == before[..at] + s + before[at + |s|..]
  {
    var want := before[..at] + s + before[at + |s|..];
    assert forall j :: 0 <= j < |after| ==> after[j] == want[j];
  }

  /** `PutString`: the length prefix at `off`, then the bytes of `s`, one at a
      time; bytes past `off + 4 + |s|` keep their values. */
  method PutString(b: array<byte>, off: nat, s: seq<byte>)
    requires |s| < U32_LIMIT
    requires off + 4 + |s| <= b.Length
    modifies b
    ensures b[..] == old(b[..off]) + LengthPrefixed(s) + old(b[off + 4 + |s|..])
  {
    PutUint32(b, off, |s|);
    ghost var encoded := LengthPrefixed(s);
    assert forall j :: 0 <= j < 4 ==> b[off + j] == encoded[j];
    var i := 0;
    while i < |s|
      invariant 0 <= i <= |s|
      invariant forall j :: 0 <= j < 4 + i ==> b[off + j] == encoded[j]
      invariant forall j :: 0 <= j < b.Length && !(off <= j < off + 4 + i) ==> b[j] == old(b[j])
    {
      b[off + 4 + i] := s[i];
      i := i + 1;
    }
    Spliced(b[..], old(b[..]), off, encoded);
  }
}
