/** Unsigned 32-bit integers stored as four little-endian bytes. */
module LittleEndian {

  type uint8 = x: int | 0 <= x < 256

  /** One more than UINT32_MAX. */
  const U32_BOUND: nat := 0x1_0000_0000

  /** The four bytes of x, least significant first (numpy dtype '<u4'). */
  function U32Bytes(x: nat): (b: seq<uint8>)
    requires x < U32_BOUND
    ensures |b| == 4
  {
    [x % 256, (x / 256) % 256, (x / 0x1_0000) % 256, x / 0x100_0000]
  }

  /** The little-endian value of the four bytes of b starting at off. */
  function U32At(b: seq<uint8>, off: nat): (x: nat)
    requires off + 4 <= |b|
    ensures x < U32_BOUND
  {
    var b0, b1, b2, b3: int := b[off], b[off + 1], b[off + 2], b[off + 3];
    b0 + 0x100 * b1 + 0x1_0000 * b2 + 0x100_0000 * b3
  }

  /** Reading back the four bytes written for x gives x, whatever follows them. */
  lemma U32RoundTrip(x: nat, rest: seq<uint8>)
    requires x < U32_BOUND
    ensures U32At(U32Bytes(x) + rest, 0) == x
  {
  }

  /** Every four bytes are the encoding of the value they are read as. */
  lemma U32BytesOfRead(b: seq<uint8>)
    requires 4 <= |b|
    ensures U32Bytes(U32At(b, 0)) == b[..4]
  {
    var b0, b1, b2, b3: int := b[0], b[1], b[2], b[3];
    var x := U32At(b, 0);
    var hi := b1 + 0x100 * b2 + 0x1_0000 * b3;
    assert x == b0 + 0x100 * hi;
    assert x % 256 == b0 && x / 256 == hi;
    var hi2 := b2 + 0x100 * b3;
    assert hi == b1 + 0x100 * hi2;
    assert x / 0x1_0000 == hi / 256 == hi2;
    assert (x / 256) % 256 == b1;
    assert x / 0x100_0000 == hi2 / 256 == b3;
    assert (x / 0x1_0000) % 256 == b2;
  }
}
