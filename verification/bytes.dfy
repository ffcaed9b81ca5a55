/** Bytes and the little-endian unsigned 32-bit encoding used by the transfer header. */
module Bytes {

  /** An unsigned 8-bit value, as held by a numpy uint8 array or a Python bytes object. */
  newtype byte = b: int | 0 <= b < 0x100

  const U32Limit: int := 0x1_0000_0000

  /** True when `v` is representable as an unsigned 32-bit integer. */
  predicate IsU32(v: int) {
    0 <= v < U32Limit
  }

  /** The four bytes of `v` in little-endian order (least significant byte first),
      as the `I` code of `struct.pack` with the `<` prefix writes them. */
  function EncodeU32(v: int): (b: seq<byte>)
    requires IsU32(v)
    ensures |b| == 4
  {
    [(v % 0x100) as byte,
     (v / 0x100 % 0x100) as byte,
     (v / 0x100 / 0x100 % 0x100) as byte,
     (v / 0x100 / 0x100 / 0x100) as byte]
  }

  /** Reference decoder: the unsigned integer whose little-endian bytes are `b`. */
  function DecodeU32(b: seq<byte>): (v: int)
    requires |b| == 4
    ensures IsU32(v)
  {
    b[0] as int + 0x100 * (b[1] as int + 0x100 * (b[2] as int + 0x100 * (b[3] as int)))
  }

  /** Decoding the encoding of any 32-bit value gives the value back. */
  lemma DecodeEncodeU32(v: int)
    requires IsU32(v)
    ensures DecodeU32(EncodeU32(v)) == v
  {
    var q1 := v / 0x100;
    var q2 := q1 / 0x100;
    assert v == v % 0x100 + 0x100 * q1;
    assert q1 == q1 % 0x100 + 0x100 * q2;
    assert q2 == q2 % 0x100 + 0x100 * (q2 / 0x100);
  }

  /** Every four bytes are the encoding of exactly one 32-bit value. */
  lemma EncodeDecodeU32(b: seq<byte>)
    requires |b| == 4
    ensures EncodeU32(DecodeU32(b)) == b
  {
    var q2 := b[2] as int + 0x100 * (b[3] as int);
    var q1 := b[1] as int + 0x100 * q2;
    DivModByte(b[0] as int, q1);
    DivModByte(b[1] as int, q2);
    DivModByte(b[2] as int, b[3] as int);
  }

  /** Splitting `r + 256 * q` into a low byte and the rest recovers `r` and `q`. */
  lemma DivModByte(r: int, q: int)
    requires 0 <= r < 0x100 && 0 <= q
    ensures (r + 0x100 * q) % 0x100 == r && (r + 0x100 * q) / 0x100 == q
  {
  }
}
