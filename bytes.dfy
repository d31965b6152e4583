/** Success-or-error results, for the operations that raise in the original program. */
module Wrappers {
  datatype Result<+T, +E> = Ok(value: T) | Err(error: E)
}

/**
 * Bytes and the little-endian packing of the record format:
 * unsigned 16-bit fields ("<H") and the unsigned 32-bit checksum trailer ("<I").
 */
module LittleEndian {
  type byte = bv8

  const Base: nat := 0x100
  const U16Limit: nat := 0x1_0000

  /** The byte whose value is `v`: the conversion each field byte of a packed record
      goes through. It is built bit by bit from the most significant end rather than
      with `v as byte`, because the solver reasons about the direct conversion from an
      unbounded integer to a bit-vector only at a high cost. */
  function ToByte(v: nat): (r: byte)
    requires v < 256
    ensures r as nat == v
  {
    if v == 0 then 0
    else
      var half, bit: byte := ToByte(v / 2), if v % 2 == 1 then 1 else 0;
      AppendBit(half, bit);
      (half << 1) | bit
  }

  lemma AppendBit(half: byte, bit: byte)
    requires half as nat < 128 && bit as nat < 2
    ensures ((half << 1) | bit) as nat == 2 * half as nat + bit as nat
  {
  }

  /** The two bytes of a 16-bit field, low byte first. */
  function U16Bytes(x: nat): (r: seq<byte>)
    requires x < U16Limit
    ensures |r| == 2
    ensures r[0] as nat + Base * r[1] as nat == x
  {
    [ToByte(x % Base), ToByte(x / Base)]
  }

  /** The value of a 16-bit field stored low byte first. */
  function U16Value(lo: byte, hi: byte): (x: nat)
    ensures x < U16Limit
    ensures x % Base == lo as nat && x / Base == hi as nat
  {
    lo as nat + Base * hi as nat
  }

  /** Packing a 16-bit value and unpacking it gives the value back. */
  lemma U16RoundTrip(x: nat)
    requires x < U16Limit
    ensures U16Value(U16Bytes(x)[0], U16Bytes(x)[1]) == x
  {
  }

  /** Unpacking two bytes and packing the value gives the bytes back. */
  lemma U16Unpack(lo: byte, hi: byte)
    ensures U16Bytes(U16Value(lo, hi)) == [lo, hi]
  {
    var x := U16Value(lo, hi);
    var r := U16Bytes(x);
    assert r[0] as nat == x % Base == lo as nat;
    assert r[1] as nat == x / Base == hi as nat;
    ByteValueInjective(r[0], lo);
    ByteValueInjective(r[1], hi);
  }

  lemma ByteValueInjective(a: byte, b: byte)
    requires a as nat == b as nat
    ensures a == b
  {
  }

  /** The four bytes of a 32-bit word, least significant byte first. */
  function U32Bytes(w: bv32): (r: seq<byte>)
    ensures |r| == 4
  {
    [(w & 0xFF) as byte, ((w >> 8) & 0xFF) as byte,
     ((w >> 16) & 0xFF) as byte, ((w >> 24) & 0xFF) as byte]
  }

  /** The 32-bit word stored least significant byte first in `s`: packing it gives
      `s` back, so packing is onto and unpacking is one-to-one. */
  function U32Value(s: seq<byte>): (w: bv32)
    requires |s| == 4
    ensures U32Bytes(w) == s
  {
    (s[0] as bv32) | (s[1] as bv32 << 8) | (s[2] as bv32 << 16) | (s[3] as bv32 << 24)
  }

  /** Packing a word and unpacking it gives the word back. */
  lemma U32RoundTrip(w: bv32)
    ensures U32Value(U32Bytes(w)) == w
  {
  }
}
