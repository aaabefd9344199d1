/**
  include/kernel/endian.h: byte swaps in their portable form and the conversion of big-endian
  values to host order, together with what a host of either endianness loads from memory.
  Masks and shifts by whole bytes are written as remainders and quotients.
 */
module Endian {

  type Byte = x: int | 0 <= x < 256

  const P8: nat := 0x100
  const P16: nat := 0x1_0000
  const P32: nat := 0x1_0000_0000
  const P64: nat := 0x1_0000_0000_0000_0000

  function Bswap16(x: nat): (y: nat)
    requires x < P16
    ensures y < P16
  {
    (x % P8) * P8 + (x / P8) % P8
  }

  function Bswap32(x: nat): (y: nat)
    requires x < P32
    ensures y < P32
  {
    Bswap16(x % P16) * P16 + Bswap16(x / P16)
  }

  function Bswap64(x: nat): (y: nat)
    requires x < P64
    ensures y < P64
  {
    Bswap32(x % P32) * P32 + Bswap32(x / P32)
  }

  function Be32ToHost(little: bool, x: nat): nat
    requires x < P32
  {
    if little then Bswap32(x) else x
  }

  function Be64ToHost(little: bool, x: nat): nat
    requires x < P64
  {
    if little then Bswap64(x) else x
  }

  /** Four bytes, most significant first. */
  function Big32(a: Byte, b: Byte, c: Byte, d: Byte): (x: nat)
    ensures x < P32
  {
    ((a * P8 + b) * P8 + c) * P8 + d
  }

  /** What a 32-bit load yields for four bytes in memory order. */
  function Load32(little: bool, a: Byte, b: Byte, c: Byte, d: Byte): (x: nat)
    ensures x < P32
  {
    if little then Big32(d, c, b, a) else Big32(a, b, c, d)
  }

  /** What a 64-bit load yields for two groups of four bytes in memory order. */
  function Load64(little: bool, first: nat, second: nat): (x: nat)
    requires first < P32 && second < P32
    ensures x < P64
  {
    if little then second * P32 + first else first * P32 + second
  }

  lemma Bswap16OfPair(a: Byte, b: Byte)
    ensures Bswap16(a * P8 + b) == b * P8 + a
  {
  }

  /** Swapping a word swaps its halves and the bytes of each. */
  lemma Bswap32OfPair(hi: nat, lo: nat)
    requires hi < P16 && lo < P16
    ensures Bswap32(hi * P16 + lo) == Bswap16(lo) * P16 + Bswap16(hi)
  {
    assert (hi * P16 + lo) % P16 == lo && (hi * P16 + lo) / P16 == hi;
  }

  /** On either host, converting a loaded word gives the big-endian value of its bytes. */
  lemma Be32OfLoad(little: bool, a: Byte, b: Byte, c: Byte, d: Byte)
    ensures Be32ToHost(little, Load32(little, a, b, c, d)) == Big32(a, b, c, d)
  {
    var hi, lo := d * P8 + c, b * P8 + a;
    assert Load32(true, a, b, c, d) == hi * P16 + lo;
    Bswap32OfPair(hi, lo);
    Bswap16OfPair(b, a);
    Bswap16OfPair(d, c);
  }

  /** Swapping a doubleword swaps its words and the bytes of each. */
  lemma Bswap64OfPair(hi: nat, lo: nat)
    requires hi < P32 && lo < P32
    ensures Bswap64(hi * P32 + lo) == Bswap32(lo) * P32 + Bswap32(hi)
  {
    assert (hi * P32 + lo) % P32 == lo && (hi * P32 + lo) / P32 == hi;
  }

  /** The same for a doubleword, from the two words it is made of. */
  lemma Be64OfLoad(little: bool, a: Byte, b: Byte, c: Byte, d: Byte, e: Byte, f: Byte, g: Byte, h: Byte)
    ensures Be64ToHost(little, Load64(little, Load32(little, a, b, c, d), Load32(little, e, f, g, h)))
            == Big32(a, b, c, d) * P32 + Big32(e, f, g, h)
  {
    Be32OfLoad(little, a, b, c, d);
    Be32OfLoad(little, e, f, g, h);
    Bswap64OfPair(Load32(little, e, f, g, h), Load32(little, a, b, c, d));
  }

  /** The last `n` bytes of a value, most significant first. */
  function BytesOf(x: nat, n: nat): (bs: seq<Byte>)
    ensures |bs| == n
  {
    if n == 0 then [] else BytesOf(x / P8, n - 1) + [x % P8]
  }

  /** The big-endian bytes of a 32-bit value. */
  function Encode32(x: nat): (bs: seq<Byte>)
    requires x < P32
    ensures |bs| == 4
  {
    BytesOf(x, 4)
  }

  function Encode64(x: nat): (bs: seq<Byte>)
    requires x < P64
    ensures |bs| == 8
  {
    Encode32(x / P32) + Encode32(x % P32)
  }

  lemma Decode32(x: nat)
    requires x < P32
    ensures var bs := Encode32(x); Big32(bs[0], bs[1], bs[2], bs[3]) == x
  {
    var y, z, w := x / P8, x / P8 / P8, x / P8 / P8 / P8;
    assert BytesOf(x, 4) == BytesOf(y, 3) + [x % P8];
    assert BytesOf(y, 3) == BytesOf(z, 2) + [y % P8];
    assert BytesOf(z, 2) == BytesOf(w, 1) + [z % P8];
    assert BytesOf(w, 1) == BytesOf(w / P8, 0) + [w % P8] && w < P8;
  }
}
