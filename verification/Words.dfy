/** Bytes and 32-bit words: arithmetic modulo 2^32 on integers, bitwise operations on the bits. */
module Words {
  newtype Byte = x: int | 0 <= x < 0x100
  newtype Word = x: int | 0 <= x < 0x1_0000_0000

  function Bits(x: Word): bv32 { x as bv32 }
  function Val(b: bv32): Word { b as Word }

  lemma BitsVal(b: bv32)
    ensures Bits(Val(b)) == b
  {
  }

  /** Addition modulo 2^32. */
  function Sum(x: Word, y: Word): Word {
    var s := x as int + y as int;
    (if s < 0x1_0000_0000 then s else s - 0x1_0000_0000) as Word
  }

  function XorBits(x: bv32, y: bv32): bv32 { x ^ y }
  function Xor3Bits(x: bv32, y: bv32, z: bv32): bv32 { x ^ y ^ z }
  function ChBits(x: bv32, y: bv32, z: bv32): bv32 { (x & y) ^ (!x & z) }
  function MajBits(x: bv32, y: bv32, z: bv32): bv32 { (x & y) ^ (x & z) ^ (y & z) }

  function Xor(x: Word, y: Word): Word { Val(XorBits(Bits(x), Bits(y))) }
  function Xor3(x: Word, y: Word, z: Word): Word { Val(Xor3Bits(Bits(x), Bits(y), Bits(z))) }

  /** The choice and majority functions of FIPS 180-4, section 4.1. */
  function Ch(x: Word, y: Word, z: Word): Word { Val(ChBits(Bits(x), Bits(y), Bits(z))) }
  function Maj(x: Word, y: Word, z: Word): Word { Val(MajBits(Bits(x), Bits(y), Bits(z))) }

  // ---------- bytes of a word ----------

  function ByteBits(b: Byte): (c: bv32)
    ensures c <= 0xff
  {
    b as bv8 as bv32
  }

  function Pack(c0: bv32, c1: bv32, c2: bv32, c3: bv32): bv32 { (c0 << 24) | (c1 << 16) | (c2 << 8) | c3 }

  function BigEndian(b0: Byte, b1: Byte, b2: Byte, b3: Byte): Word {
    Val(Pack(ByteBits(b0), ByteBits(b1), ByteBits(b2), ByteBits(b3)))
  }

  /** How a little-endian machine loads a word. */
  function LittleEndian(b0: Byte, b1: Byte, b2: Byte, b3: Byte): Word { BigEndian(b3, b2, b1, b0) }

  /** The byte that is left after shifting right by `8 * k` bits. */
  function ByteOf(w: Word, k: nat): Byte
    requires k < 4
  {
    var b := Bits(w);
    ((if k == 0 then b else if k == 1 then b >> 8 else if k == 2 then b >> 16 else b >> 24) & 0xff) as Byte
  }

  function BigEndianBytes(w: Word): (s: seq<Byte>)
    ensures |s| == 4
  {
    [ByteOf(w, 3), ByteOf(w, 2), ByteOf(w, 1), ByteOf(w, 0)]
  }

  /** How a little-endian machine stores a word. */
  function StoredBytes(w: Word): (s: seq<Byte>)
    ensures |s| == 4
  {
    [ByteOf(w, 0), ByteOf(w, 1), ByteOf(w, 2), ByteOf(w, 3)]
  }

  function SwapBits(b: bv32): bv32 {
    (((b << 24) | (b >> 8)) & 0xff00ff00) | (((b << 8) | (b >> 24)) & 0x00ff00ff)
  }

  /** The byte swap of both hash implementations. */
  function Swap(x: Word): Word { Val(SwapBits(Bits(x))) }

  /** Loading and swapping reads a big-endian word. */
  lemma SwapReads(b0: Byte, b1: Byte, b2: Byte, b3: Byte)
    ensures Swap(LittleEndian(b0, b1, b2, b3)) == BigEndian(b0, b1, b2, b3)
  {
    hide Bits, Val, ByteBits, SwapBits, Pack;
    var c0, c1, c2, c3 := ByteBits(b0), ByteBits(b1), ByteBits(b2), ByteBits(b3);
    BitsVal(Pack(c3, c2, c1, c0));
    SwapPack(c0, c1, c2, c3);
  }

  lemma SwapPack(c0: bv32, c1: bv32, c2: bv32, c3: bv32)
    requires c0 <= 0xff && c1 <= 0xff && c2 <= 0xff && c3 <= 0xff
    ensures SwapBits(Pack(c3, c2, c1, c0)) == Pack(c0, c1, c2, c3)
  {
  }

  /** Swapping and storing writes a big-endian word. */
  lemma SwapStores(w: Word)
    ensures StoredBytes(Swap(w)) == BigEndianBytes(w)
  {
    var b := Bits(w);
    BitsVal(SwapBits(b));
    hide Bits, Val;
    SwapShifts(b);
  }

  lemma SwapShifts(b: bv32)
    ensures SwapBits(b) & 0xff == (b >> 24) & 0xff
    ensures (SwapBits(b) >> 8) & 0xff == (b >> 16) & 0xff
    ensures (SwapBits(b) >> 16) & 0xff == (b >> 8) & 0xff
    ensures (SwapBits(b) >> 24) & 0xff == b & 0xff
  {
  }
}
