/** SHA-256 (FIPS 180-4, section 6.2), and the streaming context that computes it. */
module Sha256 {
  import opened Words
  import opened MessageBlocks

  // ---------- the standard ----------

  /** The rotations and shifts of section 4.1.2. */
  function BigSigma0Bits(b: bv32): bv32 { ((b >> 2) | (b << 30)) ^ ((b >> 13) | (b << 19)) ^ ((b >> 22) | (b << 10)) }
  function BigSigma1Bits(b: bv32): bv32 { ((b >> 6) | (b << 26)) ^ ((b >> 11) | (b << 21)) ^ ((b >> 25) | (b << 7)) }
  function Sigma0Bits(b: bv32): bv32 { ((b >> 7) | (b << 25)) ^ ((b >> 18) | (b << 14)) ^ (b >> 3) }
  function Sigma1Bits(b: bv32): bv32 { ((b >> 17) | (b << 15)) ^ ((b >> 19) | (b << 13)) ^ (b >> 10) }

  function BigSigma0(x: Word): Word { Val(BigSigma0Bits(Bits(x))) }
  function BigSigma1(x: Word): Word { Val(BigSigma1Bits(Bits(x))) }
  function Sigma0(x: Word): Word { Val(Sigma0Bits(Bits(x))) }
  function Sigma1(x: Word): Word { Val(Sigma1Bits(Bits(x))) }

  const CONSTANTS: seq<seq<Word>> := [
    [0x428a2f98, 0x71374491, 0xb5c0fbcf, 0xe9b5dba5, 0x3956c25b, 0x59f111f1, 0x923f82a4, 0xab1c5ed5],
    [0xd807aa98, 0x12835b01, 0x243185be, 0x550c7dc3, 0x72be5d74, 0x80deb1fe, 0x9bdc06a7, 0xc19bf174],
    [0xe49b69c1, 0xefbe4786, 0x0fc19dc6, 0x240ca1cc, 0x2de92c6f, 0x4a7484aa, 0x5cb0a9dc, 0x76f988da],
    [0x983e5152, 0xa831c66d, 0xb00327c8, 0xbf597fc7, 0xc6e00bf3, 0xd5a79147, 0x06ca6351, 0x14292967],
    [0x27b70a85, 0x2e1b2138, 0x4d2c6dfc, 0x53380d13, 0x650a7354, 0x766a0abb, 0x81c2c92e, 0x92722c85],
    [0xa2bfe8a1, 0xa81a664b, 0xc24b8b70, 0xc76c51a3, 0xd192e819, 0xd6990624, 0xf40e3585, 0x106aa070],
    [0x19a4c116, 0x1e376c08, 0x2748774c, 0x34b0bcb5, 0x391c0cb3, 0x4ed8aa4a, 0x5b9cca4f, 0x682e6ff3],
    [0x748f82ee, 0x78a5636f, 0x84c87814, 0x8cc70208, 0x90befffa, 0xa4506ceb, 0xbef9a3f7, 0xc67178f2]]

  function K(t: nat): Word
    requires t < 64
  {
    CONSTANTS[t / 8][t % 8]
  }

  /** The message schedule of a block of sixteen words. */
  function W(block: seq<Word>, t: nat): Word
    requires |block| == 16
  {
    if t < 16 then block[t]
    else Sum(Sum(Sum(Sigma1(W(block, t - 2)), W(block, t - 7)), Sigma0(W(block, t - 15))), W(block, t - 16))
  }

  datatype Vars = Vars(a: Word, b: Word, c: Word, d: Word, e: Word, f: Word, g: Word, h: Word)

  function Round(v: Vars, k: Word, w: Word): Vars {
    var t1 := Sum(Sum(Sum(Sum(v.h, BigSigma1(v.e)), Ch(v.e, v.f, v.g)), k), w);
    var t2 := Sum(BigSigma0(v.a), Maj(v.a, v.b, v.c));
    Vars(Sum(t1, t2), v.a, v.b, v.c, Sum(v.d, t1), v.e, v.f, v.g)
  }

  /** The working variables after `t` rounds. */
  function Rounds(v: Vars, block: seq<Word>, t: nat): Vars
    requires |block| == 16 && t <= 64
  {
    if t == 0 then v else Round(Rounds(v, block, t - 1), K(t - 1), W(block, t - 1))
  }

  function Add(u: Vars, v: Vars): Vars {
    Vars(Sum(u.a, v.a), Sum(u.b, v.b), Sum(u.c, v.c), Sum(u.d, v.d),
         Sum(u.e, v.e), Sum(u.f, v.f), Sum(u.g, v.g), Sum(u.h, v.h))
  }

  /** The compression function. */
  function Compress(v: Vars, bytes: seq<Byte>): Vars {
    if |bytes| == 64 then Add(v, Rounds(v, BlockWords(bytes), 64)) else v
  }

  const INITIAL := Vars(0x6a09e667, 0xbb67ae85, 0x3c6ef372, 0xa54ff53a, 0x510e527f, 0x9b05688c, 0x1f83d9ab, 0x5be0cd19)

  function Digest(v: Vars): seq<Byte> {
    BigEndianBytes(v.a) + BigEndianBytes(v.b) + BigEndianBytes(v.c) + BigEndianBytes(v.d) +
    BigEndianBytes(v.e) + BigEndianBytes(v.f) + BigEndianBytes(v.g) + BigEndianBytes(v.h)
  }

  /** The hash of a message by FIPS 180-4. */
  function Hash(m: seq<Byte>): seq<Byte> { Digest(Fold(Compress, INITIAL, Pad(m))) }

  // ---------- one block ----------

  function ChooseMacro(x: Word, y: Word, z: Word): Word { Val(Bits(z) ^ (Bits(x) & (Bits(y) ^ Bits(z)))) }
  function MajorityMacro(x: Word, y: Word, z: Word): Word {
    Val((Bits(x) & (Bits(y) | Bits(z))) | (Bits(y) & Bits(z)))
  }

  lemma ChooseBits(x: bv32, y: bv32, z: bv32)
    ensures z ^ (x & (y ^ z)) == (x & y) ^ (!x & z)
  {
  }

  lemma MajorityBits(x: bv32, y: bv32, z: bv32)
    ensures (x & (y | z)) | (y & z) == (x & y) ^ (x & z) ^ (y & z)
  {
  }

  /** The macros compute the choice and majority functions of the standard. */
  lemma MacrosAgree(x: Word, y: Word, z: Word)
    ensures ChooseMacro(x, y, z) == Ch(x, y, z) && MajorityMacro(x, y, z) == Maj(x, y, z)
  {
    hide Val, Bits;
    ChooseBits(Bits(x), Bits(y), Bits(z));
    MajorityBits(Bits(x), Bits(y), Bits(z));
  }

  /** The 64 schedule words, computed with four indices that move along the buffer. */
  method Schedule(bytes: array<Byte>, off: nat) returns (buf: array<Word>)
    requires off + 64 <= bytes.Length
    ensures fresh(buf) && buf.Length == 64
    ensures forall t :: 0 <= t < 64 ==> buf[t] == W(BlockWords(bytes[off..off + 64]), t)
  {
    hide Swap, LittleEndian, BigEndian, Sigma0, Sigma1, Sum;
    ghost var block := BlockWords(bytes[off..off + 64]);
    buf := new Word[64](i => 0);
    for i := 0 to 16
      invariant forall t :: 0 <= t < i ==> buf[t] == W(block, t)
    {
      var p := off + 4 * i;
      SwapReads(bytes[p], bytes[p + 1], bytes[p + 2], bytes[p + 3]);
      buf[i] := Swap(LittleEndian(bytes[p], bytes[p + 1], bytes[p + 2], bytes[p + 3]));
    }
    var w, w16, w15, w7, w2 := 16, 0, 1, 9, 14;
    while w < 64
      invariant 16 <= w <= 64 && w16 == w - 16 && w15 == w - 15 && w7 == w - 7 && w2 == w - 2
      invariant forall t :: 0 <= t < w ==> buf[t] == W(block, t)
    {
      buf[w] := Sum(Sum(Sum(Sigma1(buf[w2]), buf[w7]), Sigma0(buf[w15])), buf[w16]);
      w, w16, w15, w7, w2 := w + 1, w16 + 1, w15 + 1, w7 + 1, w2 + 1;
    }
  }

  /** Compresses the block at `off`, assigning the eight working variables one after another. */
  method Guts(v: Vars, bytes: array<Byte>, off: nat) returns (r: Vars)
    requires off + 64 <= bytes.Length
    ensures r == Compress(v, bytes[off..off + 64])
  {
    hide W, Sum, BigSigma0, BigSigma1, Ch, Maj, ChooseMacro, MajorityMacro, K;
    ghost var block := BlockWords(bytes[off..off + 64]);
    var buf := Schedule(bytes, off);
    var a, b, c, d, e, f, g, h := v.a, v.b, v.c, v.d, v.e, v.f, v.g, v.h;
    for t := 0 to 64
      invariant forall i :: 0 <= i < 64 ==> buf[i] == W(block, i)
      invariant Vars(a, b, c, d, e, f, g, h) == Rounds(v, block, t)
    {
      MacrosAgree(e, f, g);
      MacrosAgree(a, b, c);
      var t1 := Sum(Sum(Sum(Sum(h, BigSigma1(e)), ChooseMacro(e, f, g)), K(t)), buf[t]);
      var t2 := Sum(BigSigma0(a), MajorityMacro(a, b, c));
      h := g;
      g := f;
      f := e;
      e := Sum(d, t1);
      d := c;
      c := b;
      b := a;
      a := Sum(t1, t2);
    }
    r := Vars(Sum(v.a, a), Sum(v.b, b), Sum(v.c, c), Sum(v.d, d), Sum(v.e, e), Sum(v.f, f), Sum(v.g, g), Sum(v.h, h));
  }

  // ---------- the bit count ----------

  const TWO64 := 0x1_0000_0000_0000_0000

  function CountBits(total: nat, bytes: nat): nat { (total + 8 * bytes) % TWO64 }

  lemma CountIsExact(n: nat, bytes: nat)
    ensures CountBits(8 * n % TWO64, bytes) == 8 * (n + bytes) % TWO64
  {
    var q := 8 * n / TWO64;
    assert 8 * n == q * TWO64 + 8 * n % TWO64;
    ShiftLong(8 * n % TWO64 + 8 * bytes, q);
  }

  lemma ShiftLong(x: nat, q: nat)
    ensures (x + q * TWO64) % TWO64 == x % TWO64
  {
  }

  function HighWord(total: nat): Word { (total / 0x1_0000_0000 % 0x1_0000_0000) as Word }
  function LowWord(total: nat): Word { (total % 0x1_0000_0000) as Word }

  lemma CountWords(n: nat)
    ensures HighWord(8 * n % TWO64) == HighBits(n) && LowWord(8 * n % TWO64) == LowBits(n)
  {
    var x := 8 * n;
    SplitLong(x / 0x1_0000_0000, x % 0x1_0000_0000);
    assert x == x / 0x1_0000_0000 * 0x1_0000_0000 + x % 0x1_0000_0000;
  }

  lemma SplitLong(hi: nat, lo: nat)
    requires lo < 0x1_0000_0000
    ensures (hi * 0x1_0000_0000 + lo) % TWO64 == hi % 0x1_0000_0000 * 0x1_0000_0000 + lo
  {
    var q, r := hi / 0x1_0000_0000, hi % 0x1_0000_0000;
    assert hi * 0x1_0000_0000 + lo == r * 0x1_0000_0000 + lo + q * TWO64;
    ShiftLong(r * 0x1_0000_0000 + lo, q);
  }

  // ---------- the context ----------

  class Sha256Context {
    var hash: Vars
    var totalLength: nat
    var bufferLength: nat
    const buffer: array<Byte>
    ghost var message: seq<Byte>

    ghost predicate Valid()
      reads this, buffer
    {
      && buffer.Length == 64
      && totalLength == 8 * |message| % TWO64
      && bufferLength == |message| % 64
      && Absorbed(Compress, INITIAL, message, hash, buffer[..bufferLength])
    }

    constructor ()
      ensures Valid() && message == [] && fresh(buffer)
    {
      hash, totalLength, bufferLength, message := INITIAL, 0, 0, [];
      buffer := new Byte[64](i => 0);
      new;
      AbsorbedNothing(Compress, INITIAL);
      assert buffer[..0] == [];
    }

    /** Takes in the first `len` bytes of `data`. */
    method Update(data: array<Byte>, len: nat)
      requires Valid() && data != buffer && len <= data.Length
      modifies this, buffer
      ensures Valid() && message == old(message) + data[..len]
    {
      hide Absorbed, Compress;
      ghost var m := message;
      assert m + data[0..0] == m;
      var i := 0;
      if bufferLength != 0 { i := FillBuffer(data, len); }
      if i < len {
        i := CompressBlocks(data, i, len, m);
      }
      if i < len { KeepTail(data, i, len, m); }
      assert data[0..len] == data[..len];
    }

    /** Copies into a started block what fits, and compresses the block once it is full. */
    method FillBuffer(data: array<Byte>, len: nat) returns (i: nat)
      requires Valid() && data != buffer && len <= data.Length && bufferLength != 0
      modifies this, buffer
      ensures Valid() && i <= len && message == old(message) + data[0..i]
      ensures i < len ==> bufferLength == 0
    {
      hide Absorbed, Compress;
      i := 64 - bufferLength;
      if i > len { i := len; }
      ghost var m, tail, d := message, buffer[..bufferLength], data[0..i];
      CopyIn(data, i);
      if bufferLength == 64 {
        CompressBuffer(m, tail, d);
      } else {
        AbsorbTail(Compress, INITIAL, m, hash, tail, d);
        AbsorbedLength(Compress, INITIAL, message, hash, tail + d);
      }
    }

    method CopyIn(data: array<Byte>, i: nat)
      requires buffer.Length == 64 && data != buffer && i <= data.Length && bufferLength + i <= 64
      requires totalLength == 8 * |message| % TWO64
      modifies this`totalLength, this`bufferLength, this`message, buffer
      ensures totalLength == 8 * |message| % TWO64 && message == old(message) + data[0..i]
      ensures bufferLength == old(bufferLength) + i
      ensures buffer[..bufferLength] == old(buffer[..bufferLength]) + data[0..i]
    {
      hide CountBits;
      CountIsExact(|message|, i);
      Copy(data, 0, i, buffer, bufferLength);
      totalLength := CountBits(totalLength, i);
      bufferLength := bufferLength + i;
      message := message + data[0..i];
    }

    /** A full buffer is a block. */
    method CompressBuffer(ghost m: seq<Byte>, ghost tail: seq<Byte>, ghost d: seq<Byte>)
      requires buffer.Length == 64 == bufferLength == |tail| + |d| && buffer[..64] == tail + d
      requires Absorbed(Compress, INITIAL, m, hash, tail) && message == m + d
      requires totalLength == 8 * |message| % TWO64
      modifies this`hash, this`bufferLength
      ensures Valid() && bufferLength == 0
    {
      hide Absorbed, Compress;
      AbsorbBlock(Compress, INITIAL, m, hash, tail, d);
      assert buffer[0..64] == buffer[..64];
      hash := Guts(hash, buffer, 0);
      bufferLength := 0;
      assert buffer[..0] == [];
      AbsorbedLength(Compress, INITIAL, message, hash, []);
    }

    /** Compresses the whole blocks of the data from `start` on, and returns where they end. */
    method CompressBlocks(data: array<Byte>, start: nat, len: nat, ghost m: seq<Byte>) returns (i: nat)
      requires Valid() && data != buffer && start <= len <= data.Length && message == m + data[0..start]
      requires len - start > 63 ==> bufferLength == 0
      modifies this
      ensures Valid() && start <= i <= len < i + 64 && message == m + data[0..i]
      ensures bufferLength == old(bufferLength)
    {
      hide Absorbed, Compress;
      i := start;
      while len - i > 63
        invariant Valid() && start <= i <= len && message == m + data[0..i]
        invariant bufferLength == old(bufferLength)
      {
        totalLength := CountBits(totalLength, 64);
        CompressOne(data, i);
        assert data[0..i] + data[i..i + 64] == data[0..i + 64];
        assert m + data[0..i] + data[i..i + 64] == m + data[0..i + 64];
        i := i + 64;
      }
    }

    method CompressOne(data: array<Byte>, i: nat)
      requires buffer.Length == 64 && bufferLength == 0 == |message| % 64 && i + 64 <= data.Length
      requires totalLength == CountBits(8 * |message| % TWO64, 64)
      requires Absorbed(Compress, INITIAL, message, hash, buffer[..bufferLength])
      modifies this`hash, this`message
      ensures Valid() && message == old(message) + data[i..i + 64]
    {
      hide Absorbed, Compress;
      ghost var block := data[i..i + 64];
      assert buffer[..0] == [] && [] + block == block;
      CountIsExact(|message|, 64);
      AbsorbBlock(Compress, INITIAL, message, hash, [], block);
      hash := Guts(hash, data, i);
      message := message + block;
      AbsorbedLength(Compress, INITIAL, message, hash, []);
    }

    /** Leaves the rest of the data in the buffer. */
    method KeepTail(data: array<Byte>, i: nat, len: nat, ghost m: seq<Byte>)
      requires Valid() && data != buffer && i <= len <= data.Length && bufferLength + (len - i) < 64
      requires message == m + data[0..i]
      modifies this, buffer
      ensures Valid() && message == m + data[0..len]
    {
      hide Absorbed, Compress;
      ghost var tail, d := buffer[..bufferLength], data[i..len];
      assert m + data[0..i] + d == m + data[0..len];
      CountIsExact(|message|, len - i);
      AbsorbTail(Compress, INITIAL, message, hash, tail, d);
      Copy(data, i, len - i, buffer, bufferLength);
      totalLength := CountBits(totalLength, len - i);
      bufferLength := bufferLength + (len - i);
      message := message + d;
      AbsorbedLength(Compress, INITIAL, message, hash, tail + d);
    }

    /** The bit count as eight bytes: each half swapped, and the halves exchanged. */
    method LengthPad() returns (b: array<Byte>)
      requires Valid()
      ensures fresh(b) && b[..] == LengthField(|message|)
    {
      hide StoredBytes, BigEndianBytes, Swap, HighBits, LowBits, HighWord, LowWord;
      CountWords(|message|);
      var high, low := HighWord(totalLength), LowWord(totalLength);
      SwapStores(high);
      SwapStores(low);
      ghost var field := LengthField(|message|);
      var bytes := StoredBytes(Swap(high)) + StoredBytes(Swap(low));
      b := new Byte[8](i requires 0 <= i < 8 => bytes[i]);
      assert b[..] == bytes;
    }

    /** Pads the message and returns the digest. */
    method Finalize() returns (digest: seq<Byte>)
      requires Valid()
      modifies this, buffer
      ensures digest == Hash(old(message))
    {
      hide Absorbed, Compress, LengthField, ZeroCount, Fold;
      ghost var m := message;
      var bytesToPad := 120 - bufferLength;
      if bytesToPad > 64 { bytesToPad := bytesToPad - 64; }
      assert bytesToPad == ZeroCount(|m|) + 1 by { PadCount(|m|); }
      var lengthPad := LengthPad();
      var padding := new Byte[64](i => if i == 0 then 0x80 else 0);
      assert padding[..bytesToPad] == [0x80] + Zeros(ZeroCount(|m|));
      Update(padding, bytesToPad);
      Update(lengthPad, 8);
      assert message == Pad(m);
      AbsorbedWhole(m);
      digest := StoreDigest();
    }

    lemma AbsorbedWhole(m: seq<Byte>)
      requires Valid() && message == Pad(m)
      ensures hash == Fold(Compress, INITIAL, Pad(m))
    {
      hide Absorbed, Compress, Pad, Fold;
      PadFits(m, 0);
      assert buffer[..0] == [];
      AbsorbedAll(Compress, INITIAL, message, hash);
    }

    method StoreDigest() returns (digest: seq<Byte>)
      ensures digest == Digest(hash)
    {
      hide StoredBytes, BigEndianBytes, Swap;
      var words := [hash.a, hash.b, hash.c, hash.d, hash.e, hash.f, hash.g, hash.h];
      digest := [];
      for i := 0 to 8
        invariant digest == Concatenated(words[..i])
      {
        SwapStores(words[i]);
        digest := digest + StoredBytes(Swap(words[i]));
        assert words[..i + 1][..i] == words[..i];
      }
      EightWords(hash);
      assert words[..8] == words;
    }
  }

  lemma PadCount(n: nat)
    ensures ZeroCount(n) + 1 == if 120 - n % 64 > 64 then 56 - n % 64 else 120 - n % 64
  {
  }

  ghost function Concatenated(ws: seq<Word>): seq<Byte> {
    if ws == [] then [] else Concatenated(ws[..|ws| - 1]) + BigEndianBytes(ws[|ws| - 1])
  }

  lemma EightWords(v: Vars)
    ensures Concatenated([v.a, v.b, v.c, v.d, v.e, v.f, v.g, v.h]) == Digest(v)
  {
    hide BigEndianBytes;
    var ws := [v.a, v.b, v.c, v.d, v.e, v.f, v.g, v.h];
    assert ws[..7][..6] == ws[..6] && ws[..6][..5] == ws[..5] && ws[..5][..4] == ws[..4] && ws[..4][..3] == ws[..3];
    assert ws[..3][..2] == ws[..2] && ws[..2][..1] == ws[..1] && ws[..1][..0] == [];
    assert Concatenated(ws[..1]) == BigEndianBytes(v.a);
    assert Concatenated(ws[..3]) == BigEndianBytes(v.a) + BigEndianBytes(v.b) + BigEndianBytes(v.c);
    assert Concatenated(ws[..5]) == Concatenated(ws[..3]) + BigEndianBytes(v.d) + BigEndianBytes(v.e);
    assert Concatenated(ws[..7]) == Concatenated(ws[..5]) + BigEndianBytes(v.f) + BigEndianBytes(v.g);
  }

  /** One call does the same as any cutting into updates. */
  method ComputeSha256(input: array<Byte>) returns (digest: seq<Byte>)
    ensures digest == Hash(input[..])
  {
    var context := new Sha256Context();
    context.Update(input, input.Length);
    assert [] + input[..input.Length] == input[..];
    digest := context.Finalize();
  }
}
