/** Streaming SHA-1: whatever pieces the message arrives in, the digest is that of the padded
    message. */
module Sha1 {
  import opened Words
  import opened MessageBlocks
  import opened Sha1Block

  const INITIAL := Vars(0x67452301, 0xefcdab89, 0x98badcfe, 0x10325476, 0xc3d2e1f0)

  function Digest(v: Vars): seq<Byte> {
    BigEndianBytes(v.a) + BigEndianBytes(v.b) + BigEndianBytes(v.c) + BigEndianBytes(v.d) + BigEndianBytes(v.e)
  }

  /** The hash of a message by FIPS 180-4. */
  function Hash(m: seq<Byte>): seq<Byte> { Digest(Fold(Compress, INITIAL, Pad(m))) }

  // ---------- one block ----------

  /** The sixteen words of a block as a little-endian machine sees them. */
  method Load(bytes: array<Byte>, off: nat) returns (l: seq<Word>)
    requires off + 64 <= bytes.Length
    ensures |l| == 16 && Circular(l, BlockWords(bytes[off..off + 64]), 0)
  {
    hide Swap, LittleEndian, BigEndian, W;
    ghost var block := bytes[off..off + 64];
    l := [];
    for i := 0 to 16
      invariant |l| == i && forall j :: 0 <= j < i ==> Swap(l[j]) == WordAt(block, j)
    {
      var p := off + 4 * i;
      SwapReads(bytes[p], bytes[p + 1], bytes[p + 2], bytes[p + 3]);
      l := l + [LittleEndian(bytes[p], bytes[p + 1], bytes[p + 2], bytes[p + 3])];
    }
  }

  ghost predicate StoredAt(s: seq<Byte>, off: nat, i: nat, w: Word)
    requires off + 4 * i + 4 <= |s|
  {
    s[off + 4 * i..off + 4 * i + 4] == StoredBytes(w)
  }

  ghost predicate OverwrittenBy(s: seq<Byte>, off: nat, ws: seq<Word>)
    requires |ws| == 16 && off + 64 <= |s|
  {
    forall i :: 0 <= i < 16 ==> StoredAt(s, off, i, ws[i])
  }

  /** Leaves the working words where the block was. */
  method Store(l: seq<Word>, bytes: array<Byte>, off: nat)
    requires |l| == 16 && off + 64 <= bytes.Length
    modifies bytes
    ensures OverwrittenBy(bytes[..], off, l)
    ensures forall k :: 0 <= k < off || off + 64 <= k < bytes.Length ==> bytes[k] == old(bytes[k])
  {
    hide ByteOf;
    for i := 0 to 16
      invariant forall j :: 0 <= j < i ==> StoredAt(bytes[..], off, j, l[j])
      invariant forall k :: 0 <= k < off || off + 64 <= k < bytes.Length ==> bytes[k] == old(bytes[k])
    {
      var p := off + 4 * i;
      ghost var before := bytes[..];
      bytes[p], bytes[p + 1], bytes[p + 2], bytes[p + 3] :=
        ByteOf(l[i], 0), ByteOf(l[i], 1), ByteOf(l[i], 2), ByteOf(l[i], 3);
      forall j | 0 <= j < i ensures StoredAt(bytes[..], off, j, l[j]) {
        assert bytes[off + 4 * j..off + 4 * j + 4] == before[off + 4 * j..off + 4 * j + 4];
        assert StoredAt(before, off, j, l[j]);
      }
      assert bytes[p..p + 4] == StoredBytes(l[i]);
    }
  }

  ghost function LastWords(block: seq<Word>): (ws: seq<Word>)
    requires |block| == 16
    ensures |ws| == 16
  {
    seq(16, i requires 0 <= i < 16 => W(block, 64 + i))
  }

  /** Compresses the block at `off` and overwrites it with the last sixteen schedule words. */
  method Transform(state: Vars, bytes: array<Byte>, off: nat) returns (r: Vars)
    requires off + 64 <= bytes.Length
    modifies bytes
    ensures r == Compress(state, old(bytes[off..off + 64]))
    ensures OverwrittenBy(bytes[..], off, LastWords(BlockWords(old(bytes[off..off + 64]))))
    ensures forall k :: 0 <= k < off || off + 64 <= k < bytes.Length ==> bytes[k] == old(bytes[k])
  {
    hide W, Round, Macro, NextWord, StoredBytes;
    ghost var block := BlockWords(bytes[off..off + 64]);
    var l := Load(bytes, off);
    var regs := [state.a, state.b, state.c, state.d, state.e];
    for t := 0 to 80
      invariant |l| == 16 && |regs| == 5 && bytes[..] == old(bytes[..])
      invariant Circular(l, block, t)
      invariant InRoles(regs, t) == Rounds(state, block, t)
    {
      NextWordIsW(l, block, t);
      var word := NextWord(l, t);
      CircularStep(l, block, t, word);
      MacroIsRound(regs, t, word);
      l := l[Slot(t, 0) := word];
      regs := Macro(regs, t, word);
    }
    r := Vars(Sum(state.a, regs[0]), Sum(state.b, regs[1]), Sum(state.c, regs[2]), Sum(state.d, regs[3]),
              Sum(state.e, regs[4]));
    assert l == LastWords(block) by {
      forall i | 0 <= i < 16 ensures l[i] == LastWords(block)[i] { assert Latest(80, i) == 64 + i; }
    }
    Store(l, bytes, off);
  }

  // ---------- the bit count ----------

  /** Adding the bits of `len` bytes to a count, as the code does it: the low word's carry is
      guessed from a comparison with the unreduced bit length. */
  function CountLow(low: Word, len: nat): Word { ((low as int + 8 * len) % 0x1_0000_0000) as Word }
  function CountHigh(low: Word, high: Word, len: nat): Word {
    var carry := if CountLow(low, len) as int < 8 * len then 1 else 0;
    ((high as int + carry + len / 0x2000_0000) % 0x1_0000_0000) as Word
  }

  /** The comparison tells a carry apart for short pieces, and for long ones only if there is one. */
  predicate CarryIsSeen(low: Word, len: nat) {
    len < 0x2000_0000 || low as int + 8 * len % 0x1_0000_0000 >= 0x1_0000_0000
  }

  lemma LowIsExact(n: nat, len: nat)
    ensures CountLow(LowBits(n), len) == LowBits(n + len)
  {
    var q := 8 * n / 0x1_0000_0000;
    assert 8 * n == q * 0x1_0000_0000 + LowBits(n) as int;
    Shift(LowBits(n) as int + 8 * len, q);
  }

  lemma Shift(x: nat, q: nat)
    ensures (x + q * 0x1_0000_0000) % 0x1_0000_0000 == x % 0x1_0000_0000
    ensures (x + q * 0x1_0000_0000) / 0x1_0000_0000 == x / 0x1_0000_0000 + q
  {
  }

  /** The two words hold the number of bits modulo 2^64 after a piece, if and only if the carry
      was seen. */
  lemma HighIsExact(n: nat, len: nat)
    ensures CountHigh(LowBits(n), HighBits(n), len) == HighBits(n + len) <==> CarryIsSeen(LowBits(n), len)
  {
    var q, low := 8 * n / 0x1_0000_0000, LowBits(n) as int;
    var p, r := 8 * len / 0x1_0000_0000, 8 * len % 0x1_0000_0000;
    assert p == len / 0x2000_0000;
    var carried := low + r >= 0x1_0000_0000;
    assert 8 * (n + len) / 0x1_0000_0000 == q + p + if carried then 1 else 0 by {
      Shift(low + r, q + p);
    }
    assert CountLow(LowBits(n), len) as int == if carried then low + r - 0x1_0000_0000 else low + r by {
      Shift(low + r, p);
    }
    HighSum(q, p, if CountLow(LowBits(n), len) as int < 8 * len then 1 else 0, if carried then 1 else 0);
  }

  /** When it is not seen right, one is invented: none is ever lost. */
  lemma CarryIsInvented(n: nat, len: nat)
    requires !CarryIsSeen(LowBits(n), len)
    ensures CountHigh(LowBits(n), HighBits(n), len) as int == (HighBits(n + len) as int + 1) % 0x1_0000_0000
  {
    var q, low := 8 * n / 0x1_0000_0000, LowBits(n) as int;
    var p, r := 8 * len / 0x1_0000_0000, 8 * len % 0x1_0000_0000;
    assert p == len / 0x2000_0000;
    assert 8 * (n + len) / 0x1_0000_0000 == q + p by { Shift(low + r, q + p); }
    assert CountLow(LowBits(n), len) as int == low + r < 8 * len by { Shift(low + r, p); }
    Congruent(q, p + 1);
    Congruent(q + p, 1);
  }

  lemma Congruent(x: nat, y: nat)
    ensures (x % 0x1_0000_0000 + y) % 0x1_0000_0000 == (x + y) % 0x1_0000_0000
  {
    Shift(x % 0x1_0000_0000 + y, x / 0x1_0000_0000);
  }

  /** A first piece of 2^29 bytes is enough. */
  lemma InventedAtOnce()
    ensures CountHigh(LowBits(0), HighBits(0), 0x2000_0000) == 2 && HighBits(0x2000_0000) == 1
  {
    assert LowBits(0) == 0 == HighBits(0);
    assert CountLow(0, 0x2000_0000) == 0;
  }

  /** Sums that differ by one are not congruent. */
  lemma HighSum(q: nat, p: nat, guess: nat, carry: nat)
    requires guess <= 1 && carry <= 1
    ensures (q % 0x1_0000_0000 + guess + p) % 0x1_0000_0000 == (q + p + carry) % 0x1_0000_0000 <==> guess == carry
  {
    var m := q / 0x1_0000_0000;
    assert q == m * 0x1_0000_0000 + q % 0x1_0000_0000;
    Shift(q % 0x1_0000_0000 + p + carry, m);
    var x := q % 0x1_0000_0000 + p;
    Neighbours(x);
  }

  lemma Neighbours(x: nat)
    ensures (x + 1) % 0x1_0000_0000 != x % 0x1_0000_0000
  {
  }

  lemma PositionInBuffer(n: nat)
    ensures LowBits(n) as int / 8 % 64 == n % 64
  {
    var q := 8 * n / 0x1_0000_0000;
    assert LowBits(n) as int == 8 * (n - q * 0x2000_0000);
    assert LowBits(n) as int / 8 == n - q * 0x2000_0000;
    Blocks(n - q * 0x2000_0000, q * 0x80_0000);
  }

  lemma Blocks(x: nat, q: nat)
    ensures (x + 64 * q) % 64 == x % 64
  {
  }

  // ---------- the context ----------

  class Sha1Context {
    var state: Vars
    var low: Word
    var high: Word
    const buffer: array<Byte>
    ghost var message: seq<Byte>

    ghost predicate Valid()
      reads this, buffer
    {
      && buffer.Length == 64
      && low == LowBits(|message|)
      && Absorbed(Compress, INITIAL, message, state, buffer[..|message| % 64])
    }

    /** Both words of the count are right. */
    ghost predicate Exact() reads this { high == HighBits(|message|) }

    constructor ()
      ensures Valid() && Exact() && message == [] && fresh(buffer)
    {
      state, low, high, message := INITIAL, 0, 0, [];
      buffer := new Byte[64](i => 0);
      new;
      AbsorbedNothing(Compress, INITIAL);
      assert buffer[..0] == [];
    }

    /** Takes in `data`. Whole blocks are compressed where they lie, so they are overwritten. */
    method Update(data: array<Byte>)
      requires Valid() && data != buffer
      modifies this, buffer, data
      ensures Valid() && message == old(message) + old(data[..])
      ensures old(Exact()) ==> (Exact() <==> CarryIsSeen(old(low), data.Length))
      ensures data.Length + old(|message|) % 64 < 128 ==> data[..] == old(data[..])
    {
      hide Compress, LowBits, HighBits;
      var len := data.Length;
      var j := low as int / 8 % 64;
      PositionInBuffer(|message|);
      LowIsExact(|message|, len);
      HighIsExact(|message|, len);
      high := CountHigh(low, high, len);
      low := CountLow(low, len);
      Absorb(data, j);
    }

    /** The data part of `Update`, with `j` bytes waiting in the buffer. */
    method Absorb(data: array<Byte>, j: nat)
      requires buffer.Length == 64 && data != buffer && j == |message| % 64
      requires Absorbed(Compress, INITIAL, message, state, buffer[..j])
      modifies this`state, this`message, buffer, data
      ensures message == old(message) + old(data[..])
      ensures Absorbed(Compress, INITIAL, message, state, buffer[..|message| % 64])
      ensures data.Length + j < 128 ==> data[..] == old(data[..])
    {
      hide Compress, Absorbed;
      ghost var bytes := data[..];
      var i, k := 0, j;
      if j + data.Length > 63 {
        FillBuffer(data, j);
        i := CompressBlocks(data, 64 - j);
        k := 0;
        assert buffer[..0] == [];
      }
      KeepTail(data, i, k);
      assert bytes[..i] + bytes[i..] == bytes;
    }

    /** Completes the waiting block with the first bytes of `data`. */
    method FillBuffer(data: array<Byte>, j: nat)
      requires buffer.Length == 64 && data != buffer && j < 64 <= j + data.Length
      requires Absorbed(Compress, INITIAL, message, state, buffer[..j])
      modifies this`state, this`message, buffer
      ensures message == old(message) + data[..64 - j]
      ensures Absorbed(Compress, INITIAL, message, state, [])
    {
      hide Compress, Absorbed;
      ghost var d := data[..64 - j];
      AbsorbBlock(Compress, INITIAL, message, state, buffer[..j], d);
      Copy(data, 0, 64 - j, buffer, j);
      assert buffer[0..64] == old(buffer[..j]) + d;
      state := Transform(state, buffer, 0);
      message := message + d;
    }

    /** Compresses the whole blocks of `data` from `start` on, and returns where they end. */
    method CompressBlocks(data: array<Byte>, start: nat) returns (i: nat)
      requires buffer.Length == 64 && data != buffer && start <= data.Length
      requires Absorbed(Compress, INITIAL, message, state, [])
      modifies this`state, this`message, data
      ensures start <= i <= data.Length < i + 64
      ensures message == old(message) + old(data[start..i]) && Absorbed(Compress, INITIAL, message, state, [])
      ensures data[i..] == old(data[i..]) && (data.Length < start + 64 ==> data[..] == old(data[..]))
    {
      hide Compress, Absorbed, BlockWords, LastWords, OverwrittenBy;
      ghost var before, bytes := message, data[..];
      i := start;
      assert before + bytes[start..start] == before;
      while i + 63 < data.Length
        invariant start <= i <= data.Length
        invariant message == before + bytes[start..i] && Absorbed(Compress, INITIAL, message, state, [])
        invariant forall k :: i <= k < data.Length ==> data[k] == bytes[k]
        invariant data.Length < start + 64 ==> data[..] == bytes
      {
        assert before + bytes[start..i] + bytes[i..i + 64] == before + bytes[start..i + 64];
        assert data[i..i + 64] == bytes[i..i + 64];
        CompressOne(data, i);
        i := i + 64;
      }
    }

    method CompressOne(data: array<Byte>, i: nat)
      requires i + 64 <= data.Length && Absorbed(Compress, INITIAL, message, state, [])
      modifies this`state, this`message, data
      ensures message == old(message) + old(data[i..i + 64]) && Absorbed(Compress, INITIAL, message, state, [])
      ensures forall k :: 0 <= k < i || i + 64 <= k < data.Length ==> data[k] == old(data[k])
    {
      hide Compress, Absorbed, BlockWords, LastWords, OverwrittenBy;
      ghost var block := data[i..i + 64];
      AbsorbBlock(Compress, INITIAL, message, state, [], block);
      assert [] + block == block;
      state := Transform(state, data, i);
      message := message + block;
    }

    /** Leaves the rest of `data` in the buffer after the `k` bytes waiting there. */
    method KeepTail(data: array<Byte>, i: nat, k: nat)
      requires buffer.Length == 64 && data != buffer && i <= data.Length && k + (data.Length - i) < 64
      requires Absorbed(Compress, INITIAL, message, state, buffer[..k])
      modifies this`message, buffer
      ensures message == old(message) + data[i..]
      ensures Absorbed(Compress, INITIAL, message, state, buffer[..|message| % 64])
    {
      hide Compress, Absorbed;
      ghost var tail, d := buffer[..k], data[i..];
      AbsorbTail(Compress, INITIAL, message, state, tail, d);
      assert data[i..data.Length] == d;
      Copy(data, i, data.Length - i, buffer, k);
      message := message + d;
      AbsorbedLength(Compress, INITIAL, message, state, tail + d);
    }

    /** The count as eight bytes, high word first. */
    method CountBytes() returns (b: array<Byte>)
      ensures fresh(b) && b[..] == BigEndianBytes(high) + BigEndianBytes(low)
    {
      hide ByteOf;
      b := new Byte[8](i => 0);
      for i := 0 to 8
        invariant forall k :: 0 <= k < i ==> b[k] == (BigEndianBytes(high) + BigEndianBytes(low))[k]
      {
        b[i] := ByteOf(if i >= 4 then low else high, 3 - i % 4);
      }
    }

    /** Pads with the count it kept, returns the digest and wipes the context. */
    method Final() returns (digest: seq<Byte>)
      requires Valid()
      modifies this, buffer
      ensures var field := BigEndianBytes(old(high)) + BigEndianBytes(old(low));
        digest == Digest(Fold(Compress, INITIAL, PadWith(old(message), field)))
      ensures old(Exact()) ==> digest == Hash(old(message))
      ensures low == 0 == high && state == Vars(0, 0, 0, 0, 0) && forall i :: 0 <= i < buffer.Length ==> buffer[i] == 0
    {
      hide Compress, Absorbed, LowBits, HighBits, Fold, BigEndianBytes;
      ghost var m := message;
      var count := CountBytes();
      ghost var field := count[..];
      assert Exact() ==> field == LengthField(|m|);
      UpdateByte(0x80);
      ghost var zeros := 0;
      PadLength(|m|, 0);
      assert m + [0x80] + Zeros(0) == m + [0x80];
      PositionInBuffer(|message|);
      while low as int / 8 % 64 * 8 != 448
        invariant Valid() && zeros <= ZeroCount(|m|) && message == m + [0x80] + Zeros(zeros)
        invariant low as int / 8 % 64 == |message| % 64 && count[..] == field && count != buffer
        decreases ZeroCount(|m|) - zeros
      {
        NotYetPadded(|m|, zeros);
        UpdateByte(0);
        assert Zeros(zeros) + [0] == Zeros(zeros + 1);
        assert m + [0x80] + Zeros(zeros) + [0] == m + [0x80] + Zeros(zeros + 1);
        zeros := zeros + 1;
        PositionInBuffer(|message|);
      }
      PadLength(|m|, zeros);
      DonePadding(|m|, zeros);
      Update(count);
      assert message == PadWith(m, field);
      AbsorbedWhole();
      digest := Digest(state);
      Wipe();
    }

    lemma AbsorbedWhole()
      requires Valid() && |message| % 64 == 0
      ensures state == Fold(Compress, INITIAL, message)
    {
      assert buffer[..0] == [];
      AbsorbedAll(Compress, INITIAL, message, state);
    }

    method UpdateByte(b: Byte)
      requires Valid()
      modifies this, buffer
      ensures Valid() && message == old(message) + [b]
    {
      var data := new Byte[1](i => b);
      assert data[..] == [b];
      Update(data);
    }

    method Wipe()
      modifies this, buffer
      ensures low == 0 == high && state == Vars(0, 0, 0, 0, 0) && forall i :: 0 <= i < buffer.Length ==> buffer[i] == 0
    {
      for i := 0 to buffer.Length
        invariant forall k :: 0 <= k < i ==> buffer[k] == 0
      {
        buffer[i] := 0;
      }
      state, low, high := Vars(0, 0, 0, 0, 0), 0, 0;
    }
  }

  lemma NotYetPadded(n: nat, k: nat)
    requires k <= ZeroCount(n) && (n + 1 + k) % 64 != 56
    ensures k < ZeroCount(n)
  {
    PadLength(n, k);
    EndOfBlock(n + 1 + k);
  }

  lemma DonePadding(n: nat, k: nat)
    requires k <= ZeroCount(n) && (n + 1 + k) % 64 == 56
    ensures k == ZeroCount(n)
  {
    EndOfBlock(n + 1 + k);
    PadLength(n, k);
  }

  lemma EndOfBlock(x: nat)
    ensures x % 64 == 56 <==> (x + 8) % 64 == 0
  {
  }
}
