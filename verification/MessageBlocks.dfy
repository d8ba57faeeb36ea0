/** Hashing by folding a compression function over 64-byte blocks of a padded message
    (FIPS 180-4, sections 5.1.1 and 6), whatever the compression function is. */
module MessageBlocks {
  import opened Words

  function WordAt(bytes: seq<Byte>, i: nat): Word
    requires 4 * i + 4 <= |bytes|
  {
    BigEndian(bytes[4 * i], bytes[4 * i + 1], bytes[4 * i + 2], bytes[4 * i + 3])
  }

  function BlockWords(bytes: seq<Byte>): (ws: seq<Word>)
    requires |bytes| == 64
    ensures |ws| == 16 && forall i :: 0 <= i < 16 ==> ws[i] == WordAt(bytes, i)
  {
    seq(16, i requires 0 <= i < 16 => WordAt(bytes, i))
  }

  /** The hash value after all whole blocks of `m`. */
  function Fold<H>(f: (H, seq<Byte>) -> H, h: H, m: seq<Byte>): H
    decreases |m|
  {
    if |m| < 64 then h else Fold(f, f(h, m[..64]), m[64..])
  }

  lemma {:induction false} FoldAppend<H>(f: (H, seq<Byte>) -> H, h: H, a: seq<Byte>, b: seq<Byte>)
    requires |a| % 64 == 0
    ensures Fold(f, h, a + b) == Fold(f, Fold(f, h, a), b)
    decreases |a|
  {
    if |a| == 0 {
      assert a + b == b;
    } else {
      assert |a| >= 64 && |a[64..]| % 64 == 0;
      assert (a + b)[..64] == a[..64] && (a + b)[64..] == a[64..] + b;
      FoldAppend(f, f(h, a[..64]), a[64..], b);
    }
  }

  /** `h` has taken in the whole blocks of `m`, and `tail` is what is left of it. */
  ghost predicate Absorbed<H>(f: (H, seq<Byte>) -> H, start: H, m: seq<Byte>, h: H, tail: seq<Byte>) {
    exists blocks :: m == blocks + tail && AbsorbedBlocks(f, start, blocks, h) && |tail| < 64
  }

  ghost predicate AbsorbedBlocks<H>(f: (H, seq<Byte>) -> H, start: H, blocks: seq<Byte>, h: H) {
    |blocks| % 64 == 0 && h == Fold(f, start, blocks)
  }

  lemma AbsorbedNothing<H>(f: (H, seq<Byte>) -> H, start: H)
    ensures Absorbed(f, start, [], start, [])
  {
    var none: seq<Byte> := [];
    assert none == none + none && AbsorbedBlocks(f, start, none, start);
  }

  lemma AbsorbedLength<H>(f: (H, seq<Byte>) -> H, start: H, m: seq<Byte>, h: H, tail: seq<Byte>)
    requires Absorbed(f, start, m, h, tail)
    ensures |tail| == |m| % 64
  {
    var blocks :| m == blocks + tail && AbsorbedBlocks(f, start, blocks, h) && |tail| < 64;
    MultipleOf64(|blocks|, |tail|);
  }

  lemma MultipleOf64(a: nat, b: nat)
    requires a % 64 == 0
    ensures (a + b) % 64 == b % 64
  {
    var p, q, r := a / 64, b / 64, b % 64;
    assert a + b == 64 * (p + q) + r;
  }

  /** Bytes that do not fill the block stay in the tail. */
  lemma AbsorbTail<H>(f: (H, seq<Byte>) -> H, start: H, m: seq<Byte>, h: H, tail: seq<Byte>, d: seq<Byte>)
    requires Absorbed(f, start, m, h, tail) && |tail| + |d| < 64
    ensures Absorbed(f, start, m + d, h, tail + d)
  {
    var blocks :| m == blocks + tail && AbsorbedBlocks(f, start, blocks, h) && |tail| < 64;
    assert m + d == blocks + (tail + d);
  }

  /** Bytes that fill the block are compressed with the tail. */
  lemma AbsorbBlock<H>(f: (H, seq<Byte>) -> H, start: H, m: seq<Byte>, h: H, tail: seq<Byte>, d: seq<Byte>)
    requires Absorbed(f, start, m, h, tail) && |tail| + |d| == 64
    ensures Absorbed(f, start, m + d, f(h, tail + d), [])
  {
    var blocks :| m == blocks + tail && AbsorbedBlocks(f, start, blocks, h) && |tail| < 64;
    var block := tail + d;
    FoldAppend(f, start, blocks, block);
    OneBlock(f, h, block);
    MultipleOf64(|blocks|, 64);
    assert AbsorbedBlocks(f, start, blocks + block, f(h, block));
    assert m + d == blocks + block + [];
  }

  lemma OneBlock<H>(f: (H, seq<Byte>) -> H, h: H, block: seq<Byte>)
    requires |block| == 64
    ensures Fold(f, h, block) == f(h, block)
  {
    assert block[..64] == block && block[64..] == [];
  }

  lemma AbsorbedAll<H>(f: (H, seq<Byte>) -> H, start: H, m: seq<Byte>, h: H)
    requires Absorbed(f, start, m, h, [])
    ensures h == Fold(f, start, m)
  {
    var blocks :| m == blocks + [] && AbsorbedBlocks(f, start, blocks, h);
    assert m == blocks;
  }

  // ---------- padding ----------

  function Zeros(n: nat): (z: seq<Byte>)
    ensures |z| == n
  {
    seq(n, i => 0)
  }

  /** The number of bits of a message as two 32-bit words. */
  function HighBits(bytes: nat): Word { (8 * bytes / 0x1_0000_0000 % 0x1_0000_0000) as Word }
  function LowBits(bytes: nat): Word { (8 * bytes % 0x1_0000_0000) as Word }

  function LengthField(bytes: nat): (s: seq<Byte>)
    ensures |s| == 8
  {
    BigEndianBytes(HighBits(bytes)) + BigEndianBytes(LowBits(bytes))
  }

  /** The number of zero bytes between the bit `1` and the length field. */
  function ZeroCount(bytes: nat): (z: nat)
    ensures z < 64
  {
    var r := bytes % 64;
    if r < 56 then 55 - r else 119 - r
  }

  function PadWith(m: seq<Byte>, field: seq<Byte>): seq<Byte> {
    m + [0x80] + Zeros(ZeroCount(|m|)) + field
  }

  function Pad(m: seq<Byte>): seq<Byte> { PadWith(m, LengthField(|m|)) }

  /** The padding is the shortest that ends on a block boundary. */
  lemma PadFits(m: seq<Byte>, k: nat)
    ensures |Pad(m)| % 64 == 0
    ensures (|m| + 1 + k + 8) % 64 == 0 ==> k >= ZeroCount(|m|)
  {
    hide LengthField, Zeros, ZeroCount;
    PadLength(|m|, k);
  }

  lemma PadLength(n: nat, k: nat)
    ensures (n + 1 + ZeroCount(n) + 8) % 64 == 0
    ensures (n + 1 + k + 8) % 64 == 0 ==> k >= ZeroCount(n)
  {
    var q, r, z := n / 64, n % 64, ZeroCount(n);
    assert n == 64 * q + r;
    var p := q + if r < 56 then 1 else 2;
    assert n + 1 + z + 8 == 64 * p;
    if k < z { Remainder(n + 1 + k + 8, p, z - k); }
  }

  lemma Remainder(x: nat, q: nat, d: nat)
    requires x == 64 * q - d && 0 < d < 64
    ensures x % 64 != 0
  {
  }

  /** Copies bytes between two arrays. */
  method Copy(from: array<Byte>, start: nat, n: nat, into: array<Byte>, at: nat)
    requires start + n <= from.Length && at + n <= into.Length && from != into
    modifies into
    ensures into[..at] == old(into[..at]) && into[at..at + n] == from[start..start + n]
    ensures into[at + n..] == old(into[at + n..])
    ensures into[..at + n] == old(into[..at]) + from[start..start + n]
  {
    for i := 0 to n
      invariant into[..at] == old(into[..at]) && into[at..at + i] == from[start..start + i]
      invariant into[at + n..] == old(into[at + n..])
    {
      into[at + i] := from[start + i];
    }
    TwoSlices(into[..], at, at + n);
    assert into[..][..at + n] == into[..at + n] && into[..][..at] == into[..at];
    assert into[..][at..at + n] == into[at..at + n];
  }

  lemma TwoSlices(s: seq<Byte>, i: nat, j: nat)
    requires i <= j <= |s|
    ensures s[..j] == s[..i] + s[i..j]
  {
  }
}
