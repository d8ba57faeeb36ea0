/** The message of the one-block examples of FIPS 180-4, "abc", as the one block it is padded to. */
module AbcBlock {
  import opened Words
  import opened MessageBlocks

  const MESSAGE: seq<Byte> := [0x61, 0x62, 0x63]

  /** The sixteen words of the block: the message, the bit `1`, zeros, and the length in bits. */
  const ABC: seq<Word> := [0x61626380, 0, 0, 0, 0, 0, 0, 0] + [0, 0, 0, 0, 0, 0, 0, 0x18]

  lemma AbcWords()
    ensures |ABC| == 16 && ABC[0] == Val(0x61626380) && ABC[15] == Val(0x18)
    ensures forall i :: 0 < i < 15 ==> ABC[i] == Val(0)
  {
  }

  lemma Packed(b0: Byte, b1: Byte, b2: Byte, b3: Byte, w: bv32)
    requires w == Pack(b0 as bv8 as bv32, b1 as bv8 as bv32, b2 as bv8 as bv32, b3 as bv8 as bv32)
    ensures BigEndian(b0, b1, b2, b3) == Val(w)
  {
  }

  /** The eight bytes of the length field. */
  lemma LengthBytes()
    ensures LengthField(3) == [0, 0, 0, 0, 0, 0, 0, 0x18]
  {
    assert HighBits(3) == Val(0) && LowBits(3) == Val(0x18);
    Bytes(0, 0, 0, 0, 0);
    Bytes(0x18, 0, 0, 0, 0x18);
  }

  /** The bytes of a word, most significant first. */
  lemma Bytes(w: bv32, b0: Byte, b1: Byte, b2: Byte, b3: Byte)
    requires b0 == ((w >> 24) & 0xff) as Byte && b1 == ((w >> 16) & 0xff) as Byte
    requires b2 == ((w >> 8) & 0xff) as Byte && b3 == (w & 0xff) as Byte
    ensures BigEndianBytes(Val(w)) == [b0, b1, b2, b3]
  {
    hide Val, Bits;
    BitsVal(w);
  }

  lemma PaddedBytes()
    ensures |Pad(MESSAGE)| == 64 && Pad(MESSAGE)[..4] == [0x61, 0x62, 0x63, 0x80]
    ensures Pad(MESSAGE)[60..] == [0, 0, 0, 0x18] && forall i :: 4 <= i < 60 ==> Pad(MESSAGE)[i] == 0
  {
    LengthBytes();
    hide LengthField;
    var m := Pad(MESSAGE);
    assert m == [0x61, 0x62, 0x63, 0x80] + (Zeros(52) + [0, 0, 0, 0, 0, 0, 0, 0x18]);
    assert m[60..] == [0, 0, 0, 0x18];
  }

  lemma PaddedAbc()
    ensures |Pad(MESSAGE)| == 64 && BlockWords(Pad(MESSAGE)) == ABC
  {
    hide Pad, BigEndian, Val;
    var m := Pad(MESSAGE);
    PaddedBytes();
    AbcWords();
    Packed(0x61, 0x62, 0x63, 0x80, 0x61626380);
    Packed(0, 0, 0, 0, 0);
    Packed(0, 0, 0, 0x18, 0x18);
    assert m[0] == m[..4][0] && m[1] == m[..4][1] && m[2] == m[..4][2] && m[3] == m[..4][3];
    assert m[60] == m[60..][0] && m[61] == m[60..][1] && m[62] == m[60..][2] && m[63] == m[60..][3];
    assert WordAt(m, 0) == Val(0x61626380) && WordAt(m, 15) == Val(0x18);
    assert forall i :: 1 <= i < 15 ==> WordAt(m, i) == Val(0);
    SameWords(BlockWords(m), ABC);
  }

  lemma SameWords(a: seq<Word>, b: seq<Word>)
    requires |a| == |b| && forall i :: 0 <= i < |a| ==> a[i] == b[i]
    ensures a == b
  {
  }

  /** The message is one block, so the hash folds once. */
  lemma OneBlockMessage<H>(f: (H, seq<Byte>) -> H, h: H)
    ensures Fold(f, h, Pad(MESSAGE)) == f(h, Pad(MESSAGE))
  {
    hide Pad;
    PaddedAbc();
    OneBlock(f, h, Pad(MESSAGE));
  }
}
