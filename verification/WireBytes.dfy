/** The wire form of parameters byte by byte. */
module WireBytes {
  import opened Words
  import opened WireFormat
  import opened ParameterState
  import opened Procedures
  import Responses

  ghost function Power(k: nat): (p: int)
    ensures p > 0
  {
    if k == 0 then 1 else 256 * Power(k - 1)
  }

  function ByteAt(v: int, shift: int): Byte
    requires shift > 0
  {
    (v / shift % 256) as Byte
  }

  /** The high byte comes first, at every width, for negative numbers too. */
  lemma {:induction false} IntBytes(width: nat, v: int, i: nat)
    requires i < width
    ensures EncodeInt(width, v)[i] == ByteAt(v, Power(width - 1 - i))
  {
    if i < width - 1 {
      IntBytes(width - 1, v / 256, i);
      Quotients(v, Power(width - 2 - i));
    } else {
      assert Power(0) == 1;
    }
  }

  lemma Quotients(v: int, p: int)
    requires p > 0
    ensures v / 256 / p == v / (256 * p)
  {
    var a, b := v / 256, v % 256;
    var q, r := a / p, a % p;
    assert v == 256 * a + b && a == p * q + r;
    assert v == 256 * p * q + (256 * r + b) by { assert 256 * (p * q) == 256 * p * q; }
    Unique(v, 256 * p, q, 256 * r + b);
  }

  lemma Unique(x: int, n: int, q: int, r: int)
    requires n > 0 && 0 <= r < n && x == n * q + r
    ensures x / n == q
  {
    var d := x / n - q;
    assert n * d == r - x % n;
  }

  lemma Int1(v: int)
    ensures EncodeInt(1, v) == [ByteAt(v, 1)]
  {
  }

  lemma Int2(v: int)
    ensures EncodeInt(2, v) == [ByteAt(v, 0x100), ByteAt(v, 1)]
  {
    hide EncodeInt;
    assert Power(0) == 1 && Power(1) == 0x100;
    IntBytes(2, v, 0);
    IntBytes(2, v, 1);
  }

  lemma Int4(v: int)
    ensures EncodeInt(4, v) == [ByteAt(v, 0x100_0000), ByteAt(v, 0x1_0000), ByteAt(v, 0x100), ByteAt(v, 1)]
  {
    hide EncodeInt;
    assert Power(0) == 1 && Power(1) == 0x100 && Power(2) == 0x1_0000 && Power(3) == 0x100_0000;
    IntBytes(4, v, 0);
    IntBytes(4, v, 1);
    IntBytes(4, v, 2);
    IntBytes(4, v, 3);
  }

  lemma Tags()
    ensures EncodeInt(1, 3) == [3] && EncodeInt(1, 4) == [4] && EncodeInt(1, 5) == [5] && EncodeInt(1, 6) == [6]
    ensures EncodeInt(1, 8) == [8] && EncodeInt(1, 9) == [9] && EncodeInt(1, 11) == [11]
    ensures EncodeInt(1, 22) == [22] && EncodeInt(1, 25) == [25] && EncodeInt(1, 1) == [1] && EncodeInt(1, -99) == [157]
  {
  }

  /** A number is its type's byte and then its bytes in two's complement, high byte first. */
  lemma ScalarBytes(v: int)
    ensures Encode(Scalar(TinyInt, v)) == [3, ByteAt(v, 1)]
    ensures Encode(Scalar(SmallInt, v)) == [4, ByteAt(v, 0x100), ByteAt(v, 1)]
    ensures Encode(Scalar(Integer, v)) ==
            [5, ByteAt(v, 0x100_0000), ByteAt(v, 0x1_0000), ByteAt(v, 0x100), ByteAt(v, 1)]
    ensures Encode(Scalar(BigInt, v)) == [6] + EncodeInt(8, v)
    ensures Encode(Scalar(Float, v)) == [8] + EncodeInt(8, v)
    ensures Encode(Scalar(Timestamp, v)) == [11] + EncodeInt(8, v)
    ensures Encode(Scalar(Decimal, v)) == [22] + EncodeInt(16, v)
  {
    hide EncodeInt, ByteAt;
    Tags();
    Int1(v);
    Int2(v);
    Int4(v);
  }

  /** Strings and binaries are their byte, four bytes of length, and themselves; a null is one byte. */
  lemma {:induction false} BlobBytes(b: seq<Byte>)
    ensures var length := [ByteAt(|b|, 0x100_0000), ByteAt(|b|, 0x1_0000), ByteAt(|b|, 0x100), ByteAt(|b|, 1)];
      && Encode(Blob(String, b)) == [9] + (length + b) && Encode(Blob(Varbinary, b)) == [25] + (length + b)
    ensures Encode(Null) == [1]
  {
    hide EncodeInt, ByteAt;
    Tags();
    Int4(|b|);
  }

  /** Arrays start with the byte of -99 and that of their type, then the number of elements in two
      bytes, for TINYINT in four; the elements follow without their type. */
  lemma {:induction false} NumbersBytes(t: FixedType, vs: seq<int>)
    ensures var n := |vs|;
      Encode(Scalars(t, vs)) ==
        (match t
         case TinyInt => [157, 3, ByteAt(n, 0x100_0000), ByteAt(n, 0x1_0000), ByteAt(n, 0x100), ByteAt(n, 1)]
         case SmallInt => [157, 4, ByteAt(n, 0x100), ByteAt(n, 1)]
         case Integer => [157, 5, ByteAt(n, 0x100), ByteAt(n, 1)]
         case BigInt => [157, 6, ByteAt(n, 0x100), ByteAt(n, 1)]
         case Float => [157, 8, ByteAt(n, 0x100), ByteAt(n, 1)]
         case Timestamp => [157, 11, ByteAt(n, 0x100), ByteAt(n, 1)]
         case Decimal => [157, 22, ByteAt(n, 0x100), ByteAt(n, 1)]) + Concat(EncodeFixed(t), vs)
  {
    hide EncodeInt, ByteAt, Concat;
    Tags();
    Int4(|vs|);
    Int2(|vs|);
  }

  lemma {:induction false} BlobsBytes(bs: seq<seq<Byte>>)
    ensures Encode(Blobs(String, bs)) == [157, 9, ByteAt(|bs|, 0x100), ByteAt(|bs|, 1)] + Concat(EncodeBytes, bs)
    ensures Encode(Blobs(Varbinary, bs)) == [157, 25, ByteAt(|bs|, 0x100), ByteAt(|bs|, 1)] + Concat(EncodeBytes, bs)
  {
    hide EncodeInt, ByteAt, Concat, EncodeBytes;
    Tags();
    Int2(|bs|);
  }

  // ---------- whole messages ----------

  /** A call of "ab" with one TINYINT 5, as the client data 7. */
  lemma RequestExample(s: State)
    requires s.declared == [Parameter(Fixed(TinyInt), false)] && s.body == Encode(Scalar(TinyInt, 5))
    ensures Request([97, 98], 7, s) ==
            [0, 0, 0, 19] + ([0] + ([0, 0, 0, 2, 97, 98] + ([0, 0, 0, 0, 0, 0, 0, 7] + [0, 1, 3, 5])))
  {
    hide EncodeInt, Image;
    ImageExample(s);
    assert EncodeInt(4, 19) == [0, 0, 0, 19] && EncodeInt(4, 2) == [0, 0, 0, 2] by { Int4(19); Int4(2); }
    assert EncodeInt(8, 7) == [0, 0, 0, 0, 0, 0, 0, 7] by { Sevens(); }
    assert EncodeInt(1, 0) == [0] by { Int1(0); }
    assert EncodeBytes([97, 98]) == [0, 0, 0, 2, 97, 98];
  }

  lemma ImageExample(s: State)
    requires s.declared == [Parameter(Fixed(TinyInt), false)] && s.body == Encode(Scalar(TinyInt, 5))
    ensures Image(s) == [0, 1, 3, 5]
  {
    hide EncodeInt, Encode;
    assert EncodeInt(2, 1) == [0, 1] by { Int2(1); }
    ScalarBytes(5);
  }

  lemma Sevens()
    ensures EncodeInt(8, 7) == [0, 0, 0, 0, 0, 0, 0, 7]
  {
    assert EncodeInt(4, 0) == [0, 0, 0, 0];
  }

  const TABLE := Responses.TableValue(0, [Responses.Column([120], Fixed(TinyInt))], [[9]])
  const RESPONSE := Responses.Response(7, 1, Some([115]), 2, Some([97]), 3, Some([101, 102]), [TABLE])

  lemma SchemaExample()
    ensures Responses.Schema(TABLE) == [0, 1, 3, 0, 0, 0, 1, 120]
  {
    hide EncodeInt;
    assert EncodeInt(4, 1) == [0, 0, 0, 1] by { Int4(1); }
    assert EncodeInt(2, 1) == [0, 1] by { Int2(1); }
    Tags();
    assert Concat(Responses.EncodeType, TABLE.columns[1..]) == [];
    assert Concat(Responses.EncodeName, TABLE.columns[1..]) == [];
  }

  lemma RowExample()
    ensures Responses.Body(TABLE) == [0, 0, 0, 1, 0, 0, 0, 1, 9]
  {
    hide EncodeInt;
    assert EncodeInt(4, 1) == [0, 0, 0, 1] by { Int4(1); }
    assert Concat(EncodeBytes, TABLE.rows[1..]) == [];
  }

  /** One column "x" of TINYINT and one row with a 9. */
  lemma TableExample()
    ensures Responses.EncodeTable(TABLE) == [0, 0, 0, 9, 0, 0, 1, 3, 0, 0, 0, 1, 120, 0, 0, 0, 1, 0, 0, 0, 1, 9]
  {
    hide EncodeInt, Responses.Schema, Responses.Body;
    SchemaExample();
    RowExample();
    assert EncodeInt(4, 9) == [0, 0, 0, 9] && EncodeInt(1, 0) == [0] by { Int4(9); Int1(0); }
  }

  const TABLE_BYTES: seq<Byte> := [0, 0, 0, 22, 0, 0, 0, 9, 0, 0, 1, 3, 0, 0, 0, 1, 120, 0, 0, 0, 1, 0, 0, 0, 1, 9]

  lemma SmallInts()
    ensures EncodeInt(1, 0) == [0] && EncodeInt(1, 1) == [1] && EncodeInt(1, 2) == [2] && EncodeInt(1, -32) == [224]
    ensures EncodeInt(2, 1) == [0, 1] && EncodeInt(4, 1) == [0, 0, 0, 1] && EncodeInt(4, 2) == [0, 0, 0, 2]
    ensures EncodeInt(4, 3) == [0, 0, 0, 3] && EncodeInt(4, 22) == [0, 0, 0, 22]
  {
    hide EncodeInt;
    Int1(0);
    Int1(1);
    Int1(2);
    Int1(-32);
    Int2(1);
    Int4(1);
    Int4(2);
    Int4(3);
    Int4(22);
  }

  /** Round trip 3, an exception of two bytes, and that table. */
  lemma TailExample()
    ensures Responses.EncodeTail(RESPONSE) == [0, 0, 0, 3, 0, 0, 0, 2, 101, 102, 0, 1] + TABLE_BYTES
  {
    hide EncodeInt, Responses.EncodeTable;
    TableExample();
    SmallInts();
    assert Responses.EncodeResult(TABLE) == TABLE_BYTES;
    assert RESPONSE.tables[1..] == [] && Concat(Responses.EncodeResult, RESPONSE.tables[1..]) == [];
    assert Concat(Responses.EncodeResult, RESPONSE.tables) == TABLE_BYTES;
  }

  /** Client data 7, status 1 "s", application status 2 "a", and that tail: all three parts that may
      be missing are announced by the byte 224. */
  lemma ResponseExample()
    ensures Responses.EncodeResponse(RESPONSE) ==
            [0, 0, 0, 0, 0, 0, 0, 0, 7, 224, 1, 0, 0, 0, 1, 115, 2, 0, 0, 0, 1, 97] +
            ([0, 0, 0, 3, 0, 0, 0, 2, 101, 102, 0, 1] + TABLE_BYTES)
  {
    hide EncodeInt, Responses.EncodeTail;
    TailExample();
    SmallInts();
    Sevens();
  }
}
