/** The wire encoding of integers, byte strings and procedure parameters, with a decoder that
    reads back what was encoded. */
module WireFormat {
  import opened Words

  // ---------- integers ----------

  /** The low `8 * width` bits of `v` in two's complement, high byte first. */
  function EncodeInt(width: nat, v: int): (s: seq<Byte>)
    ensures |s| == width
  {
    if width == 0 then [] else EncodeInt(width - 1, v / 256) + [(v % 256) as Byte]
  }

  function DecodeInt(s: seq<Byte>): int
    requires |s| > 0
  {
    if |s| == 1 then (if s[0] < 0x80 then s[0] as int else s[0] as int - 256)
    else DecodeInt(s[..|s| - 1]) * 256 + s[|s| - 1] as int
  }

  function Half(width: nat): (h: int)
    requires width > 0
    ensures h > 0
  {
    if width == 1 then 0x80 else 256 * Half(width - 1)
  }

  /** `v` is a signed integer of `width` bytes. */
  predicate Fits(width: nat, v: int)
    requires width > 0
  {
    -Half(width) <= v < Half(width)
  }

  lemma {:induction false} DecodedFits(s: seq<Byte>)
    requires |s| > 0
    ensures Fits(|s|, DecodeInt(s))
  {
    if |s| > 1 { DecodedFits(s[..|s| - 1]); }
  }

  /** An integer survives the wire if and only if it fits its width. */
  lemma {:induction false} IntRoundTrip(width: nat, v: int)
    requires width > 0
    ensures DecodeInt(EncodeInt(width, v)) == v <==> Fits(width, v)
  {
    var s := EncodeInt(width, v);
    DecodedFits(s);
    if width == 1 {
      assert s == [(v % 256) as Byte];
    } else {
      assert s[..width - 1] == EncodeInt(width - 1, v / 256);
      IntRoundTrip(width - 1, v / 256);
      DecodedFits(EncodeInt(width - 1, v / 256));
    }
  }

  lemma Widths()
    ensures Half(2) == 0x8000 && Half(4) == 0x8000_0000 && Half(8) == 0x8000_0000_0000_0000
  {
    assert Half(3) == 0x80_0000 && Half(5) == 0x80_0000_0000 && Half(7) == 0x80_0000_0000_0000;
  }

  // ---------- reading ----------

  datatype Parsed<T> = Fail | Done(value: T, rest: seq<Byte>)

  function ReadInt(width: nat, s: seq<Byte>): Parsed<int>
    requires width > 0
  {
    if |s| < width then Fail else Done(DecodeInt(s[..width]), s[width..])
  }

  function TakeBytes(n: int, s: seq<Byte>): Parsed<seq<Byte>> {
    if n < 0 || |s| < n then Fail else Done(s[..n], s[n..])
  }

  function ReadBytes(s: seq<Byte>): Parsed<seq<Byte>> {
    match ReadInt(4, s)
    case Fail => Fail
    case Done(n, rest) => TakeBytes(n, rest)
  }

  function ReadMany<T>(read: seq<Byte> -> Parsed<T>, n: nat, s: seq<Byte>): Parsed<seq<T>>
    ensures ReadMany(read, n, s).Done? ==> |ReadMany(read, n, s).value| == n
  {
    if n == 0 then Done([], s)
    else match read(s)
      case Fail => Fail
      case Done(x, more) =>
        match ReadMany(read, n - 1, more)
        case Fail => Fail
        case Done(xs, rest) => Done([x] + xs, rest)
  }

  function Concat<T>(f: T -> seq<Byte>, xs: seq<T>): seq<Byte> {
    if xs == [] then [] else f(xs[0]) + Concat(f, xs[1..])
  }

  lemma {:induction false} ConcatAppend<T>(f: T -> seq<Byte>, xs: seq<T>, x: T)
    ensures Concat(f, xs + [x]) == Concat(f, xs) + f(x)
  {
    if xs == [] {
      assert [] + [x] == [x] && [x][1..] == [];
    } else {
      assert (xs + [x])[1..] == xs[1..] + [x] && (xs + [x])[0] == xs[0];
      ConcatAppend(f, xs[1..], x);
    }
  }

  /** `read` takes exactly `bytes` off the front of any input, and finds `x` there. */
  ghost predicate Reads<T(!new)>(read: seq<Byte> -> Parsed<T>, bytes: seq<Byte>, x: T) {
    forall rest :: read(bytes + rest) == Done(x, rest)
  }

  ghost predicate AllRead<T(!new)>(read: seq<Byte> -> Parsed<T>, f: T -> seq<Byte>, xs: seq<T>) {
    forall i :: 0 <= i < |xs| ==> Reads(read, f(xs[i]), xs[i])
  }

  lemma {:induction false} ManyRoundTrip<T(!new)>(read: seq<Byte> -> Parsed<T>, f: T -> seq<Byte>, xs: seq<T>,
                                                  rest: seq<Byte>)
    requires AllRead(read, f, xs)
    ensures ReadMany(read, |xs|, Concat(f, xs) + rest) == Done(xs, rest)
  {
    if xs == [] {
      assert Concat(f, xs) + rest == rest;
    } else {
      var more := Concat(f, xs[1..]) + rest;
      assert Concat(f, xs) + rest == f(xs[0]) + more;
      assert Reads(read, f(xs[0]), xs[0]);
      ManyRoundTrip(read, f, xs[1..], rest);
      assert [xs[0]] + xs[1..] == xs;
    }
  }

  lemma ReadIntBack(width: nat, v: int, rest: seq<Byte>)
    requires width > 0
    ensures ReadInt(width, EncodeInt(width, v) + rest) == Done(DecodeInt(EncodeInt(width, v)), rest)
    ensures DecodeInt(EncodeInt(width, v)) == v <==> Fits(width, v)
  {
    IntRoundTrip(width, v);
    assert (EncodeInt(width, v) + rest)[..width] == EncodeInt(width, v);
    assert (EncodeInt(width, v) + rest)[width..] == rest;
  }

  /** A length prefix and the bytes. */
  function EncodeBytes(b: seq<Byte>): (s: seq<Byte>)
    ensures |s| == 4 + |b|
  {
    EncodeInt(4, |b|) + b
  }

  lemma ReadBytesBack(b: seq<Byte>, rest: seq<Byte>)
    requires Fits(4, |b|)
    ensures ReadBytes(EncodeBytes(b) + rest) == Done(b, rest)
  {
    hide EncodeInt, DecodeInt;
    ReadIntBack(4, |b|, b + rest);
    assert EncodeBytes(b) + rest == EncodeInt(4, |b|) + (b + rest);
    assert (b + rest)[..|b|] == b && (b + rest)[|b|..] == rest;
  }

  // ---------- parameters ----------

  datatype FixedType = TinyInt | SmallInt | Integer | BigInt | Float | Timestamp | Decimal
  datatype BytesType = String | Varbinary
  datatype WireType = Fixed(fixed: FixedType) | Bytes(bytes: BytesType)

  const ARRAY_TAG := -99
  const NULL_TAG := 1

  function Tag(t: WireType): (tag: int)
    ensures tag in {3, 4, 5, 6, 8, 9, 11, 22, 25}
  {
    match t
    case Fixed(TinyInt) => 3
    case Fixed(SmallInt) => 4
    case Fixed(Integer) => 5
    case Fixed(BigInt) => 6
    case Fixed(Float) => 8
    case Bytes(String) => 9
    case Fixed(Timestamp) => 11
    case Fixed(Decimal) => 22
    case Bytes(Varbinary) => 25
  }

  datatype Option<T> = None | Some(value: T)

  function TypeOfTag(tag: int): (t: Option<WireType>)
    ensures t.Some? ==> Tag(t.value) == tag
  {
    if tag == 3 then Some(Fixed(TinyInt)) else if tag == 4 then Some(Fixed(SmallInt))
    else if tag == 5 then Some(Fixed(Integer)) else if tag == 6 then Some(Fixed(BigInt))
    else if tag == 8 then Some(Fixed(Float)) else if tag == 9 then Some(Bytes(String))
    else if tag == 11 then Some(Fixed(Timestamp)) else if tag == 22 then Some(Fixed(Decimal))
    else if tag == 25 then Some(Bytes(Varbinary)) else None
  }

  lemma TagsAreDistinct(t: WireType)
    ensures TypeOfTag(Tag(t)) == Some(t)
  {
  }

  /** The encoded width; a decimal is two 64-bit halves. */
  function Width(t: FixedType): (w: nat)
    ensures w > 0
  {
    match t
    case TinyInt => 1
    case SmallInt => 2
    case Integer => 4
    case BigInt | Float | Timestamp => 8
    case Decimal => 16
  }

  /** Array counts take four bytes for TINYINT and two otherwise. */
  function CountWidth(t: WireType): (w: nat)
    ensures w > 0
  {
    if t == Fixed(TinyInt) then 4 else 2
  }

  /** A floating-point value stands for its 64 bits. */
  datatype Value =
    | Null
    | Scalar(st: FixedType, v: int)
    | Blob(bt: BytesType, b: seq<Byte>)
    | Scalars(sat: FixedType, vs: seq<int>)
    | Blobs(bat: BytesType, bs: seq<seq<Byte>>)

  function EncodeArrayHeader(t: WireType, n: nat): (s: seq<Byte>)
    ensures |s| == 2 + CountWidth(t)
  {
    EncodeInt(1, ARRAY_TAG) + EncodeInt(1, Tag(t)) + EncodeInt(CountWidth(t), n)
  }

  function EncodeFixed(t: FixedType): int -> seq<Byte> { v => EncodeInt(Width(t), v) }

  function Encode(x: Value): seq<Byte> {
    match x
    case Null => EncodeInt(1, NULL_TAG)
    case Scalar(t, v) => EncodeInt(1, Tag(Fixed(t))) + EncodeInt(Width(t), v)
    case Blob(t, b) => EncodeInt(1, Tag(Bytes(t))) + EncodeBytes(b)
    case Scalars(t, vs) => EncodeArrayHeader(Fixed(t), |vs|) + Concat(EncodeFixed(t), vs)
    case Blobs(t, bs) => EncodeArrayHeader(Bytes(t), |bs|) + Concat(EncodeBytes, bs)
  }

  /** What the source's types say about a value: integers in range, byte sizes in 32 bits. */
  predicate Typed(x: Value) {
    match x
    case Null => true
    case Scalar(t, v) => Fits(Width(t), v)
    case Blob(_, b) => Fits(4, |b|)
    case Scalars(t, vs) => forall i :: 0 <= i < |vs| ==> Fits(Width(t), vs[i])
    case Blobs(_, bs) => forall i :: 0 <= i < |bs| ==> Fits(4, |bs[i]|)
  }

  /** The array count survives its cast. */
  predicate Countable(x: Value) {
    match x
    case Scalars(t, vs) => Fits(CountWidth(Fixed(t)), |vs|)
    case Blobs(t, bs) => Fits(CountWidth(Bytes(t)), |bs|)
    case _ => true
  }

  function ReadFixed(t: FixedType): seq<Byte> -> Parsed<int> { s => ReadInt(Width(t), s) }

  function ReadScalar(t: WireType, s: seq<Byte>): Parsed<Value> {
    match t
    case Fixed(f) => (match ReadInt(Width(f), s) case Fail => Fail case Done(v, rest) => Done(Scalar(f, v), rest))
    case Bytes(b) => (match ReadBytes(s) case Fail => Fail case Done(v, rest) => Done(Blob(b, v), rest))
  }

  function ReadItems(t: WireType, n: nat, s: seq<Byte>): Parsed<Value> {
    match t
    case Fixed(f) =>
      (match ReadMany(ReadFixed(f), n, s) case Fail => Fail case Done(vs, rest) => Done(Scalars(f, vs), rest))
    case Bytes(b) => (match ReadMany(ReadBytes, n, s) case Fail => Fail case Done(bs, rest) => Done(Blobs(b, bs), rest))
  }

  /** An array after its tag: element type, count, elements. */
  function ReadArray(s: seq<Byte>): Parsed<Value> {
    match ReadInt(1, s)
    case Fail => Fail
    case Done(tag, more) =>
      if TypeOfTag(tag).None? then Fail
      else
        var t := TypeOfTag(tag).value;
        match ReadInt(CountWidth(t), more)
        case Fail => Fail
        case Done(n, items) => if n < 0 then Fail else ReadItems(t, n, items)
  }

  function ReadValue(s: seq<Byte>): Parsed<Value> {
    match ReadInt(1, s)
    case Fail => Fail
    case Done(tag, rest) =>
      if tag == NULL_TAG then Done(Null, rest)
      else if tag == ARRAY_TAG then ReadArray(rest)
      else if TypeOfTag(tag).None? then Fail
      else ReadScalar(TypeOfTag(tag).value, rest)
  }

  // ---------- round trips ----------

  lemma TagFits(tag: int)
    requires tag == ARRAY_TAG || tag == NULL_TAG || tag in {3, 4, 5, 6, 8, 9, 11, 22, 25}
    ensures Fits(1, tag)
  {
  }

  lemma ScalarRoundTrip(x: Value, rest: seq<Byte>)
    requires Typed(x) && (x.Scalar? || x.Blob?)
    ensures ReadValue(Encode(x) + rest) == Done(x, rest)
  {
    hide EncodeInt, DecodeInt, EncodeBytes, ReadBytes, ReadInt, Width;
    var t := if x.Scalar? then Fixed(x.st) else Bytes(x.bt);
    var body := if x.Scalar? then EncodeInt(Width(x.st), x.v) else EncodeBytes(x.b);
    TagFits(Tag(t));
    TagsAreDistinct(t);
    ReadIntBack(1, Tag(t), body + rest);
    assert Encode(x) + rest == EncodeInt(1, Tag(t)) + (body + rest);
    if x.Scalar? { ReadIntBack(Width(x.st), x.v, rest); } else { ReadBytesBack(x.b, rest); }
  }

  lemma FixedsAllRead(t: FixedType, vs: seq<int>)
    requires forall i :: 0 <= i < |vs| ==> Fits(Width(t), vs[i])
    ensures AllRead(ReadFixed(t), EncodeFixed(t), vs)
  {
    hide EncodeInt, DecodeInt, ReadInt, Width, Fits;
    forall i, rest | 0 <= i < |vs|
      ensures ReadFixed(t)(EncodeFixed(t)(vs[i]) + rest) == Done(vs[i], rest)
    {
      ReadIntBack(Width(t), vs[i], rest);
    }
  }

  lemma BlobsAllRead(bs: seq<seq<Byte>>)
    requires forall i :: 0 <= i < |bs| ==> Fits(4, |bs[i]|)
    ensures AllRead(ReadBytes, EncodeBytes, bs)
  {
    hide ReadBytes, EncodeBytes, Fits;
    forall i, rest | 0 <= i < |bs| ensures ReadBytes(EncodeBytes(bs[i]) + rest) == Done(bs[i], rest) {
      ReadBytesBack(bs[i], rest);
    }
  }

  /** What the reader makes of an array header: the count as its cast left it. */
  lemma ReadHeaderBack(t: WireType, n: nat, items: seq<Byte>)
    ensures var c := DecodeInt(EncodeInt(CountWidth(t), n));
      && ReadValue(EncodeArrayHeader(t, n) + items) == (if c < 0 then Fail else ReadItems(t, c, items))
      && (c == n <==> Fits(CountWidth(t), n))
  {
    hide EncodeInt, DecodeInt, ReadInt, CountWidth, Tag, TypeOfTag, ReadItems;
    var count := EncodeInt(CountWidth(t), n);
    TagFits(ARRAY_TAG);
    TagFits(Tag(t));
    TagsAreDistinct(t);
    ReadIntBack(1, ARRAY_TAG, EncodeInt(1, Tag(t)) + (count + items));
    ReadIntBack(1, Tag(t), count + items);
    ReadIntBack(CountWidth(t), n, items);
    assert EncodeArrayHeader(t, n) + items == EncodeInt(1, ARRAY_TAG) + (EncodeInt(1, Tag(t)) + (count + items));
  }

  function Type(x: Value): WireType
    requires !x.Null?
  {
    match x
    case Scalar(t, _) => Fixed(t)
    case Blob(t, _) => Bytes(t)
    case Scalars(t, _) => Fixed(t)
    case Blobs(t, _) => Bytes(t)
  }

  function Count(x: Value): nat
    requires x.Scalars? || x.Blobs?
  {
    if x.Scalars? then |x.vs| else |x.bs|
  }

  function Items(x: Value): seq<Byte>
    requires x.Scalars? || x.Blobs?
  {
    if x.Scalars? then Concat(EncodeFixed(x.sat), x.vs) else Concat(EncodeBytes, x.bs)
  }

  lemma ArrayParts(x: Value)
    requires x.Scalars? || x.Blobs?
    ensures Encode(x) == EncodeArrayHeader(Type(x), Count(x)) + Items(x)
  {
    hide EncodeArrayHeader, Concat, EncodeFixed, EncodeBytes, EncodeInt;
  }

  lemma ItemsRoundTrip(x: Value, rest: seq<Byte>)
    requires Typed(x) && (x.Scalars? || x.Blobs?)
    ensures ReadItems(Type(x), Count(x), Items(x) + rest) == Done(x, rest)
  {
    hide EncodeFixed, EncodeBytes, ReadFixed, ReadBytes, Fits, Width, Concat, ReadMany, AllRead;
    if x.Scalars? {
      FixedsAllRead(x.sat, x.vs);
      ManyRoundTrip(ReadFixed(x.sat), EncodeFixed(x.sat), x.vs, rest);
    } else {
      BlobsAllRead(x.bs);
      ManyRoundTrip(ReadBytes, EncodeBytes, x.bs, rest);
    }
  }

  lemma ItemsKeepCount(t: WireType, n: nat, s: seq<Byte>)
    ensures ReadItems(t, n, s).Done? ==>
      (ReadItems(t, n, s).value.Scalars? || ReadItems(t, n, s).value.Blobs?) && Count(ReadItems(t, n, s).value) == n
  {
    hide ReadFixed, ReadBytes;
  }

  /** A typed parameter decodes to itself, and takes exactly its own bytes, unless it is an
      array whose count is cut off by its cast to 16 (TINYINT: 32) bits; then it is not found. */
  lemma ValueRoundTrip(x: Value, rest: seq<Byte>)
    requires Typed(x)
    ensures Countable(x) ==> ReadValue(Encode(x) + rest) == Done(x, rest)
    ensures !Countable(x) ==> ReadValue(Encode(x) + rest).Fail? || ReadValue(Encode(x) + rest).value != x
  {
    if x.Null? {
      TagFits(NULL_TAG);
      ReadIntBack(1, NULL_TAG, rest);
    } else if x.Scalar? || x.Blob? {
      ScalarRoundTrip(x, rest);
    } else {
      hide EncodeInt, DecodeInt, EncodeArrayHeader, ReadValue, ReadItems, CountWidth;
      hide Concat, EncodeBytes, EncodeFixed, Fits;
      var t, n := Type(x), Count(x);
      assert Encode(x) + rest == EncodeArrayHeader(t, n) + (Items(x) + rest);
      ReadHeaderBack(t, n, Items(x) + rest);
      var c := DecodeInt(EncodeInt(CountWidth(t), n));
      ItemsRoundTrip(x, rest);
      if c != n && c >= 0 { ItemsKeepCount(t, c, Items(x) + rest); }
    }
  }

  // ---------- consumption ----------

  /** `read` takes as many bytes as the encoding of what it finds has. */
  ghost predicate Consumes<T(!new)>(read: seq<Byte> -> Parsed<T>, f: T -> seq<Byte>) {
    forall s :: read(s).Done? ==> |s| == |read(s).rest| + |f(read(s).value)|
  }

  lemma {:induction false} ManyConsume<T(!new)>(read: seq<Byte> -> Parsed<T>, f: T -> seq<Byte>, n: nat, s: seq<Byte>)
    requires Consumes(read, f)
    ensures ReadMany(read, n, s).Done? ==> |s| == |ReadMany(read, n, s).rest| + |Concat(f, ReadMany(read, n, s).value)|
  {
    if n > 0 && read(s).Done? {
      var x, more := read(s).value, read(s).rest;
      ManyConsume(read, f, n - 1, more);
      if ReadMany(read, n - 1, more).Done? {
        var xs := ReadMany(read, n - 1, more).value;
        assert ([x] + xs)[1..] == xs && ([x] + xs)[0] == x;
      }
    }
  }

  lemma BytesConsume(s: seq<Byte>)
    ensures ReadBytes(s).Done? ==> |s| == |ReadBytes(s).rest| + |EncodeBytes(ReadBytes(s).value)|
  {
    hide EncodeInt, DecodeInt;
  }

  lemma ItemsConsume(t: WireType, n: nat, s: seq<Byte>)
    ensures var r := ReadItems(t, n, s);
      r.Done? ==> (r.value.Scalars? || r.value.Blobs?) && Type(r.value) == t && Count(r.value) == n
                  && |s| == |r.rest| + |Items(r.value)|
  {
    hide ReadMany, Concat, EncodeInt, DecodeInt, ReadBytes, EncodeBytes, Width;
    match t {
      case Fixed(f) => ManyConsume(ReadFixed(f), EncodeFixed(f), n, s);
      case Bytes(_) =>
        forall u { BytesConsume(u); }
        ManyConsume(ReadBytes, EncodeBytes, n, s);
    }
  }

  lemma ArrayConsumes(s: seq<Byte>)
    ensures ReadArray(s).Done? ==> |s| + 1 == |ReadArray(s).rest| + |Encode(ReadArray(s).value)|
  {
    hide ReadItems, Concat, EncodeInt, DecodeInt;
    if ReadInt(1, s).Done? && TypeOfTag(ReadInt(1, s).value).Some? {
      var t, more := TypeOfTag(ReadInt(1, s).value).value, ReadInt(1, s).rest;
      var count := ReadInt(CountWidth(t), more);
      if count.Done? && count.value >= 0 { ItemsConsume(t, count.value, count.rest); }
    }
  }

  /** Whatever bytes a value is read from, they are as many as its own encoding has. */
  lemma ValueConsumes(s: seq<Byte>)
    ensures ReadValue(s).Done? ==> |s| == |ReadValue(s).rest| + |Encode(ReadValue(s).value)|
  {
    hide ReadArray, ReadBytes, EncodeBytes, EncodeInt, DecodeInt;
    if ReadInt(1, s).Done? {
      var rest := ReadInt(1, s).rest;
      ArrayConsumes(rest);
      BytesConsume(rest);
    }
  }

  /** A parameter list cannot be read from bytes that are longer than its encoding. */
  lemma ParametersConsume(s: seq<Byte>, xs: seq<Value>)
    requires ReadParameters(s) == Done(xs, [])
    ensures |s| == 2 + |Concat(Encode, xs)|
  {
    hide ReadValue, Encode, ReadMany, DecodeInt;
    forall u { ValueConsumes(u); }
    var n := ReadInt(2, s).value;
    ManyConsume(ReadValue, Encode, n, ReadInt(2, s).rest);
  }

  // ---------- parameter lists ----------

  function EncodeParameters(count: nat, xs: seq<Value>): seq<Byte> { EncodeInt(2, count) + Concat(Encode, xs) }

  function ReadParameters(s: seq<Byte>): Parsed<seq<Value>> {
    match ReadInt(2, s)
    case Fail => Fail
    case Done(n, rest) => if n < 0 then Fail else ReadMany(ReadValue, n, rest)
  }

  predicate AllTyped(xs: seq<Value>) { forall i :: 0 <= i < |xs| ==> Typed(xs[i]) }
  predicate AllCountable(xs: seq<Value>) { forall i :: 0 <= i < |xs| ==> Countable(xs[i]) }

  lemma {:induction false} ValuesRoundTrip(xs: seq<Value>, rest: seq<Byte>)
    requires AllTyped(xs)
    ensures AllCountable(xs) ==> ReadMany(ReadValue, |xs|, Concat(Encode, xs) + rest) == Done(xs, rest)
    ensures !AllCountable(xs) ==> ReadMany(ReadValue, |xs|, Concat(Encode, xs) + rest) != Done(xs, rest)
  {
    hide ReadValue, Encode, Typed, Countable;
    if xs == [] {
      assert Concat(Encode, xs) + rest == rest;
    } else {
      var more := Concat(Encode, xs[1..]) + rest;
      assert Concat(Encode, xs) + rest == Encode(xs[0]) + more;
      ValueRoundTrip(xs[0], more);
      ValuesRoundTrip(xs[1..], rest);
      assert [xs[0]] + xs[1..] == xs;
      if ReadMany(ReadValue, |xs|, Concat(Encode, xs) + rest) == Done(xs, rest) {
        var r := ReadMany(ReadValue, |xs| - 1, ReadValue(Encode(xs[0]) + more).rest);
        assert ([ReadValue(Encode(xs[0]) + more).value] + r.value)[1..] == r.value;
      }
    }
  }

  /** A parameter list is found again, with nothing left over, if and only if neither its own
      count nor that of an array in it is cut off. */
  lemma ParametersRoundTrip(xs: seq<Value>)
    requires AllTyped(xs)
    ensures ReadParameters(EncodeParameters(|xs|, xs)) == Done(xs, []) <==> Fits(2, |xs|) && AllCountable(xs)
  {
    hide ReadInt, EncodeInt, DecodeInt, Concat, ReadValue, Encode, Fits, AllCountable;
    var body := Concat(Encode, xs);
    ReadIntBack(2, |xs|, body);
    ValuesRoundTrip(xs, []);
    assert body + [] == body;
  }
}
