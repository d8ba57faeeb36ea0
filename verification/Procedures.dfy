/** Procedure calls on the wire, and the router that reads the partitioning parameter back out
    of the serialized call. */
module Procedures {
  import opened Words
  import opened WireFormat
  import opened ByteBuffers
  import opened ParameterState
  import opened ParameterSets

  // ---------- the message ----------

  /** A call behind its length prefix: version, name, client data, parameters. */
  function Call(name: seq<Byte>, clientData: int, s: State): seq<Byte> {
    EncodeInt(1, 0) + (EncodeBytes(name) + (EncodeInt(8, clientData) + Image(s)))
  }

  function Size(name: seq<Byte>, s: State): nat { 5 + 4 + |name| + |Image(s)| + 8 }

  function Request(name: seq<Byte>, clientData: int, s: State): seq<Byte> {
    EncodeInt(4, Size(name, s) - 4) + Call(name, clientData, s)
  }

  lemma RequestSize(name: seq<Byte>, clientData: int, s: State)
    ensures |Request(name, clientData, s)| == Size(name, s)
  {
  }

  datatype Procedure = Procedure(name: seq<Byte>, clientData: int, values: seq<Value>)

  function ReadCall(s: seq<Byte>): Parsed<Procedure> {
    match ReadInt(1, s)
    case Fail => Fail
    case Done(version, s1) =>
      match ReadBytes(s1)
      case Fail => Fail
      case Done(name, s2) =>
        match ReadInt(8, s2)
        case Fail => Fail
        case Done(id, s3) =>
          match ReadParameters(s3)
          case Fail => Fail
          case Done(values, rest) => if version != 0 then Fail else Done(Procedure(name, id, values), rest)
  }

  /** What reading a call comes down to, once name and client data are in range. */
  lemma ReadCallSplits(name: seq<Byte>, clientData: int, s: State)
    requires Fits(4, |name|) && Fits(8, clientData)
    ensures ReadCall(Call(name, clientData, s)) ==
            match ReadParameters(Image(s))
            case Fail => Fail
            case Done(values, rest) => Done(Procedure(name, clientData, values), rest)
  {
    hide ReadInt, ReadBytes, ReadParameters, EncodeInt, EncodeBytes, DecodeInt, Image;
    var tail := EncodeInt(8, clientData) + Image(s);
    TagFits0();
    ReadIntBack(1, 0, EncodeBytes(name) + tail);
    ReadBytesBack(name, tail);
    ReadIntBack(8, clientData, Image(s));
  }

  lemma TagFits0()
    ensures Fits(1, 0)
  {
  }

  /** The call decodes to its name, client data and values if and only if none is torn and no count
      is cut off. */
  lemma CallRoundTrip(name: seq<Byte>, clientData: int, s: State)
    requires Fits(4, |name|) && Fits(8, clientData) && Inv(s) && |s.values| == |s.declared|
    ensures ReadCall(Call(name, clientData, s)) == Done(Procedure(name, clientData, s.values), []) <==>
            !s.torn && Fits(2, |s.values|) && AllCountable(s.values)
  {
    hide Fits, AllCountable, ReadParameters, Inv;
    ReadCallSplits(name, clientData, s);
    ImageDecodes(s);
  }

  method GetSerializedSize(name: seq<Byte>, params: ParameterSet) returns (size: Option<nat>)
    requires params.Valid()
    ensures size == if |params.values| == |params.parameters| then Some(Size(name, params.Abs())) else None
  {
    hide Image;
    var p := params.GetSerializedSize();
    if p.None? { return None; }
    size := Some(5 + 4 + |name| + p.value + 8);
  }

  /** Fills a buffer of the serialized size exactly: its limit ends up at that size and it holds
      the request. */
  method SerializeTo(name: seq<Byte>, params: ParameterSet, buffer: ByteBuffer, clientData: int) returns (ok: bool)
    requires params.Valid() && buffer.Valid() && buffer != params.buffer && buffer.data != params.buffer.data
    requires buffer.limit == Size(name, params.Abs())
    modifies params, params.buffer, params.buffer.data, buffer, buffer.data
    ensures params.Valid() && buffer.Valid() && ok == Step(old(params.Abs()), Serialize).1.Emitted?
    ensures params.Abs() == Step(old(params.Abs()), Serialize).0
    ensures ok ==> buffer.position == 0 && buffer.limit == old(buffer.limit)
    ensures ok ==> buffer.Left() == Request(name, clientData, old(params.Abs()))
  {
    ghost var s := params.Abs();
    hide EncodeInt, Image, Call, Size, ByteBuffer.Log, ByteBuffer.Left, ByteBuffer.Window, ParameterSet.Valid, Step;
    ghost var start;
    ok, start := PutCall(name, params, buffer, clientData);
    if ok {
      CallLength(name, clientData, s);
      FinishRequest(buffer, start, Call(name, clientData, s));
    }
  }

  method FinishRequest(buffer: ByteBuffer, ghost start: seq<Byte>, ghost call: seq<Byte>)
    requires buffer.Valid() && |start| == 4 && buffer.Log() == start + call
    modifies buffer`position, buffer`limit, buffer.data
    ensures buffer.Valid() && buffer.position == 0 && buffer.limit == 4 + |call|
    ensures buffer.Left() == EncodeInt(4, |call|) + call
  {
    hide EncodeInt, ByteBuffer.Log, ByteBuffer.Left, ByteBuffer.Window;
    buffer.LogIs();
    buffer.Flip();
    PutPrefix(buffer, start, call);
  }

  lemma CallLength(name: seq<Byte>, clientData: int, s: State)
    ensures |Call(name, clientData, s)| == Size(name, s) - 4
  {
  }

  /** The call behind the place of its prefix. */
  method PutCall(name: seq<Byte>, params: ParameterSet, buffer: ByteBuffer, clientData: int)
    returns (ok: bool, ghost start: seq<Byte>)
    requires params.Valid() && buffer.Valid() && buffer != params.buffer && buffer.data != params.buffer.data
    requires buffer.limit == Size(name, params.Abs())
    modifies params, params.buffer, params.buffer.data, buffer`position, buffer.data
    ensures params.Valid() && buffer.Valid() && ok == Step(old(params.Abs()), Serialize).1.Emitted?
    ensures params.Abs() == Step(old(params.Abs()), Serialize).0 && params.buffer.data == old(params.buffer.data)
    ensures |start| == 4 && (ok ==> buffer.Log() == start + Call(name, clientData, old(params.Abs())))
  {
    ghost var s := params.Abs();
    hide EncodeInt, EncodeBytes, Image, Call, ByteBuffer.Log;
    hide ByteBuffer.Left, ByteBuffer.Window, ParameterSet.Valid, Step;
    start := PutHead(name, buffer, clientData, Size(name, s));
    ok := params.SerializeTo(buffer);
    if ok {
      EmitsImage(s);
      CallParts(start, name, clientData, s);
    }
  }

  lemma EmitsImage(s: State)
    requires s.capacity > 0 && Step(s, Serialize).1.Emitted?
    ensures Step(s, Serialize).1.bytes == Image(s)
  {
  }

  lemma CallParts(start: seq<Byte>, name: seq<Byte>, clientData: int, s: State)
    ensures start + (EncodeInt(1, 0) + EncodeBytes(name) + EncodeInt(8, clientData)) + Image(s) ==
            start + Call(name, clientData, s)
  {
    hide EncodeInt, EncodeBytes, Image;
  }

  /** Leaves room for the prefix and writes what comes before the parameters. */
  method PutHead(name: seq<Byte>, buffer: ByteBuffer, clientData: int, ghost size: nat) returns (ghost start: seq<Byte>)
    requires buffer.Valid() && buffer.limit == size >= 19 + |name|
    modifies buffer`position, buffer.data
    ensures buffer.Valid() && |start| == 4 && buffer.position == 17 + |name|
    ensures buffer.Log() == start + (EncodeInt(1, 0) + EncodeBytes(name) + EncodeInt(8, clientData))
  {
    hide EncodeInt, EncodeBytes, ByteBuffer.Log, ByteBuffer.Left, ByteBuffer.Window;
    var _ := buffer.SetPosition(4);
    start := buffer.Log();
    var _ := buffer.PutInt(1, 0);
    var _ := buffer.PutBytes(name);
    var _ := buffer.PutInt(8, clientData);
    assert buffer.Log() == start + (EncodeInt(1, 0) + EncodeBytes(name) + EncodeInt(8, clientData));
  }

  /** Overwrites the first four bytes with the number of bytes behind them. */
  method PutPrefix(buffer: ByteBuffer, ghost start: seq<Byte>, ghost call: seq<Byte>)
    requires buffer.Valid() && |start| == 4 && buffer.position == 0 && buffer.Left() == start + call
    modifies buffer.data
    ensures buffer.Left() == EncodeInt(4, |call|) + call
  {
    hide EncodeInt, ByteBuffer.Left, ByteBuffer.Window;
    ghost var b, n := buffer.base, buffer.limit;
    buffer.LeftIs();
    ghost var before := buffer.data[..];
    CutSlice(before, b, b + n, start, call);
    var _ := buffer.PutAt(0, EncodeInt(4, buffer.limit - 4));
    SameSlice(before, buffer.data[..], b + 4, b + n);
    JoinSlices(buffer.data[..], b, b + 4, b + n);
    assert buffer.data[..][b..b + 4] == EncodeInt(4, |call|);
    buffer.LeftIs();
  }

  // ---------- the router ----------

  const INT64_MIN := -0x8000_0000_0000_0000

  /** A string that may be null. */
  function ReadString(s: seq<Byte>): Parsed<Option<seq<Byte>>> {
    match ReadInt(4, s)
    case Fail => Fail
    case Done(n, rest) =>
      if n == -1 then Done(None, rest)
      else match TakeBytes(n, rest) case Fail => Fail case Done(b, more) => Done(Some(b), more)
  }

  datatype Hashes = Hashes(ofLong: int -> int, ofBytes: seq<Byte> -> int)

  function HashLong(h: Hashes, v: int): int { if v != INT64_MIN then h.ofLong(v) else -1 }

  /** The partition for the parameter at the front of `s`; `None` is an exception. */
  function ParseParameter(h: Hashes, s: seq<Byte>): Option<int> {
    match ReadInt(1, s)
    case Fail => None
    case Done(tag, rest) =>
      match TypeOfTag(tag)
      case Some(Fixed(Decimal)) => Some(-1)
      case Some(Fixed(t)) => (match ReadInt(Width(t), rest) case Fail => None case Done(v, _) => Some(HashLong(h, v)))
      case Some(Bytes(String)) =>
        (match ReadString(rest)
         case Fail => None
         case Done(None, _) => Some(0)
         case Done(Some(b), _) => Some(h.ofBytes(b)))
      case _ => Some(-1)
  }

  function Route(h: Hashes, s: seq<Byte>, parameterId: int): Option<int> {
    if |s| < 5 then None
    else match ReadString(s[5..])
      case Fail => None
      case Done(_, s1) =>
        match ReadInt(8, s1)
        case Fail => None
        case Done(_, s2) =>
          match ReadInt(2, s2)
          case Fail => None
          case Done(_, s3) => if parameterId > 0 then Some(-1) else ParseParameter(h, s3)
  }

  /** What the router should make of a parameter. */
  function PartitionOf(h: Hashes, x: Value): int {
    match x
    case Scalar(Decimal, _) => -1
    case Scalar(_, v) => HashLong(h, v)
    case Blob(String, b) => h.ofBytes(b)
    case _ => -1
  }

  lemma ParseRecovers(h: Hashes, x: Value, rest: seq<Byte>)
    requires Typed(x)
    ensures ParseParameter(h, Encode(x) + rest) == Some(PartitionOf(h, x))
  {
    hide EncodeInt, DecodeInt, ReadInt, Width, Fits;
    if x.Scalar? {
      var body := EncodeInt(Width(x.st), x.v);
      ReadTag(Tag(Fixed(x.st)), body + rest);
      TagsAreDistinct(Fixed(x.st));
      assert Encode(x) + rest == EncodeInt(1, Tag(Fixed(x.st))) + (body + rest);
      ReadIntBack(Width(x.st), x.v, rest);
    } else if x.Blob? {
      ReadTag(Tag(Bytes(x.bt)), EncodeBytes(x.b) + rest);
      TagsAreDistinct(Bytes(x.bt));
      assert Encode(x) + rest == EncodeInt(1, Tag(Bytes(x.bt))) + (EncodeBytes(x.b) + rest);
      ReadStringBack(x.b, rest);
    } else {
      var tag := if x.Null? then NULL_TAG else ARRAY_TAG;
      var more := (Encode(x) + rest)[1..];
      assert Encode(x)[..1] == EncodeInt(1, tag);
      assert Encode(x) + rest == EncodeInt(1, tag) + more;
      ReadTag(tag, more);
    }
  }

  lemma ReadTag(tag: int, rest: seq<Byte>)
    requires tag == ARRAY_TAG || tag == NULL_TAG || tag in {3, 4, 5, 6, 8, 9, 11, 22, 25}
    ensures ReadInt(1, EncodeInt(1, tag) + rest) == Done(tag, rest)
  {
    TagFits(tag);
    ReadIntBack(1, tag, rest);
  }

  lemma ReadStringBack(b: seq<Byte>, rest: seq<Byte>)
    requires Fits(4, |b|)
    ensures ReadString(EncodeBytes(b) + rest) == Done(Some(b), rest)
  {
    hide EncodeInt, DecodeInt;
    ReadIntBack(4, |b|, b + rest);
    assert EncodeBytes(b) + rest == EncodeInt(4, |b|) + (b + rest);
    assert (b + rest)[..|b|] == b && (b + rest)[|b|..] == rest;
  }

  /** The router finds the first parameter of any serialized call: the integer it was given,
      the bytes of the string, or -1. Without parameters there is nothing to find. */
  lemma RouterRecovers(h: Hashes, name: seq<Byte>, clientData: int, s: State, parameterId: int)
    requires Fits(4, |name|) && Inv(s) && |s.values| == |s.declared|
    ensures Route(h, Request(name, clientData, s), parameterId) ==
            if parameterId > 0 then Some(-1)
            else if s.values == [] then None
            else Some(PartitionOf(h, s.values[0]))
  {
    hide ReadInt, ReadString, EncodeInt, EncodeBytes, DecodeInt, ParseParameter, PartitionOf, Inv;
    var request := Request(name, clientData, s);
    var tail := EncodeInt(8, clientData) + Image(s);
    assert request[5..] == EncodeBytes(name) + tail;
    ReadStringBack(name, tail);
    ReadIntBack(8, clientData, Image(s));
    ReadIntBack(2, |s.declared|, s.body);
    BodyRoutes(h, s);
  }

  /** The body's first bytes decide; where doubles are expected, torn or not, they say -1. */
  lemma BodyRoutes(h: Hashes, s: State)
    requires Inv(s) && |s.values| == |s.declared|
    ensures ParseParameter(h, s.body) == if s.values == [] then None else Some(PartitionOf(h, s.values[0]))
  {
    hide ReadInt, EncodeInt, DecodeInt, Encode, Typed, ParseParameter;
    if s.values == [] {
      assert s.declared == [] && s.body == [];
      NothingToParse(h);
    } else {
      assert Suits(s.values[0], s.declared[0]);
      if Encode(s.values[0]) <= s.body {
        var rest := s.body[|Encode(s.values[0])|..];
        assert s.body == Encode(s.values[0]) + rest;
        ParseRecovers(h, s.values[0], rest);
      } else {
        ArrayOrNullRoutes(h, s.body);
      }
    }
  }

  lemma ArrayOrNullRoutes(h: Hashes, body: seq<Byte>)
    requires ArrayOrNull(body)
    ensures ParseParameter(h, body) == Some(-1)
  {
    hide ReadInt, EncodeInt, DecodeInt;
    var tag := if body[..1] == EncodeInt(1, ARRAY_TAG) then ARRAY_TAG else NULL_TAG;
    assert body == EncodeInt(1, tag) + body[1..];
    ReadTag(tag, body[1..]);
  }

  lemma NothingToParse(h: Hashes)
    ensures ParseParameter(h, []) == None
  {
  }

  ghost predicate Gives<T(!new)>(r: Option<T>, p: Parsed<T>, rest: seq<Byte>) {
    match p
    case Fail => r == None
    case Done(x, more) => r == Some(x) && more == rest
  }

  ghost function From(s: seq<Byte>, index: int): seq<Byte> { if 0 <= index <= |s| then s[index..] else [] }

  /** Reading at an index is reading off the front of what starts there. */
  method IntAt(buffer: ByteBuffer, index: nat, width: nat) returns (v: Option<int>)
    requires buffer.Valid() && buffer.position == 0 && width > 0
    ensures Gives(v, ReadInt(width, From(buffer.Left(), index)), From(buffer.Left(), index + width))
    ensures v.Some? ==> index + width <= buffer.limit
  {
    hide DecodeInt, ByteBuffer.Left, ByteBuffer.Window;
    v := buffer.GetIntAt(index, width);
    if v.Some? { SliceOfRest(buffer.Window(), index, width); }
  }

  method BytesAt(buffer: ByteBuffer, index: nat, n: int) returns (bytes: Option<seq<Byte>>)
    requires buffer.Valid() && buffer.position == 0 && index <= buffer.limit
    ensures Gives(bytes, TakeBytes(n, From(buffer.Left(), index)), From(buffer.Left(), index + n))
    ensures bytes.Some? ==> index + n <= buffer.limit && |bytes.value| == n
  {
    hide ByteBuffer.Left, ByteBuffer.Window;
    bytes := buffer.GetAt(index, n);
    if bytes.Some? { SliceOfRest(buffer.Window(), index, n); }
  }

  method StringAt(buffer: ByteBuffer, index: nat) returns (r: Option<Option<seq<Byte>>>)
    requires buffer.Valid() && buffer.position == 0
    ensures var size := if r.Some? && r.value.Some? then |r.value.value| else 0;
            && Gives(r, ReadString(From(buffer.Left(), index)), From(buffer.Left(), index + 4 + size))
            && (r.Some? ==> index + 4 + size <= buffer.limit)
  {
    hide DecodeInt, ReadInt, TakeBytes, From, ByteBuffer.Left, ByteBuffer.Window;
    var n := IntAt(buffer, index, 4);
    if n.None? { return None; }
    if n.value == -1 { return Some(None); }
    var bytes := BytesAt(buffer, index + 4, n.value);
    if bytes.None? { return None; }
    return Some(bytes);
  }

  method ParseParameterAt(h: Hashes, buffer: ByteBuffer, index: nat) returns (r: Option<int>)
    requires buffer.Valid() && buffer.position == 0
    ensures r == ParseParameter(h, From(buffer.Left(), index))
  {
    hide ReadInt, ReadString, From, ByteBuffer.Left, ByteBuffer.Window;
    var tag := IntAt(buffer, index, 1);
    if tag.None? { return None; }
    var at := index + 1;
    var v: Option<int>;
    match tag.value {
      case 3 => v := IntAt(buffer, at, 1);
      case 4 => v := IntAt(buffer, at, 2);
      case 5 => v := IntAt(buffer, at, 4);
      case 6 | 8 | 11 => v := IntAt(buffer, at, 8);
      case 9 =>
        var text := StringAt(buffer, at);
        return match text case None => None case Some(None) => Some(0) case Some(Some(b)) => Some(h.ofBytes(b));
      case _ => return Some(-1);
    }
    if v.None? { return None; }
    return Some(if v.value != INT64_MIN then h.ofLong(v.value) else -1);
  }

  /** The router reads any bytes the way `Route` does. */
  method GetHashedPartition(h: Hashes, buffer: ByteBuffer, parameterId: int) returns (r: Option<int>)
    requires buffer.Valid() && buffer.position == 0
    ensures r == Route(h, buffer.Left(), parameterId)
  {
    hide ReadInt, ReadString, DecodeInt, ParseParameter, ByteBuffer.Left, ByteBuffer.Window;
    ghost var s := buffer.Left();
    var index := 5;
    var name := StringAt(buffer, index);
    if name.None? {
      NoString();
      return None;
    }
    index := index + 4 + (if name.value.Some? then |name.value.value| else 0) + 8;
    var count := IntAt(buffer, index, 2);
    SkipClientData(From(s, index - 8));
    assert From(s, index) == From(From(s, index - 8), 8);
    if count.None? { return None; }
    index := index + 2;
    if parameterId > 0 { return Some(-1); }
    r := ParseParameterAt(h, buffer, index);
  }

  lemma NoString()
    ensures ReadString([]) == Fail
  {
  }

  /** Skipping without looking fails later, but fails on the same bytes. */
  lemma SkipClientData(s: seq<Byte>)
    ensures ReadInt(2, From(s, 8)).Done? ==> ReadInt(8, s).Done? && ReadInt(8, s).rest == From(s, 8)
    ensures ReadInt(8, s).Done? ==> ReadInt(8, s).rest == From(s, 8)
  {
  }
}
