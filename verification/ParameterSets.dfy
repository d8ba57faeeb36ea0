/** The parameter set object: it keeps the values encoded in a growing buffer, and each of its
    methods is a step of the state machine in `ParameterState`, after an overflow too. */
module ParameterSets {
  import opened Words
  import opened WireFormat
  import opened ByteBuffers
  import opened ParameterState
  import ParameterCalls

  const LARGEST := 0x4000_0000

  class ParameterSet {
    var parameters: seq<Parameter>
    const buffer: ByteBuffer
    var currentParam: nat
    var dynamicCount: bool
    ghost var values: seq<Value>
    ghost var body: seq<Byte>
    ghost var torn: bool

    ghost predicate Sized() reads this, buffer { buffer.Valid() && buffer.capacity >= 8192 }

    ghost predicate Shaped() reads this, buffer { Sized() && buffer.limit == buffer.capacity }

    /** The buffer holds the declared count and then the body. */
    ghost predicate Valid()
      reads this, buffer, buffer.data
    {
      Shaped() && currentParam == |values| && buffer.Log() == Image(Abs())
    }

    ghost function Abs(): State
      reads this, buffer
    {
      State(parameters, values, dynamicCount, buffer.capacity, body, torn)
    }

    /** A set for a known signature. */
    constructor Signature(signature: seq<Parameter>)
      ensures Valid() && Abs() == NewSet(signature) && fresh(buffer) && fresh(buffer.data)
    {
      hide EncodeInt;
      parameters, currentParam, dynamicCount, values, body, torn := signature, 0, false, [], [], false;
      buffer := new ByteBuffer.Allocate(8192);
      new;
      assert buffer.Log() == [];
      var _ := buffer.PutInt(2, |parameters|);
    }

    /** A set that learns its signature. Its buffer is empty, without a count, until the first reset. */
    constructor Dynamic()
      ensures Shaped() && Abs() == NewSet([]).(dynamic := true) && buffer.Log() == []
      ensures fresh(buffer) && fresh(buffer.data)
    {
      parameters, currentParam, dynamicCount, values, body, torn := [], 0, true, [], [], false;
      buffer := new ByteBuffer.Allocate(8192);
    }

    method DoReset()
      requires Sized()
      modifies this`currentParam, this`values, this`body, this`torn, buffer, buffer.data
      ensures Valid() && Abs() == Step(old(Abs()), Reset).0 && buffer.data == old(buffer.data)
    {
      hide EncodeInt;
      buffer.Clear();
      currentParam, values, body, torn := 0, [], [], false;
      assert buffer.Log() == [];
      var _ := buffer.PutInt(2, |parameters|);
    }

    /** Overwrites the count. */
    method PutParametersSize()
      requires Shaped() && buffer.position >= 2
      modifies buffer.data
      ensures buffer.Log() == EncodeInt(2, |parameters|) + old(buffer.Log()[2..])
    {
      hide EncodeInt;
      ghost var b, n := buffer.base, buffer.position;
      ghost var before := buffer.data[..];
      var _ := buffer.PutAt(0, EncodeInt(2, |parameters|));
      SameSlice(before, buffer.data[..], b + 2, b + n);
      assert buffer.data[..][b + 2..b + n] == buffer.data[b + 2..b + n];
    }

    /** Declares the type if the signature is open, then checks it. */
    method ValidateType(p: Parameter) returns (ok: bool)
      requires Valid()
      modifies this`parameters, buffer.data
      ensures Valid() && Abs() == Declare(old(Abs()), p) && ok == Expects(Abs(), p)
    {
      hide EncodeInt, ByteBuffer.Log;
      assert buffer.Log()[2..] == body;
      if currentParam + 1 > |parameters| && dynamicCount {
        parameters := parameters + [p];
        PutParametersSize();
      }
      ok := currentParam < |parameters| && parameters[currentParam] == p;
    }

    /** Counts the value just written. */
    method Finish(ghost x: Value)
      requires Shaped() && currentParam == |values| && buffer.Log() == Image(Abs()) + Encode(x)
      modifies this`values, this`body, this`currentParam
      ensures Valid() && Abs() == Push(old(Abs()), x)
    {
      hide Encode, EncodeInt, ByteBuffer.Log;
      assert Image(Abs()) + Encode(x) == EncodeInt(2, |parameters|) + (body + Encode(x));
      currentParam := currentParam + 1;
      values, body := values + [x], body + Encode(x);
    }

    method AddNullValue() returns (ok: bool)
      requires Valid() && buffer.position < LARGEST
      modifies this, buffer, buffer.data
      ensures Valid() && (Abs(), if ok then Accepted else Mismatch) == Step(old(Abs()), AddNull)
      ensures buffer.data == old(buffer.data) || fresh(buffer.data)
    {
      hide EncodeInt, ByteBuffer.Log, Image;
      if currentParam > |parameters| { return false; }
      ghost var s := Abs();
      assert Used(s) == buffer.position by { ImageLength(s); }
      buffer.EnsureRemaining(1);
      SameImage(s, Abs());
      var _ := buffer.PutInt(1, NULL_TAG);
      Finish(Null);
      return true;
    }

    method PutScalar(t: FixedType, v: int)
      requires Shaped() && buffer.position + 1 + Width(t) <= LARGEST
      modifies buffer, buffer.data
      ensures Shaped() && buffer.Log() == old(buffer.Log()) + Encode(Scalar(t, v))
      ensures buffer.capacity == Grown(old(buffer.capacity), old(buffer.position), Reserved(Scalar(t, v)))
      ensures buffer.data == old(buffer.data) || fresh(buffer.data)
    {
      hide EncodeInt, Width, Tag, ByteBuffer.Log;
      buffer.EnsureRemaining(1 + Width(t));
      var _ := buffer.PutInt(1, Tag(Fixed(t)));
      var _ := buffer.PutInt(Width(t), v);
      assert buffer.Log() == old(buffer.Log()) + Encode(Scalar(t, v));
    }

    method AddScalar(t: FixedType, v: int) returns (ok: bool)
      requires Valid() && Fits(Width(t), v) && buffer.position + 1 + Width(t) <= LARGEST
      modifies this, buffer, buffer.data
      ensures Valid() && (Abs(), if ok then Accepted else Mismatch) == Step(old(Abs()), Add(Scalar(t, v)))
      ensures ok <==> ParameterCalls.Fitting(old(Abs()), Fixed(t), false)
      ensures ok ==> values == old(values) + [Scalar(t, v)] && body == old(body) + Encode(Scalar(t, v))
      ensures buffer.data == old(buffer.data) || fresh(buffer.data)
    {
      ParameterCalls.AddOutcome(Abs(), Scalar(t, v));
      hide Image, Width, Fits, Encode, ByteBuffer.Log, Grown, Reserved, Push;
      ok := ValidateType(Parameter(Fixed(t), false));
      if ok {
        ghost var s := Abs();
        ImageLength(s);
        PutScalar(t, v);
        SameImage(s, Abs());
        Finish(Scalar(t, v));
      }
    }

    method PutBlob(t: BytesType, b: seq<Byte>)
      requires Shaped() && buffer.position + 5 + |b| <= LARGEST
      modifies buffer, buffer.data
      ensures Shaped() && buffer.Log() == old(buffer.Log()) + Encode(Blob(t, b))
      ensures buffer.capacity == Grown(old(buffer.capacity), old(buffer.position), Reserved(Blob(t, b)))
      ensures buffer.data == old(buffer.data) || fresh(buffer.data)
    {
      hide EncodeInt, Tag, EncodeBytes, ByteBuffer.Log;
      buffer.EnsureRemaining(1 + 4 + |b|);
      var _ := buffer.PutInt(1, Tag(Bytes(t)));
      var _ := buffer.PutBytes(b);
      assert buffer.Log() == old(buffer.Log()) + Encode(Blob(t, b));
    }

    /** A string or binary value; without a value, a null. */
    method AddBytes(t: BytesType, value: Option<seq<Byte>>) returns (ok: bool)
      requires Valid() && (value.Some? ==> Fits(4, |value.value|))
      requires buffer.position + 5 + (if value.Some? then |value.value| else 0) <= LARGEST
      modifies this, buffer, buffer.data
      ensures Valid()
      ensures (Abs(), if ok then Accepted else Mismatch) ==
              Step(old(Abs()), if value.Some? then Add(Blob(t, value.value)) else AddTypedNull(t))
      ensures ok <==> ParameterCalls.Fitting(old(Abs()), Bytes(t), false)
      ensures ok ==>
        var x := if value.Some? then Blob(t, value.value) else Null;
        values == old(values) + [x] && body == old(body) + Encode(x)
      ensures buffer.data == old(buffer.data) || fresh(buffer.data)
    {
      if value.Some? { ParameterCalls.AddOutcome(Abs(), Blob(t, value.value)); }
      else { ParameterCalls.TypedNullOutcome(Abs(), t); ParameterCalls.NullByte(); }
      hide Image, Fits, Encode, ByteBuffer.Log, Grown, Reserved, Push;
      ok := ValidateType(Parameter(Bytes(t), false));
      if ok && value.Some? {
        ghost var s := Abs();
        ImageLength(s);
        PutBlob(t, value.value);
        SameImage(s, Abs());
        Finish(Blob(t, value.value));
      } else if ok {
        ok := AddNullValue();
      }
    }

    /** Tag, element type and count of an array. */
    method PutArrayHeader(t: WireType, n: nat) returns (ok: bool)
      requires Shaped() && 2 <= buffer.limit - buffer.position
      modifies buffer`position, buffer.data
      ensures Shaped() && (ok <==> 2 + CountWidth(t) <= buffer.limit - old(buffer.position))
      ensures buffer.Log() == old(buffer.Log()) + if ok then EncodeArrayHeader(t, n) else EncodeArrayHeader(t, n)[..2]
    {
      hide EncodeInt, Tag, CountWidth, ByteBuffer.Log;
      ok := buffer.PutInt(1, ARRAY_TAG);
      ok := buffer.PutInt(1, Tag(t));
      ghost var tags := EncodeInt(1, ARRAY_TAG) + EncodeInt(1, Tag(t));
      assert buffer.Log() == old(buffer.Log()) + tags;
      ok := buffer.PutInt(CountWidth(t), n);
      assert EncodeArrayHeader(t, n)[..2] == tags;
      assert ok ==> buffer.Log() == old(buffer.Log()) + EncodeArrayHeader(t, n);
    }

    /** The elements one by one, stopping at the first that does not fit. */
    method PutScalars(t: FixedType, vs: seq<int>) returns (ok: bool, done: nat)
      requires Shaped() && buffer.position <= buffer.limit
      modifies buffer`position, buffer.data
      ensures Shaped() && (ok <==> Width(t) * |vs| <= buffer.limit - old(buffer.position))
      ensures done <= |vs| && buffer.Log() == old(buffer.Log()) + Concat(EncodeFixed(t), vs[..done])
      ensures ok ==> done == |vs|
      ensures !ok ==> Width(t) * done <= buffer.limit - old(buffer.position) < Width(t) * (done + 1)
    {
      hide EncodeInt, Width, Concat, ByteBuffer.Log;
      NothingToConcat(EncodeFixed(t));
      done := 0;
      while done < |vs|
        invariant done <= |vs| && Shaped() && buffer.data == old(buffer.data) && buffer.limit == old(buffer.limit)
        invariant buffer.position == old(buffer.position) + Width(t) * done <= buffer.limit
        invariant buffer.Log() == old(buffer.Log()) + Concat(EncodeFixed(t), vs[..done])
      {
        assert Width(t) * (done + 1) == Width(t) * done + Width(t);
        ok := buffer.PutInt(Width(t), vs[done]);
        if !ok {
          Monotone(Width(t), done + 1, |vs|);
          return;
        }
        assert vs[..done + 1] == vs[..done] + [vs[done]];
        ConcatAppend(EncodeFixed(t), vs[..done], vs[done]);
        done := done + 1;
      }
      ok := true;
    }

    /** An array of numbers. The one adder that can run over the end of the buffer: then it counts
        nothing, and what it wrote stays. */
    method AddScalars(t: FixedType, vs: seq<int>) returns (outcome: Outcome)
      requires Valid() && Typed(Scalars(t, vs)) && buffer.position + Reserved(Scalars(t, vs)) <= LARGEST
      modifies this, buffer, buffer.data
      ensures Valid() && (Abs(), outcome) == Step(old(Abs()), Add(Scalars(t, vs)))
      ensures buffer.data == old(buffer.data) || fresh(buffer.data)
    {
      hide Image, Typed, Encode, ByteBuffer.Log, Grown, Reserved, Push, RunsOver, TornPart;
      var fits := ValidateType(Parameter(Fixed(t), true));
      if !fits { return Mismatch; }
      ghost var s, x := Abs(), Scalars(t, vs);
      ImageLength(s);
      var ok := PutScalarArray(t, vs);
      SameImage(s, Abs());
      if ok {
        Finish(x);
        return Accepted;
      }
      Tear(s, vs);
      return Overflow;
    }

    ghost method Tear(s: State, vs: seq<int>)
      requires Shaped() && currentParam == |values| && Abs().(capacity := s.capacity) == s
      requires buffer.Log() == Image(s) + TornPart(vs)
      modifies this`body, this`torn
      ensures Valid() && Abs() == s.(capacity := buffer.capacity, body := s.body + TornPart(vs), torn := true)
    {
      hide TornPart, EncodeInt, ByteBuffer.Log;
      assert Image(s) + TornPart(vs) == EncodeInt(2, |parameters|) + (body + TornPart(vs));
      body, torn := body + TornPart(vs), true;
    }

    method PutScalarArray(t: FixedType, vs: seq<int>) returns (ok: bool)
      requires Shaped() && buffer.position + Reserved(Scalars(t, vs)) <= LARGEST
      modifies buffer, buffer.data
      ensures Shaped() && (ok <==> !RunsOver(old(buffer.capacity), old(buffer.position), Scalars(t, vs)))
      ensures buffer.capacity == Grown(old(buffer.capacity), old(buffer.position), Reserved(Scalars(t, vs)))
      ensures buffer.Log() == old(buffer.Log()) + if ok then Encode(Scalars(t, vs)) else TornPart(vs)
      ensures buffer.data == old(buffer.data) || fresh(buffer.data)
    {
      hide EncodeInt, Width, Tag, Concat, CountWidth, EncodeArrayHeader, ByteBuffer.Log;
      hide RunsOver, TornPart, Encode, Reserved, Room;
      ghost var capacity, used := buffer.capacity, buffer.position;
      ReservedIs(t, vs);
      buffer.EnsureRemaining(Room(t, |vs|));
      ghost var left := buffer.limit - buffer.position;
      ArrayRoom(capacity, used, t, vs);
      ok := PutArrayHeader(Fixed(t), |vs|);
      ghost var done := 0;
      if ok { ok, done := PutScalars(t, vs); }
      Assembled(capacity, used, t, vs, left, ok, done, buffer.Log(), old(buffer.Log()));
    }

    /** An array of strings or binaries. */
    method AddBlobs(t: BytesType, bs: seq<seq<Byte>>) returns (ok: bool)
      requires Valid() && Typed(Blobs(t, bs)) && buffer.position + Reserved(Blobs(t, bs)) <= LARGEST
      modifies this, buffer, buffer.data
      ensures Valid() && (Abs(), if ok then Accepted else Mismatch) == Step(old(Abs()), Add(Blobs(t, bs)))
      ensures ok <==> ParameterCalls.Fitting(old(Abs()), Bytes(t), true)
      ensures ok ==> values == old(values) + [Blobs(t, bs)] && body == old(body) + Encode(Blobs(t, bs))
      ensures buffer.data == old(buffer.data) || fresh(buffer.data)
    {
      ParameterCalls.AddOutcome(Abs(), Blobs(t, bs));
      hide Image, Typed, Encode, ByteBuffer.Log, Grown, Reserved, Push;
      ok := ValidateType(Parameter(Bytes(t), true));
      if ok {
        ghost var s := Abs();
        ImageLength(s);
        PutBlobArray(t, bs);
        SameImage(s, Abs());
        Finish(Blobs(t, bs));
      }
    }

    method PutBlobArray(t: BytesType, bs: seq<seq<Byte>>)
      requires Shaped() && buffer.position + Reserved(Blobs(t, bs)) <= LARGEST
      modifies buffer, buffer.data
      ensures Shaped() && buffer.Log() == old(buffer.Log()) + Encode(Blobs(t, bs))
      ensures buffer.capacity == Grown(old(buffer.capacity), old(buffer.position), Reserved(Blobs(t, bs)))
      ensures buffer.data == old(buffer.data) || fresh(buffer.data)
    {
      hide EncodeInt, Tag, Concat, CountWidth, EncodeArrayHeader, EncodeBytes, ByteBuffer.Log;
      BlobsLength(bs);
      var total := Sizes(bs);
      buffer.EnsureRemaining(4 + total + 4 * |bs|);
      BlobHeader(t);
      var _ := PutArrayHeader(Bytes(t), |bs|);
      PutBlobs(bs);
      assert buffer.Log() == old(buffer.Log()) + Encode(Blobs(t, bs));
    }

    method PutBlobs(bs: seq<seq<Byte>>)
      requires Shaped() && |Concat(EncodeBytes, bs)| <= buffer.limit - buffer.position
      modifies buffer`position, buffer.data
      ensures Shaped() && buffer.Log() == old(buffer.Log()) + Concat(EncodeBytes, bs)
    {
      hide EncodeInt, Concat, EncodeBytes, ByteBuffer.Log;
      NothingToConcat(EncodeBytes);
      for i := 0 to |bs|
        invariant Shaped() && buffer.data == old(buffer.data) && buffer.limit == old(buffer.limit)
        invariant buffer.Log() == old(buffer.Log()) + Concat(EncodeBytes, bs[..i])
      {
        assert bs[..i + 1] == bs[..i] + [bs[i]];
        ConcatAppend(EncodeBytes, bs[..i], bs[i]);
        PrefixFits(bs, i + 1);
        var _ := buffer.PutBytes(bs[i]);
      }
      assert bs[..|bs|] == bs;
    }

    method GetSerializedSize() returns (size: Option<nat>)
      requires Valid()
      ensures size == if |values| == |parameters| then Some(|Image(Abs())|) else None
    {
      if currentParam != |parameters| { return None; }
      size := Some(buffer.position);
    }

    /** Moves the count and the body to another buffer and starts over, with the signature closed. */
    method SerializeTo(out: ByteBuffer) returns (ok: bool)
      requires Valid() && out.Valid() && out != buffer && out.data != buffer.data
      requires |Image(Abs())| <= out.limit - out.position
      modifies this, buffer, buffer.data, out`position, out.data
      ensures Valid() && out.Valid() && Abs() == Step(old(Abs()), Serialize).0 && buffer.data == old(buffer.data)
      ensures ok == Step(old(Abs()), Serialize).1.Emitted?
      ensures out.Log() == old(out.Log()) + if ok then Step(old(Abs()), Serialize).1.bytes else []
    {
      hide Image, ByteBuffer.Log, ByteBuffer.Left, ByteBuffer.Window;
      if currentParam != |parameters| { return false; }
      buffer.Flip();
      assert buffer.Left() == Image(Abs());
      ok := out.PutBuffer(buffer);
      DoReset();
      dynamicCount := false;
      SameImage(Abs().(dynamic := old(dynamicCount)), Abs());
    }
  }

  lemma NothingToConcat<T>(f: T -> seq<Byte>)
    ensures Concat(f, []) == []
  {
  }

  /** The image depends on the declared count and the body only. */
  lemma SameImage(s: State, r: State)
    requires s.declared == r.declared && s.body == r.body
    ensures Image(s) == Image(r)
  {
  }

  lemma ImageLength(s: State)
    ensures |Image(s)| == Used(s)
  {
  }

  lemma Monotone(w: nat, i: nat, n: nat)
    requires i <= n
    ensures w * i <= w * n
  {
  }

  /** The room that is asked for before an array of numbers. */
  function Room(t: FixedType, n: nat): nat {
    if t.TinyInt? then 6 + n else if t.Float? then 2 + 8 * n else 4 + Width(t) * n
  }

  lemma ReservedIs(t: FixedType, vs: seq<int>)
    ensures Reserved(Scalars(t, vs)) == Room(t, |vs|)
  {
  }

  lemma BlobHeader(t: BytesType)
    ensures CountWidth(Bytes(t)) == 2
  {
  }

  /** The room for an array of numbers covers at least its tags, and all of it unless it runs over. */
  lemma {:induction false} ArrayRoom(capacity: nat, used: nat, t: FixedType, vs: seq<int>)
    requires capacity > 0
    ensures var left := Grown(capacity, used, Reserved(Scalars(t, vs))) - used;
      && left >= 2
      && (RunsOver(capacity, used, Scalars(t, vs)) <==> 2 + CountWidth(Fixed(t)) + Width(t) * |vs| > left)
  {
    hide Concat, EncodeInt;
    FixedsLength(t, vs);
    RunsOverExactly(capacity, used, Scalars(t, vs));
  }

  /** Header and elements make up the array, or its torn part. */
  lemma {:induction false} Assembled(capacity: nat, used: nat, t: FixedType, vs: seq<int>, left: int, ok: bool,
                                     done: nat, log: seq<Byte>, before: seq<Byte>)
    requires capacity > 0 && left == Grown(capacity, used, Reserved(Scalars(t, vs))) - used
    requires ok <==> 2 + CountWidth(Fixed(t)) + Width(t) * |vs| <= left
    requires left < 2 + CountWidth(Fixed(t)) ==>
      log == before + EncodeArrayHeader(Fixed(t), |vs|)[..2]
    requires left >= 2 + CountWidth(Fixed(t)) ==>
      done <= |vs| && log == before + EncodeArrayHeader(Fixed(t), |vs|) + Concat(EncodeFixed(t), vs[..done])
    requires ok ==> done == |vs|
    requires !ok && left >= 2 + CountWidth(Fixed(t)) ==>
      Width(t) * done <= left - 2 - CountWidth(Fixed(t)) < Width(t) * (done + 1)
    ensures ok <==> !RunsOver(capacity, used, Scalars(t, vs))
    ensures log == before + if ok then Encode(Scalars(t, vs)) else TornPart(vs)
  {
    hide Concat, EncodeArrayHeader, EncodeInt, Encode;
    ArrayRoom(capacity, used, t, vs);
    var header := EncodeArrayHeader(Fixed(t), |vs|);
    if ok {
      assert vs[..done] == vs;
      Whole(before, t, vs);
      Monotone(Width(t), 0, |vs|);
    } else {
      assert t == Float && left in {8 * |vs| + 2, 8 * |vs| + 3} && Width(t) == 8 && CountWidth(Fixed(t)) == 2;
      if vs != [] {
        assert done == |vs| - 1;
        assert before + header + Concat(EncodeFixed(t), vs[..done]) ==
               before + (header + Concat(EncodeFixed(t), vs[..done]));
      }
    }
  }

  lemma {:induction false} Whole(before: seq<Byte>, t: FixedType, vs: seq<int>)
    ensures before + EncodeArrayHeader(Fixed(t), |vs|) + Concat(EncodeFixed(t), vs) == before + Encode(Scalars(t, vs))
  {
    EncodedScalars(t, vs);
    hide Concat, EncodeArrayHeader, EncodeFixed, Encode;
    Assoc(before, EncodeArrayHeader(Fixed(t), |vs|), Concat(EncodeFixed(t), vs));
  }

  lemma {:induction false} EncodedScalars(t: FixedType, vs: seq<int>)
    ensures Encode(Scalars(t, vs)) == EncodeArrayHeader(Fixed(t), |vs|) + Concat(EncodeFixed(t), vs)
  {
    ArrayParts(Scalars(t, vs));
    hide Concat, EncodeArrayHeader, EncodeFixed, Encode;
  }

  lemma Assoc(a: seq<Byte>, b: seq<Byte>, c: seq<Byte>)
    ensures a + b + c == a + (b + c)
  {
  }

  lemma {:induction false} PrefixFits(bs: seq<seq<Byte>>, i: nat)
    requires i <= |bs|
    ensures |Concat(EncodeBytes, bs[..i])| <= |Concat(EncodeBytes, bs)|
    decreases |bs| - i
  {
    if i < |bs| {
      assert bs[..i + 1] == bs[..i] + [bs[i]];
      ConcatAppend(EncodeBytes, bs[..i], bs[i]);
      PrefixFits(bs, i + 1);
    } else {
      assert bs[..i] == bs;
    }
  }

  method Sizes(bs: seq<seq<Byte>>) returns (total: nat)
    ensures total == TotalSize(bs)
  {
    total := 0;
    for i := 0 to |bs|
      invariant total == TotalSize(bs[..i])
    {
      assert bs[..i + 1][..i] == bs[..i];
      total := total + |bs[i]|;
    }
    assert bs[..|bs|] == bs;
  }
}
