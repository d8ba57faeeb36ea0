/** What each operation of the parameter set comes to, in terms of the declared types and the
    values before it. */
module ParameterCalls {
  import opened Words
  import opened WireFormat
  import opened ByteBuffers
  import opened ParameterState

  predicate IsArray(x: Value) { x.Scalars? || x.Blobs? }

  /** The next parameter has this type, or the signature is open and ends here. */
  predicate Fitting(s: State, t: WireType, many: bool) {
    if |s.values| < |s.declared| then s.declared[|s.values|] == Parameter(t, many)
    else |s.values| == |s.declared| && s.dynamic
  }

  /** The declared types afterwards: an open signature that is used up gains the type, even if the
      add is refused. */
  function DeclaredAfter(s: State, t: WireType, many: bool): seq<Parameter> {
    if s.dynamic && |s.values| >= |s.declared| then s.declared + [Parameter(t, many)] else s.declared
  }

  /** The bytes there is room for once the buffer has grown by the reservation. */
  ghost function Room(s: State, x: Value): int
    requires s.capacity > 0
  {
    Grown(s.capacity, 2 + |s.body|, Reserved(x)) - (2 + |s.body|)
  }

  /** Adding a value: refused exactly when it does not fit the declared types, running over exactly
      when its encoding is longer than the room, and otherwise counted and written whole. */
  lemma AddOutcome(s: State, x: Value)
    requires s.capacity > 0 && Typed(x) && !x.Null?
    ensures var (t, outcome) := Step(s, Add(x));
      && (outcome == Mismatch <==> !Fitting(s, Type(x), IsArray(x)))
      && (outcome == Overflow <==> Fitting(s, Type(x), IsArray(x)) && |Encode(x)| > Room(s, x))
      && (outcome == Accepted <==> Fitting(s, Type(x), IsArray(x)) && |Encode(x)| <= Room(s, x))
      && t.declared == DeclaredAfter(s, Type(x), IsArray(x)) && t.dynamic == s.dynamic
      && (outcome == Accepted ==> t.values == s.values + [x] && t.body == s.body + Encode(x) && t.torn == s.torn)
      && (outcome == Mismatch ==> t == s.(declared := t.declared))
      && (outcome == Overflow ==>
            && t.values == s.values && t.torn
            && exists m :: 2 <= m <= Room(s, x) && m < |Encode(x)| && t.body == s.body + Encode(x)[..m])
  {
    hide Encode, Reserved, RunsOver, Grown, TornPart, Typed;
    var d := Declare(s, ParameterOf(x));
    RunsOverExactly(s.capacity, Used(d), x);
    var (t, outcome) := Step(s, Add(x));
    if outcome == Overflow { PartWritten(s.capacity, Used(d), x); }
  }

  /** What is left of doubles that run over is the start of their encoding. */
  lemma {:induction false} PartWritten(capacity: nat, used: nat, x: Value)
    requires capacity > 0 && RunsOver(capacity, used, x)
    ensures var room := Grown(capacity, used, Reserved(x)) - used; var m := |TornPart(x.vs)|;
      2 <= m <= room && m < |Encode(x)| && TornPart(x.vs) == Encode(x)[..m]
  {
    var vs, header := x.vs, EncodeArrayHeader(Fixed(Float), |x.vs|);
    var n := |vs| - 1;
    hide EncodeInt, Concat, Grown;
    if vs == [] {
      assert Encode(x)[..2] == header[..2];
    } else {
      ConcatAppend(EncodeFixed(Float), vs[..n], vs[n]);
      assert vs[..n] + [vs[n]] == vs;
      FixedsLength(Float, vs[..n]);
      var front := header + Concat(EncodeFixed(Float), vs[..n]);
      assert Encode(x) == front + EncodeFixed(Float)(vs[n]);
      assert Encode(x)[..|front|] == front;
    }
  }

  /** A null without a type is one more value, unless there is already one too many. */
  lemma NullOutcome(s: State)
    requires s.capacity > 0
    ensures var (t, outcome) := Step(s, AddNull);
      && (outcome == Mismatch <==> |s.values| > |s.declared|) && (outcome == Mismatch ==> t == s)
      && (outcome == Accepted <==> |s.values| <= |s.declared|)
      && (outcome == Accepted ==> t == s.(values := s.values + [Null], body := s.body + [1], capacity := t.capacity))
  {
    hide Grown;
    NullByte();
  }

  /** A null string or binary is accepted exactly where a string or binary is. */
  lemma TypedNullOutcome(s: State, b: BytesType)
    requires s.capacity > 0
    ensures var (t, outcome) := Step(s, AddTypedNull(b));
      && (outcome == Mismatch <==> !Fitting(s, Bytes(b), false))
      && (outcome == Accepted <==> Fitting(s, Bytes(b), false))
      && t.declared == DeclaredAfter(s, Bytes(b), false)
      && (outcome == Mismatch ==> t == s.(declared := t.declared))
      && (outcome == Accepted ==>
            t == s.(declared := t.declared, values := s.values + [Null], body := s.body + [1], capacity := t.capacity))
  {
    hide Grown;
    NullByte();
  }

  lemma NullByte()
    ensures Encode(Null) == [1]
  {
  }

  /** A reset forgets the values and keeps the types; so does a serialization, which needs a value
      for each type, gives the count and the body, and closes the signature. */
  lemma ResetOutcome(s: State)
    requires s.capacity > 0
    ensures Step(s, Reset) == (s.(values := [], body := [], torn := false), Accepted)
    ensures var (t, outcome) := Step(s, Serialize);
      && (outcome == Uninitialized <==> |s.values| != |s.declared|) && (outcome == Uninitialized ==> t == s)
      && (|s.values| == |s.declared| ==>
            && outcome == Emitted(EncodeInt(2, |s.declared|) + s.body)
            && t == s.(values := [], body := [], torn := false, dynamic := false))
  {
  }
}
