/** The parameter set of a procedure call as a state machine: declared types, added values, and
    the bytes written for them, in a buffer of some capacity. */
module ParameterState {
  import opened Words
  import opened WireFormat
  import opened ByteBuffers

  datatype Parameter = Parameter(t: WireType, array: bool)

  /** `body` is what the buffer holds behind the count; `torn` says that an add ran over the end of
      the buffer since the last reset and left part of its value there. */
  datatype State = State(
    declared: seq<Parameter>, values: seq<Value>, dynamic: bool, capacity: int, body: seq<Byte>, torn: bool)

  function ParameterOf(x: Value): Parameter
    requires !x.Null?
  {
    Parameter(Type(x), x.Scalars? || x.Blobs?)
  }

  const DOUBLES := Parameter(Fixed(Float), true)

  // ---------- reserved sizes ----------

  ghost function TotalSize(bs: seq<seq<Byte>>): nat {
    if bs == [] then 0 else TotalSize(bs[..|bs| - 1]) + |bs[|bs| - 1]|
  }

  /** The room an adder asks for. */
  ghost function Reserved(x: Value): nat {
    match x
    case Null => 1
    case Scalar(t, _) => 1 + Width(t)
    case Blob(_, b) => 1 + 4 + |b|
    case Scalars(TinyInt, vs) => 6 + |vs|
    case Scalars(Float, vs) => 2 + 8 * |vs|
    case Scalars(t, vs) => 4 + Width(t) * |vs|
    case Blobs(_, bs) => 4 + TotalSize(bs) + 4 * |bs|
  }

  lemma {:induction false} FixedsLength(t: FixedType, vs: seq<int>)
    ensures |Concat(EncodeFixed(t), vs)| == Width(t) * |vs|
  {
    if vs != [] {
      FixedsLength(t, vs[1..]);
      assert Width(t) * |vs| == Width(t) + Width(t) * |vs[1..]|;
    }
  }

  lemma {:induction false} BlobsLength(bs: seq<seq<Byte>>)
    ensures |Concat(EncodeBytes, bs)| == TotalSize(bs) + 4 * |bs|
  {
    if bs != [] {
      var n := |bs| - 1;
      BlobsLength(bs[..n]);
      assert bs[..n] + [bs[n]] == bs;
      ConcatAppend(EncodeBytes, bs[..n], bs[n]);
    }
  }

  predicate IsDoubles(x: Value) { x.Scalars? && x.sat.Float? }

  /** The reservation is exactly what is written, but for arrays of doubles, where it is two
      bytes short. */
  lemma ReservationIsExact(x: Value)
    ensures |Encode(x)| == Reserved(x) + if IsDoubles(x) then 2 else 0
  {
    hide Concat, EncodeInt;
    match x {
      case Scalars(t, vs) => FixedsLength(t, vs);
      case Blobs(_, bs) => BlobsLength(bs);
      case _ =>
    }
  }

  /** The capacity after asking for room. */
  ghost function Grown(capacity: nat, used: nat, request: nat): (c: nat)
    requires capacity > 0
    ensures c >= capacity && c - used >= request
  {
    if capacity - used < request then Doubled(capacity, used + request) else capacity
  }

  /** An array of `n` doubles runs over when two or three bytes more than the doubles are left. */
  ghost predicate RunsOver(capacity: nat, used: nat, x: Value)
    requires capacity > 0
  {
    IsDoubles(x) && Grown(capacity, used, Reserved(x)) - used in {8 * |x.vs| + 2, 8 * |x.vs| + 3}
  }

  /** A value runs over if and only if it is longer than the room after growth. */
  lemma RunsOverExactly(capacity: nat, used: nat, x: Value)
    requires capacity > 0
    ensures RunsOver(capacity, used, x) <==> |Encode(x)| > Grown(capacity, used, Reserved(x)) - used
  {
    hide Encode;
    ReservationIsExact(x);
  }

  // ---------- steps ----------

  /** Checking a type declares it first, when the signature is open and used up. */
  function Declare(s: State, p: Parameter): State {
    if |s.values| + 1 > |s.declared| && s.dynamic then s.(declared := s.declared + [p]) else s
  }

  predicate Expects(s: State, p: Parameter) { |s.values| < |s.declared| && s.declared[|s.values|] == p }

  datatype Op = Add(x: Value) | AddNull | AddTypedNull(t: BytesType) | Reset | Serialize

  datatype Outcome = Accepted | Mismatch | Overflow | Uninitialized | Emitted(bytes: seq<Byte>)

  predicate Proper(op: Op) { op.Add? ==> Typed(op.x) && !op.x.Null? }

  function Used(s: State): nat { 2 + |s.body| }

  function Push(s: State, x: Value): State { s.(values := s.values + [x], body := s.body + Encode(x)) }

  /** What is written of doubles that run over: all of them but the last, or half the header. */
  ghost function TornPart(vs: seq<int>): (part: seq<Byte>)
    ensures |part| >= 2
  {
    var header := EncodeArrayHeader(Fixed(Float), |vs|);
    if vs == [] then header[..2] else header + Concat(EncodeFixed(Float), vs[..|vs| - 1])
  }

  ghost function Write(s: State, x: Value): (State, Outcome)
    requires s.capacity > 0
  {
    var g := s.(capacity := Grown(s.capacity, Used(s), Reserved(x)));
    if RunsOver(s.capacity, Used(s), x) then (g.(body := g.body + TornPart(x.vs), torn := true), Overflow)
    else (Push(g, x), Accepted)
  }

  ghost function PushNull(s: State): (State, Outcome)
    requires s.capacity > 0
  {
    if |s.values| > |s.declared| then (s, Mismatch) else Write(s, Null)
  }

  ghost function PushTyped(s: State, p: Parameter, x: Value): (State, Outcome)
    requires s.capacity > 0
  {
    var d := Declare(s, p);
    if !Expects(d, p) then (d, Mismatch) else if x.Null? then PushNull(d) else Write(d, x)
  }

  /** The count as the cast leaves it, and the body. */
  function Image(s: State): seq<Byte> { EncodeInt(2, |s.declared|) + s.body }

  function Cleared(s: State): State { s.(values := [], body := [], torn := false) }

  ghost function Step(s: State, op: Op): (State, Outcome)
    requires Proper(op) && s.capacity > 0
  {
    match op
    case Add(x) => PushTyped(s, ParameterOf(x), x)
    case AddNull => PushNull(s)
    case AddTypedNull(t) => PushTyped(s, Parameter(Bytes(t), false), Null)
    case Reset => (Cleared(s), Accepted)
    case Serialize =>
      if |s.values| != |s.declared| then (s, Uninitialized)
      else (Cleared(s).(dynamic := false), Emitted(Image(s)))
  }

  // ---------- the invariant ----------

  ghost predicate Suits(x: Value, p: Parameter) { Typed(x) && (x.Null? || ParameterOf(x) == p) }

  /** Every value but a surplus null has its declared type. */
  ghost predicate Matched(s: State) {
    && |s.values| <= |s.declared| + 1
    && (forall i :: 0 <= i < |s.values| && i < |s.declared| ==> Suits(s.values[i], s.declared[i]))
    && (|s.values| > |s.declared| ==> s.values[|s.declared|] == Null)
  }

  /** The body is the values one after another, and something more if one is torn. */
  ghost predicate Written(s: State) {
    if s.torn then |s.body| > |Concat(Encode, s.values)| else s.body == Concat(Encode, s.values)
  }

  /** The body begins with the first value, or with the tag of an array of doubles or a null where
      doubles are expected. */
  ghost predicate Front(s: State) {
    || (s.values == [] && s.body == [])
    || (s.values != [] && Encode(s.values[0]) <= s.body)
    || (|s.declared| > 0 && s.declared[0] == DOUBLES && ArrayOrNull(s.body))
  }

  ghost predicate ArrayOrNull(body: seq<Byte>) {
    body != [] && (body[..1] == EncodeInt(1, ARRAY_TAG) || body[..1] == EncodeInt(1, NULL_TAG))
  }

  ghost predicate Inv(s: State) { s.capacity > 0 && Matched(s) && Written(s) && Front(s) }

  lemma DeclareKeeps(s: State, p: Parameter)
    requires Inv(s)
    ensures Inv(Declare(s, p))
  {
    hide Typed, ParameterOf, Concat, Encode, EncodeInt;
    assert Typed(Null) by { NullIsTyped(); }
  }

  lemma NullIsTyped()
    ensures Typed(Null)
  {
  }

  lemma PushMatched(s: State, x: Value)
    requires Matched(s) && |s.values| <= |s.declared|
    requires if |s.values| == |s.declared| then x == Null else Suits(x, s.declared[|s.values|])
    ensures Matched(Push(s, x))
  {
    hide Typed, ParameterOf, Encode;
  }

  lemma PushWritten(s: State, x: Value)
    requires Written(s)
    ensures Written(Push(s, x))
  {
    hide Encode;
    ConcatAppend(Encode, s.values, x);
  }

  lemma PushFront(s: State, x: Value)
    requires Front(s)
    ensures Front(Push(s, x))
  {
    hide EncodeInt;
    assert s.body == [] ==> s.body + Encode(x) == Encode(x);
    if ArrayOrNull(s.body) { assert (s.body + Encode(x))[..1] == s.body[..1]; }
  }

  lemma {:induction false} TornFront(s: State, vs: seq<int>)
    requires Front(s) && Expects(s, DOUBLES)
    ensures Front(s.(body := s.body + TornPart(vs), torn := true))
  {
    hide EncodeInt, Concat, Encode;
    var part := TornPart(vs);
    if s.values == [] && s.body == [] {
      assert s.body + part == part;
      assert part[..1] == EncodeInt(1, ARRAY_TAG);
    } else if ArrayOrNull(s.body) {
      assert (s.body + part)[..1] == s.body[..1];
    }
  }

  lemma WriteKeeps(s: State, x: Value)
    requires Inv(s) && |s.values| <= |s.declared|
    requires if |s.values| == |s.declared| then x == Null else Suits(x, s.declared[|s.values|])
    ensures Inv(Write(s, x).0)
  {
    var g := s.(capacity := Grown(s.capacity, Used(s), Reserved(x)));
    assert Matched(g) && Written(g) && Front(g);
    if RunsOver(s.capacity, Used(s), x) {
      TornFront(g, x.vs);
      hide TornPart, Front, Reserved;
      assert |g.body + TornPart(x.vs)| > |Concat(Encode, g.values)|;
    } else {
      PushMatched(g, x);
      PushWritten(g, x);
      PushFront(g, x);
      hide Matched, Written, Front, Push, Reserved;
    }
  }

  lemma StepKeepsInv(s: State, op: Op)
    requires Inv(s) && Proper(op)
    ensures Inv(Step(s, op).0)
  {
    NullIsTyped();
    if op.Add? || op.AddTypedNull? {
      var p := if op.Add? then ParameterOf(op.x) else Parameter(Bytes(op.t), false);
      DeclareKeeps(s, p);
      var d, x := Declare(s, p), if op.Add? then op.x else Null;
      if Expects(d, p) {
        assert Suits(x, p);
        hide Inv, Declare, Typed, ParameterOf, Write;
        WriteKeeps(d, x);
      }
    } else if op.AddNull? && |s.values| <= |s.declared| {
      assert |s.values| < |s.declared| ==> Suits(Null, s.declared[|s.values|]);
      hide Inv, Write;
      WriteKeeps(s, Null);
    }
  }

  // ---------- runs ----------

  /** What a run sends: the bytes of every message, with the state they were made from. */
  datatype Message = Message(bytes: seq<Byte>, from: State)

  ghost predicate AllProper(ops: seq<Op>) { forall i :: 0 <= i < |ops| ==> Proper(ops[i]) }

  ghost function Messages(s: State, ops: seq<Op>): seq<Message>
    requires Inv(s) && AllProper(ops)
    decreases |ops|
  {
    if ops == [] then []
    else
      StepKeepsInv(s, ops[0]);
      var (next, outcome) := Step(s, ops[0]);
      assert forall i :: 0 <= i < |ops| - 1 ==> ops[1..][i] == ops[i + 1];
      (if outcome.Emitted? then [Message(outcome.bytes, s)] else []) + Messages(next, ops[1..])
  }

  /** One value of the declared type, or null, for each declared parameter; and the message decodes
      to these if and only if none is torn and no count is cut off. */
  ghost predicate Good(m: Message) {
    var s := m.from;
    && |s.values| == |s.declared| && (forall i :: 0 <= i < |s.values| ==> Suits(s.values[i], s.declared[i]))
    && (ReadParameters(m.bytes) == Done(s.values, []) <==> !s.torn && Fits(2, |s.values|) && AllCountable(s.values))
  }

  /** This holds of every message, whatever is added, refused, reset, sent or ran over before. */
  lemma {:induction false} EveryMessageDecodes(s: State, ops: seq<Op>)
    requires Inv(s) && AllProper(ops)
    ensures forall i :: 0 <= i < |Messages(s, ops)| ==> Good(Messages(s, ops)[i])
    decreases |ops|
  {
    if ops != [] {
      hide Inv, Step, Good;
      StepKeepsInv(s, ops[0]);
      var (next, outcome) := Step(s, ops[0]);
      assert forall i :: 0 <= i < |ops| - 1 ==> ops[1..][i] == ops[i + 1];
      EveryMessageDecodes(next, ops[1..]);
      if outcome.Emitted? { EmittedIsGood(s, ops[0]); }
    }
  }

  lemma EmittedIsGood(s: State, op: Op)
    requires Inv(s) && Proper(op) && Step(s, op).1.Emitted?
    ensures Good(Message(Step(s, op).1.bytes, s))
  {
    hide EncodeInt, ReadParameters, Fits, AllCountable, Typed, Front, Reserved, TornPart, Encode;
    assert Step(s, op).1.bytes == Image(s) && |s.values| == |s.declared|;
    ImageDecodes(s);
  }

  /** The image of a full set decodes to its values if and only if none is torn and no count is
      cut off. */
  lemma ImageDecodes(s: State)
    requires Inv(s) && |s.values| == |s.declared|
    ensures ReadParameters(Image(s)) == Done(s.values, []) <==> !s.torn && Fits(2, |s.values|) && AllCountable(s.values)
  {
    hide EncodeInt, ReadParameters, Fits, AllCountable, Typed, Front;
    if s.torn {
      if ReadParameters(Image(s)) == Done(s.values, []) { ParametersConsume(Image(s), s.values); }
    } else {
      assert AllTyped(s.values) by {
        forall i | 0 <= i < |s.values| ensures Typed(s.values[i]) { assert Suits(s.values[i], s.declared[i]); }
      }
      ParametersRoundTrip(s.values);
    }
  }

  /** Tearing is noticed, and lasts until the next reset: a state is torn after a step if the add
      ran over, or if it was torn and is not cleared. */
  lemma TornSinceReset(s: State, op: Op)
    requires Inv(s) && Proper(op)
    ensures var (t, outcome) := Step(s, op);
      t.torn <==> outcome == Overflow || (s.torn && !op.Reset? && !outcome.Emitted?)
  {
    hide Matched, Written, Front, Reserved, TornPart, Typed;
  }

  /** Only an array of doubles runs over, and only where one is expected. */
  lemma OnlyDoublesRunOver(s: State, op: Op)
    requires Inv(s) && Proper(op) && Step(s, op).1 == Overflow
    ensures op.Add? && IsDoubles(op.x) && Expects(Declare(s, DOUBLES), DOUBLES)
  {
    hide Matched, Written, Front, TornPart, Typed, Encode;
  }

  // ---------- a torn message ----------

  const SIGNATURE := [Parameter(Fixed(TinyInt), false), Parameter(Fixed(TinyInt), false), DOUBLES]

  ghost function NewSet(declared: seq<Parameter>): State { State(declared, [], false, 8192, [], false) }

  /** Behind two TINYINT parameters in a new buffer, 1023 doubles run over. The next doubles are
      accepted behind the torn ones, and the message that is sent does not decode to its values. */
  lemma TornMessage(vs: seq<int>, w: int)
    requires |vs| == 1023 && Typed(Scalars(Float, vs)) && Typed(Scalars(Float, [w]))
    ensures var tiny := Scalar(TinyInt, 0);
      var ops := [Add(tiny), Add(tiny), Add(Scalars(Float, vs)), Add(Scalars(Float, [w])), Serialize];
      && Inv(NewSet(SIGNATURE)) && AllProper(ops)
      && var ms := Messages(NewSet(SIGNATURE), ops);
         |ms| == 1 && ms[0].from.values == [tiny, tiny, Scalars(Float, [w])]
         && ReadParameters(ms[0].bytes) != Done(ms[0].from.values, [])
  {
    var tiny, many, one := Scalar(TinyInt, 0), Scalars(Float, vs), Scalars(Float, [w]);
    var ops := [Add(tiny), Add(tiny), Add(many), Add(one), Serialize];
    var s0 := NewSet(SIGNATURE);
    NewIsFine(SIGNATURE);
    TinyIsTyped();
    hide Typed, Encode, Inv, TornPart, ReadParameters, Step;
    TinyStep(s0, 0);
    Quietly(s0, ops);
    var s1 := Step(s0, ops[0]).0;
    TinyStep(s1, 1);
    Quietly(s1, ops[1..]);
    assert ops[1..][1..] == ops[2..] && ops[2..][1..] == ops[3..] && ops[3..][1..] == [Serialize];
    TornTail(Step(s1, ops[1]).0, many, one);
  }

  lemma TornTail(s: State, many: Value, one: Value)
    requires Inv(s) && s.declared == SIGNATURE && |s.values| == 2 && !s.dynamic && s.capacity == 8192 && |s.body| == 4
    requires Typed(many) && IsDoubles(many) && |many.vs| == 1023 && Typed(one) && IsDoubles(one) && |one.vs| == 1
    ensures AllProper([Add(many), Add(one), Serialize])
    ensures var ms := Messages(s, [Add(many), Add(one), Serialize]);
      |ms| == 1 && ms[0].from.values == s.values + [one] && ReadParameters(ms[0].bytes) != Done(ms[0].from.values, [])
  {
    hide Typed, Encode, Inv, TornPart, ReadParameters, Step;
    var ops := [Add(many), Add(one), Serialize];
    ManyStep(s, many);
    TornLength(many.vs);
    Quietly(s, ops);
    var t := Step(s, ops[0]).0;
    OneStep(t, one);
    assert ops[1..] == [Add(one), Serialize] && ops[1..][1..] == [Serialize];
    Quietly(t, ops[1..]);
    var u := Step(t, ops[1]).0;
    LastMessage(u);
    ImageDecodes(u);
  }

  lemma TornLength(vs: seq<int>)
    ensures |TornPart(vs)| == if vs == [] then 2 else 8 * |vs| - 4
  {
    hide EncodeInt, Concat;
    if vs != [] { FixedsLength(Float, vs[..|vs| - 1]); }
  }

  lemma NewIsFine(declared: seq<Parameter>)
    ensures Inv(NewSet(declared))
  {
  }

  lemma TinyIsTyped()
    ensures Typed(Scalar(TinyInt, 0)) && |Encode(Scalar(TinyInt, 0))| == 2
  {
  }

  lemma TinyStep(s: State, n: nat)
    requires n < 2 && s.declared == SIGNATURE && s.values == seq(n, i => Scalar(TinyInt, 0))
    requires !s.dynamic && s.capacity == 8192 && |s.body| == 2 * n && !s.torn
    ensures Proper(Add(Scalar(TinyInt, 0)))
    ensures var (t, outcome) := Step(s, Add(Scalar(TinyInt, 0)));
      outcome == Accepted && t == Push(s, Scalar(TinyInt, 0)) && |t.body| == 2 * n + 2
      && t.values == seq(n + 1, i => Scalar(TinyInt, 0))
  {
    TinyIsTyped();
  }

  lemma ManyStep(s: State, many: Value)
    requires s.declared == SIGNATURE && |s.values| == 2 && !s.dynamic && s.capacity == 8192 && |s.body| == 4
    requires Typed(many) && IsDoubles(many) && |many.vs| == 1023
    ensures Step(s, Add(many)) == (s.(body := s.body + TornPart(many.vs), torn := true), Overflow)
  {
    hide Typed, Encode, TornPart;
  }

  lemma OneStep(s: State, one: Value)
    requires s.declared == SIGNATURE && |s.values| == 2 && !s.dynamic && s.capacity == 8192
    requires Typed(one) && IsDoubles(one) && |one.vs| == 1 && |s.body| == 4 + 8180
    ensures Step(s, Add(one)).1 == Accepted && Step(s, Add(one)).0.torn == s.torn
    ensures Step(s, Add(one)).0.values == s.values + [one] && Step(s, Add(one)).0.declared == SIGNATURE
  {
    hide Typed, Encode;
  }

  /** Steps that send nothing add no message. */
  lemma Quietly(s: State, ops: seq<Op>)
    requires Inv(s) && AllProper(ops) && ops != [] && !Step(s, ops[0]).1.Emitted?
    ensures Inv(Step(s, ops[0]).0) && AllProper(ops[1..]) && Messages(s, ops) == Messages(Step(s, ops[0]).0, ops[1..])
  {
    StepKeepsInv(s, ops[0]);
    assert forall i :: 0 <= i < |ops| - 1 ==> ops[1..][i] == ops[i + 1];
  }

  lemma LastMessage(s: State)
    requires Inv(s) && |s.values| == |s.declared|
    ensures Messages(s, [Serialize]) == [Message(Image(s), s)]
  {
    StepKeepsInv(s, Serialize);
    assert [Serialize][1..] == [];
  }

  // ---------- surplus nulls ----------

  ghost predicate Surplus(s: State) { |s.values| > |s.declared| }

  /** With a closed signature a surplus null blocks everything until the reset. */
  lemma SurplusIsStuck(s: State, op: Op)
    requires s.capacity > 0 && Surplus(s) && !s.dynamic && Proper(op) && !op.Reset?
    ensures Step(s, op).0 == s && (Step(s, op).1.Mismatch? || Step(s, op).1.Uninitialized?)
  {
  }

  /** With an open signature only a typed add goes on; it is refused and yet declares a
      parameter, which the null then stands for. */
  lemma SurplusNeedsDeclaration(s: State, op: Op)
    requires Inv(s) && Surplus(s) && s.dynamic && Proper(op) && !op.Reset?
    ensures Step(s, op).1.Mismatch? || Step(s, op).1.Uninitialized?
    ensures Step(s, op).0 != s <==> op.Add? || op.AddTypedNull?
    ensures Step(s, op).0.values == s.values
    ensures Step(s, op).0 != s ==> !Surplus(Step(s, op).0)
  {
    hide Typed, Written, Front;
    if op.Add? || op.AddTypedNull? {
      assert |Step(s, op).0.declared| == |s.declared| + 1;
    }
  }
}
