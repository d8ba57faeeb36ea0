/** The length-prefix deframer of a connection: bytes arrive in arbitrary pieces and complete
    messages are handed out as responses, until one cannot be read. */
module Deframer {
  import opened Words
  import opened WireFormat

  /** The part of a connection's context that the deframer keeps, with the unread input. */
  datatype Context = Context(nextLength: int, lengthOrMessage: bool, input: seq<Byte>)

  const FRESH := Context(4, true, [])

  /** Whether the response constructor reads a message without throwing. */
  type Reader = seq<Byte> -> bool

  /** It always throws on messages that end before the client data does. */
  const SHORTEST := 9

  predicate Accepts(r: Reader, m: seq<Byte>) { |m| >= SHORTEST && r(m) }

  /** Messages handed out, and the context afterwards. `broken` says that an exception ended the
      callback. */
  datatype Reading = Reading(messages: seq<seq<Byte>>, context: Context, broken: bool)

  /** The reading loop. The message branch is tried even while a length is awaited. A negative
      length fails before anything is taken; an unreadable message has been taken already. */
  function Loop(r: Reader, c: Context): Reading
    decreases |c.input|, if c.lengthOrMessage then 0 else 1
  {
    if c.lengthOrMessage && |c.input| >= 4 then
      Loop(r, Context(DecodeInt(c.input[..4]), false, c.input[4..]))
    else if |c.input| < c.nextLength then Reading([], c, false)
    else if c.nextLength < 0 then Reading([], c, true)
    else
      var message, next := c.input[..c.nextLength], Context(c.nextLength, true, c.input[c.nextLength..]);
      if !Accepts(r, message) then Reading([], next, true)
      else
        var rest := Loop(r, next);
        Reading([message] + rest.messages, rest.context, rest.broken)
  }

  function More(c: Context, bytes: seq<Byte>): Context { c.(input := c.input + bytes) }

  /** One read callback after `chunk` has been appended to the unread input. */
  function Arrive(r: Reader, c: Context, chunk: seq<Byte>): Reading {
    var d := More(c, chunk);
    if d.lengthOrMessage && |d.input| < 4 then Reading([], d, false) else Loop(r, d)
  }

  /** Read callbacks for each of the chunks in turn, up to the first exception. */
  function ArriveAll(r: Reader, c: Context, chunks: seq<seq<Byte>>): Reading
    decreases |chunks|
  {
    if |chunks| == 0 then Reading([], c, false)
    else
      var first := Arrive(r, c, chunks[0]);
      if first.broken then first else After(first, ArriveAll(r, first.context, chunks[1..]))
  }

  function After(first: Reading, second: Reading): Reading {
    Reading(first.messages + second.messages, second.context, second.broken)
  }

  function Flatten(chunks: seq<seq<Byte>>): seq<Byte> {
    if |chunks| == 0 then [] else chunks[0] + Flatten(chunks[1..])
  }

  lemma {:induction false} LoopHandsAccepted(r: Reader, c: Context)
    ensures forall i :: 0 <= i < |Loop(r, c).messages| ==> Accepts(r, Loop(r, c).messages[i])
    decreases |c.input|, if c.lengthOrMessage then 0 else 1
  {
    if c.lengthOrMessage && |c.input| >= 4 {
      LoopHandsAccepted(r, Context(DecodeInt(c.input[..4]), false, c.input[4..]));
    } else if 0 <= c.nextLength <= |c.input| && Accepts(r, c.input[..c.nextLength]) {
      LoopHandsAccepted(r, Context(c.nextLength, true, c.input[c.nextLength..]));
    }
  }

  // ---------- chunking ----------

  /** While a length is awaited, the last length read is no shorter than a length. */
  predicate Sane(c: Context) { c.lengthOrMessage ==> c.nextLength >= 4 }

  /** Reading the rest later does not change the outcome. */
  ghost predicate Splits(r: Reader, c: Context, more: seq<Byte>) {
    var first := Loop(r, c);
    if first.broken then Loop(r, More(c, more)) == first.(context := More(first.context, more))
    else Sane(first.context) && Loop(r, More(c, more)) == After(first, Loop(r, More(first.context, more)))
  }

  lemma {:induction false} LoopSplits(r: Reader, c: Context, more: seq<Byte>)
    requires Sane(c)
    ensures Splits(r, c, more)
    decreases |c.input|, if c.lengthOrMessage then 0 else 1
  {
    var whole := More(c, more);
    if c.lengthOrMessage && |c.input| >= 4 {
      assert whole.input[..4] == c.input[..4] && whole.input[4..] == c.input[4..] + more;
      LoopSplits(r, Context(DecodeInt(c.input[..4]), false, c.input[4..]), more);
    } else if |c.input| < c.nextLength {
      var second := Loop(r, whole);
      assert [] + second.messages == second.messages;
    } else if c.nextLength >= 0 {
      MessageSplits(r, c, more);
    }
  }

  lemma MessageSplits(r: Reader, c: Context, more: seq<Byte>)
    requires !c.lengthOrMessage && 0 <= c.nextLength <= |c.input|
    ensures Splits(r, c, more)
    decreases |c.input|, 0
  {
    hide Accepts;
    var n, whole := c.nextLength, More(c, more);
    var message, next := c.input[..n], Context(n, true, c.input[n..]);
    assert whole.input[..n] == message && whole.input[n..] == next.input + more;
    assert More(next, more) == Context(n, true, whole.input[n..]);
    if Accepts(r, message) {
      Longest(r, message);
      LoopSplits(r, next, more);
      var first := Loop(r, next);
      var second := Loop(r, More(first.context, more));
      assert [message] + (first.messages + second.messages) == ([message] + first.messages) + second.messages;
    }
  }

  lemma Longest(r: Reader, m: seq<Byte>)
    requires Accepts(r, m)
    ensures |m| >= 9
  {
  }

  /** One callback for all the bytes does what two callbacks do, whatever the context. */
  lemma ArriveSplits(r: Reader, c: Context, chunk: seq<Byte>, more: seq<Byte>)
    ensures var first := Arrive(r, c, chunk);
      Arrive(r, c, chunk + more) ==
        if first.broken then first.(context := More(first.context, more))
        else After(first, Arrive(r, first.context, more))
  {
    var d := More(c, chunk);
    assert More(c, chunk + more) == More(d, more);
    var first := Arrive(r, c, chunk);
    if d.lengthOrMessage && |d.input| < 4 {
      var second := Arrive(r, d, more);
      assert [] + second.messages == second.messages;
    } else {
      var e := if d.lengthOrMessage then d.(nextLength := 4) else d;
      LengthIsIgnored(r, d, more);
      LoopSplits(r, e, more);
      hide Loop;
      var next := More(first.context, more);
      if !first.broken && next.lengthOrMessage && |next.input| < 4 { ShortIsQuiet(r, next); }
    }
  }

  /** With a whole length there, the last one does not matter. */
  lemma LengthIsIgnored(r: Reader, d: Context, more: seq<Byte>)
    requires d.lengthOrMessage ==> |d.input| >= 4
    ensures var e := if d.lengthOrMessage then d.(nextLength := 4) else d;
      Loop(r, d) == Loop(r, e) && Loop(r, More(d, more)) == Loop(r, More(e, more))
  {
  }

  lemma ShortIsQuiet(r: Reader, c: Context)
    requires Sane(c) && c.lengthOrMessage && |c.input| < 4
    ensures Loop(r, c) == Reading([], c, false)
  {
  }

  /** However the bytes are cut into arrivals, the same messages are handed out and it breaks or
      not alike. If it does not, the same context remains; if it does, the contexts differ only in
      the input that had not arrived. */
  lemma {:induction false} ChunkingIsIrrelevant(r: Reader, c: Context, chunks: seq<seq<Byte>>)
    requires |chunks| > 0
    ensures var cut, whole := ArriveAll(r, c, chunks), Arrive(r, c, Flatten(chunks));
      && cut.messages == whole.messages && cut.broken == whole.broken
      && (!cut.broken ==> cut.context == whole.context)
      && cut.context.input <= whole.context.input && cut.context.(input := whole.context.input) == whole.context
    decreases |chunks|
  {
    hide Arrive;
    var first, rest := Arrive(r, c, chunks[0]), chunks[1..];
    ArriveSplits(r, c, chunks[0], Flatten(rest));
    if |rest| == 0 {
      assert chunks[0] + [] == chunks[0] && first.messages + [] == first.messages;
      assert Flatten(chunks) == chunks[0] && ArriveAll(r, first.context, rest) == Reading([], first.context, false);
    } else if !first.broken {
      ChunkingIsIrrelevant(r, first.context, rest);
    }
  }

  // ---------- framing and deframing ----------

  predicate Sendable(m: seq<Byte>) { |m| < 0x8000_0000 }

  predicate AllSendable(ms: seq<seq<Byte>>) { forall i :: 0 <= i < |ms| ==> Sendable(ms[i]) }

  function Frames(ms: seq<seq<Byte>>): seq<Byte> { Concat(EncodeBytes, ms) }

  /** The messages that are complete within the first `n` bytes of their frames. */
  function Complete(ms: seq<seq<Byte>>, n: nat): seq<seq<Byte>> {
    if |ms| == 0 || n < 4 + |ms[0]| then []
    else [ms[0]] + Complete(ms[1..], n - 4 - |ms[0]|)
  }

  predicate AllAccepted(r: Reader, ms: seq<seq<Byte>>) { forall i :: 0 <= i < |ms| ==> Accepts(r, ms[i]) }

  /** The messages before the first that cannot be read. */
  function Readable(r: Reader, ms: seq<seq<Byte>>): seq<seq<Byte>> {
    if |ms| == 0 || !Accepts(r, ms[0]) then [] else [ms[0]] + Readable(r, ms[1..])
  }

  lemma {:induction false} ReadableIsAll(r: Reader, ms: seq<seq<Byte>>)
    ensures AllAccepted(r, ms) <==> Readable(r, ms) == ms
  {
    if ms != [] {
      assert ms == [ms[0]] + ms[1..];
      ReadableIsAll(r, ms[1..]);
      assert forall i :: 0 <= i < |ms| - 1 ==> ms[1..][i] == ms[i + 1];
      assert forall i :: 0 < i < |ms| ==> ms[i] == ms[1..][i - 1];
      if Readable(r, ms) == ms { assert Readable(r, ms)[1..] == Readable(r, ms[1..]); }
    }
  }

  /** Any part of the frames yields the messages completed in it, up to the first that cannot be
      read, which breaks the reading. */
  lemma {:induction false} LoopReadsFrames(r: Reader, k: int, ms: seq<seq<Byte>>, n: nat)
    requires AllSendable(ms) && k >= 4 && n <= |Frames(ms)|
    ensures var reading := Loop(r, Context(k, true, Frames(ms)[..n]));
      reading.messages == Readable(r, Complete(ms, n)) && (reading.broken <==> !AllAccepted(r, Complete(ms, n)))
    decreases |ms|
  {
    var c := Context(k, true, Frames(ms)[..n]);
    if |ms| > 0 && n >= 4 {
      hide Accepts, EncodeInt, DecodeInt;
      var m, rest := ms[0], ms[1..];
      assert Sendable(m);
      LengthInFront(m, Frames(rest), n);
      var body := Context(|m|, false, c.input[4..]);
      if n >= 4 + |m| {
        CutMessage(m, Frames(rest), n);
        var all, later := Complete(ms, n), Complete(rest, n - 4 - |m|);
        assert all == [m] + later && all[1..] == later;
        if Accepts(r, m) {
          Longest(r, m);
          LoopReadsFrames(r, |m|, rest, n - 4 - |m|);
          assert forall i :: 0 < i < |all| ==> all[i] == later[i - 1];
          assert forall i :: 0 <= i < |later| ==> later[i] == all[i + 1];
        }
      }
    }
  }

  lemma LengthInFront(m: seq<Byte>, rest: seq<Byte>, n: nat)
    requires Sendable(m) && 4 <= n <= 4 + |m| + |rest|
    ensures DecodeInt((EncodeBytes(m) + rest)[..n][..4]) == |m|
  {
    hide EncodeInt, DecodeInt;
    Widths();
    IntRoundTrip(4, |m|);
    assert (EncodeBytes(m) + rest)[..n][..4] == EncodeInt(4, |m|);
  }

  lemma CutMessage(m: seq<Byte>, rest: seq<Byte>, n: nat)
    requires 4 + |m| <= n <= 4 + |m| + |rest|
    ensures var body := (EncodeBytes(m) + rest)[..n][4..];
      body[..|m|] == m && body[|m|..] == rest[..n - 4 - |m|]
  {
    hide EncodeInt;
    var s := (EncodeBytes(m) + rest)[..n];
    assert s == EncodeInt(4, |m|) + m + rest[..n - 4 - |m|];
    assert s[4..] == m + rest[..n - 4 - |m|];
  }

  /** Whatever part of any frames arrives, in whatever pieces: the messages completed in it are
      handed out up to the first the constructor refuses, and the reading breaks exactly there. */
  lemma FramesAreRead(r: Reader, ms: seq<seq<Byte>>, chunks: seq<seq<Byte>>)
    requires AllSendable(ms) && Flatten(chunks) <= Frames(ms)
    ensures var reading, complete := ArriveAll(r, FRESH, chunks), Complete(ms, |Flatten(chunks)|);
      reading.messages == Readable(r, complete) && (reading.broken <==> !AllAccepted(r, complete))
  {
    var all := Flatten(chunks);
    assert Frames(ms)[..|all|] == all && More(FRESH, all) == Context(4, true, all);
    if |chunks| > 0 {
      LoopReadsFrames(r, 4, ms, |all|);
      ChunkingIsIrrelevant(r, FRESH, chunks);
      if |all| < 4 { ShortIsQuiet(r, More(FRESH, all)); }
    }
  }

  /** All messages of the frames are handed out, however they arrive, and at every moment exactly
      those that are complete, if and only if the constructor accepts every one of them. */
  lemma DeframesExactly(r: Reader, ms: seq<seq<Byte>>)
    requires AllSendable(ms)
    ensures AllAccepted(r, ms) <==>
      forall chunks :: Flatten(chunks) <= Frames(ms) ==>
        ArriveAll(r, FRESH, chunks).messages == Complete(ms, |Flatten(chunks)|) && !ArriveAll(r, FRESH, chunks).broken
  {
    hide Accepts;
    if AllAccepted(r, ms) {
      forall chunks | Flatten(chunks) <= Frames(ms)
        ensures ArriveAll(r, FRESH, chunks).messages == Complete(ms, |Flatten(chunks)|) &&
                !ArriveAll(r, FRESH, chunks).broken
      {
        FramesAreRead(r, ms, chunks);
        CompleteIsPrefix(ms, |Flatten(chunks)|);
        ReadableIsAll(r, Complete(ms, |Flatten(chunks)|));
      }
    } else {
      var all := Frames(ms);
      OneChunk(all);
      FramesAreRead(r, ms, [all]);
      AllComplete(ms);
      assert Flatten([all]) <= Frames(ms) && ArriveAll(r, FRESH, [all]).broken;
    }
  }

  lemma OneChunk(all: seq<Byte>)
    ensures Flatten([all]) == all
  {
    assert all + [] == all;
  }

  lemma {:induction false} CompleteIsPrefix(ms: seq<seq<Byte>>, n: nat)
    ensures Complete(ms, n) <= ms
  {
    if |ms| > 0 && n >= 4 + |ms[0]| {
      CompleteIsPrefix(ms[1..], n - 4 - |ms[0]|);
      assert ms == [ms[0]] + ms[1..];
    }
  }

  lemma {:induction false} AllComplete(ms: seq<seq<Byte>>)
    ensures Complete(ms, |Frames(ms)|) == ms
  {
    if |ms| > 0 {
      AllComplete(ms[1..]);
      assert ms == [ms[0]] + ms[1..];
    }
  }
}
