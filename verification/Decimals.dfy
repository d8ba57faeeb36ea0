/** Decimals with twelve fractional digits: what a text denotes, parsing, printing, and the
    16-byte wire form. */
module Decimals {
  import opened Words
  import opened WireFormat
  import opened ByteBuffers
  import opened DecimalDigits
  import Limbs
  import opened SignedInts
  import Responses

  const SCALE := 1_000_000_000_000
  const MAX_SCALE := 12
  const MAX_WHOLE := 26
  const LIMIT := 100_000_000_000_000_000_000_000_000_000_000_000_000
  const TWO127 := 0x8000_0000_0000_0000_0000_0000_0000_0000

  /** What two limbs can hold. */
  predicate Held(v: int) { -TWO127 <= v < TWO127 }

  lemma HeldFits(v: int)
    ensures Held(v) <==> Limbs.Fits(2, v)
  {
    assert Limbs.P(0) == 1 && Limbs.P(1) == Limbs.B;
    assert Limbs.H(2) == Limbs.TOP * Limbs.B;
  }

  // ---------- limits ----------

  lemma Powers()
    ensures Pow10(12) == SCALE && Pow10(26) * SCALE == LIMIT && LIMIT < TWO127
  {
    assert Pow10(6) == 1_000_000 && Pow10(9) == 1_000_000_000;
    assert Pow10(15) == 1_000_000_000_000_000 && Pow10(18) == 1_000_000_000_000_000_000;
    assert Pow10(21) == 1_000_000_000_000_000_000_000 && Pow10(24) == 1_000_000_000_000_000_000_000_000;
  }

  function Zeroes(n: nat): (z: string)
    ensures |z| == n && forall i :: 0 <= i < n ==> z[i] == '0'
  {
    seq(n, i => '0')
  }

  lemma {:induction false} ZerosInFront(s: string, n: nat)
    requires AllDigits(s)
    ensures AllDigits(Zeroes(n) + s) && Number(Zeroes(n) + s) == Number(s)
    decreases n + |s|
  {
    hide Zeroes;
    var z := Zeroes(n);
    if s == [] {
      assert z + s == z;
      if n > 0 {
        assert z[..n - 1] == Zeroes(n - 1) + [];
        ZerosInFront([], n - 1);
      }
    } else {
      assert (z + s)[..n + |s| - 1] == z + s[..|s| - 1];
      ZerosInFront(s[..|s| - 1], n);
    }
  }

  // ---------- what a text denotes ----------

  /** Sign, whole digits, and perhaps a point with more digits. */
  datatype Shape = Shape(negative: bool, whole: string, point: bool, fraction: string)

  ghost predicate Proper(s: Shape) {
    && AllDigits(s.whole) && |s.whole| <= MAX_WHOLE && AllDigits(s.fraction) && |s.fraction| <= MAX_SCALE
    && (!s.point ==> s.fraction == [])
  }

  function Text(s: Shape): string {
    (if s.negative then "-" else "") + s.whole + (if s.point then "." else "") + s.fraction
  }

  /** The decimal value, times 10^12. */
  ghost function Scaled(s: Shape): int
    requires Proper(s)
  {
    var v := Number(s.whole) * SCALE + Number(s.fraction) * Pow10(MAX_SCALE - |s.fraction|);
    if s.negative then -v else v
  }

  ghost predicate Denotes(txt: string, s: Shape) { txt != [] && Proper(s) && txt == Text(s) }

  lemma ScaledIsSmall(s: Shape)
    requires Proper(s)
    ensures -LIMIT < Scaled(s) < LIMIT
  {
    hide Number, AllDigits, Pow10;
    Powers();
    NumberBound(s.whole);
    NumberBound(s.fraction);
    Pow10Grows(|s.whole|, MAX_WHOLE);
    FractionBound(Number(s.fraction), |s.fraction|);
    Whole(Number(s.whole), Pow10(26));
  }

  lemma {:induction false} FractionBound(f: nat, n: nat)
    requires n <= 12 && f < Pow10(n)
    ensures f * Pow10(12 - n) < Pow10(12)
    decreases 12 - n
  {
    if n < 12 {
      FractionBound(10 * f, n + 1);
      Tenfold(f, Pow10(12 - n - 1));
    }
  }

  lemma Whole(w: nat, p: nat)
    requires w < p
    ensures w * SCALE + SCALE <= p * SCALE
  {
  }

  lemma Middle(a: string, b: string, c: string)
    ensures (a + b + c)[|a|..|a| + |b|] == b && (a + b + c)[|a| + |b|..] == c
  {
  }

  /** Where the whole digits are, and the point behind them. */
  lemma PointAt(txt: string, s: Shape, k: nat)
    requires Denotes(txt, s) && k == if s.negative then 1 else 0
    ensures s.negative == (txt[0] == '-') && k + |s.whole| <= |txt| && txt[k..k + |s.whole|] == s.whole
    ensures forall i :: k <= i < k + |s.whole| ==> txt[i] != '.'
    ensures s.point <==> k + |s.whole| < |txt|
    ensures s.point ==> txt[k + |s.whole|] == '.' && txt[k + |s.whole| + 1..] == s.fraction
  {
    var sign, tail := if s.negative then "-" else "", (if s.point then "." else "") + s.fraction;
    assert txt == sign + s.whole + tail;
    Middle(sign, s.whole, tail);
    forall i | k <= i < k + |s.whole| ensures txt[i] != '.' {
      assert txt[i] == s.whole[i - k] && IsDigit(s.whole[i - k]);
    }
    if !s.negative && s.whole != [] { assert txt[0] == s.whole[0] && IsDigit(s.whole[0]); }
    if s.point { assert tail[1..] == s.fraction && txt[k + |s.whole|..][1..] == txt[k + |s.whole| + 1..]; }
  }

  /** A text has one reading. */
  lemma OneReading(txt: string, s: Shape, t: Shape)
    requires Denotes(txt, s) && Denotes(txt, t)
    ensures s == t
  {
    var k := if txt[0] == '-' then 1 else 0;
    PointAt(txt, s, if s.negative then 1 else 0);
    PointAt(txt, t, if t.negative then 1 else 0);
    var i, j := k + |s.whole|, k + |t.whole|;
    assert i == j;
  }

  // ---------- parsing ----------

  /** Digit by digit; nothing is lost on the way. */
  method FromDigits(s: string) returns (v: nat)
    requires AllDigits(s) && |s| <= MAX_WHOLE
    ensures v == Number(s) && Held(v)
  {
    v := 0;
    Powers();
    for i := 0 to |s|
      invariant v == Number(s[..i]) && Held(v)
    {
      NumberBound(s[..i + 1]);
      Pow10Grows(i + 1, MAX_WHOLE);
      assert s[..i + 1][..i] == s[..i];
      v := 10 * v + Digit(s[i]);
    }
    assert s[..|s|] == s;
  }

  method Find(txt: string, c: char, from: nat) returns (at: nat)
    requires from <= |txt|
    ensures from <= at <= |txt| && (at < |txt| ==> txt[at] == c)
    ensures forall i :: from <= i < at ==> txt[i] != c
  {
    at := from;
    while at < |txt| && txt[at] != c
      invariant from <= at <= |txt| && forall i :: from <= i < at ==> txt[i] != c
    {
      at := at + 1;
    }
  }

  method CheckCharacters(txt: string, from: nat) returns (ok: bool)
    requires from <= |txt|
    ensures ok <==> forall i :: from <= i < |txt| ==> IsDigit(txt[i]) || txt[i] == '.'
  {
    for i := from to |txt|
      invariant forall j :: from <= j < i ==> IsDigit(txt[j]) || txt[j] == '.'
    {
      if (txt[i] < '0' || txt[i] > '9') && txt[i] != '.' { return false; }
    }
    return true;
  }

  method Padded(fraction: string) returns (s: string)
    requires AllDigits(fraction) && |fraction| <= MAX_SCALE
    ensures AllDigits(s) && |s| == MAX_SCALE && Number(s) == Number(fraction) * Pow10(MAX_SCALE - |fraction|)
  {
    s := fraction;
    while |s| < MAX_SCALE
      invariant AllDigits(s) && |fraction| <= |s| <= MAX_SCALE
      invariant Number(s) == Number(fraction) * Pow10(|s| - |fraction|)
    {
      assert (s + ['0'])[..|s|] == s;
      Tenfold(Number(fraction), Pow10(|s| - |fraction|));
      s := s + ['0'];
    }
  }

  lemma Tenfold(a: nat, p: nat)
    ensures 10 * (a * p) == a * (10 * p) == 10 * a * p
  {
  }

  /** The parts of a text as the parser cuts it. */
  ghost predicate Cut(txt: string, start: nat, at: nat, s: Shape) {
    && txt != [] && start <= at <= |txt| && s.negative == (txt[0] == '-') && start == (if s.negative then 1 else 0)
    && s.whole == txt[start..at] && s.point == (at < |txt|) && s.fraction == if s.point then txt[at + 1..] else []
  }

  lemma CutIsReading(txt: string, start: nat, at: nat, s: Shape)
    requires Cut(txt, start, at, s) && (at < |txt| ==> txt[at] == '.')
    ensures txt == Text(s)
  {
    ThreeParts(txt, start, at);
    assert txt[..start] == if s.negative then "-" else "";
    if at < |txt| {
      assert txt[at..] == "." + txt[at + 1..];
      Grouped(txt[..start] + txt[start..at], ".", txt[at + 1..]);
    }
  }

  lemma ThreeParts(txt: string, start: nat, at: nat)
    requires start <= at <= |txt|
    ensures txt == txt[..start] + txt[start..at] + txt[at..]
  {
  }

  lemma Grouped(a: string, b: string, c: string)
    ensures a + (b + c) == a + b + c
  {
  }

  /** Any reading of the text is that cut. */
  lemma ReadingIsCut(txt: string, start: nat, at: nat, s: Shape, t: Shape)
    requires Cut(txt, start, at, s) && (at < |txt| ==> txt[at] == '.') &&
             (forall i :: start <= i < at ==> txt[i] != '.')
    requires Denotes(txt, t)
    ensures s == t
  {
    PointAt(txt, t, if t.negative then 1 else 0);
    var j := start + |t.whole|;
    assert at == j;
  }

  ghost predicate Readable(txt: string) { exists t :: Denotes(txt, t) }

  lemma NoReading(txt: string, start: nat, at: nat, s: Shape)
    requires Cut(txt, start, at, s) && (at < |txt| ==> txt[at] == '.') &&
             (forall i :: start <= i < at ==> txt[i] != '.')
    requires !Proper(s)
    ensures !Readable(txt)
  {
    forall t | Denotes(txt, t) ensures false { ReadingIsCut(txt, start, at, s, t); }
  }

  /** The digits of the cut are digits exactly when all characters are fine and no second point
      is among them. */
  lemma CutDigits(txt: string, start: nat, at: nat, s: Shape)
    requires Cut(txt, start, at, s) && (at < |txt| ==> txt[at] == '.') &&
             (forall i :: start <= i < at ==> txt[i] != '.')
    ensures AllDigits(s.whole) && AllDigits(s.fraction) <==>
      (forall i :: start <= i < |txt| ==> IsDigit(txt[i]) || txt[i] == '.') &&
      (forall i :: at < i < |txt| ==> txt[i] != '.')
  {
    assert forall i :: start <= i < at ==> txt[i] == s.whole[i - start];
    assert forall i :: at < i < |txt| ==> txt[i] == s.fraction[i - at - 1];
    assert forall i :: 0 <= i < |s.whole| ==> s.whole[i] == txt[start + i];
    assert forall i :: 0 <= i < |s.fraction| ==> s.fraction[i] == txt[at + 1 + i];
  }

  /** Accepts a text exactly when it has a reading, and stores its value, which two limbs hold. */
  method Parse(txt: string) returns (v: Option<int>, ghost s: Shape)
    ensures v.Some? ==> Denotes(txt, s) && v.value == Scaled(s) && Held(v.value)
    ensures v.None? ==> !Readable(txt)
  {
    hide IsDigit, AllDigits, Scaled, Text;
    s := Shape(false, [], false, []);
    if |txt| == 0 { return None, s; }
    var setSign := txt[0] == '-';
    var start := if setSign then 1 else 0;
    var fine := CheckCharacters(txt, start);
    var at := Find(txt, '.', 0);
    s := Shape(setSign, txt[start..at], at < |txt|, if at < |txt| then txt[at + 1..] else []);
    CutIsReading(txt, start, at, s);
    CutDigits(txt, start, at, s);
    if !Proper(s) { NoReading(txt, start, at, s); }
    if !fine { return None, s; }
    if at == |txt| {
      var wholeString := txt[start..];
      assert wholeString == s.whole;
      if |wholeString| > MAX_WHOLE { return None, s; }
      v := ScaleUp(wholeString, setSign, s);
      return v, s;
    }
    var second := Find(txt, '.', at + 1);
    if second != |txt| { return None, s; }
    var wholeString, fractionalString := txt[start..at], txt[at + 1..];
    if |wholeString| > MAX_WHOLE || |fractionalString| > MAX_SCALE { return None, s; }
    v := Sum(wholeString, fractionalString, setSign, s);
  }

  method ScaleUp(wholeString: string, setSign: bool, ghost s: Shape) returns (v: Option<int>)
    requires Proper(s) && s.whole == wholeString && s.fraction == [] && s.negative == setSign
    ensures v == Some(Scaled(s)) && Held(v.value)
  {
    ScaledIsSmall(s);
    Powers();
    var whole := FromDigits(wholeString);
    v := Some((if setSign then -whole else whole) * SCALE);
  }

  method Sum(wholeString: string, fractionalString: string, setSign: bool, ghost s: Shape) returns (v: Option<int>)
    requires Proper(s) && s.whole == wholeString && s.fraction == fractionalString && s.negative == setSign
    ensures v == Some(Scaled(s)) && Held(v.value)
  {
    ScaledIsSmall(s);
    Powers();
    var whole := FromDigits(wholeString);
    var padded := Padded(fractionalString);
    var fractional := FromDigits(padded);
    var sum := whole * SCALE + fractional;
    v := Some(if setSign then -sum else sum);
  }

  // ---------- printing ----------

  /** The last digit first, each put in front. */
  method ToDigits(n: nat) returns (s: string)
    ensures s == DigitsOf(n)
  {
    var temp: nat := n / 10;
    s := [('0' as int + n % 10) as char];
    while temp != 0
      invariant DigitsOf(n) == (if temp == 0 then [] else DigitsOf(temp)) + s
    {
      var digit := ('0' as int + temp % 10) as char;
      assert temp < 10 ==> DigitsOf(temp) == [digit];
      s := [digit] + s;
      temp := temp / 10;
    }
  }

  function Absolute(v: int): nat { if v < 0 then -v else v }

  /** The sign, all whole digits, and twelve fractional ones. */
  function Printed(v: int): Shape {
    var digits := DigitsOf(Absolute(v) % SCALE);
    var zeros := if |digits| < MAX_SCALE then Zeroes(MAX_SCALE - |digits|) else "";
    Shape(v < 0, DigitsOf(Absolute(v) / SCALE), true, zeros + digits)
  }

  /** Division that truncates toward zero. */
  function Truncated(v: int, d: nat): int
    requires d > 0
  {
    if v < 0 then -(-v / d) else v / d
  }

  lemma TruncatedParts(v: int)
    ensures Absolute(Truncated(v, SCALE)) == Absolute(v) / SCALE
    ensures Absolute(v - Truncated(v, SCALE) * SCALE) == Absolute(v) % SCALE
  {
  }

  method ToText(v: int) returns (txt: string)
    requires Held(v) && v != -TWO127
    ensures txt == Text(Printed(v))
  {
    txt := if v < 0 then "-" else "";
    var whole := Truncated(v, SCALE);
    var fractional := v - whole * SCALE;
    if whole < 0 { whole := -whole; }
    var digits := ToDigits(whole);
    txt := txt + digits + ".";
    if fractional < 0 { fractional := -fractional; }
    TruncatedParts(v);
    assert whole == Absolute(v) / SCALE && fractional == Absolute(v) % SCALE;
    var fractionalString := ToDigits(fractional);
    var zeros := "";
    var ii := |fractionalString|;
    while ii < MAX_SCALE
      invariant |fractionalString| <= ii && (ii == |fractionalString| || ii <= MAX_SCALE)
      invariant zeros == Zeroes(ii - |fractionalString|)
    {
      assert zeros + ['0'] == Zeroes(ii + 1 - |fractionalString|);
      zeros := zeros + ['0'];
      ii := ii + 1;
    }
    assert zeros + fractionalString == Printed(v).fraction;
    txt := txt + (zeros + fractionalString);
  }

  /** Printing gives a text with the printed value, that can be read if and only if the value
      has at most 26 whole digits. */
  lemma PrintedMeans(v: int)
    ensures Proper(Printed(v)) <==> -LIMIT < v < LIMIT
    ensures Proper(Printed(v)) ==> Scaled(Printed(v)) == v
  {
    hide DigitsOf, Pow10, Number, AllDigits;
    var w, f := Absolute(v) / SCALE, Absolute(v) % SCALE;
    Powers();
    DigitsBack(w);
    DigitCount(w, MAX_WHOLE);
    WholeLimit(Absolute(v), w, Pow10(MAX_WHOLE));
    DigitsBack(f);
    DigitCount(f, MAX_SCALE);
    ZerosInFront(DigitsOf(f), MAX_SCALE - |DigitsOf(f)|);
    assert |Printed(v).fraction| == MAX_SCALE;
    assert Pow10(0) == 1 by { NoTens(); }
  }

  lemma NoTens()
    ensures Pow10(0) == 1
  {
  }

  lemma WholeLimit(x: nat, w: nat, p: nat)
    requires w == x / SCALE && p * SCALE == LIMIT
    ensures w < p <==> x < LIMIT
  {
  }

  /** Parsing what was printed gives the value back, if and only if it is below 10^38 in size. */
  method RoundTrip(v: int) returns (w: Option<int>)
    requires Held(v) && v != -TWO127
    ensures w == if -LIMIT < v < LIMIT then Some(v) else None
  {
    hide Printed, Proper, Scaled;
    var txt := ToText(v);
    ghost var s: Shape;
    w, s := Parse(txt);
    PrintedMeans(v);
    ghost var p := Printed(v);
    assert txt != [] by { PointPrinted(v); }
    if Proper(p) {
      assert Denotes(txt, p);
      if w.Some? { OneReading(txt, s, p); }
    } else if w.Some? {
      PrintedReading(v, s);
    }
  }

  lemma PointPrinted(v: int)
    ensures Text(Printed(v)) != [] && Printed(v).point
  {
  }

  /** A reading of a printed value is the one that was printed. */
  lemma PrintedReading(v: int, s: Shape)
    requires Denotes(Text(Printed(v)), s)
    ensures s == Printed(v)
  {
    var p := Printed(v);
    DigitsBack(Absolute(v) / SCALE);
    hide DigitsOf, Number, Zeroes, Printed;
    TextIsCut(p);
    var start := if p.negative then 1 else 0;
    ReadingIsCut(Text(p), start, start + |p.whole|, p, s);
  }

  /** A text with a point is cut at its point. */
  lemma TextIsCut(p: Shape)
    requires p.point && p.whole != [] && AllDigits(p.whole)
    ensures var txt, start := Text(p), if p.negative then 1 else 0; var at := start + |p.whole|;
      Cut(txt, start, at, p) && at < |txt| && txt[at] == '.' && forall i :: start <= i < at ==> txt[i] != '.'
  {
    hide Number;
    var txt, start := Text(p), if p.negative then 1 else 0;
    var at := start + |p.whole|;
    var sign, tail := if p.negative then "-" else "", "." + p.fraction;
    assert txt == sign + p.whole + tail;
    Middle(sign, p.whole, tail);
    assert txt[at..][1..] == tail[1..] == p.fraction && txt[at..][1..] == txt[at + 1..];
    assert txt[at] == txt[at..][0] == '.';
    forall i | start <= i < at ensures txt[i] != '.' {
      assert txt[i] == p.whole[i - start] && IsDigit(p.whole[i - start]);
    }
    if !p.negative { assert txt[0] == p.whole[0] && IsDigit(p.whole[0]); }
  }

  // ---------- the wire form ----------

  /** A value taken apart at the byte boundary. */
  lemma {:induction false} EncodeParts(width: nat, k: nat, v: int)
    ensures EncodeInt(width + k, v) == EncodeInt(width, ShiftRight(v, k)) + EncodeInt(k, v)
  {
    if k > 0 { EncodeParts(width, k - 1, v / 256); }
  }

  ghost function ShiftRight(v: int, k: nat): int
    decreases k
  {
    if k == 0 then v else ShiftRight(v / 256, k - 1)
  }

  lemma ShiftEight(v: int)
    ensures ShiftRight(v, 8) == v / Limbs.B
  {
    var a := v / 256 / 256;
    var b := a / 256 / 256;
    assert a == v / 0x1_0000 && b == a / 0x1_0000 && b == v / 0x1_0000_0000;
    var c := b / 256 / 256;
    assert c == b / 0x1_0000 && c / 256 / 256 == c / 0x1_0000 && c / 0x1_0000 == b / 0x1_0000_0000;
    assert ShiftRight(c, 2) == c / 256 / 256 && ShiftRight(b, 4) == ShiftRight(c, 2);
    assert ShiftRight(a, 6) == ShiftRight(b, 4) && ShiftRight(v, 8) == ShiftRight(a, 6);
    Divided(v);
  }

  lemma Divided(v: int)
    ensures v / 0x1_0000_0000 / 0x1_0000_0000 == v / Limbs.B
  {
  }

  ghost function Period(k: nat): int { if k == 0 then 1 else 256 * Period(k - 1) }

  /** Encoding in `k` bytes forgets multiples of 256^k. */
  lemma {:induction false} EncodePeriod(k: nat, v: int, m: int)
    ensures EncodeInt(k, v + m * Period(k)) == EncodeInt(k, v)
  {
    if k > 0 {
      ByteMultiple(m, Period(k - 1));
      EncodePeriod(k - 1, v / 256, m);
      ByteShift(v, m * Period(k - 1));
    }
  }

  lemma ByteMultiple(m: int, p: int)
    ensures m * (256 * p) == 256 * (m * p)
  {
  }

  lemma ByteShift(v: int, x: int)
    ensures (v + 256 * x) / 256 == v / 256 + x && (v + 256 * x) % 256 == v % 256
  {
  }

  lemma PeriodOfLimb()
    ensures Period(8) == Limbs.B
  {
    assert Period(4) == 0x1_0000_0000;
  }

  /** The wire form is the high limb and then the low limb, each as a signed 64-bit integer. */
  lemma WireForm(s: seq<Limbs.Limb>)
    requires |s| == 2
    ensures EncodeInt(16, Limbs.Signed(s)) == EncodeInt(8, SignedLimb(s[1])) + EncodeInt(8, SignedLimb(s[0]))
    ensures WireFormat.Fits(8, SignedLimb(s[1])) && WireFormat.Fits(8, SignedLimb(s[0]))
  {
    hide EncodeInt, Period;
    var v, high := Limbs.Signed(s), SignedLimb(s[1]);
    assert v == s[0] as int + high * Limbs.B by { TwoLimbs(s); }
    EncodeParts(8, 8, v);
    ShiftEight(v);
    PeriodOfLimb();
    EncodePeriod(8, s[0] as int, high);
    EncodePeriod(8, s[0] as int, -1);
    Widths();
  }

  lemma TwoLimbs(s: seq<Limbs.Limb>)
    requires |s| == 2
    ensures Limbs.Signed(s) == s[0] as int + SignedLimb(s[1]) * Limbs.B
  {
    SignedTop(s);
    assert s[..1] == [s[0]] && [s[0]][1..] == [];
    assert Limbs.Unsigned(s[..1]) == s[0] as int;
    assert Limbs.P(0) == 1 && Limbs.P(1) == Limbs.B;
  }

  method SerializeTo(d: Int, buffer: ByteBuffer) returns (ok: bool)
    requires d.table.Length == 2 && buffer.Valid()
    modifies buffer`position, buffer.data
    ensures buffer.Valid() && (ok <==> 16 <= buffer.limit - old(buffer.position))
    ensures ok ==> buffer.Log() == old(buffer.Log()) + EncodeInt(16, d.Value())
  {
    hide EncodeInt, ByteBuffer.Log, Limbs.Signed, SignedLimb;
    WireForm(d.table[..]);
    var high, low := SignedLimb(d.table[1]), SignedLimb(d.table[0]);
    ok := buffer.PutInt(8, high);
    if ok { ok := buffer.PutInt(8, low); }
    assert ok ==> buffer.Log() == old(buffer.Log()) + (EncodeInt(8, high) + EncodeInt(8, low));
  }

  /** Reading the wire form gives every value back. */
  method FromWire(buffer: ByteBuffer, ghost limbs: seq<Limbs.Limb>, ghost tail: seq<Byte>) returns (d: Int)
    requires buffer.Valid() && |limbs| == 2 && buffer.Left() == EncodeInt(16, Limbs.Signed(limbs)) + tail
    modifies buffer`position
    ensures buffer.Valid() && buffer.Left() == tail && fresh(d) && d.Valid() && d.table[..] == limbs
  {
    hide EncodeInt, ByteBuffer.Left, Limbs.Signed;
    WireForm(limbs);
    ghost var low := EncodeInt(8, SignedLimb(limbs[0]));
    assert EncodeInt(16, Limbs.Signed(limbs)) + tail == EncodeInt(8, SignedLimb(limbs[1])) + (low + tail);
    var high := Responses.TakeInt(buffer, 8, SignedLimb(limbs[1]), low + tail);
    var rest := Responses.TakeInt(buffer, 8, SignedLimb(limbs[0]), tail);
    d := new Int.Zero(2);
    d.table[1] := (high % Limbs.B) as Limbs.Limb;
    d.table[0] := (rest % Limbs.B) as Limbs.Limb;
    assert d.table[..] == [d.table[0], d.table[1]] && limbs == [limbs[0], limbs[1]];
  }

  /** Null is the smallest value two limbs hold. */
  method IsNull(d: Int) returns (r: bool)
    requires d.table.Length == 2
    ensures r <==> d.Value() == -TWO127
  {
    hide Limbs.Signed;
    var min := new Int.Min(2);
    HeldFits(-TWO127);
    HeldFits(-TWO127 - 1);
    if d.Value() == -TWO127 { SameValue(d.table[..], min.table[..]); }
    r := d.table[..] == min.table[..];
  }
}
