/** Karatsuba's multiplication: three products of half the size instead of four, and the choice
    of the fastest algorithm. */
module Karatsuba {
  import opened Limbs
  import opened WordArithmetic
  import opened LongArithmetic

  /** From this number of limbs on. */
  const FROM_SIZE := 3

  // ---------- vectors of different sizes ----------

  /** Adds the first `size` limbs of `b`, moved up by `off` limbs. */
  method AddVector(a: array<Limb>, off: nat, b: array<Limb>, size: nat) returns (carry: bool)
    requires a != b && off + size <= a.Length && size <= b.Length
    modifies a
    ensures Unsigned(a[..]) + (if carry then P(a.Length) else 0) == Unsigned(old(a[..])) + P(off) * Unsigned(b[..size])
  {
    hide Unsigned, P, Carried;
    ghost var was := a[..];
    NothingCarried(was, off);
    NoLimbs();
    carry := false;
    for i := 0 to size
      invariant Carried(was, a[..], off + i, carry, P(off) * Unsigned(b[..i]))
    {
      carry := AddAt(a, off + i, b[i], carry, was, P(off) * Unsigned(b[..i]));
      MovedUp(b[..], off, i);
      assert b[..][..i] == b[..i] && b[..][..i + 1] == b[..i + 1];
    }
    for i := off + size to a.Length
      invariant Carried(was, a[..], i, carry, P(off) * Unsigned(b[..size]))
    {
      carry := AddAt(a, i, 0, carry, was, P(off) * Unsigned(b[..size]));
    }
    AllCarried(was, a[..], a.Length, carry, P(off) * Unsigned(b[..size]));
  }

  lemma MovedUp(b: seq<Limb>, off: nat, i: nat)
    requires i < |b|
    ensures P(off) * Unsigned(b[..i + 1]) == P(off) * Unsigned(b[..i]) + b[i] as int * P(off + i)
  {
    hide Unsigned, P;
    Append(b[..i], b[i]);
    assert b[..i + 1] == b[..i] + [b[i]];
    PowerOfSum(off, i);
    MovedNumbers(P(off), Unsigned(b[..i]), b[i] as int, P(i));
  }

  lemma MovedNumbers(p: int, u: int, x: int, q: int)
    ensures p * (u + x * q) == p * u + x * (p * q)
  {
  }

  ghost predicate Borrowed(was: seq<Limb>, now: seq<Limb>, i: nat, borrow: bool, taken: int) {
    && i <= |was| == |now| && now[i..] == was[i..]
    && Unsigned(now[..i]) == Unsigned(was[..i]) - taken + if borrow then P(i) else 0
  }

  method SubAt(a: array<Limb>, i: nat, x: Limb, borrow: bool, ghost was: seq<Limb>, ghost taken: int)
    returns (next: bool)
    requires i < a.Length && Borrowed(was, a[..], i, borrow, taken)
    modifies a
    ensures Borrowed(was, a[..], i + 1, next, taken + x as int * P(i))
  {
    hide Unsigned, P;
    ghost var now := a[..];
    var t;
    t, next := SubTwoWords(a[i], x, borrow);
    a[i] := t;
    OneBorrow(was, now, i, x, t, borrow, next, taken);
    assert a[..] == now[i := t];
  }

  lemma OneBorrow(was: seq<Limb>, now: seq<Limb>, i: nat, x: Limb, t: Limb, borrow: bool, next: bool, taken: int)
    requires i < |was| && Borrowed(was, now, i, borrow, taken)
    requires t as int == now[i] as int - x as int - (if borrow then 1 else 0) + if next then B else 0
    ensures Borrowed(was, now[i := t], i + 1, next, taken + x as int * P(i))
  {
    hide Unsigned;
    assert now[i..][0] == was[i..][0];
    assert now[i + 1..] == now[i..][1..] && was[i + 1..] == was[i..][1..] && now[i := t][i + 1..] == now[i + 1..];
    assert now[i := t][..i + 1] == now[..i] + [t] && was[..i + 1] == was[..i] + [was[i]];
    Append(now[..i], t);
    Append(was[..i], was[i]);
    BorrowStep(was[i] as int, x as int, t as int, borrow, next, P(i));
  }

  /** Takes off a smaller number of fewer limbs. */
  method SubVector(a: array<Limb>, b: array<Limb>)
    requires a != b && b.Length <= a.Length && Unsigned(b[..]) <= Unsigned(a[..])
    modifies a
    ensures Unsigned(a[..]) == Unsigned(old(a[..])) - Unsigned(b[..])
  {
    hide Unsigned, P, Borrowed;
    ghost var was := a[..];
    var borrow := false;
    NothingBorrowed(was);
    NoLimbs();
    for i := 0 to b.Length
      invariant Borrowed(was, a[..], i, borrow, Unsigned(b[..i]))
    {
      borrow := SubAt(a, i, b[i], borrow, was, Unsigned(b[..i]));
      Append(b[..i], b[i]);
      assert b[..i + 1] == b[..i] + [b[i]];
    }
    assert b[..b.Length] == b[..];
    for i := b.Length to a.Length
      invariant Borrowed(was, a[..], i, borrow, Unsigned(b[..]))
    {
      borrow := SubAt(a, i, 0, borrow, was, Unsigned(b[..]));
    }
    AllBorrowed(was, a[..], borrow, Unsigned(b[..]));
  }

  lemma NothingBorrowed(s: seq<Limb>)
    ensures Borrowed(s, s, 0, false, 0)
  {
  }

  lemma AllBorrowed(was: seq<Limb>, now: seq<Limb>, borrow: bool, taken: nat)
    requires Borrowed(was, now, |was|, borrow, taken) && taken <= Unsigned(was)
    ensures Unsigned(now) == Unsigned(was) - taken
  {
    hide Unsigned, P;
    assert now[..|was|] == now && was[..|was|] == was;
    InRange(now);
  }

  // ---------- Karatsuba's step ----------

  /** The sum of two halves, with its carry. */
  method AddHalves(x0: array<Limb>, x1: array<Limb>) returns (temp: array<Limb>, carry: bool)
    requires x1.Length <= x0.Length
    ensures fresh(temp) && temp.Length == x0.Length
    ensures Unsigned(temp[..]) + (if carry then P(x0.Length) else 0) == Unsigned(x0[..]) + Unsigned(x1[..])
  {
    hide Unsigned, P;
    temp := Copied(x0);
    carry := AddVector(temp, 0, x1, x1.Length);
    assert x1[..x1.Length] == x1[..];
    NoLimbs();
  }

  /** The product of two sums with their carries, from the product of the sums without. */
  method WithCarries(low: array<Limb>, x: array<Limb>, xc: bool, y: array<Limb>, yc: bool) returns (z: array<Limb>)
    requires 0 < x.Length == y.Length && low.Length == 2 * x.Length
    requires Unsigned(low[..]) == Unsigned(x[..]) * Unsigned(y[..])
    ensures fresh(z) && z.Length == 3 * x.Length
    ensures Unsigned(z[..]) == (Unsigned(x[..]) + (if xc then P(x.Length) else 0)) *
                               (Unsigned(y[..]) + (if yc then P(x.Length) else 0))
  {
    hide Unsigned, P;
    var f := x.Length;
    z := Extend(low, 3 * f);
    InRange(x[..]);
    InRange(y[..]);
    LargePower(f);
    PowerOfSum(f, f);
    PowerOfSum(f, 2 * f);
    CarryNumbers(Unsigned(x[..]), Unsigned(y[..]), xc, yc, P(f));
    ghost var limit := P(3 * f);
    if xc {
      var c := AddVector(z, f, y, f);
      assert y[..f] == y[..];
    }
    if yc {
      var c := AddVector(z, f, x, f);
      assert x[..f] == x[..];
    }
    if xc && yc {
      var c := AddInt(z, 1, 2 * f);
    }
  }

  lemma LargePower(f: nat)
    requires f > 0
    ensures P(f) >= B
  {
    PowersGrow(1, f);
  }

  lemma CarryNumbers(x: nat, y: nat, xc: bool, yc: bool, p: nat)
    requires x < p && y < p && p >= B
    ensures var sum := x * y + (if xc then p * y else 0) + (if yc then p * x else 0) + (if xc && yc then p * p else 0);
      sum == (x + if xc then p else 0) * (y + if yc then p else 0) && sum < p * (p * p)
  {
    var a, b := if xc then p else 0, if yc then p else 0;
    Expanded(x, a, y, b);
    BelowCube(x + a, y + b, p);
  }

  lemma Expanded(x: int, a: int, y: int, b: int)
    ensures (x + a) * (y + b) == x * y + a * y + b * x + a * b
  {
  }

  lemma BelowCube(x: nat, y: nat, p: nat)
    requires x < 2 * p && y < 2 * p && p >= B
    ensures x * y < p * (p * p)
  {
    Ordered(x, 2 * p, y);
    Strictly(y, 2 * p, 2 * p);
    assert 2 * p * y == y * (2 * p) && 2 * p * (2 * p) == 4 * (p * p);
    Ordered(4, p, p * p);
  }

  method Extend(a: array<Limb>, size: nat) returns (z: array<Limb>)
    requires a.Length <= size
    ensures fresh(z) && z.Length == size && Unsigned(z[..]) == Unsigned(a[..])
  {
    hide Unsigned, P;
    z := new Limb[size](i requires 0 <= i < size reads a => if i < a.Length then a[i] else 0);
    LowLimbs(z[..], a.Length);
    assert z[..][..a.Length] == a[..];
  }

  /** Puts two products side by side. */
  method Concatenated(z0: array<Limb>, z2: array<Limb>) returns (result: array<Limb>)
    ensures fresh(result) && result.Length == z0.Length + z2.Length
    ensures Unsigned(result[..]) == Unsigned(z0[..]) + P(z0.Length) * Unsigned(z2[..])
  {
    hide Unsigned, P;
    var n := z0.Length;
    result := new Limb[n + z2.Length](i requires 0 <= i < n + z2.Length reads z0, z2 =>
                                        if i < n then z0[i] else z2[i - n]);
    Split(result[..], n);
    assert result[..][..n] == z0[..] && result[..][n..] == z2[..];
  }

  method Slice(a: array<Limb>, from: nat, to: nat) returns (s: array<Limb>)
    requires from <= to <= a.Length
    ensures fresh(s) && s[..] == a[..][from..to]
  {
    s := new Limb[to - from](i requires 0 <= i < to - from reads a => a[from + i]);
  }

  /** Two numbers in halves: three products of halves make the product. */
  method Mul3Big3(x1: array<Limb>, x0: array<Limb>, y1: array<Limb>, y0: array<Limb>) returns (result: array<Limb>)
    requires x0.Length == y0.Length && 0 < x1.Length == y1.Length <= x0.Length <= x1.Length + 1
    ensures fresh(result) && result.Length == 2 * (x0.Length + x1.Length)
    ensures Unsigned(result[..]) == Joined(x0[..], x1[..]) * Joined(y0[..], y1[..])
    decreases x0.Length + x1.Length, 1
  {
    hide Unsigned, P, Joined;
    var f, s := x0.Length, x1.Length;
    var z0 := Mul3Big2(x0, y0);
    var z2 := Mul3Big2(x1, y1);
    var z1 := MiddleProduct(x1, x0, y1, y0, z0, z2);
    result := Concatenated(z0, z2);
    MiddleFits(x0[..], x1[..], y0[..], y1[..]);
    WholeProduct(x0[..], x1[..], y0[..], y1[..]);
    ProductInRange(x0[..], x1[..], y0[..], y1[..]);
    var size := if f > s then f + 2 * s else 3 * f;
    SmallNumber(z1[..], size);
    assert z1[..][..size] == z1[..size];
    var carry := AddVector(result, f, z1, size);
  }

  /** The sum of the two mixed products, from one product of sums. */
  method MiddleProduct(x1: array<Limb>, x0: array<Limb>, y1: array<Limb>, y0: array<Limb>,
                       z0: array<Limb>, z2: array<Limb>)
    returns (z1: array<Limb>)
    requires x0.Length == y0.Length && 0 < x1.Length == y1.Length <= x0.Length
    requires z0.Length == 2 * x0.Length && Unsigned(z0[..]) == Unsigned(x0[..]) * Unsigned(y0[..])
    requires z2.Length == 2 * x1.Length && Unsigned(z2[..]) == Unsigned(x1[..]) * Unsigned(y1[..])
    ensures fresh(z1) && z1.Length == 3 * x0.Length
    ensures Unsigned(z1[..]) == Unsigned(x1[..]) * Unsigned(y0[..]) + Unsigned(y1[..]) * Unsigned(x0[..])
    decreases x0.Length + x1.Length, 0
  {
    hide Unsigned, P;
    var temp, xc := AddHalves(x0, x1);
    var temp2, yc := AddHalves(y0, y1);
    z1 := Mul3Big2(temp, temp2);
    z1 := WithCarries(z1, temp, xc, temp2, yc);
    ghost var a, b, c, d := Unsigned(x0[..]), Unsigned(x1[..]), Unsigned(y0[..]), Unsigned(y1[..]);
    Expanded(a, b, c, d);
    Signs(a, b, c, d);
    SubVector(z1, z2);
    SubVector(z1, z0);
  }

  lemma Signs(a: nat, b: nat, c: nat, d: nat)
    ensures a * c >= 0 && b * d >= 0 && b * c >= 0 && d * a >= 0
  {
  }

  /** The middle product has room... */
  lemma MiddleFits(x0: seq<Limb>, x1: seq<Limb>, y0: seq<Limb>, y1: seq<Limb>)
    requires |x0| == |y0| && 0 < |x1| == |y1| <= |x0|
    ensures var middle := Unsigned(x1) * Unsigned(y0) + Unsigned(y1) * Unsigned(x0);
      middle < P(|x0| + 2 * |x1|) && middle < P(3 * |x0|)
  {
    hide Unsigned, P;
    var f, s := |x0|, |x1|;
    InRange(x0);
    InRange(x1);
    InRange(y0);
    InRange(y1);
    PowerOfSum(f, s);
    MiddleNumbers(Unsigned(x0), Unsigned(x1), Unsigned(y0), Unsigned(y1), P(f), P(s));
    PowerStep(f + s);
    PowersGrow(f + s + 1, f + 2 * s);
    PowersGrow(f + s + 1, 3 * f);
  }

  /** The number of which these are the halves. */
  ghost function Joined(low: seq<Limb>, high: seq<Limb>): nat { Unsigned(low) + P(|low|) * Unsigned(high) }

  lemma JoinedInRange(low: seq<Limb>, high: seq<Limb>)
    ensures Joined(low, high) < P(|low| + |high|)
  {
    hide Unsigned, P;
    InRange(low);
    InRange(high);
    PowerOfSum(|low|, |high|);
    BelowHalves(Unsigned(low), Unsigned(high), P(|low|), P(|high|));
  }

  /** ...and the three products make up the whole. */
  lemma WholeProduct(x0: seq<Limb>, x1: seq<Limb>, y0: seq<Limb>, y1: seq<Limb>)
    requires |x0| == |y0| && |x1| == |y1|
    ensures var a, b, c, d, f := Unsigned(x0), Unsigned(x1), Unsigned(y0), Unsigned(y1), |x0|;
      Joined(x0, x1) * Joined(y0, y1) == a * c + P(2 * f) * (b * d) + P(f) * (b * c + d * a)
  {
    hide Unsigned, P;
    PowerOfSum(|x0|, |x0|);
    Halves(Unsigned(x0), Unsigned(x1), Unsigned(y0), Unsigned(y1), P(|x0|));
  }

  lemma ProductInRange(x0: seq<Limb>, x1: seq<Limb>, y0: seq<Limb>, y1: seq<Limb>)
    requires |x0| == |y0| && |x1| == |y1|
    ensures Joined(x0, x1) * Joined(y0, y1) < P(2 * (|x0| + |x1|))
  {
    hide Unsigned, P, Joined;
    JoinedInRange(x0, x1);
    JoinedInRange(y0, y1);
    PowerOfSum(|x0| + |x1|, |x0| + |x1|);
    BelowSquare(Joined(x0, x1), Joined(y0, y1), P(|x0| + |x1|));
  }

  lemma MiddleNumbers(a: nat, b: nat, c: nat, d: nat, p: nat, q: nat)
    requires a < p && c < p && b < q && d < q
    ensures b * c + d * a < 2 * (p * q)
  {
    BelowProducts(c, b, p, q);
    BelowProducts(a, d, p, q);
  }

  lemma BelowProducts(a: nat, d: nat, p: nat, q: nat)
    requires a < p && d < q
    ensures d * a < p * q
  {
    Ordered(d, q, a);
    Strictly(a, p, q);
  }

  lemma Halves(a: int, b: int, c: int, d: int, p: int)
    ensures (a + p * b) * (c + p * d) == a * c + p * p * (b * d) + p * (b * c + d * a)
  {
    Expanded(a, p * b, c, p * d);
    assert p * b * c == p * (b * c) && p * d * a == p * (d * a) && p * b * (p * d) == p * p * (b * d);
  }

  lemma BelowHalves(a: nat, b: nat, p: nat, q: nat)
    requires a < p && b < q
    ensures 0 <= a + p * b < p * q
  {
    Ordered(b + 1, q, p);
    Signs(p, a, b, 0);
  }

  lemma BelowSquare(x: nat, y: nat, p: nat)
    requires x < p && y < p
    ensures x * y < p * p
  {
    BelowProducts(y, x, p, p);
  }

  /** The product by halves, down to the sizes that are multiplied directly. */
  method Mul3Big2(x: array<Limb>, y: array<Limb>) returns (result: array<Limb>)
    requires 0 < x.Length == y.Length
    ensures fresh(result) && result.Length == 2 * x.Length
    ensures Unsigned(result[..]) == Unsigned(x[..]) * Unsigned(y[..])
    decreases x.Length, 3
  {
    if 1 < x.Length < FROM_SIZE {
      result := Mul2Big(x, y);
    } else if x.Length == 1 {
      result := MulOne(x, y);
    } else {
      result := MulByHalves(x, y);
    }
  }

  method MulOne(x: array<Limb>, y: array<Limb>) returns (result: array<Limb>)
    requires 1 == x.Length == y.Length
    ensures fresh(result) && result.Length == 2 && Unsigned(result[..]) == Unsigned(x[..]) * Unsigned(y[..])
  {
    hide Unsigned;
    var high, low := MulTwoWords(x[0], y[0]);
    result := new Limb[2] [low, high];
    Pair(result[..]);
    Single(x[..]);
    Single(y[..]);
  }

  method MulByHalves(x: array<Limb>, y: array<Limb>) returns (result: array<Limb>)
    requires 2 <= x.Length == y.Length
    ensures fresh(result) && result.Length == 2 * x.Length
    ensures Unsigned(result[..]) == Unsigned(x[..]) * Unsigned(y[..])
    decreases x.Length, 2
  {
    hide Unsigned, P, Joined;
    var n := x.Length;
    var f := if n % 2 == 1 then n / 2 + 1 else n / 2;
    var x0, x1 := Halved(x, f);
    var y0, y1 := Halved(y, f);
    result := Mul3Big3(x1, x0, y1, y0);
  }

  method Halved(a: array<Limb>, f: nat) returns (low: array<Limb>, high: array<Limb>)
    requires f <= a.Length
    ensures low.Length == f && high.Length == a.Length - f && Joined(low[..], high[..]) == Unsigned(a[..])
  {
    hide Unsigned, P;
    low := Slice(a, 0, f);
    high := Slice(a, f, a.Length);
    Split(a[..], f);
    assert low[..] == a[..][..f] && high[..] == a[..][f..];
  }

  lemma Single(s: seq<Limb>)
    requires |s| == 1
    ensures Unsigned(s) == s[0] as int
  {
    assert s[1..] == [];
  }

  // ---------- the fastest ----------

  /** The whole product, by whichever algorithm suits the operands. */
  method MulFastestBig(x: array<Limb>, y: array<Limb>) returns (result: array<Limb>)
    requires 0 < x.Length == y.Length
    ensures fresh(result) && result.Length == 2 * x.Length
    ensures Unsigned(result[..]) == Unsigned(x[..]) * Unsigned(y[..])
  {
    hide Unsigned;
    if x.Length < FROM_SIZE {
      result := Mul2Big(x, y);
      return;
    }
    var x1start, x1size := Trim(x);
    var x2start, x2size := Trim(y);
    if x1size == 0 || x2size == 0 || x1size - x1start < 3 || x2size - x2start < 3 {
      result := Mul2Big3(x, y, x1start, x1size, x2start, x2size);
    } else {
      result := Mul3Big2(x, y);
    }
  }

  /** The product, with a carry exactly when it is too big. */
  method MulFastest(x: array<Limb>, y: array<Limb>) returns (carry: bool)
    requires 0 < x.Length == y.Length
    modifies x
    ensures carry <==> Unsigned(old(x[..])) * Unsigned(old(y[..])) >= P(x.Length)
    ensures !carry ==> Unsigned(x[..]) == Unsigned(old(x[..])) * Unsigned(old(y[..]))
  {
    hide Unsigned, P;
    var n := x.Length;
    ghost var product := Unsigned(x[..]) * Unsigned(y[..]);
    var result := MulFastestBig(x, y);
    ghost var whole := result[..];
    for i := 0 to n
      invariant forall k :: 0 <= k < i ==> x[k] == result[k]
      invariant result[..] == whole
    {
      x[i] := result[i];
    }
    assert x[..] == result[..n];
    carry := IsCarried(result, n);
  }
}
