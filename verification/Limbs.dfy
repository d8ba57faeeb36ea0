/** Numbers as little-endian lists of 64-bit limbs, unsigned and in two's complement, for every
    number of limbs. */
module Limbs {
  const B := 0x1_0000_0000_0000_0000
  const TOP := 0x8000_0000_0000_0000

  newtype Limb = x: int | 0 <= x < B

  function Unsigned(s: seq<Limb>): nat {
    if s == [] then 0 else s[0] as int + B * Unsigned(s[1..])
  }

  /** The number of values of `n` limbs. */
  ghost function P(n: nat): (p: nat)
    ensures p > 0
  {
    if n == 0 then 1 else B * P(n - 1)
  }

  ghost function H(n: nat): (h: int)
    requires n > 0
    ensures h > 0 && P(n) == 2 * h
  {
    TOP * P(n - 1)
  }

  lemma {:induction false} InRange(s: seq<Limb>)
    ensures Unsigned(s) < P(|s|)
  {
    if s != [] { InRange(s[1..]); }
  }

  lemma {:induction false} Append(s: seq<Limb>, x: Limb)
    ensures Unsigned(s + [x]) == Unsigned(s) + x as int * P(|s|)
  {
    if s == [] {
      assert s + [x] == [x] && [x][1..] == [];
    } else {
      assert (s + [x])[1..] == s[1..] + [x];
      Append(s[1..], x);
      assert x as int * P(|s|) == B * (x as int * P(|s| - 1));
    }
  }

  lemma {:induction false} Split(s: seq<Limb>, i: nat)
    requires i <= |s|
    ensures Unsigned(s) == Unsigned(s[..i]) + P(i) * Unsigned(s[i..])
  {
    if i > 0 {
      assert s[..i][1..] == s[1..][..i - 1] && s[1..][i - 1..] == s[i..];
      Split(s[1..], i - 1);
      assert P(i) * Unsigned(s[i..]) == B * (P(i - 1) * Unsigned(s[i..]));
    } else {
      assert s[..0] == [] && s[0..] == s;
    }
  }

  lemma {:induction false} SameLimbs(a: seq<Limb>, b: seq<Limb>)
    requires |a| == |b| && Unsigned(a) == Unsigned(b)
    ensures a == b
  {
    if a != [] {
      LowLimb(a[0] as int, b[0] as int, Unsigned(a[1..]), Unsigned(b[1..]));
      SameLimbs(a[1..], b[1..]);
      assert a == [a[0]] + a[1..] && b == [b[0]] + b[1..];
    }
  }

  lemma LowLimb(x: int, y: int, h: int, k: int)
    requires 0 <= x < B && 0 <= y < B && x + B * h == y + B * k
    ensures x == y && h == k
  {
  }

  // ---------- two's complement ----------

  ghost function Signed(s: seq<Limb>): int
    requires |s| > 0
  {
    if Unsigned(s) < H(|s|) then Unsigned(s) else Unsigned(s) - P(|s|)
  }

  predicate TopBit(s: seq<Limb>)
    requires |s| > 0
  {
    s[|s| - 1] as int >= TOP
  }

  lemma TopLimb(s: seq<Limb>)
    requires |s| > 0
    ensures var n := |s| - 1; Unsigned(s) == Unsigned(s[..n]) + s[n] as int * P(n) && Unsigned(s[..n]) < P(n)
  {
    hide P, Unsigned;
    var n := |s| - 1;
    assert s == s[..n] + [s[n]];
    Append(s[..n], s[n]);
    InRange(s[..n]);
  }

  lemma TopBitIsSign(s: seq<Limb>)
    requires |s| > 0
    ensures TopBit(s) <==> Signed(s) < 0
    ensures -H(|s|) <= Signed(s) < H(|s|)
  {
    InRange(s);
    TopLimb(s);
    Scaled(Unsigned(s[..|s| - 1]), s[|s| - 1] as int, P(|s| - 1));
  }

  lemma Scaled(low: nat, top: nat, p: nat)
    requires low < p
    ensures top >= TOP <==> low + top * p >= TOP * p
  {
    if top >= TOP {
      Larger(TOP, top, p);
    } else {
      Larger(top + 1, TOP, p);
      assert (top + 1) * p == top * p + p;
    }
  }

  lemma Larger(a: nat, b: nat, p: nat)
    requires a <= b
    ensures a * p <= b * p
  {
  }

  /** Representable in `n` limbs. */
  ghost predicate Fits(n: nat, v: int)
    requires n > 0
  {
    -H(n) <= v < H(n)
  }

  // ---------- uniform limbs ----------

  ghost predicate Uniform(s: seq<Limb>, x: int) { forall i :: 0 <= i < |s| ==> s[i] as int == x }

  lemma {:induction false} AllZero(s: seq<Limb>)
    ensures Unsigned(s) == 0 <==> Uniform(s, 0)
  {
    if s != [] {
      AllZero(s[1..]);
      assert forall i :: 0 < i < |s| ==> s[i] == s[1..][i - 1];
      assert forall i :: 0 <= i < |s| - 1 ==> s[1..][i] == s[i + 1];
    }
  }

  lemma {:induction false} AllOnes(s: seq<Limb>)
    ensures Unsigned(s) == P(|s|) - 1 <==> Uniform(s, B - 1)
  {
    if s != [] {
      AllOnes(s[1..]);
      InRange(s[1..]);
      assert forall i :: 0 < i < |s| ==> s[i] == s[1..][i - 1];
      assert forall i :: 0 <= i < |s| - 1 ==> s[1..][i] == s[i + 1];
      LowOnes(s[0] as int, Unsigned(s[1..]), P(|s| - 1));
    }
  }

  lemma LowOnes(x: int, h: int, p: int)
    requires 0 <= x < B && 0 <= h < p
    ensures x + B * h == B * p - 1 <==> x == B - 1 && h == p - 1
  {
  }

  // ---------- arithmetic on residues ----------

  /** The carry rule after adding: signs alike, and the sign of the sum different. */
  predicate AddCarries(sign1: bool, sign2: bool, signOfSum: bool) {
    (!sign1 && !sign2 && signOfSum) || (sign1 && sign2 && !signOfSum)
  }

  predicate SubCarries(sign1: bool, sign2: bool, signOfDifference: bool) {
    (!sign1 && sign2 && signOfDifference) || (sign1 && !sign2 && !signOfDifference)
  }

  /** The number behind a residue below `2 * h`. */
  ghost function Wrapped(u: int, h: int): int { if u < h then u else u - 2 * h }

  lemma AddNumbers(a: int, b: int, s: int, carry: bool, h: int)
    requires 0 <= a < 2 * h && 0 <= b < 2 * h && 0 <= s < 2 * h && s + (if carry then 2 * h else 0) == a + b
    ensures AddCarries(Wrapped(a, h) < 0, Wrapped(b, h) < 0, Wrapped(s, h) < 0) <==>
            !(-h <= Wrapped(a, h) + Wrapped(b, h) < h)
    ensures -h <= Wrapped(a, h) + Wrapped(b, h) < h ==> Wrapped(s, h) == Wrapped(a, h) + Wrapped(b, h)
  {
  }

  lemma SubNumbers(a: int, b: int, s: int, borrow: bool, h: int)
    requires 0 <= a < 2 * h && 0 <= b < 2 * h && 0 <= s < 2 * h && s == a - b + if borrow then 2 * h else 0
    ensures SubCarries(Wrapped(a, h) < 0, Wrapped(b, h) < 0, Wrapped(s, h) < 0) <==>
            !(-h <= Wrapped(a, h) - Wrapped(b, h) < h)
    ensures -h <= Wrapped(a, h) - Wrapped(b, h) < h ==> Wrapped(s, h) == Wrapped(a, h) - Wrapped(b, h)
  {
  }

  /** After a word-wise addition the carry rule tells exactly whether the sum is representable. */
  lemma AddRule(a: seq<Limb>, b: seq<Limb>, s: seq<Limb>, carry: bool)
    requires |a| == |b| == |s| > 0 && Unsigned(s) + (if carry then P(|s|) else 0) == Unsigned(a) + Unsigned(b)
    ensures AddCarries(TopBit(a), TopBit(b), TopBit(s)) <==> !Fits(|s|, Signed(a) + Signed(b))
    ensures Fits(|s|, Signed(a) + Signed(b)) ==> Signed(s) == Signed(a) + Signed(b)
  {
    hide TopBit, Unsigned, H, AddCarries;
    TopBitIsSign(a);
    TopBitIsSign(b);
    TopBitIsSign(s);
    InRange(a);
    InRange(b);
    InRange(s);
    AddNumbers(Unsigned(a), Unsigned(b), Unsigned(s), carry, H(|s|));
  }

  lemma SubRule(a: seq<Limb>, b: seq<Limb>, s: seq<Limb>, borrow: bool)
    requires |a| == |b| == |s| > 0 && Unsigned(s) == Unsigned(a) - Unsigned(b) + if borrow then P(|s|) else 0
    ensures SubCarries(TopBit(a), TopBit(b), TopBit(s)) <==> !Fits(|s|, Signed(a) - Signed(b))
    ensures Fits(|s|, Signed(a) - Signed(b)) ==> Signed(s) == Signed(a) - Signed(b)
  {
    hide TopBit, Unsigned, H, SubCarries;
    TopBitIsSign(a);
    TopBitIsSign(b);
    TopBitIsSign(s);
    InRange(a);
    InRange(b);
    InRange(s);
    SubNumbers(Unsigned(a), Unsigned(b), Unsigned(s), borrow, H(|s|));
  }

  /** The exact step of a carry chain. */
  lemma CarryStep(a: int, b: int, t: int, carry: bool, next: bool, p: int)
    requires t + (if next then B else 0) == a + b + if carry then 1 else 0
    ensures t * p + (if next then B * p else 0) == a * p + b * p + if carry then p else 0
  {
    var c, d := if carry then 1 else 0, if next then B else 0;
    assert (t + d) * p == t * p + d * p && (a + b + c) * p == a * p + b * p + c * p;
  }

  lemma BorrowStep(a: int, b: int, t: int, borrow: bool, next: bool, p: int)
    requires t == a - b - (if borrow then 1 else 0) + if next then B else 0
    ensures t * p == a * p - b * p - (if borrow then p else 0) + if next then B * p else 0
  {
    var c, d := if borrow then 1 else 0, if next then B else 0;
    assert (a - b - c + d) * p == a * p - b * p - c * p + d * p;
  }

  lemma ProductOfAbsolutes(v: int, w: int, x: nat, y: nat)
    requires x == (if v < 0 then -v else v) && y == if w < 0 then -w else w
    ensures v * w == if (v < 0) != (w < 0) then -(x * y) else x * y
  {
  }

  /** Truncated division: the remainder has the sign of the dividend. */
  ghost predicate IsQuotient(v: int, w: int, q: int, r: int) {
    v == w * q + r && (if r < 0 then -r else r) < (if w < 0 then -w else w) && (r == 0 || (r < 0 <==> v < 0))
  }

  lemma QuotientOfAbsolutes(v: int, w: int, x: int, y: int, q: int, r: int)
    requires q >= 0 && r >= 0 && x == (if v < 0 then -v else v) && y == (if w < 0 then -w else w) &&
             x == y * q + r && r < y
    ensures IsQuotient(v, w, if (v < 0) != (w < 0) then -q else q, if v < 0 then -r else r)
  {
    assert (-y) * (-q) == y * q && (-y) * q == -(y * q) && y * (-q) == -(y * q);
  }
}
