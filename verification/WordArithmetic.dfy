/** Arithmetic on one and two machine words: sums and differences with a carry, the double-width
    product, and the quotient of two words by one. */
module WordArithmetic {
  import opened Limbs

  /** Half a word. */
  const HALF := 0x1_0000_0000

  method AddTwoWords(a: Limb, b: Limb, carry: bool) returns (t: Limb, next: bool)
    ensures t as int + (if next then B else 0) == a as int + b as int + if carry then 1 else 0
  {
    if !carry {
      t := ((a as int + b as int) % B) as Limb;
      next := t < a;
    } else {
      t := ((a as int + b as int + 1) % B) as Limb;
      next := !(t > a);
    }
  }

  method SubTwoWords(a: Limb, b: Limb, borrow: bool) returns (t: Limb, next: bool)
    ensures t as int == a as int - b as int - (if borrow then 1 else 0) + if next then B else 0
  {
    if !borrow {
      t := ((a as int - b as int) % B) as Limb;
      next := a < b;
    } else {
      t := ((a as int - b as int - 1) % B) as Limb;
      next := !(a > b);
    }
  }

  // ---------- halves ----------

  function High(x: Limb): (h: Limb)
    ensures (h as int) < HALF
  {
    (x as int / HALF) as Limb
  }

  function Low(x: Limb): (l: Limb)
    ensures (l as int) < HALF
  {
    (x as int % HALF) as Limb
  }

  function Join(h: Limb, l: Limb): (x: Limb)
    requires (h as int) < HALF && (l as int) < HALF
    ensures x as int == h as int * HALF + l as int && High(x) == h && Low(x) == l
  {
    (h as int * HALF + l as int) as Limb
  }

  // ---------- the double-width product ----------

  /** The exact product, from the products of the halves. */
  method MulTwoWords(a: Limb, b: Limb) returns (high: Limb, low: Limb)
    ensures high as int * B + low as int == a as int * b as int
  {
    var a1, a0, b1, b0 := High(a) as int, Low(a) as int, High(b) as int, Low(b) as int;
    HalfProduct(b0, a0);
    HalfProduct(b0, a1);
    HalfProduct(b1, a0);
    HalfProduct(b1, a1);
    var low1 := (b0 * a0) as Limb;
    var temp := (High(low1) as int + b0 * a1) as Limb;
    low1 := Join(Low(temp), Low(low1));
    var high1 := High(temp);
    temp := (b1 * a0) as Limb;
    var low2 := Join(Low(temp), 0);
    var high2 := (b1 * a1 + High(temp) as int) as Limb;
    var carry, lost: bool;
    low, carry := AddTwoWords(low1, low2, false);
    high, lost := AddTwoWords(high1, high2, carry);
    ghost var over := if lost then 1 else 0;
    ProductParts(a1, a0, b1, b0);
    WordProduct(a as int, b as int);
    NoCarry(high as int * B + low as int, over, a as int * b as int);
  }

  lemma HalfProduct(x: int, y: int)
    requires 0 <= x < HALF && 0 <= y < HALF
    ensures 0 <= x * y <= B - 2 * HALF + 1
  {
    Larger(x, HALF - 1, y);
  }

  lemma WordProduct(x: int, y: int)
    requires 0 <= x < B && 0 <= y < B
    ensures 0 <= x * y < B * B
  {
    Larger(x, B, y);
  }

  lemma ProductParts(a1: int, a0: int, b1: int, b0: int)
    ensures (a1 * HALF + a0) * (b1 * HALF + b0) == b0 * a0 + HALF * (b0 * a1 + b1 * a0) + B * (b1 * a1)
  {
  }

  lemma NoCarry(sum: int, over: int, product: int)
    requires sum + B * B * over == product && 0 <= product < B * B && 0 <= sum && 0 <= over <= 1
    ensures over == 0
  {
  }

  // ---------- quotient digits ----------

  /** The greatest digit in base `b` whose multiple of `v` is within `n`. */
  ghost predicate IsDigit(b: int, n: int, v: int, q: int) {
    0 <= q < b && q * v <= n && TooBig(b, n, v, q + 1)
  }

  ghost predicate TooBig(b: int, n: int, v: int, q: int) { q >= b || q * v > n }

  /** A digit `q` guessed from two digits of the dividend and one of the divisor leaves `r`. */
  ghost predicate Guessed(b: int, u: int, v1: int, q: int, r: int) { q >= 0 && r >= 0 && q * v1 + r == u }

  /** The first guess is never too small, and with a large leading digit it is at most two more
      than a digit can be. */
  lemma FirstGuess(b: int, u: int, u0: int, v1: int, v0: int, q: int, r: int)
    requires Guessed(b, u, v1, q, r) && r < v1 <= b <= 2 * v1 && 0 <= u0 < b && 0 <= v0 && u < (v1 + 1) * b
    ensures TooBig(b, u * b + u0, v1 * b + v0, q + 1) && q <= b + 1
  {
    assert (q + 1) * v1 == q * v1 + v1;
    NextIsTooBig(b, u, u0, v1, v0, q + 1);
    if q >= b + 2 { LargeGuess(b, v1, q); }
  }

  lemma NextIsTooBig(b: int, u: int, u0: int, v1: int, v0: int, q: int)
    requires u + 1 <= q * v1 && b >= 0 && 0 <= u0 < b && 0 <= v0 && q >= 0
    ensures q * (v1 * b + v0) > u * b + u0
  {
    Ordered(u + 1, q * v1, b);
    ThreeFactors(q, v1, b, v0);
  }

  lemma LargeGuess(b: int, v1: int, q: int)
    requires v1 >= 0 && b >= 0 && q >= b + 2
    ensures q * v1 >= (v1 + 1) * b + 2 * v1 - b
  {
    Ordered(b + 2, q, v1);
    assert (b + 2) * v1 == (v1 + 1) * b + 2 * v1 - b;
  }

  lemma ThreeFactors(q: int, v1: int, b: int, v0: int)
    requires q >= 0 && v0 >= 0
    ensures q * (v1 * b + v0) == q * v1 * b + q * v0 && q * v0 >= 0
  {
  }

  /** The test that lowers the guess is right to do so... */
  lemma Lowered(b: int, u: int, u0: int, v1: int, v0: int, q: int, r: int)
    requires Guessed(b, u, v1, q, r) && 0 <= v0 && (q >= b || q * v0 > r * b + u0)
    ensures TooBig(b, u * b + u0, v1 * b + v0, q)
  {
    ThreeFactors(q, v1, b, v0);
    assert q * v1 * b == (u - r) * b == u * b - r * b;
  }

  /** ...a guess that passes it is small enough... */
  lemma Passed(b: int, u: int, u0: int, v1: int, v0: int, q: int, r: int)
    requires Guessed(b, u, v1, q, r) && 0 <= v0 && q * v0 <= r * b + u0
    ensures q * (v1 * b + v0) <= u * b + u0
  {
    ThreeFactors(q, v1, b, v0);
    assert q * v1 * b == (u - r) * b == u * b - r * b;
  }

  /** ...and one that leaves a whole digit passes it. */
  lemma NoTestNeeded(b: int, u: int, u0: int, v1: int, v0: int, q: int, r: int)
    requires Guessed(b, u, v1, q, r) && r >= b > v0 >= 0 && u0 >= 0 && v1 > 0 && u < (v1 + 1) * b
    ensures q < b && q * v0 <= r * b + u0
  {
    assert b * v1 + b == (v1 + 1) * b;
    if q >= b { Larger(b, q, v1); }
    Larger(v0, b, q);
    Larger(q, r, b);
    assert q * v0 == v0 * q && b * q == q * b;
  }

  /** The digit for the leading digits is the digit for the whole numbers, or one more. */
  lemma LeadingDigits(b: int, n: int, v: int, q: int, w: int, u: int, d: int)
    requires IsDigit(b, n, v, q) && w > 0 && b <= v
    requires n * w <= u < (n + 1) * w && v * w <= d < (v + 1) * w && u < d * b
    ensures q * d < u + d && u < (q + 1) * d
  {
    AtMostOneMore(b, n, v, q, w, u, d);
    if q + 1 < b {
      Ordered(n + 1, (q + 1) * v, w);
      Associate(q + 1, v, w);
      Ordered(v * w, d, q + 1);
    } else {
      assert (q + 1) * d == d * b;
    }
  }

  lemma AtMostOneMore(b: int, n: int, v: int, q: int, w: int, u: int, d: int)
    requires 0 <= q < b <= v && q * v <= n && w > 0 && n * w <= u && v * w <= d < (v + 1) * w
    ensures q * d < u + d
  {
    Ordered(q * v, n, w);
    Multiple(q, d, v, w);
    Strictly(q, v, w);
  }

  lemma Multiple(q: int, d: int, v: int, w: int)
    requires q >= 0 && d < (v + 1) * w
    ensures q * d <= q * v * w + q * w
  {
    Ordered(d, (v + 1) * w, q);
    assert (v + 1) * w * q == q * v * w + q * w;
  }

  lemma Strictly(x: int, y: int, w: int)
    requires w > 0 && x < y
    ensures x * w < y * w
  {
  }

  lemma Ordered(x: int, y: int, w: int)
    requires w >= 0 && x <= y
    ensures x * w <= y * w
  {
  }

  lemma Associate(x: int, y: int, z: int)
    ensures x * y * z == y * z * x
  {
  }

  // ---------- two words by one ----------

  /** The quotient digit of one and a half words by a word with a leading one. */
  method DivTwoWordsCalculate(u: Limb, u3: Limb, v: Limb) returns (q: Limb)
    requires u < v && u3 as int < HALF <= 2 * High(v) as int
    ensures IsDigit(HALF, u as int * HALF + u3 as int, v as int, q as int)
  {
    hide Guessed, TooBig;
    var v1, v0 := High(v), Low(v);
    var r: Limb;
    q, r := u / v1, u % v1;
    ghost var n := u as int * HALF + u3 as int;
    WordGuess(u as int, v1 as int);
    FirstGuess(HALF, u as int, u3 as int, v1 as int, v0 as int, q as int, r as int);
    var next := true;
    while next
      invariant Guessed(HALF, u as int, v1 as int, q as int, r as int) && q as int <= HALF + 1
      invariant TooBig(HALF, n, v as int, q as int + 1) && (next ==> (r as int) < HALF)
      invariant !next ==> (q as int) < HALF && q as int * v0 as int <= r as int * HALF + u3 as int
      decreases if next then HALF - r as int else 0
    {
      var decrease := true;
      if High(q) != 1 {
        HalfProduct(q as int, v0 as int);
        decrease := q * v0 > Join(r, u3);
      }
      next := false;
      if decrease {
        Lowered(HALF, u as int, u3 as int, v1 as int, v0 as int, q as int, r as int);
        LessByOne(HALF, u as int, v1 as int, q as int, r as int, v0 as int, u3 as int);
        q, r := q - 1, r + v1;
        if High(r) == 0 {
          next := true;
        } else {
          NoTestNeeded(HALF, u as int, u3 as int, v1 as int, v0 as int, q as int, r as int);
        }
      }
    }
    Passed(HALF, u as int, u3 as int, v1 as int, v0 as int, q as int, r as int);
  }

  lemma WordGuess(u: int, v1: int)
    requires u >= 0 && v1 > 0
    ensures Guessed(HALF, u, v1, u / v1, u % v1)
  {
  }

  lemma LessByOne(b: int, u: int, v1: int, q: int, r: int, v0: int, u0: int)
    requires Guessed(b, u, v1, q, r) && v1 >= 0 && b > 0 && u0 >= 0 && (q >= b || q * v0 > r * b + u0)
    ensures q > 0 && Guessed(b, u, v1, q - 1, r + v1)
  {
    assert (q - 1) * v1 == q * v1 - v1 && r * b >= 0;
  }

  /** Takes a digit times the divisor off; a digit that was one too big is corrected. */
  method MultiplySubtract(u: Limb, u3: Limb, q: Limb, v: Limb) returns (u': Limb, u3': Limb, q': Limb)
    requires (u3 as int) < HALF && (q as int) < HALF
    requires q as int * v as int < u as int * HALF + u3 as int + v as int
    requires u as int * HALF + (u3 as int) < (q as int + 1) * v as int
    ensures (u' as int) < HALF && (u3' as int) < HALF && (q' as int) < HALF
    ensures u as int * HALF + u3 as int == q' as int * v as int + u' as int * HALF + u3' as int
    ensures u' as int * HALF + (u3' as int) < v as int
  {
    hide High, Low;
    var high, low := MulTwoWords(v, q);
    HalvesOf(u);
    ghost var rest := u as int * HALF + u3 as int - q as int * v as int;
    Neighbours(q as int, v as int);
    var subHigh, subLow, borrow := SubTwice(High(u), Join(Low(u), u3), high, low);
    q' := q;
    if borrow {
      Positive(q as int, v as int);
      q' := q - 1;
      subHigh, subLow := AddTwice(subHigh, subLow, v, rest);
    }
    ghost var left := if borrow then rest + v as int else rest;
    SmallPair(subHigh as int, subLow as int, left);
    HalvesOf(subHigh);
    HalvesOf(subLow);
    u', u3' := Join(Low(subHigh), High(subLow)), Low(subLow);
  }

  lemma HalvesOf(x: Limb)
    ensures x as int == High(x) as int * HALF + Low(x) as int && (x == 0 ==> Low(x) == 0)
  {
  }

  lemma SmallPair(high: int, low: int, n: int)
    requires high * B + low == n && 0 <= low < B && 0 <= n < B && high >= 0
    ensures high == 0 && low == n
  {
  }

  lemma Neighbours(q: int, v: int)
    ensures (q + 1) * v == q * v + v && (q - 1) * v == q * v - v
  {
  }

  method SubTwice(ah: Limb, al: Limb, bh: Limb, bl: Limb) returns (high: Limb, low: Limb, borrow: bool)
    ensures high as int * B + low as int ==
            ah as int * B + al as int - (bh as int * B + bl as int) + if borrow then B * B else 0
  {
    low, borrow := SubTwoWords(al, bl, false);
    high, borrow := SubTwoWords(ah, bh, borrow);
  }

  /** The carry of this addition cancels the borrow before it. */
  method AddTwice(ah: Limb, al: Limb, b: Limb, ghost rest: int) returns (high: Limb, low: Limb)
    requires ah as int * B + al as int == rest + B * B && -(b as int) <= rest < 0
    ensures high as int * B + low as int == rest + b as int
  {
    var carry: bool;
    low, carry := AddTwoWords(al, b, false);
    high, carry := AddTwoWords(ah, 0, carry);
  }

  lemma Positive(q: int, v: int)
    requires q >= 0 && q * v > 0
    ensures q > 0
  {
  }

  function Pow2(n: nat): (p: nat)
    ensures p > 0
  {
    if n == 0 then 1 else 2 * Pow2(n - 1)
  }

  /** Moves a divisor up until its top bit is set, and the dividend as far. */
  method DivTwoWordsNormalize(a: Limb, b: Limb, c: Limb) returns (d: nat, a': Limb, b': Limb, c': Limb)
    requires a < c
    ensures c' as int == c as int * Pow2(d) && c' as int >= TOP
    ensures a' as int * B + b' as int == (a as int * B + b as int) * Pow2(d) && a' < c'
  {
    d, a', b', c' := 0, a, b, c;
    ghost var n := a as int * B + b as int;
    while (c' as int) < TOP
      invariant c' as int == c as int * Pow2(d) && a' < c'
      invariant a' as int * B + b' as int == n * Pow2(d)
      decreases TOP - c' as int
    {
      Doubled(c as int, d);
      Doubled(n, d);
      c' := 2 * c';
      a', b' := ShiftTwice(a', b');
      d := d + 1;
    }
  }

  lemma Doubled(x: int, d: nat)
    ensures x * Pow2(d + 1) == 2 * (x * Pow2(d))
  {
  }

  method ShiftTwice(a: Limb, b: Limb) returns (a': Limb, b': Limb)
    requires (a as int) < TOP
    ensures a' as int * B + b' as int == 2 * (a as int * B + b as int) && a' as int <= 2 * a as int + 1
  {
    var top := b as int >= TOP;
    b' := ((2 * b as int) % B) as Limb;
    a' := 2 * a;
    if top { a' := a' + 1; }
  }

  /** Two steps of long division in half words. */
  method DivTwoWords2(a: Limb, b: Limb, c: Limb) returns (q: Limb, rest: Limb)
    requires a < c
    ensures a as int * B + b as int == q as int * c as int + rest as int && rest < c
  {
    hide Pow2;
    var d, u, low, v := DivTwoWordsNormalize(a, b, c);
    var q1, q0;
    q1, u := NextHalf(u, High(low), v);
    q0, u := NextHalf(u, Low(low), v);
    q := Join(q1, q0);
    TwoHalves(q1 as int, q0 as int, v as int);
    Unnormalized(a as int * B + b as int, c as int, q as int, u as int, Pow2(d));
    rest := (u as int / Pow2(d)) as Limb;
  }

  lemma TwoHalves(q1: int, q0: int, v: int)
    ensures (q1 * HALF + q0) * v == q1 * v * HALF + q0 * v
  {
  }

  method NextHalf(u: Limb, u3: Limb, v: Limb) returns (q: Limb, r: Limb)
    requires u < v && (u3 as int) < HALF && v as int >= TOP
    ensures (q as int) < HALF && r < v && u as int * HALF + u3 as int == q as int * v as int + r as int
  {
    hide IsDigit;
    q := DivTwoWordsCalculate(u, u3, v);
    ExactDigit(u as int, u3 as int, v as int, q as int);
    var r1, r0;
    r1, r0, q := MultiplySubtract(u, u3, q, v);
    r := Join(r1, r0);
  }

  lemma ExactDigit(u: int, u3: int, v: int, q: int)
    requires IsDigit(HALF, u * HALF + u3, v, q) && 0 <= u < v && 0 <= u3 < HALF
    ensures 0 <= q < HALF && q * v <= u * HALF + u3 < (q + 1) * v
  {
    if q + 1 >= HALF { assert (q + 1) * v == v * HALF; }
  }

  /** What is left of a multiple is the same multiple of what is left. */
  lemma Unnormalized(n: int, c: int, q: int, r: int, k: int)
    requires n * k == q * (c * k) + r && 0 <= r < c * k && k > 0
    ensures n == q * c + r / k && 0 <= r / k < c && r % k == 0
  {
    assert r == (n - q * c) * k by { assert q * (c * k) == q * c * k; }
    ExactQuotient(n - q * c, k);
    if n - q * c >= c { Ordered(c, n - q * c, k); }
  }

  lemma ExactQuotient(x: int, k: int)
    requires k > 0
    ensures x * k / k == x && x * k % k == 0
  {
    QuotientIs(x * k, k, x, 0);
  }

  lemma QuotientIs(n: int, k: int, q: int, r: int)
    requires k > 0 && n == q * k + r && 0 <= r < k
    ensures n / k == q && n % k == r
  {
    var s, t := n / k, n % k;
    assert (q - s) * k == t - r;
    if q > s { Ordered(1, q - s, k); }
    if q < s { Ordered(q - s, -1, k); }
  }

  /** Two words by one, for a quotient of one word. */
  method DivTwoWords(a: Limb, b: Limb, c: Limb) returns (q: Limb, rest: Limb)
    requires a < c
    ensures a as int * B + b as int == q as int * c as int + rest as int && rest < c
  {
    if a == 0 {
      q, rest := b / c, b % c;
    } else if High(c) == 0 {
      HalvesOf(b);
      var q1, q0, r;
      q1, r := DivHalf(a, High(b), c);
      q0, rest := DivHalf(r, Low(b), c);
      q := Join(q1, q0);
      TwoHalves(q1 as int, q0 as int, c as int);
    } else {
      q, rest := DivTwoWords2(a, b, c);
    }
  }

  method DivHalf(a: Limb, b: Limb, c: Limb) returns (q: Limb, rest: Limb)
    requires a < c && (b as int) < HALF && (c as int) < HALF
    ensures a as int * HALF + b as int == q as int * c as int + rest as int && rest < c && (q as int) < HALF
  {
    HalfQuotient(a as int, b as int, c as int);
    var temp := Join(a, b);
    q, rest := temp / c, temp % c;
  }

  lemma HalfQuotient(a: int, b: int, c: int)
    requires 0 <= a < c < HALF && 0 <= b < HALF
    ensures 0 <= (a * HALF + b) / c < HALF
  {
    var q := (a * HALF + b) / c;
    if q >= HALF { Ordered(HALF, q, c); }
  }
}
