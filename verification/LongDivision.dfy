/** Division of unsigned numbers of any length: Knuth's algorithm D (The Art of Computer
    Programming, volume 2, section 4.3.1) on limbs in place. */
module LongDivision {
  import opened Limbs
  import opened WordArithmetic
  import opened LongArithmetic

  // ---------- shifts ----------

  lemma {:induction false} Pow2OfSum(m: nat, k: nat)
    ensures Pow2(m + k) == Pow2(m) * Pow2(k)
  {
    if m > 0 {
      Pow2OfSum(m - 1, k);
      Regroup(2, Pow2(m - 1), Pow2(k));
    }
  }

  lemma WordOfBits(bits: nat)
    requires bits <= 64
    ensures Pow2(bits) * Pow2(64 - bits) == B
  {
    hide Pow2;
    Pow2OfSum(bits, 64 - bits);
    AllBits();
  }

  lemma AllBits()
    ensures Pow2(64) == B
  {
    assert Pow2(8) == 0x100;
    assert Pow2(16) == 0x1_0000;
    assert Pow2(24) == 0x100_0000;
    assert Pow2(32) == HALF;
    Pow2OfSum(32, 32);
  }

  /** The bits shifted out of a word, and the word they leave. */
  lemma ShiftedWord(x: int, c: int, k: int, m: int)
    requires k > 0 && m > 0 && k * m == B && 0 <= x < B && 0 <= c < k
    ensures 0 <= x / m < k && 0 <= x * k % B <= B - k && x * k + c == x / m * B + (x * k % B + c)
  {
    var h, y := x / m, x % m;
    Multiplied(h, m, y, k);
    BelowProduct(y, m, k);
    QuotientIs(x * k, B, h, y * k);
    if h >= k { Ordered(k, h, m); }
  }

  lemma Multiplied(h: int, m: int, y: int, k: int)
    requires k * m == B
    ensures (h * m + y) * k == h * B + y * k
  {
    Distribute(h * m, y, k);
    Associate(h, m, k);
    assert m * k * h == h * B by { assert m * k == k * m; }
  }

  lemma BelowProduct(y: int, m: int, k: int)
    requires 0 <= y < m && k > 0 && k * m == B
    ensures 0 <= y * k <= B - k
  {
    Ordered(y, m - 1, k);
    Ordered(0, y, k);
    assert (m - 1) * k == k * m - k;
  }

  /** Moves all bits up by less than a word; the bits that come in are zeros or ones. */
  method Rcl2(a: array<Limb>, bits: nat, ones: bool) returns (ghost out: nat)
    requires a.Length > 0 && 0 < bits < 64
    modifies a
    ensures Unsigned(old(a[..])) * Pow2(bits) + (if ones then Pow2(bits) - 1 else 0) ==
            Unsigned(a[..]) + P(a.Length) * out
    ensures out == old(a[a.Length - 1]) as int / Pow2(64 - bits)
  {
    hide Unsigned, P, Pow2;
    WordOfBits(bits);
    ghost var was := a[..];
    ghost var fill := if ones then Pow2(bits) - 1 else 0;
    var c: int := if ones then Pow2(bits) - 1 else 0;
    NoLimbs();
    for i := 0 to a.Length
      invariant a[i..] == was[i..] && 0 <= c < Pow2(bits)
      invariant Unsigned(was[..i]) * Pow2(bits) + fill == Unsigned(a[..i]) + P(i) * c
      invariant i > 0 ==> c == was[i - 1] as int / Pow2(64 - bits)
    {
      assert a[i] == was[i] by { assert a[i..][0] == was[i..][0]; }
      ShiftedWord(was[i] as int, c, Pow2(bits), Pow2(64 - bits));
      var next := a[i] as int / Pow2(64 - bits);
      var low: Limb := (a[i] as int * Pow2(bits) % B + c) as Limb;
      ShiftStep(was, a[..i], i, low, c, next, Pow2(bits), fill);
      a[i] := low;
      assert a[..i + 1] == a[..i] + [low];
      assert a[i + 1..] == was[i..][1..] == was[i + 1..];
      c := next;
    }
    assert a[..a.Length] == a[..] && was[..a.Length] == was;
    out := c;
  }

  lemma ShiftStep(was: seq<Limb>, done: seq<Limb>, i: nat, low: Limb, c: int, next: int, k: int, fill: int)
    requires i < |was| && |done| == i && Unsigned(was[..i]) * k + fill == Unsigned(done) + P(i) * c
    requires was[i] as int * k + c == next * B + low as int
    ensures Unsigned(was[..i + 1]) * k + fill == Unsigned(done + [low]) + P(i + 1) * next
  {
    hide Unsigned;
    Append(was[..i], was[i]);
    assert was[..i + 1] == was[..i] + [was[i]];
    Append(done, low);
    ShiftNumbers(Unsigned(was[..i]), was[i] as int, k, c, next, low as int, P(i));
  }

  lemma ShiftNumbers(u: int, x: int, k: int, c: int, next: int, low: int, p: int)
    requires x * k + c == next * B + low
    ensures (u + x * p) * k + p * c - p * c == u * k + low * p + B * p * next - p * c
  {
    Distribute(u, x * p, k);
    assert x * p * k == (x * k) * p == (next * B + low - c) * p;
  }

  /** Moves all bits down by less than a word: division by a power of two. */
  method Rcr2(a: array<Limb>, bits: nat)
    requires a.Length > 0 && 0 < bits < 64
    modifies a
    ensures Unsigned(a[..]) == Unsigned(old(a[..])) / Pow2(bits)
  {
    hide Unsigned, P, Pow2, Divided;
    ghost var was := a[..];
    var i, c: Limb := a.Length, 0;
    ghost var left := 0;
    NothingDivided(was, Pow2(bits));
    while i > 0
      invariant 0 <= i <= a.Length && 0 <= left < Pow2(bits) && a[..i] == was[..i]
      invariant c as int == left * Pow2(64 - bits)
      invariant Divided(was, a[..], i, Pow2(bits), left)
    {
      i := i - 1;
      assert a[i] == was[i] by { assert a[..i + 1][i] == was[..i + 1][i]; }
      c, left := RcrAt(a, i, was, bits, c, left);
    }
    AllDivided(was, a[..], Pow2(bits), left);
    QuotientIs(Unsigned(was), Pow2(bits), Unsigned(a[..]), left);
  }

  method RcrAt(a: array<Limb>, i: nat, ghost was: seq<Limb>, bits: nat, c: Limb, ghost left: nat)
    returns (next: Limb, ghost left': nat)
    requires i < a.Length == |was| && a[i] == was[i] && 0 < bits < 64
    requires left < Pow2(bits) && c as int == left * Pow2(64 - bits)
    requires Divided(was, a[..], i + 1, Pow2(bits), left)
    modifies a
    ensures a[..i] == old(a[..i]) && left' < Pow2(bits) && next as int == left' * Pow2(64 - bits)
    ensures Divided(was, a[..], i, Pow2(bits), left')
  {
    hide Unsigned, P, Pow2;
    ghost var done := a[..][i + 1..];
    WordOfBits(bits);
    left' := was[i] as int % Pow2(bits);
    DownWord(a[i] as int, left, Pow2(bits), Pow2(64 - bits));
    next := (a[i] as int * Pow2(64 - bits) % B) as Limb;
    var q := (a[i] as int / Pow2(bits) + c as int) as Limb;
    a[i] := q;
    assert a[..][i..] == [q] + done;
    NextWord(was, i, q, done, Pow2(bits), left, left');
  }

  lemma DownWord(x: int, left: int, k: int, m: int)
    requires k > 0 && m > 0 && k * m == B && 0 <= x < B && 0 <= left < k
    ensures x * m % B == x % k * m && 0 <= x / k + left * m < B
    ensures left * B + x == (x / k + left * m) * k + x % k
  {
    var h, y := x / k, x % k;
    DownLow(x, h, y, k, m);
    DownHigh(x, h, left, k, m);
    Regrouped(h, left, m, k);
  }

  lemma DownLow(x: int, h: int, y: int, k: int, m: int)
    requires k > 0 && m > 0 && k * m == B && x == h * k + y && 0 <= y < k
    ensures x * m % B == y * m
  {
    assert m * k == B;
    Multiplied(h, k, y, m);
    BelowProduct(y, k, m);
    QuotientIs(x * m, B, h, y * m);
  }

  lemma DownHigh(x: int, h: int, left: int, k: int, m: int)
    requires k > 0 && m > 0 && k * m == B && 0 <= x < B && h == x / k && 0 <= left < k
    ensures 0 <= h + left * m < B
  {
    assert m * k == B;
    BelowProduct(left, k, m);
    if h >= m { Ordered(m, h, k); }
  }

  lemma Regrouped(h: int, left: int, m: int, k: int)
    requires k * m == B
    ensures (h + left * m) * k == h * k + left * B
  {
    Distribute(h, left * m, k);
    Multiplied(left, m, 0, k);
  }

  lemma NothingDivided(s: seq<Limb>, k: int)
    ensures Divided(s, s, |s|, k, 0)
  {
  }

  /** How far the top bit of a word is from the top. */
  method FindLeadingBitInWord(x: Limb) returns (bit: int)
    ensures x == 0 ==> bit == -1
    ensures x > 0 ==> 0 <= bit < 64 && TOP <= x as int * Pow2(63 - bit) < B
  {
    hide Pow2;
    if x == 0 { return -1; }
    bit := 63;
    var y := x;
    TopOfBits();
    while (y as int) < TOP
      invariant 0 <= bit < 64 && y as int == x as int * Pow2(63 - bit) && y > 0
      decreases bit
    {
      Doubled(x as int, 63 - bit);
      if bit == 0 { TopOfBits(); Ordered(1, x as int, Pow2(63)); }
      y := 2 * y;
      bit := bit - 1;
    }
  }

  lemma TopOfBits()
    ensures Pow2(0) == 1 && Pow2(63) == TOP
  {
    WordOfBits(63);
    assert Pow2(1) == 2;
  }

  // ---------- one digit ----------

  /** A guess for the quotient of `u`, `u0` by `v1`, `v0` that is not too small. */
  ghost predicate Trial(u: int, u0: int, v1: int, v0: int, q: int, r: int) {
    Guessed(B, u, v1, q, r) && q <= B + 1 && TooBig(B, u * B + u0, v1 * B + v0, q + 1)
  }

  lemma TrialLowered(u: int, u0: int, v1: int, v0: int, q: int, r: int)
    requires Trial(u, u0, v1, v0, q, r) && v1 >= 0 && v0 >= 0 && u0 >= 0 && (q >= B || q * v0 > r * B + u0)
    ensures q > 0 && Trial(u, u0, v1, v0, q - 1, r + v1)
  {
    hide TooBig, Guessed;
    Lowered(B, u, u0, v1, v0, q, r);
    LessByOne(B, u, v1, q, r, v0, u0);
  }

  lemma TrialPassed(u: int, u0: int, v1: int, v0: int, q: int, r: int)
    requires Trial(u, u0, v1, v0, q, r) && v0 >= 0 && q < B && q * v0 <= r * B + u0
    ensures IsDigit(B, u * B + u0, v1 * B + v0, q)
  {
    hide TooBig;
    Passed(B, u, u0, v1, v0, q, r);
  }

  method FirstTrial(u2: Limb, u1: Limb, ghost u0: Limb, v1: Limb, ghost v0: Limb)
    returns (q1: Limb, q0: Limb, rp: Limb)
    requires u2 <= v1 && v1 as int >= TOP
    ensures Trial(u2 as int * B + u1 as int, u0 as int, v1 as int, v0 as int, q1 as int * B + q0 as int, rp as int)
  {
    hide TooBig, Unsigned;
    var temp := new Limb[2] [u1, u2];
    Pair(temp[..]);
    var byZero;
    byZero, rp := DivInt(temp, v1);
    Pair(temp[..]);
    q1, q0 := temp[1], temp[0];
    FirstGuess(B, u2 as int * B + u1 as int, u0 as int, v1 as int, v0 as int, q1 as int * B + q0 as int, rp as int);
  }

  /** Whether the guess, times the second word of the divisor, is more than is left. */
  method IsTooBig(q1: Limb, q0: Limb, rp: Limb, v0: Limb, u0: Limb) returns (decrease: bool)
    requires q1 <= 1
    ensures decrease <==> q1 == 1 || q0 as int * v0 as int > rp as int * B + u0 as int
  {
    if q1 == 1 { return true; }
    var high, low := MulTwoWords(q0, v0);
    return high > rp || (high == rp && low > u0);
  }

  /** The trial digit: from the three leading words of the dividend and the two of the divisor. */
  method Div3Calculate(u2: Limb, u1: Limb, u0: Limb, v1: Limb, v0: Limb) returns (q: Limb)
    requires u2 <= v1 && v1 as int >= TOP
    ensures IsDigit(B, (u2 as int * B + u1 as int) * B + u0 as int, v1 as int * B + v0 as int, q as int)
  {
    hide IsDigit, Guessed, TooBig;
    ghost var u := u2 as int * B + u1 as int;
    var q1, q0, rp := FirstTrial(u2, u1, u0, v1, v0);
    ghost var r: int := rp as int;
    var next := true;
    while next
      invariant Trial(u, u0 as int, v1 as int, v0 as int, q1 as int * B + q0 as int, r) && (next ==> r == rp as int)
      invariant !next ==> q1 == 0 && q0 as int * v0 as int <= r * B + u0 as int
      decreases if next then B - r else 0
    {
      var decrease := IsTooBig(q1, q0, rp, v0, u0);
      next := false;
      if decrease {
        TrialLowered(u, u0 as int, v1 as int, v0 as int, q1 as int * B + q0 as int, r);
        var borrow: bool;
        q1, q0, borrow := SubTwice(q1, q0, 0, 1);
        r := r + v1 as int;
        rp := ((rp as int + v1 as int) % B) as Limb;
        if rp >= v1 {
          next := true;
        } else {
          NoTestNeeded(B, u, u0 as int, v1 as int, v0 as int, q1 as int * B + q0 as int, r);
        }
      }
    }
    TrialPassed(u, u0 as int, v1 as int, v0 as int, q0 as int, r);
    return q0;
  }

  /** Takes `qp` times the divisor off; a digit that was one too big is corrected. */
  method Div3MultiplySubtract(uu: array<Limb>, vv: array<Limb>, qp: Limb) returns (q: Limb)
    requires uu != vv && uu.Length == vv.Length > 0 && Unsigned(vv[..]) * B <= P(vv.Length)
    requires qp as int * Unsigned(vv[..]) < Unsigned(uu[..]) + Unsigned(vv[..])
    requires Unsigned(uu[..]) < (qp as int + 1) * Unsigned(vv[..])
    modifies uu
    ensures Unsigned(old(uu[..])) == q as int * Unsigned(vv[..]) + Unsigned(uu[..])
    ensures Unsigned(uu[..]) < Unsigned(vv[..])
  {
    hide Unsigned, P;
    ghost var n, v := Unsigned(uu[..]), Unsigned(vv[..]);
    var temp := Copied(vv);
    ghost var d := vv[..];
    DigitMultipleFits(v, qp as int, P(vv.Length));
    var carry := MulInt(temp, qp);
    q := qp;
    Neighbours(qp as int, v);
    var borrow := SubWords(uu, temp);
    InRange(uu[..]);
    if borrow {
      Positive(qp as int, v);
      q := q - 1;
      var lost := AddWords(uu, vv);
      InRange(uu[..]);
    }
  }

  lemma DigitMultipleFits(v: nat, q: int, p: int)
    requires v * B <= p && 0 <= q < B && 0 < p
    ensures v * q == q * v < p
  {
    if v > 0 { Strictly(q, B, v); }
  }

  // ---------- the digits, one after the other ----------

  /** The limbs at `j` with `u2` above them. */
  ghost function Window(u: seq<Limb>, j: nat, n: nat, u2: Limb): nat
    requires j + n <= |u|
  {
    Unsigned(u[j..j + n]) + u2 as int * P(n)
  }

  method Div3MakeNewU(u: array<Limb>, j: nat, n: nat, u2: Limb) returns (uu: array<Limb>)
    requires j + n <= u.Length
    ensures fresh(uu) && uu.Length == u.Length + 1 && Unsigned(uu[..]) == Window(u[..], j, n, u2)
  {
    hide Unsigned, P;
    uu := new Limb[u.Length + 1];
    for i := 0 to n
      invariant forall k :: 0 <= k < i ==> uu[k] == u[j + k]
    {
      uu[i] := u[i + j];
    }
    uu[n] := u2;
    for i := n + 1 to u.Length + 1
      invariant forall k :: 0 <= k < n ==> uu[k] == u[j + k]
      invariant uu[n] == u2 && forall k :: n < k < i ==> uu[k] == 0
    {
      uu[i] := 0;
    }
    assert uu[..][..n + 1] == u[..][j..j + n] + [u2];
    LowLimbs(uu[..], n + 1);
    Append(u[..][j..j + n], u2);
  }

  method Div3CopyNewU(u: array<Limb>, uu: array<Limb>, j: nat, n: nat)
    requires u != uu && j + n <= u.Length && uu.Length == u.Length + 1
    modifies u
    ensures u[..][j..j + n] == uu[..][..n] && u[..][..j] == old(u[..])[..j]
  {
    for i := 0 to n
      invariant forall k :: 0 <= k < i ==> u[j + k] == uu[k]
      invariant forall k :: 0 <= k < j ==> u[k] == old(u[k])
    {
      u[i + j] := uu[i];
    }
    if n + j < u.Length { u[n + j] := uu[n]; }
  }

  // ---------- leading words ----------

  lemma TopTwo(s: seq<Limb>)
    requires |s| >= 2
    ensures var n, w := |s|, P(|s| - 2); var top := s[n - 1] as int * B + s[n - 2] as int;
      top * w <= Unsigned(s) < (top + 1) * w && P(n) == B * (B * w)
  {
    hide Unsigned, P;
    var n := |s|;
    PowerStep(n - 2);
    PowerStep(n - 1);
    TopLimb(s);
    TopLimb(s[..n - 1]);
    assert s[..n - 1][..n - 2] == s[..n - 2];
    TopNumbers(s[n - 1] as int, s[n - 2] as int, P(n - 2));
  }

  lemma TopNumbers(x1: int, x0: int, w: int)
    ensures x0 * w + x1 * (B * w) == (x1 * B + x0) * w && (x1 * B + x0 + 1) * w == (x1 * B + x0) * w + w
  {
  }

  /** The three leading words of a window, and the two of the divisor. */
  lemma TopThree(s: seq<Limb>, u2: Limb)
    requires |s| >= 2
    ensures var n, w := |s|, P(|s| - 2); var top := (u2 as int * B + s[n - 1] as int) * B + s[n - 2] as int;
      top * w <= Unsigned(s) + u2 as int * P(n) < (top + 1) * w
  {
    hide Unsigned, P;
    TopTwo(s);
    var n, w := |s|, P(|s| - 2);
    ThreeNumbers(u2 as int, s[n - 1] as int, s[n - 2] as int, w);
  }

  lemma ThreeNumbers(x2: int, x1: int, x0: int, w: int)
    ensures var top := (x2 * B + x1) * B + x0;
      top * w == (x1 * B + x0) * w + x2 * (B * (B * w)) &&
      (top + 1) * w == (x1 * B + x0 + 1) * w + x2 * (B * (B * w))
  {
  }

  /** A window of one digit has no more above it than the leading word of the divisor. */
  lemma LeadingAtMost(s: seq<Limb>, v: seq<Limb>, u2: Limb)
    requires |s| == |v| >= 2 && Unsigned(s) + u2 as int * P(|s|) < Unsigned(v) * B
    ensures u2 <= v[|v| - 1]
  {
    hide Unsigned;
    var n := |v|;
    TopLimb(v);
    AboveLeading(u2 as int, v[n - 1] as int, P(n - 1), Unsigned(v), Unsigned(s));
  }

  lemma AboveLeading(u2: int, v1: int, p: int, v: int, s: int)
    requires p > 0 && s >= 0 && v < v1 * p + p && s + u2 * (B * p) < v * B
    ensures u2 <= v1
  {
    if u2 > v1 { Ordered(v1 + 1, u2, B * p); }
  }

  // ---------- the whole quotient ----------

  /** One step: a digit for the window at `j`, and its remainder in place of it. */
  method NextDigit(u: array<Limb>, v: array<Limb>, vv: array<Limb>, j: nat, n: nat, u2: Limb) returns (q: Limb)
    requires 2 <= n && j + n <= u.Length == v.Length && vv.Length == u.Length + 1 && u != v && u != vv
    requires v[n - 1] as int >= TOP && Unsigned(vv[..]) == Unsigned(v[..][..n])
    requires Window(u[..], j, n, u2) < Unsigned(v[..][..n]) * B
    modifies u
    ensures Window(old(u[..]), j, n, u2) == q as int * Unsigned(v[..][..n]) + Unsigned(u[..][j..j + n])
    ensures Unsigned(u[..][j..j + n]) < Unsigned(v[..][..n]) && u[..][..j] == old(u[..])[..j]
  {
    hide Unsigned, P, IsDigit;
    ghost var s, d := u[..][j..j + n], v[..][..n];
    assert s[n - 1] == u[j + n - 1] && s[n - 2] == u[j + n - 2] && d[n - 1] == v[n - 1] && d[n - 2] == v[n - 2];
    LeadingAtMost(s, d, u2);
    q := Div3Calculate(u2, u[j + n - 1], u[j + n - 2], v[n - 1], v[n - 2]);
    TrialIsClose(s, d, u2, q as int);
    var uu := Div3MakeNewU(u, j, n, u2);
    RoomForDigit(d, u.Length + 1);
    q := Div3MultiplySubtract(uu, vv, q);
    SmallNumber(uu[..], n);
    Div3CopyNewU(u, uu, j, n);
  }

  /** The trial digit is the digit, or one more. */
  lemma TrialIsClose(s: seq<Limb>, d: seq<Limb>, u2: Limb, q: int)
    requires |s| == |d| >= 2 && d[|d| - 1] as int >= TOP
    requires Unsigned(s) + u2 as int * P(|s|) < Unsigned(d) * B
    requires var n := |s|; IsDigit(B, (u2 as int * B + s[n - 1] as int) * B + s[n - 2] as int,
                                   d[n - 1] as int * B + d[n - 2] as int, q)
    ensures var window := Unsigned(s) + u2 as int * P(|s|);
      q * Unsigned(d) < window + Unsigned(d) && window < (q + 1) * Unsigned(d)
  {
    hide Unsigned, P, IsDigit;
    var n := |s|;
    TopThree(s, u2);
    TopTwo(d);
    LeadingDigits(B, (u2 as int * B + s[n - 1] as int) * B + s[n - 2] as int, d[n - 1] as int * B + d[n - 2] as int, q,
                  P(n - 2), Unsigned(s) + u2 as int * P(n), Unsigned(d));
  }

  /** One more does happen: B^3 by TOP * B^2 + 1. */
  lemma TrialOneMore()
    ensures var d: seq<Limb>, s: seq<Limb> := [1, 0, TOP as Limb], [0, 0, 0];
      IsDigit(B, (1 * B + s[2] as int) * B + s[1] as int, d[2] as int * B + d[1] as int, 2) &&
      Unsigned(s) + 1 * P(3) < 2 * Unsigned(d)
  {
    var d: seq<Limb>, s: seq<Limb> := [1, 0, TOP as Limb], [0, 0, 0];
    AllZero(s);
    TopLimb(d);
    TopTwo(d[..2]);
    assert P(2) == B * B && P(3) == B * (B * B) by { PowerStep(0); PowerStep(1); PowerStep(2); NoLimbs(); }
    Pair(d[..2]);
  }

  lemma RoomForDigit(d: seq<Limb>, n: nat)
    requires |d| < n
    ensures Unsigned(d) < P(|d|) && Unsigned(d) * B <= P(n)
  {
    hide Unsigned, P;
    InRange(d);
    PowerStep(|d|);
    PowersGrow(|d| + 1, n);
  }

  /** The limbs below `j + n` with `u2` above them. */
  ghost function Total(u: seq<Limb>, j: nat, n: nat, u2: Limb): nat
    requires j + n <= |u|
  {
    Unsigned(u[..j + n]) + u2 as int * P(j + n)
  }

  lemma TotalIsWindow(u: seq<Limb>, j: nat, n: nat, u2: Limb)
    requires j + n <= |u|
    ensures Unsigned(u[..j + n]) == Unsigned(u[..j]) + P(j) * Unsigned(u[j..j + n])
    ensures Total(u, j, n, u2) == Unsigned(u[..j]) + P(j) * Window(u, j, n, u2)
  {
    hide Unsigned, P;
    Split(u[..j + n], j);
    assert u[..j + n][..j] == u[..j] && u[..j + n][j..] == u[j..j + n];
    PowerOfSum(j, n);
    WindowNumbers(P(j), Unsigned(u[j..j + n]), u2 as int, P(n));
  }

  lemma WindowNumbers(p: int, s: int, x: int, q: int)
    ensures p * (s + x * q) == p * s + x * (p * q)
  {
  }

  /** Before the digit at `j`: what is left, and the digits above. */
  ghost predicate Running(u: seq<Limb>, q: seq<Limb>, v: nat, j: nat, n: nat, u2: Limb, total: nat) {
    && j + n <= |u| && j < |q| && Total(u, j, n, u2) < v * P(j + 1)
    && total == Total(u, j, n, u2) + v * (P(j + 1) * Unsigned(q[j + 1..]))
  }

  /** After it. */
  ghost predicate Stepped(u: seq<Limb>, q: seq<Limb>, v: nat, j: nat, n: nat, total: nat) {
    && j + n <= |u| && j <= |q| && Unsigned(u[..j + n]) < v * P(j)
    && total == Unsigned(u[..j + n]) + v * (P(j) * Unsigned(q[j..]))
  }

  lemma WindowIsDigit(u: seq<Limb>, q: seq<Limb>, v: nat, j: nat, n: nat, u2: Limb, total: nat)
    requires Running(u, q, v, j, n, u2, total)
    ensures Window(u, j, n, u2) < v * B
  {
    hide Unsigned, P, Window;
    TotalIsWindow(u, j, n, u2);
    PowerStep(j);
    DivideBoth(P(j), Window(u, j, n, u2), v * B, Unsigned(u[..j]), v * P(j + 1));
  }

  lemma DivideBoth(p: int, x: int, y: int, low: int, bound: int)
    requires p > 0 && low >= 0 && low + p * x < bound && bound == y * p
    ensures x < y
  {
    if x >= y { Ordered(y, x, p); }
  }

  lemma DigitAdds(u: seq<Limb>, now: seq<Limb>, q: seq<Limb>, digit: Limb, v: nat, j: nat, n: nat, u2: Limb, total: nat)
    requires Running(u, q, v, j, n, u2, total) && |now| == |u| && now[..j] == u[..j]
    requires Window(u, j, n, u2) == digit as int * v + Unsigned(now[j..j + n]) && Unsigned(now[j..j + n]) < v
    ensures Stepped(now, q[j := digit], v, j, n, total)
  {
    hide Unsigned, P, Window, Total;
    TotalIsWindow(u, j, n, u2);
    TotalIsWindow(now, j, n, 0);
    assert q[j := digit][j..][1..] == q[j + 1..];
    FirstLimb(q[j := digit][j..]);
    PowerStep(j);
    InRange(u[..j]);
    StepNumbers(P(j), digit as int, v, Unsigned(now[j..j + n]), Unsigned(q[j + 1..]));
    StepBound(P(j), Unsigned(u[..j]), Unsigned(now[j..j + n]), v);
  }

  lemma FirstLimb(s: seq<Limb>)
    requires |s| > 0
    ensures Unsigned(s) == s[0] as int + B * Unsigned(s[1..])
  {
  }

  lemma StepNumbers(p: int, digit: int, v: int, r: int, q: int)
    ensures p * (digit * v + r) + v * (B * p * q) == p * r + v * (p * (digit + B * q))
  {
    assert p * (digit * v + r) == p * (digit * v) + p * r;
    assert v * (p * (digit + B * q)) == v * (p * digit) + v * (B * p * q);
    assert p * (digit * v) == v * (p * digit);
  }

  lemma StepBound(p: int, low: int, r: int, v: int)
    requires 0 <= low < p && r < v
    ensures low + p * r < v * p
  {
    Ordered(r + 1, v, p);
  }

  lemma NextRunning(u: seq<Limb>, q: seq<Limb>, v: nat, j: nat, n: nat, total: nat)
    requires Stepped(u, q, v, j, n, total) && j > 0 && n > 0
    ensures Running(u, q, v, j - 1, n, u[j - 1 + n], total)
  {
    hide Unsigned, P;
    var k := j - 1 + n;
    assert u[..k + 1] == u[..k] + [u[k]];
    Append(u[..k], u[k]);
  }

  /** Knuth's loop: quotient and remainder of a normalized division. */
  method Div3Digits(u: array<Limb>, v: array<Limb>, m: nat, n: nat, u2: Limb) returns (q: array<Limb>)
    requires 2 <= n && m + n <= u.Length == v.Length && u != v
    requires v[n - 1] as int >= TOP && Zeros(v[..], n)
    requires Total(u[..], m, n, u2) < Unsigned(v[..]) * P(m + 1)
    modifies u
    ensures fresh(q) && q.Length == u.Length
    ensures Total(old(u[..]), m, n, u2) == Unsigned(v[..]) * Unsigned(q[..]) + Unsigned(u[..][..n])
    ensures Unsigned(u[..][..n]) < Unsigned(v[..])
  {
    hide Unsigned, P, Total, Window, Running, Stepped, Zeros;
    ghost var total, d := Total(u[..], m, n, u2), Unsigned(v[..]);
    LowLimbs(v[..], n);
    var vv := Div3MakeBiggerV(v);
    q := NewQuotient(u.Length, m + 1);
    StartRunning(u[..], q[..], d, m, n, u2);
    var j, top := m, u2;
    while true
      invariant fresh(q) && fresh(vv) && q != vv && q.Length == u.Length && Unsigned(vv[..]) == d
      invariant 0 <= j <= m && Running(u[..], q[..], d, j, n, top, total)
      decreases j
    {
      ghost var was := u[..];
      WindowIsDigit(u[..], q[..], d, j, n, top, total);
      var digit := NextDigit(u, v, vv, j, n, top);
      DigitAdds(was, u[..], q[..], digit, d, j, n, top, total);
      ghost var updated := q[..][j := digit];
      q[j] := digit;
      assert q[..] == updated;
      if j == 0 { break; }
      NextRunning(u[..], q[..], d, j, n, total);
      j := j - 1;
      top := u[j + n];
    }
    AllStepped(u[..], q[..], d, n, total);
  }

  method NewQuotient(size: nat, start: nat) returns (q: array<Limb>)
    requires start <= size
    ensures fresh(q) && q.Length == size && Zeros(q[..], start)
  {
    q := new Limb[size];
    for i := start to size
      invariant forall k :: start <= k < i ==> q[k] == 0
    {
      q[i] := 0;
    }
  }

  method Div3MakeBiggerV(v: array<Limb>) returns (vv: array<Limb>)
    ensures fresh(vv) && vv.Length == v.Length + 1 && Unsigned(vv[..]) == Unsigned(v[..])
  {
    hide Unsigned, P;
    vv := new Limb[v.Length + 1];
    for i := 0 to v.Length
      invariant forall k :: 0 <= k < i ==> vv[k] == v[k]
    {
      vv[i] := v[i];
    }
    vv[v.Length] := 0;
    LowLimbs(vv[..], v.Length);
    assert vv[..][..v.Length] == v[..];
  }

  lemma StartRunning(u: seq<Limb>, q: seq<Limb>, v: nat, m: nat, n: nat, u2: Limb)
    requires m + n <= |u| && m < |q| && Zeros(q, m + 1) && Total(u, m, n, u2) < v * P(m + 1)
    ensures Running(u, q, v, m, n, u2, Total(u, m, n, u2))
  {
    hide Unsigned, P, Total;
    AllZero(q[m + 1..]);
  }

  lemma AllStepped(u: seq<Limb>, q: seq<Limb>, v: nat, n: nat, total: nat)
    requires Stepped(u, q, v, 0, n, total)
    ensures total == v * Unsigned(q) + Unsigned(u[..n]) && Unsigned(u[..n]) < v
  {
    hide Unsigned;
    assert q[0..] == q;
  }

  // ---------- normalization ----------

  /** Moves both numbers up until the divisor's leading bit is the top bit of its word. */
  method Div3Normalize(u: array<Limb>, v: array<Limb>, n: nat) returns (out: Limb, d: nat)
    requires 0 < n <= v.Length == u.Length && u != v && v[n - 1] != 0 && Zeros(v[..], n)
    modifies u, v
    ensures v[n - 1] as int >= TOP && Zeros(v[..], n)
    ensures d < 64 && Unsigned(v[..]) == Unsigned(old(v[..])) * Pow2(d)
    ensures Unsigned(u[..]) + P(u.Length) * out as int == Unsigned(old(u[..])) * Pow2(d)
  {
    hide Unsigned, P, Pow2, Zeros;
    ghost var was := v[..];
    var bit := FindLeadingBitInWord(v[n - 1]);
    var move := 63 - bit;
    out, d := u[u.Length - 1], move;
    TopOfBits();
    if move > 0 {
      WordOfBits(move);
      ghost var lost := Rcl2(v, move, false);
      NormalizedDivisor(was, v[..], n, Pow2(move), Pow2(64 - move), lost);
      ghost var moved := Rcl2(u, move, false);
      SmallShift(out as int, Pow2(bit + 1));
      out := (out as int / Pow2(bit + 1)) as Limb;
    } else {
      out := 0;
    }
  }

  lemma SmallShift(x: int, k: int)
    requires 0 <= x < B && k > 0
    ensures 0 <= x / k < B
  {
    if x / k > x { Ordered(1, k, x / k); }
  }

  lemma NormalizedDivisor(was: seq<Limb>, now: seq<Limb>, n: nat, k: nat, m: nat, lost: nat)
    requires 0 < n <= |was| == |now| && Zeros(was, n) && k > 0 && k * m == B
    requires TOP <= was[n - 1] as int * k < B && Unsigned(was) * k == Unsigned(now) + P(|was|) * lost
    ensures Zeros(now, n) && now[n - 1] as int >= TOP && Unsigned(now) == Unsigned(was) * k
  {
    hide Unsigned, P, Zeros;
    LeadingWordMoved(was, n, k, m);
    PowersGrow(n, |was|);
    NothingLost(Unsigned(now), P(|was|), lost);
    SmallNumber(now, n);
    TopLimb(now[..n]);
    assert now[..n][..n - 1] == now[..n - 1] && now[..n][n - 1] == now[n - 1];
    Scaled(Unsigned(now[..n - 1]), now[n - 1] as int, P(n - 1));
  }

  lemma LeadingWordMoved(s: seq<Limb>, n: nat, k: nat, m: nat)
    requires 0 < n <= |s| && Zeros(s, n) && k > 0 && k * m == B && TOP <= s[n - 1] as int * k < B
    ensures TOP * P(n - 1) <= Unsigned(s) * k < P(n)
  {
    hide Unsigned, P, Zeros;
    LowLimbs(s, n);
    TopLimb(s[..n]);
    assert s[..n][..n - 1] == s[..n - 1];
    PowerStep(n - 1);
    NormalizedNumbers(Unsigned(s[..n - 1]), s[n - 1] as int, P(n - 1), k, m);
  }

  lemma NothingLost(u: nat, p: nat, lost: nat)
    requires u + p * lost < p
    ensures lost == 0
  {
    if lost >= 1 { Ordered(1, lost, p); }
  }

  lemma NormalizedNumbers(low: int, x: int, p: int, k: int, m: int)
    requires 0 <= low < p && k > 0 && k * m == B && TOP <= x * k < B
    ensures TOP * p <= (low + x * p) * k < B * p
  {
    if x >= m { Ordered(m, x, k); }
    Ordered(x + 1, m, k);
    assert (x + 1) * k <= B;
    Ordered((x + 1) * k, B, p);
    Distribute(x, 1, p);
    Strictly(low + x * p, (x + 1) * p, k);
    Swapped(x + 1, k, p);
    Ordered(TOP, x * k, p);
    Swapped(x, k, p);
    Ordered(x * p, low + x * p, k);
  }

  method Div3Unnormalize(u: array<Limb>, n: nat, d: nat)
    requires 0 < n <= u.Length && d < 64
    modifies u
    ensures Unsigned(u[..]) == Unsigned(old(u[..])[..n]) / Pow2(d)
  {
    hide Unsigned, P, Pow2;
    ghost var low := u[..][..n];
    for i := n to u.Length
      invariant forall k :: 0 <= k < n ==> u[k] == low[k]
      invariant forall k :: n <= k < i ==> u[k] == 0
    {
      u[i] := 0;
    }
    LowLimbs(u[..], n);
    assert u[..][..n] == low;
    TopOfBits();
    if d > 0 { Rcr2(u, d); }
  }

  /** Both numbers moved up alike: the dividend is below the divisor times `m + 1` limbs. */
  lemma NormalizedDividend(u: seq<Limb>, v: seq<Limb>, now: seq<Limb>, m: nat, n: nat, k: nat, out: Limb)
    requires 0 < n && m + n <= |u| == |v| == |now| && 0 < k < B && v[n - 1] != 0
    requires Zeros(u, m + n) && Zeros(v, n) && Unsigned(now) + P(|u|) * out as int == Unsigned(u) * k
    ensures var u2 := if m + n == |u| then out else now[m + n];
      Total(now, m, n, u2) == Unsigned(u) * k < Unsigned(v) * k * P(m + 1)
  {
    hide Unsigned, P, Zeros;
    LowLimbs(u, m + n);
    InRange(u[..m + n]);
    LeadingBound(v, n);
    PowerOfSum(n - 1, m + 1);
    DividendBound(Unsigned(u), Unsigned(v), P(n - 1), P(m + 1), k);
    if m + n == |u| {
      assert now[..m + n] == now;
      assert P(|u|) * out as int == out as int * P(m + n);
    } else {
      PowerStep(m + n);
      PowersGrow(m + n + 1, |u|);
      WordMultiple(Unsigned(u), k, P(m + n));
      NothingLost(Unsigned(now), P(|u|), out as int);
      SmallNumber(now, m + n + 1);
      assert now[..m + n + 1] == now[..m + n] + [now[m + n]];
      Append(now[..m + n], now[m + n]);
    }
  }

  lemma LeadingBound(v: seq<Limb>, n: nat)
    requires 0 < n <= |v| && v[n - 1] != 0
    ensures Unsigned(v) >= P(n - 1)
  {
    hide Unsigned, P;
    Prefix(v, n);
    TopLimb(v[..n]);
    assert v[..n][n - 1] == v[n - 1];
    Ordered(1, v[n - 1] as int, P(n - 1));
  }

  lemma DividendBound(u: nat, v: nat, p: nat, q: nat, k: nat)
    requires u < p * q && p <= v && k > 0
    ensures u * k < v * k * q
  {
    Ordered(p, v, q);
    Strictly(u, v * q, k);
    Swapped(v, q, k);
  }

  /** Long division by at least two words, of a dividend of `m` words more. */
  method Div3Division(u: array<Limb>, v: array<Limb>, remainder: array<Limb>, m: nat, n: nat)
    requires 2 <= n && m + n <= u.Length == v.Length == remainder.Length
    requires u != v && u != remainder && v != remainder
    requires v[n - 1] != 0 && Zeros(v[..], n) && Zeros(u[..], m + n)
    modifies u, remainder
    ensures Unsigned(old(u[..])) == Unsigned(v[..]) * Unsigned(u[..]) + Unsigned(remainder[..])
    ensures Unsigned(remainder[..]) < Unsigned(v[..])
  {
    hide Unsigned, P, Pow2, Zeros, Total;
    ghost var x, y := u[..], v[..];
    var vv := Copied(v);
    var out, d := Div3Normalize(u, vv, n);
    BelowWord(d);
    NormalizedDividend(x, y, u[..], m, n, Pow2(d), out);
    var u2 := if m + n == u.Length then out else u[m + n];
    var q := Div3Digits(u, vv, m, n, u2);
    Denormalized(Unsigned(x), Unsigned(y), Unsigned(q[..]), Unsigned(u[..][..n]), Pow2(d), Unsigned(vv[..]));
    Div3Unnormalize(u, n, d);
    CopyInto(remainder, u);
    CopyInto(u, q);
  }

  lemma Denormalized(n: int, c: int, q: int, r: int, k: int, d: int)
    requires d == c * k && n * k == d * q + r && 0 <= r < d && k > 0
    ensures n == c * q + r / k && 0 <= r / k < c
  {
    assert d * q == q * (c * k) && c * q == q * c;
    Unnormalized(n, c, q, r, k);
  }

  lemma BelowWord(d: nat)
    requires d < 64
    ensures 0 < Pow2(d) < B
  {
    hide Pow2;
    WordOfBits(d);
    Doubled(1, 63 - d);
    Ordered(2, Pow2(64 - d), Pow2(d));
    assert Pow2(64 - d) * Pow2(d) == Pow2(d) * Pow2(64 - d);
  }

  // ---------- sizes ----------

  datatype Sizes = ByZero | OfZero | Smaller | Equal | Divisible(m: nat, n: nat)

  /** Tells the easy cases, or gives the indices of the leading words. */
  method DivCalculatingSize(u: array<Limb>, v: array<Limb>) returns (s: Sizes)
    requires 0 < u.Length == v.Length
    ensures s.ByZero? <==> Unsigned(v[..]) == 0
    ensures s.OfZero? <==> Unsigned(v[..]) != 0 && Unsigned(u[..]) == 0
    ensures s.Smaller? <==> 0 < Unsigned(u[..]) < Unsigned(v[..])
    ensures s.Equal? <==> 0 < Unsigned(u[..]) == Unsigned(v[..])
    ensures s.Divisible? ==> s.n <= s.m < u.Length && u[s.m] != 0 && v[s.n] != 0
    ensures s.Divisible? ==> Zeros(u[..], s.m + 1) && Zeros(v[..], s.n + 1)
  {
    hide Unsigned, P, Zeros;
    var n := LeadingWord(v);
    if n == 0 && v[n] == 0 { return ByZero; }
    var m := LeadingWord(u);
    if m == 0 && u[m] == 0 { return OfZero; }
    if m < n {
      ShorterIsSmaller(u[..], v[..], m, n);
      return Smaller;
    }
    if m == n {
      var i := n;
      while i != 0 && u[i] == v[i]
        invariant 0 <= i <= n && u[..][i + 1..n + 1] == v[..][i + 1..n + 1]
      {
        i := i - 1;
      }
      FirstDifference(u[..], v[..], i, n + 1);
      if u[i] < v[i] { return Smaller; }
      if u[i] == v[i] { return Equal; }
    } else {
      ShorterIsSmaller(v[..], u[..], n, m);
    }
    return Divisible(m, n);
  }

  /** The last limb that is not zero, or the first. */
  method LeadingWord(a: array<Limb>) returns (n: nat)
    requires a.Length > 0
    ensures n < a.Length && Zeros(a[..], n + 1) && (n != 0 ==> a[n] != 0)
    ensures n == 0 && a[0] == 0 <==> Unsigned(a[..]) == 0
  {
    hide Unsigned, P;
    n := a.Length - 1;
    while n != 0 && a[n] == 0
      invariant 0 <= n < a.Length && Zeros(a[..], n + 1)
    {
      n := n - 1;
    }
    AllZero(a[..]);
  }

  lemma ShorterIsSmaller(u: seq<Limb>, v: seq<Limb>, m: nat, n: nat)
    requires m < n < |u| == |v| && Zeros(u, m + 1) && v[n] != 0
    ensures Unsigned(u) < Unsigned(v)
  {
    hide Unsigned, P, Zeros;
    LowLimbs(u, m + 1);
    InRange(u[..m + 1]);
    PowersGrow(m + 1, n);
    LeadingBound(v, n + 1);
  }

  /** The highest word in which they differ decides. */
  lemma FirstDifference(u: seq<Limb>, v: seq<Limb>, i: nat, n: nat)
    requires i < n <= |u| == |v| && Zeros(u, n) && Zeros(v, n) && u[i + 1..n] == v[i + 1..n]
    requires i == 0 || u[i] != v[i]
    ensures u[i] < v[i] ==> Unsigned(u) < Unsigned(v)
    ensures u[i] == v[i] ==> Unsigned(u) == Unsigned(v)
    ensures u[i] > v[i] ==> Unsigned(u) > Unsigned(v)
  {
    hide Unsigned, P;
    assert u[n..] == v[n..];
    assert u[i + 1..] == u[i + 1..n] + u[n..] && v[i + 1..] == v[i + 1..n] + v[n..];
    if u[i] < v[i] { HighestDecides(u, v, i); }
    if u[i] > v[i] { HighestDecides(v, u, i); }
    if u[i] == v[i] { assert u == [u[0]] + u[1..] && v == [v[0]] + v[1..]; }
  }

  /** Quotient in place, and remainder, for every divisor but zero, which changes nothing. */
  method Div3(u: array<Limb>, v: array<Limb>, remainder: array<Limb>) returns (byZero: bool)
    requires 0 < u.Length == v.Length == remainder.Length && u != v && u != remainder && v != remainder
    modifies u, remainder
    ensures byZero <==> Unsigned(v[..]) == 0
    ensures byZero ==> u[..] == old(u[..]) && remainder[..] == old(remainder[..])
    ensures !byZero ==> Unsigned(old(u[..])) == Unsigned(v[..]) * Unsigned(u[..]) + Unsigned(remainder[..])
    ensures !byZero ==> Unsigned(remainder[..]) < Unsigned(v[..])
  {
    hide Unsigned, P, Zeros, Uniform;
    var s := DivCalculatingSize(u, v);
    match s {
      case ByZero => return true;
      case OfZero =>
        SetZero(remainder);
        SetZero(u);
      case Smaller =>
        CopyInto(remainder, u);
        SetZero(u);
      case Equal =>
        SetZero(remainder);
        SetOne(u);
      case Divisible(m, n) =>
        if n == 0 {
          DivByWord(u, v, remainder);
        } else {
          Div3Division(u, v, remainder, m - n, n + 1);
        }
    }
    return false;
  }

  method SetOne(a: array<Limb>)
    requires a.Length > 0
    modifies a
    ensures Unsigned(a[..]) == 1
  {
    SetWord(a, 1);
  }

  method SetWord(a: array<Limb>, x: Limb)
    requires a.Length > 0
    modifies a
    ensures Unsigned(a[..]) == x as int
  {
    hide Unsigned;
    SetZero(a);
    a[0] := x;
    LowLimbs(a[..], 1);
    assert a[..][..1] == [] + [x];
    Append([], x);
    NoLimbs();
  }

  method DivByWord(u: array<Limb>, v: array<Limb>, remainder: array<Limb>)
    requires 0 < u.Length == v.Length == remainder.Length && u != v && u != remainder && v != remainder
    requires v[0] != 0 && Zeros(v[..], 1)
    modifies u, remainder
    ensures Unsigned(old(u[..])) == Unsigned(v[..]) * Unsigned(u[..]) + Unsigned(remainder[..])
    ensures Unsigned(remainder[..]) < Unsigned(v[..])
  {
    hide Unsigned, Zeros;
    LowLimbs(v[..], 1);
    assert v[..][..1] == [] + [v[0]];
    Append([], v[0]);
    NoLimbs();
    var byZero, r := DivInt(u, v[0]);
    SetWord(remainder, r);
  }
}
