/** Unsigned arithmetic on limbs, in place and word by word: carries, shifts, and the product. */
module LongArithmetic {
  import opened Limbs
  import opened WordArithmetic

  lemma NoLimbs()
    ensures Unsigned([]) == 0 && P(0) == 1
  {
  }

  // ---------- sums and differences ----------

  /** Word by word with a carry; the operand may be the number itself. */
  method AddWords(a: array<Limb>, b: array<Limb>) returns (carry: bool)
    requires b.Length == a.Length
    modifies a
    ensures Unsigned(a[..]) + (if carry then P(a.Length) else 0) == Unsigned(old(a[..])) + Unsigned(old(b[..]))
  {
    hide Unsigned;
    ghost var x, y := a[..], b[..];
    carry := false;
    NoLimbs();
    for i := 0 to a.Length
      invariant forall k :: i <= k < a.Length ==> a[k] == x[k] && b[k] == y[k]
      invariant Unsigned(a[..i]) + (if carry then P(i) else 0) == Unsigned(x[..i]) + Unsigned(y[..i])
    {
      var t, next := AddTwoWords(a[i], b[i], carry);
      CarryStep(x[i] as int, y[i] as int, t as int, carry, next, P(i));
      Append(a[..i], t);
      Append(x[..i], x[i]);
      Append(y[..i], y[i]);
      assert x[..i + 1] == x[..i] + [x[i]] && y[..i + 1] == y[..i] + [y[i]];
      a[i] := t;
      assert a[..i + 1] == a[..i] + [t];
      carry := next;
    }
    assert a[..a.Length] == a[..] && x[..a.Length] == x && y[..a.Length] == y;
  }

  method SubWords(a: array<Limb>, b: array<Limb>) returns (borrow: bool)
    requires b.Length == a.Length
    modifies a
    ensures Unsigned(a[..]) ==
            Unsigned(old(a[..])) - Unsigned(old(b[..])) + if borrow then P(a.Length) else 0
  {
    hide Unsigned;
    ghost var x, y := a[..], b[..];
    borrow := false;
    NoLimbs();
    for i := 0 to a.Length
      invariant forall k :: i <= k < a.Length ==> a[k] == x[k] && b[k] == y[k]
      invariant Unsigned(a[..i]) == Unsigned(x[..i]) - Unsigned(y[..i]) + if borrow then P(i) else 0
    {
      var t, next := SubTwoWords(a[i], b[i], borrow);
      BorrowStep(x[i] as int, y[i] as int, t as int, borrow, next, P(i));
      Append(a[..i], t);
      Append(x[..i], x[i]);
      Append(y[..i], y[i]);
      assert x[..i + 1] == x[..i] + [x[i]] && y[..i + 1] == y[..i] + [y[i]];
      a[i] := t;
      assert a[..i + 1] == a[..i] + [t];
      borrow := next;
    }
    assert a[..a.Length] == a[..] && x[..a.Length] == x && y[..a.Length] == y;
  }

  // ---------- adding a word or two ----------

  /** The limbs below `i` hold what they held and `added`, but for a carry; the others are
      untouched. */
  ghost predicate Carried(was: seq<Limb>, now: seq<Limb>, i: nat, carry: bool, added: nat) {
    && i <= |was| == |now| && now[i..] == was[i..]
    && Unsigned(now[..i]) + (if carry then P(i) else 0) == Unsigned(was[..i]) + added
  }

  lemma NothingCarried(s: seq<Limb>, i: nat)
    requires i <= |s|
    ensures Carried(s, s, i, false, 0)
  {
  }

  method AddAt(a: array<Limb>, i: nat, x: Limb, carry: bool, ghost was: seq<Limb>, ghost added: nat)
    returns (next: bool)
    requires i < a.Length && Carried(was, a[..], i, carry, added)
    modifies a
    ensures Carried(was, a[..], i + 1, next, added + x as int * P(i))
  {
    hide Unsigned, P;
    ghost var now := a[..];
    var t;
    t, next := AddTwoWords(a[i], x, carry);
    a[i] := t;
    OneCarry(was, now, i, x, t, carry, next, added);
    assert a[..] == now[i := t];
  }

  lemma OneCarry(was: seq<Limb>, now: seq<Limb>, i: nat, x: Limb, t: Limb, carry: bool, next: bool, added: nat)
    requires i < |was| && Carried(was, now, i, carry, added)
    requires t as int + (if next then B else 0) == now[i] as int + x as int + if carry then 1 else 0
    ensures Carried(was, now[i := t], i + 1, next, added + x as int * P(i))
  {
    hide Unsigned;
    assert now[i..][0] == was[i..][0];
    assert now[i + 1..] == now[i..][1..] && was[i + 1..] == was[i..][1..] && now[i := t][i + 1..] == now[i + 1..];
    assert now[i := t][..i + 1] == now[..i] + [t] && was[..i + 1] == was[..i] + [was[i]];
    Append(now[..i], t);
    Append(was[..i], was[i]);
    CarryStep(was[i] as int, x as int, t as int, carry, next, P(i));
  }

  /** Hands a carry on for as long as there is one. */
  method Ripple(a: array<Limb>, start: nat, c: bool, ghost was: seq<Limb>, ghost added: nat) returns (carry: bool)
    requires start <= a.Length && Carried(was, a[..], start, c, added)
    modifies a
    ensures Unsigned(a[..]) + (if carry then P(a.Length) else 0) == Unsigned(was) + added
  {
    hide Unsigned, P;
    carry := c;
    var i := start;
    while i < a.Length && carry
      invariant i <= a.Length && Carried(was, a[..], i, carry, added)
    {
      carry := AddAt(a, i, 0, carry, was, added);
      i := i + 1;
    }
    AllCarried(was, a[..], i, carry, added);
  }

  lemma AllCarried(was: seq<Limb>, now: seq<Limb>, i: nat, carry: bool, added: nat)
    requires Carried(was, now, i, carry, added) && (carry ==> i == |was|)
    ensures Unsigned(now) + (if carry then P(|was|) else 0) == Unsigned(was) + added
  {
    hide Unsigned, P;
    Split(now, i);
    Split(was, i);
    if i == |was| { assert now[..i] == now && was[..i] == was; }
  }

  method AddInt(a: array<Limb>, value: Limb, index: nat) returns (carry: bool)
    requires index < a.Length
    modifies a
    ensures Unsigned(a[..]) + (if carry then P(a.Length) else 0) == Unsigned(old(a[..])) + value as int * P(index)
  {
    hide Unsigned, P, Carried;
    ghost var was := a[..];
    NothingCarried(was, index);
    carry := AddAt(a, index, value, false, was, 0);
    carry := Ripple(a, index + 1, carry, was, value as int * P(index));
  }

  method AddTwoInts(a: array<Limb>, x2: Limb, x1: Limb, index: nat) returns (carry: bool)
    requires index + 1 < a.Length
    modifies a
    ensures Unsigned(a[..]) + (if carry then P(a.Length) else 0) ==
            Unsigned(old(a[..])) + (x2 as int * B + x1 as int) * P(index)
  {
    hide Unsigned, P, Carried;
    ghost var was := a[..];
    ghost var low := x1 as int * P(index);
    NothingCarried(was, index);
    carry := AddAt(a, index, x1, false, was, 0);
    carry := AddAt(a, index + 1, x2, carry, was, low);
    carry := Ripple(a, index + 2, carry, was, low + x2 as int * P(index + 1));
    TwoWords(x2 as int, x1 as int, index);
  }

  lemma TwoWords(x2: int, x1: int, index: nat)
    ensures (x2 * B + x1) * P(index) == x1 * P(index) + x2 * P(index + 1)
  {
  }

  // ---------- products ----------

  lemma {:induction false} PowerOfSum(m: nat, k: nat)
    ensures P(m + k) == P(m) * P(k)
  {
    if m > 0 {
      PowerOfSum(m - 1, k);
      Regroup(B, P(m - 1), P(k));
    }
  }

  lemma Regroup(x: int, y: int, z: int)
    ensures x * (y * z) == x * y * z
  {
  }

  /** Without the zeros at both ends: limbs from `start` on and below `size` count. */
  method Trim(s: array<Limb>) returns (start: nat, size: nat)
    ensures start <= size <= s.Length && Unsigned(s[..]) == Unsigned(s[..size]) && Unsigned(s[..start]) == 0
  {
    hide Unsigned, P;
    start, size := 0, s.Length;
    if s.Length > 2 {
      while size > 0 && s[size - 1] == 0
        invariant size <= s.Length && Uniform(s[size..], 0)
      {
        size := size - 1;
      }
      while start < size && s[start] == 0
        invariant start <= size && Uniform(s[..start], 0)
      {
        start := start + 1;
      }
    }
    assert Uniform(s[size..], 0) && Uniform(s[..start], 0);
    AllZero(s[size..]);
    AllZero(s[..start]);
    Split(s[..], size);
    assert s[..][size..] == s[size..] && s[..][..size] == s[..size];
  }

  /** The sum of the first `i` rows of the product, and of the first `j` words of the next row. */
  ghost function Partial(x: seq<Limb>, y: seq<Limb>, i: nat, j: nat): int
    requires i < |x| && j <= |y|
  {
    Unsigned(x[..i]) * Unsigned(y) + x[i] as int * P(i) * Unsigned(y[..j])
  }

  lemma RowStart(x: seq<Limb>, y: seq<Limb>, i: nat, j: nat)
    requires i < |x| && j <= |y| && Unsigned(y[..j]) == 0
    ensures Partial(x, y, i, j) == Unsigned(x[..i]) * Unsigned(y)
  {
  }

  lemma RowEnd(x: seq<Limb>, y: seq<Limb>, i: nat, j: nat)
    requires i < |x| && j <= |y| && Unsigned(y[..j]) == Unsigned(y)
    ensures Partial(x, y, i, j) == Unsigned(x[..i + 1]) * Unsigned(y)
  {
    hide Unsigned, P;
    Append(x[..i], x[i]);
    assert x[..i + 1] == x[..i] + [x[i]];
    Distribute(Unsigned(x[..i]), x[i] as int * P(i), Unsigned(y));
  }

  lemma RowStep(x: seq<Limb>, y: seq<Limb>, i: nat, j: nat)
    requires i < |x| && j < |y|
    ensures Partial(x, y, i, j + 1) == Partial(x, y, i, j) + x[i] as int * y[j] as int * P(i + j)
  {
    hide Unsigned, P;
    Append(y[..j], y[j]);
    assert y[..j + 1] == y[..j] + [y[j]];
    PowerOfSum(i, j);
    FourFactors(x[i] as int, P(i), Unsigned(y[..j]), y[j] as int, P(j));
  }

  lemma FourFactors(x: int, p: int, u: int, y: int, q: int)
    ensures x * p * (u + y * q) == x * p * u + x * y * (p * q)
  {
    assert x * p * (u + y * q) == x * p * u + x * p * (y * q);
    assert x * p * (y * q) == x * y * (p * q);
  }

  lemma Distribute(x: int, y: int, z: int)
    ensures (x + y) * z == x * z + y * z
  {
  }

  /** No partial sum needs more room than the product. */
  lemma PartialFits(x: seq<Limb>, y: seq<Limb>, i: nat, j: nat)
    requires i < |x| == |y| && j <= |y|
    ensures Partial(x, y, i, j) < P(2 * |x|)
  {
    hide Unsigned, P;
    Append(x[..i], x[i]);
    assert x[..i + 1] == x[..i] + [x[i]];
    Prefix(x, i + 1);
    Prefix(y, j);
    InRange(x);
    InRange(y);
    PowerOfSum(|x|, |x|);
    PartialNumbers(Unsigned(x[..i]), x[i] as int * P(i), Unsigned(y[..j]), Unsigned(y), P(|x|));
  }

  lemma Prefix(s: seq<Limb>, i: nat)
    requires i <= |s|
    ensures Unsigned(s[..i]) <= Unsigned(s)
  {
    hide Unsigned, P;
    Split(s, i);
    NotNegative(P(i), Unsigned(s[i..]));
  }

  lemma NotNegative(x: nat, y: nat)
    ensures x * y >= 0
  {
  }

  lemma PartialNumbers(a: nat, b: int, c: nat, y: nat, p: nat)
    requires b >= 0 && a + b < p && c <= y < p
    ensures a * y + b * c < p * p
  {
    Ordered(c, y, b);
    Ordered(a + b, p, y);
    Distribute(a, b, y);
    assert p * y < p * p by { Strictly(y, p, p); }
  }

  /** One word times all words of the other number. */
  method MulRow(x: array<Limb>, y: array<Limb>, result: array<Limb>, x1: nat, start: nat, size: nat)
    requires x1 < x.Length == y.Length && result.Length == 2 * x.Length && result != x && result != y
    requires start <= size <= y.Length && Unsigned(y[..]) == Unsigned(y[..size]) && Unsigned(y[..start]) == 0
    requires Unsigned(result[..]) == Unsigned(x[..x1]) * Unsigned(y[..])
    modifies result
    ensures Unsigned(result[..]) == Unsigned(x[..x1 + 1]) * Unsigned(y[..])
  {
    hide Unsigned, P, Partial;
    assert y[..][..start] == y[..start] && y[..][..size] == y[..size];
    assert x[..][..x1] == x[..x1] && x[..][..x1 + 1] == x[..x1 + 1];
    RowStart(x[..], y[..], x1, start);
    for x2 := start to size
      invariant Unsigned(result[..]) == Partial(x[..], y[..], x1, x2)
    {
      var r2, r1 := MulTwoWords(x[x1], y[x2]);
      var carry := AddTwoInts(result, r2, r1, x1 + x2);
      RowStep(x[..], y[..], x1, x2);
      PartialFits(x[..], y[..], x1, x2 + 1);
    }
    RowEnd(x[..], y[..], x1, size);
  }

  /** The whole product, one word times one word at a time, for the limbs that count. */
  method Mul2Big3(x: array<Limb>, y: array<Limb>, x1start: nat, x1size: nat, x2start: nat, x2size: nat)
    returns (result: array<Limb>)
    requires x.Length == y.Length && x1start <= x1size <= x.Length && x2start <= x2size <= y.Length
    requires Unsigned(x[..]) == Unsigned(x[..x1size]) && Unsigned(x[..x1start]) == 0
    requires Unsigned(y[..]) == Unsigned(y[..x2size]) && Unsigned(y[..x2start]) == 0
    ensures fresh(result) && result.Length == 2 * x.Length
    ensures Unsigned(result[..]) == Unsigned(x[..]) * Unsigned(y[..])
  {
    hide Unsigned, P;
    result := new Limb[2 * x.Length](i => 0);
    AllZero(result[..]);
    for x1 := x1start to x1size
      invariant Unsigned(result[..]) == Unsigned(x[..x1]) * Unsigned(y[..])
      invariant fresh(result)
    {
      MulRow(x, y, result, x1, x2start, x2size);
    }
  }

  method Mul2Big(x: array<Limb>, y: array<Limb>) returns (result: array<Limb>)
    requires x.Length == y.Length
    ensures fresh(result) && result.Length == 2 * x.Length
    ensures Unsigned(result[..]) == Unsigned(x[..]) * Unsigned(y[..])
  {
    hide Unsigned;
    var x1start, x1size := Trim(x);
    var x2start, x2size := Trim(y);
    result := Mul2Big3(x, y, x1start, x1size, x2start, x2size);
  }

  /** Whether a limb from `n` on is not zero. */
  method IsCarried(a: array<Limb>, n: nat) returns (carry: bool)
    requires n <= a.Length
    ensures carry <==> Unsigned(a[..]) >= P(n)
    ensures !carry ==> Unsigned(a[..]) == Unsigned(a[..n])
  {
    hide Unsigned, P;
    ghost var high := a[..][n..];
    Split(a[..], n);
    assert a[..][..n] == a[..n];
    InRange(a[..n]);
    AllZero(high);
    Above(Unsigned(a[..n]), P(n), Unsigned(high));
    for i := n to a.Length
      invariant forall k :: n <= k < i ==> a[k] == 0
    {
      if a[i] != 0 {
        assert high[i - n] == a[i];
        return true;
      }
    }
    return false;
  }

  lemma Above(u: nat, p: nat, rest: nat)
    requires u < p
    ensures rest != 0 <==> u + p * rest >= p
  {
    if rest >= 1 { assert p * rest >= p * 1; }
  }

  // ---------- times and by one word ----------

  method SetZero(a: array<Limb>)
    modifies a
    ensures Uniform(a[..], 0) && Unsigned(a[..]) == 0
  {
    for i := 0 to a.Length
      invariant Uniform(a[..i], 0)
    {
      a[i] := 0;
    }
    assert a[..a.Length] == a[..];
    AllZero(a[..]);
  }

  method CopyInto(a: array<Limb>, b: array<Limb>)
    requires a.Length == b.Length
    modifies a
    ensures a[..] == old(b[..])
  {
    ghost var was := b[..];
    for i := 0 to a.Length
      invariant forall k :: 0 <= k < i ==> a[k] == was[k]
      invariant forall k :: i <= k < a.Length ==> b[k] == was[k]
    {
      a[i] := b[i];
    }
  }

  method Copied(a: array<Limb>) returns (b: array<Limb>)
    ensures fresh(b) && b[..] == a[..]
  {
    b := new Limb[a.Length](i requires 0 <= i < a.Length reads a => a[i]);
  }

  /** Times one word, with a carry exactly when the product is too big. */
  method MulInt(a: array<Limb>, x: Limb) returns (carry: bool)
    requires a.Length > 0
    modifies a
    ensures carry <==> Unsigned(old(a[..])) * x as int >= P(a.Length)
    ensures !carry ==> Unsigned(a[..]) == Unsigned(old(a[..])) * x as int
  {
    hide Unsigned, P, Uniform;
    var n := a.Length;
    ghost var was := a[..];
    var u := Copied(a);
    SetZero(a);
    NoLimbs();
    if x == 0 { return false; }
    for x1 := 0 to n - 1
      invariant fresh(u) && u[..] == was
      invariant Unsigned(a[..]) == Unsigned(was[..x1]) * x as int
    {
      var r2, r1 := MulTwoWords(u[x1], x);
      var c := AddTwoInts(a, r2, r1, x1);
      TimesNext(was, x1, x as int);
      TimesFits(was, x1 + 1, x as int);
      PowersGrow(x1 + 2, n);
    }
    var r2, r1 := MulTwoWords(u[n - 1], x);
    var c := AddInt(a, r1, n - 1);
    TimesNext(was, n - 1, x as int);
    assert was[..n] == was;
    TopWord(r2 as int, r1 as int, n - 1);
    InRange(a[..]);
    Above(Unsigned(a[..]), P(n), r2 as int + if c then 1 else 0);
    DistributeLeft(P(n), r2 as int, if c then 1 else 0);
    carry := r2 != 0 || c;
  }

  lemma DistributeLeft(p: int, x: int, y: int)
    ensures p * (x + y) == x * p + y * p
  {
  }

  lemma TimesNext(s: seq<Limb>, i: nat, x: int)
    requires i < |s|
    ensures Unsigned(s[..i + 1]) * x == Unsigned(s[..i]) * x + s[i] as int * x * P(i)
  {
    hide Unsigned, P;
    Append(s[..i], s[i]);
    assert s[..i + 1] == s[..i] + [s[i]];
    Distribute(Unsigned(s[..i]), s[i] as int * P(i), x);
    Swapped(s[i] as int, P(i), x);
  }

  lemma Swapped(x: int, y: int, z: int)
    ensures x * y * z == x * z * y
  {
  }

  lemma TimesFits(s: seq<Limb>, i: nat, x: int)
    requires i <= |s| && 0 <= x < B
    ensures Unsigned(s[..i]) * x < P(i + 1)
  {
    hide Unsigned;
    InRange(s[..i]);
    WordMultiple(Unsigned(s[..i]), x, P(i));
  }

  lemma WordMultiple(u: int, x: int, p: int)
    requires 0 <= u < p && 0 <= x < B
    ensures u * x < B * p
  {
    Ordered(x, B, u);
    assert u * x == x * u;
  }

  lemma {:induction false} PowersGrow(i: nat, n: nat)
    requires i <= n
    ensures P(i) <= P(n)
  {
    if i < n { PowersGrow(i, n - 1); }
  }

  lemma TopWord(x2: int, x1: int, i: nat)
    ensures (x2 * B + x1) * P(i) == x1 * P(i) + x2 * P(i + 1)
  {
    TwoWords(x2, x1, i);
  }

  /** By one word: the quotient in place, and the remainder. */
  method DivInt(a: array<Limb>, divisor: Limb) returns (byZero: bool, r: Limb)
    requires a.Length > 0
    modifies a
    ensures byZero <==> divisor == 0
    ensures byZero ==> a[..] == old(a[..]) && r == 0
    ensures !byZero ==> Unsigned(old(a[..])) == Unsigned(a[..]) * divisor as int + r as int && r < divisor
  {
    hide Unsigned, Uniform, Divided;
    if divisor == 0 { return true, 0; }
    if divisor == 1 { return false, 0; }
    var n := a.Length;
    ghost var was := a[..];
    var dividend := Copied(a);
    SetZero(a);
    var i := n - 1;
    while i > 0 && dividend[i] == 0
      invariant 0 <= i < n && Zeros(was, i + 1)
    {
      i := i - 1;
    }
    r := 0;
    StartAt(was, a[..], i + 1);
    while i >= 0
      invariant -1 <= i < n && fresh(dividend) && dividend[..] == was && r < divisor
      invariant Divided(was, a[..], i + 1, divisor as int, r as int)
    {
      r := DivAt(a, i, was, divisor, dividend[i], r);
      i := i - 1;
    }
    AllDivided(was, a[..], divisor as int, r as int);
    return false, r;
  }

  /** From limb `i` on, `a` holds the quotient, and `r` is left. */
  ghost predicate Divided(was: seq<Limb>, a: seq<Limb>, i: nat, divisor: int, r: int) {
    i <= |was| == |a| && Unsigned(was[i..]) == Unsigned(a[i..]) * divisor + r
  }

  lemma AllDivided(was: seq<Limb>, a: seq<Limb>, divisor: int, r: int)
    requires Divided(was, a, 0, divisor, r)
    ensures Unsigned(was) == Unsigned(a) * divisor + r
  {
    assert was[0..] == was && a[0..] == a;
  }

  method DivAt(a: array<Limb>, i: nat, ghost was: seq<Limb>, divisor: Limb, x: Limb, before: Limb) returns (r: Limb)
    requires i < a.Length == |was| && x == was[i] && before < divisor
    requires Divided(was, a[..], i + 1, divisor as int, before as int)
    modifies a
    ensures r < divisor && Divided(was, a[..], i, divisor as int, r as int)
  {
    hide Unsigned;
    ghost var done := a[..][i + 1..];
    var q;
    q, r := DivTwoWords(before, x, divisor);
    a[i] := q;
    assert a[..][i..] == [q] + done;
    NextWord(was, i, q, done, divisor as int, before as int, r as int);
  }

  ghost predicate Zeros(s: seq<Limb>, i: nat) { forall k :: i <= k < |s| ==> s[k] == 0 }

  lemma StartAt(was: seq<Limb>, a: seq<Limb>, i: nat)
    requires i <= |was| == |a| && Zeros(was, i) && Uniform(a, 0)
    ensures forall divisor :: Divided(was, a, i, divisor, 0)
  {
    AllZero(was[i..]);
    AllZero(a[i..]);
  }

  lemma NextWord(was: seq<Limb>, i: nat, q: Limb, done: seq<Limb>, c: int, before: int, r: int)
    requires i < |was| && Unsigned(was[i + 1..]) == Unsigned(done) * c + before
    requires before * B + was[i] as int == q as int * c + r
    ensures Unsigned(was[i..]) == Unsigned([q] + done) * c + r
  {
    assert was[i..][1..] == was[i + 1..] && ([q] + done)[1..] == done;
    assert Unsigned(was[i..]) == was[i] as int + B * Unsigned(was[i + 1..]);
    assert Unsigned([q] + done) == q as int + B * Unsigned(done);
    Distribute(q as int, B * Unsigned(done), c);
  }

  // ---------- size and order ----------

  lemma LowLimbs(s: seq<Limb>, n: nat)
    requires n <= |s| && Zeros(s, n)
    ensures Unsigned(s) == Unsigned(s[..n])
  {
    hide Unsigned, P;
    Split(s, n);
    AllZero(s[n..]);
  }

  /** A number below `n` limbs has zeros above them. */
  lemma SmallNumber(s: seq<Limb>, n: nat)
    requires n <= |s| && Unsigned(s) < P(n)
    ensures Unsigned(s) == Unsigned(s[..n]) && Zeros(s, n)
  {
    hide Unsigned, P;
    Split(s, n);
    InRange(s[..n]);
    Above(Unsigned(s[..n]), P(n), Unsigned(s[n..]));
    AllZero(s[n..]);
    assert forall k :: n <= k < |s| ==> s[k] == s[n..][k - n];
  }

  lemma PowerStep(n: nat)
    ensures P(n + 1) == B * P(n)
  {
  }

  lemma Pair(s: seq<Limb>)
    requires |s| == 2
    ensures Unsigned(s) == s[1] as int * B + s[0] as int
  {
    assert s == [s[0], s[1]] && s[1..] == [s[1]] && s[1..][1..] == [];
    assert Unsigned(s[1..]) == s[1] as int;
  }

  /** The highest limb in which two numbers differ decides. */
  lemma HighestDecides(a: seq<Limb>, b: seq<Limb>, i: nat)
    requires |a| == |b| && i < |a| && a[i + 1..] == b[i + 1..] && a[i] < b[i]
    ensures Unsigned(a) < Unsigned(b)
  {
    hide Unsigned, P;
    Split(a, i + 1);
    Split(b, i + 1);
    TopLimb(a[..i + 1]);
    TopLimb(b[..i + 1]);
    assert a[..i + 1][..i] == a[..i] && b[..i + 1][..i] == b[..i];
    Ordered(a[i] as int + 1, b[i] as int, P(i));
    Distribute(a[i] as int, 1, P(i));
  }
}
