/** Signed integers of any number of limbs, changed in place: carry reports, multiplication and
    division with signs, comparison and conversion. */
module SignedInts {
  import opened Limbs
  import opened LongArithmetic
  import opened LongDivision
  import opened Karatsuba

  class Int {
    const table: array<Limb>

    ghost predicate Valid() { table.Length > 0 }

    ghost function Value(): int
      requires Valid()
      reads table
    {
      Signed(table[..])
    }

    constructor Zero(n: nat)
      ensures table.Length == n && fresh(table) && forall i :: 0 <= i < n ==> table[i] == 0
    {
      table := new Limb[n](i => 0);
    }

    constructor Min(n: nat)
      requires n > 0
      ensures Valid() && table.Length == n && fresh(table) && Value() == -H(n)
    {
      table := new Limb[n](i => if i == n - 1 then TOP as Limb else 0);
      new;
      MinLimbs(table[..]);
    }

    constructor Copy(other: Int)
      ensures table.Length == other.table.Length && fresh(table) && table[..] == other.table[..]
    {
      table := new Limb[other.table.Length](i requires 0 <= i < other.table.Length reads other.table => other.table[i]);
    }

    method IsSign() returns (sign: bool)
      requires Valid()
      ensures sign == TopBit(table[..]) == (Value() < 0)
    {
      TopBitIsSign(table[..]);
      sign := table[table.Length - 1] as int >= TOP;
    }

    // ---------- signs ----------

    /** Negates; the minimum cannot be negated and stays. */
    method ChangeSign() returns (carry: bool)
      requires Valid()
      modifies table
      ensures carry <==> old(Value()) == -H(table.Length)
      ensures Value() == if carry then old(Value()) else -old(Value())
    {
      hide Unsigned, H, TopBit;
      TopBitIsSign(table[..]);
      var min := new Int.Min(table.Length);
      if table[..] == min.table[..] { return true; }
      if Value() == -H(table.Length) { SameValue(table[..], min.table[..]); }
      var temp := new Int.Zero(table.Length);
      ZeroValue(temp.table[..]);
      ghost var zero, mine := temp.table[..], table[..];
      var borrow := SubWords(temp.table, table);
      SubRule(zero, mine, temp.table[..], borrow);
      CopyInto(table, temp.table);
      return false;
    }

    method SetSign()
      requires Valid()
      modifies table
      ensures Value() == if old(Value()) < 0 then old(Value()) else -old(Value())
    {
      hide Unsigned, H;
      TopBitIsSign(table[..]);
      var sign := IsSign();
      if sign { return; }
      var _ := ChangeSign();
    }

    /** Afterwards the limbs, read without a sign, are the absolute value: of the minimum too. */
    method Abs()
      requires Valid()
      modifies table
      ensures Unsigned(table[..]) == if old(Value()) < 0 then -old(Value()) else old(Value())
    {
      hide Unsigned, H;
      TopBitIsSign(table[..]);
      var sign := IsSign();
      if sign { var _ := ChangeSign(); }
      InRange(table[..]);
    }

    // ---------- arithmetic ----------

    /** A carry is reported exactly when the sum is not representable; otherwise it is stored. */
    method Add(other: Int) returns (carry: bool)
      requires Valid() && other.table.Length == table.Length
      modifies table
      ensures carry <==> !Fits(table.Length, old(Value()) + old(other.Value()))
      ensures !carry ==> Value() == old(Value()) + old(other.Value())
    {
      hide Unsigned, H, TopBit;
      var sign1 := IsSign();
      var sign2 := other.IsSign();
      ghost var a, b := table[..], other.table[..];
      var c := AddWords(table, other.table);
      AddRule(a, b, table[..], c);
      var sign := IsSign();
      carry := AddCarries(sign1, sign2, sign);
    }

    method Sub(other: Int) returns (carry: bool)
      requires Valid() && other.table.Length == table.Length
      modifies table
      ensures carry <==> !Fits(table.Length, old(Value()) - old(other.Value()))
      ensures !carry ==> Value() == old(Value()) - old(other.Value())
    {
      hide Unsigned, H, TopBit;
      var sign1 := IsSign();
      var sign2 := other.IsSign();
      ghost var a, b := table[..], other.table[..];
      var c := SubWords(table, other.table);
      SubRule(a, b, table[..], c);
      var sign := IsSign();
      carry := SubCarries(sign1, sign2, sign);
    }

    /** A carry is reported exactly when the product is not representable; otherwise it is
        stored. */
    method Mul(other: Int) returns (carry: bool)
      requires Valid() && other.table.Length == table.Length
      modifies table
      ensures carry <==> !Fits(table.Length, old(Value()) * old(other.Value()))
      ensures !carry ==> Value() == old(Value()) * old(other.Value())
    {
      hide Unsigned, H, TopBit;
      ghost var v, w := Value(), other.Value();
      var sign1 := IsSign();
      var sign2 := other.IsSign();
      var factor := new Int.Copy(other);
      Abs();
      factor.Abs();
      ProductOfAbsolutes(v, w, Unsigned(table[..]), Unsigned(factor.table[..]));
      var c := MulFastest(table, factor.table);
      if c { return true; }
      InRange(table[..]);
      var sign := IsSign();
      if sign {
        if sign1 != sign2 {
          var min := new Int.Min(table.Length);
          if table[..] != min.table[..] {
            if Value() == -H(table.Length) { SameValue(table[..], min.table[..]); }
            return true;
          }
        } else {
          return true;
        }
      }
      if sign1 != sign2 { SetSign(); }
      return false;
    }

    /** Truncates toward zero, with the remainder's sign that of the dividend, for every divisor
        but zero, which changes nothing, and but for the minimum by -1, which stays. */
    method Div(other: Int, remainder: Int) returns (byZero: bool)
      requires Valid() && other.table.Length == table.Length == remainder.table.Length && remainder.table != table
      modifies table, remainder.table
      ensures byZero <==> old(other.Value()) == 0
      ensures byZero ==> Value() == old(Value())
      ensures byZero ==> var r := old(remainder.Value());
        remainder.Value() == if old(Value()) < 0 && r > 0 then -r else r
      ensures !byZero ==> (IsQuotient(old(Value()), old(other.Value()), Value(), remainder.Value()) <==>
                           !(old(Value()) == -H(table.Length) && old(other.Value()) == -1))
      ensures old(Value()) == -H(table.Length) && old(other.Value()) == -1 ==>
              Value() == old(Value()) && remainder.Value() == 0
    {
      hide Unsigned, H, TopBit, IsQuotient;
      ghost var v, w, n := Value(), other.Value(), table.Length;
      var sign1 := IsSign();
      var sign2 := other.IsSign();
      TopBitIsSign(table[..]);
      TopBitIsSign(other.table[..]);
      var divisor := new Int.Copy(other);
      Abs();
      divisor.Abs();
      ghost var x, y := Unsigned(table[..]), Unsigned(divisor.table[..]);
      byZero := Div3(table, divisor.table, remainder.table);
      ghost var q, r := Unsigned(table[..]), Unsigned(remainder.table[..]);
      if !byZero { QuotientFits(v, w, x, y, q, r, H(n)); }
      if sign1 != sign2 { SetSign(); }
      if sign1 { remainder.SetSign(); }
      if !byZero { NotQuotient(H(n)); }
    }

    // ---------- comparison and conversion ----------

    /** The four order operators: the top limbs as signed words, then the others as unsigned
        ones, down to the first difference. */
    method Compare(other: Int, greater: bool, whenEqual: bool) returns (r: bool)
      requires Valid() && other.table.Length == table.Length
      ensures r == if Value() == other.Value() then whenEqual
                   else if greater then Value() > other.Value() else Value() < other.Value()
    {
      hide Unsigned, H;
      var i := table.Length - 1;
      var a1, a2 := SignedLimb(table[i]), SignedLimb(other.table[i]);
      if a1 != a2 {
        if a1 < a2 { TopLimbDecides(table[..], other.table[..]); } else { TopLimbDecides(other.table[..], table[..]); }
        return if greater then a1 > a2 else a1 < a2;
      }
      while i > 0
        invariant 0 <= i < table.Length && table[i..] == other.table[i..]
      {
        i := i - 1;
        if table[i] != other.table[i] {
          if table[i] < other.table[i] {
            LimbDecides(table[..], other.table[..], i);
          } else {
            LimbDecides(other.table[..], table[..], i);
          }
          return if greater then table[i] > other.table[i] else table[i] < other.table[i];
        }
      }
      assert table[..] == other.table[..];
      return whenEqual;
    }

    /** Conversion from another size, signed or not: no carry is reported exactly when the value
        is preserved. */
    method From(p: Int, unsigned: bool) returns (carry: bool)
      requires Valid() && p.Valid() && p.table != table
      modifies table
      ensures !carry <==> Value() == if unsigned then Unsigned(p.table[..]) else p.Value()
    {
      hide Unsigned, H, TopBit;
      var n, m := table.Length, p.table.Length;
      var size := if n < m then n else m;
      for i := 0 to size
        invariant forall k :: 0 <= k < i ==> table[k] == p.table[k]
      {
        table[i] := p.table[i];
      }
      if n > m {
        var sign := p.IsSign();
        var fill: Limb := if !unsigned && sign then (B - 1) as Limb else 0;
        for i := m to n
          invariant forall k :: 0 <= k < m ==> table[k] == p.table[k]
          invariant forall k :: m <= k < i ==> table[k] == fill
        {
          table[i] := fill;
        }
        assert table[..m] == p.table[..];
        Extended(table[..], m, unsigned);
        return false;
      }
      assert p.table[..n] == table[..];
      var sign := IsSign();
      var test: Limb := if sign then (B - 1) as Limb else 0;
      Narrowed(p.table[..], n);
      if unsigned && sign { return true; }
      for i := n to m
        invariant Uniform(p.table[n..i], test as int) && p.table[..n] == table[..]
      {
        assert p.table[..][n..][i - n] == p.table[i];
        if p.table[i] != test { return true; }
      }
      assert p.table[n..m] == p.table[..][n..];
      return false;
    }
  }

  // ---------- lemmas ----------

  lemma MinLimbs(s: seq<Limb>)
    requires |s| > 0 && s[|s| - 1] as int == TOP && forall i :: 0 <= i < |s| - 1 ==> s[i] == 0
    ensures Signed(s) == -H(|s|)
  {
    TopLimb(s);
    AllZero(s[..|s| - 1]);
  }

  lemma SameValue(a: seq<Limb>, b: seq<Limb>)
    requires |a| == |b| > 0 && Signed(a) == Signed(b)
    ensures a == b
  {
    hide Unsigned;
    InRange(a);
    InRange(b);
    SameLimbs(a, b);
  }

  lemma ZeroValue(s: seq<Limb>)
    requires |s| > 0 && forall i :: 0 <= i < |s| ==> s[i] == 0
    ensures Unsigned(s) == 0 == Signed(s)
  {
    AllZero(s);
  }

  lemma Parts(u: int, v: int, q: int, r: int)
    requires v > 0 && q >= 0 && r >= 0 && u == v * q + r
    ensures q <= u && r <= u
  {
    assert v * q == q + (v - 1) * q && (v - 1) * q >= 0;
  }

  /** With the limbs holding the absolute quotient, only one case does not fit its sign. */
  lemma QuotientFits(v: int, w: int, x: int, y: int, q: int, r: int, h: int)
    requires -h <= v < h && -h <= w < h && x == (if v < 0 then -v else v) && y == (if w < 0 then -w else w)
    requires y > 0 && x == y * q + r && 0 <= r < y && 0 <= q
    ensures IsQuotient(v, w, if (v < 0) != (w < 0) then -q else q, if v < 0 then -r else r)
    ensures q <= h && r < h && (q == h ==> v == -h && y == 1 && r == 0)
    ensures v == -h && w == -1 ==> q == h && r == 0
  {
    hide IsQuotient;
    QuotientOfAbsolutes(v, w, x, y, q, r);
    Parts(x, y, q, r);
    if y > 1 && q > 0 { Halved(x, y, q, r); }
  }

  lemma Halved(x: int, y: int, q: int, r: int)
    requires y > 1 && q > 0 && r >= 0 && x == y * q + r
    ensures q < x
  {
    assert y * q == 2 * q + (y - 2) * q && (y - 2) * q >= 0;
  }

  lemma NotQuotient(h: int)
    requires h > 0
    ensures !IsQuotient(-h, -1, -h, 0)
  {
  }

  // ---------- order and size ----------

  function SignedLimb(x: Limb): int { if x as int >= TOP then x as int - B else x as int }

  lemma SignedTop(s: seq<Limb>)
    requires |s| > 0
    ensures var n := |s| - 1; Signed(s) == Unsigned(s[..n]) + SignedLimb(s[n]) * P(n) && Unsigned(s[..n]) < P(n)
  {
    hide Unsigned, H;
    var n := |s| - 1;
    TopLimb(s);
    TopBitIsSign(s);
    InRange(s);
    Distribute(s[n] as int, -B, P(n));
  }

  lemma TopLimbDecides(a: seq<Limb>, b: seq<Limb>)
    requires |a| == |b| > 0 && SignedLimb(a[|a| - 1]) < SignedLimb(b[|b| - 1])
    ensures Signed(a) < Signed(b)
  {
    hide Unsigned, Signed, SignedLimb;
    SignedTop(a);
    SignedTop(b);
    var n := |a| - 1;
    Farther(SignedLimb(a[n]), SignedLimb(b[n]), P(n));
  }

  lemma Farther(x: int, y: int, p: nat)
    requires x < y
    ensures x * p + p <= y * p
  {
    Distribute(x, y - x, p);
    Larger(1, y - x, p);
  }

  lemma LimbDecides(a: seq<Limb>, b: seq<Limb>, i: nat)
    requires |a| == |b| && i + 1 < |a| && a[i + 1..] == b[i + 1..] && a[i] < b[i]
    ensures Signed(a) < Signed(b)
  {
    hide Unsigned, TopBit;
    HighestDecides(a, b, i);
    SameTop(a, b, i);
    TopBitIsSign(a);
    TopBitIsSign(b);
    InRange(a);
    InRange(b);
  }

  lemma SameTop(a: seq<Limb>, b: seq<Limb>, i: nat)
    requires |a| == |b| && i + 1 < |a| && a[i + 1..] == b[i + 1..]
    ensures TopBit(a) == TopBit(b)
  {
    assert a[|a| - 1] == a[i + 1..][|a| - i - 2] && b[|b| - 1] == b[i + 1..][|b| - i - 2];
  }

  /** Filling up with the sign, or with zero, keeps the value. */
  lemma Extended(s: seq<Limb>, m: nat, unsigned: bool)
    requires 0 < m < |s|
    requires Uniform(s[m..], if !unsigned && Signed(s[..m]) < 0 then B - 1 else 0)
    ensures Signed(s) == if unsigned then Unsigned(s[..m]) else Signed(s[..m])
  {
    hide Unsigned, TopBit, SignedLimb;
    var low, high := s[..m], s[m..];
    Split(s, m);
    InRange(low);
    PowerOfSum(m, |s| - m);
    HalfOfSum(m, |s| - m);
    if !unsigned && Signed(low) < 0 { AllOnes(high); } else { AllZero(high); }
    if !unsigned && Signed(low) < 0 {
      assert P(m) * (P(|s| - m) - 1) == P(m) * P(|s| - m) - P(m);
    }
  }

  lemma HalfOfSum(m: nat, k: nat)
    requires m > 0 && k > 0
    ensures H(m + k) == P(m) * H(k) && H(m + k) >= P(m)
  {
    PowerOfSum(m, k - 1);
    Scale(P(m), P(k - 1));
    Larger(1, P(k - 1), P(m));
  }

  lemma Scale(a: int, b: int)
    ensures a * (TOP * b) == TOP * (a * b)
  {
  }

  /** Dropping limbs keeps the value exactly when they repeat the sign, or, without a sign,
      when they are zero and no sign appears. */
  lemma Narrowed(p: seq<Limb>, n: nat)
    requires 0 < n <= |p|
    ensures Signed(p[..n]) == Signed(p) <==> Uniform(p[n..], if Signed(p[..n]) < 0 then B - 1 else 0)
    ensures Signed(p[..n]) == Unsigned(p) <==> Signed(p[..n]) >= 0 && Uniform(p[n..], 0)
  {
    hide Unsigned, P, H, Uniform, Signed, Wrapped;
    var low, high := p[..n], p[n..];
    Split(p, n);
    InRange(low);
    InRange(high);
    AllZero(high);
    AllOnes(high);
    SignedIsWrapped(low);
    SignedIsWrapped(p);
    if n == |p| {
      assert low == p && high == [];
      NoLimbs();
      WrappedSign(Unsigned(low), H(n));
      assert Uniform(high, if Signed(low) < 0 then B - 1 else 0) by { NothingIsUniform(); }
      assert Uniform(high, 0) by { NothingIsUniform(); }
    } else {
      HalfOfSum(n, |p| - n);
      WrappedSign(Unsigned(low), H(n));
      NarrowedNumbers(Unsigned(low), Unsigned(high), P(n), H(n), H(|p| - n));
    }
  }

  lemma SignedIsWrapped(s: seq<Limb>)
    requires |s| > 0
    ensures Signed(s) == Wrapped(Unsigned(s), H(|s|))
  {
  }

  lemma NothingIsUniform()
    ensures Uniform([], 0) && Uniform([], B - 1)
  {
  }

  lemma WrappedSign(u: int, h: int)
    requires 0 <= u < 2 * h
    ensures Wrapped(u, h) < 0 <==> u >= h
    ensures Wrapped(u, h) == u <==> u < h
  {
  }

  lemma NarrowedNumbers(low: int, high: int, p: int, h: int, k: int)
    requires 0 < p == 2 * h && 0 <= low < p && 0 <= high < 2 * k && 0 < k
    ensures Wrapped(low + p * high, p * k) == low + p * Wrapped(high, k)
    ensures low + p * Wrapped(high, k) == Wrapped(low, h) <==> Wrapped(high, k) == if low < h then 0 else -1
    ensures low + p * high == Wrapped(low, h) <==> low < h && high == 0
    ensures (Wrapped(high, k) == 0 <==> high == 0) && (Wrapped(high, k) == -1 <==> high == 2 * k - 1)
  {
    var w := Wrapped(high, k);
    if high < k { Farther(high, k, p); } else { Farther(k, high + 1, p); }
    assert p * k == k * p && p * high == high * p && p * (high - 2 * k) == p * high - 2 * (p * k);
    assert (high + 1) * p == high * p + p;
    if w > 0 { Farther(0, w, p); }
    if w < -1 { Farther(w, -1, p); }
    if high > 0 { Farther(0, high, p); }
    assert p * w == w * p;
  }
}
