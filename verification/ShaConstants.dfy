/** Where the constants of the hashes come from: sections 4.2.1, 4.2.2 and 5.3.3 of FIPS 180-4
    take them from the roots of the first primes. */
module ShaConstants {
  import opened Words
  import Sha1Block
  import Sha256
  import WordArithmetic

  // ---------- the first 64 primes ----------

  const PRIMES: seq<seq<nat>> := [
    [2, 3, 5, 7, 11, 13, 17, 19],
    [23, 29, 31, 37, 41, 43, 47, 53],
    [59, 61, 67, 71, 73, 79, 83, 89],
    [97, 101, 103, 107, 109, 113, 127, 131],
    [137, 139, 149, 151, 157, 163, 167, 173],
    [179, 181, 191, 193, 197, 199, 211, 223],
    [227, 229, 233, 239, 241, 251, 257, 263],
    [269, 271, 277, 281, 283, 293, 307, 311]]

  function Prime(t: nat): nat
    requires t < 64
  {
    PRIMES[t / 8][t % 8]
  }

  ghost predicate IsPrime(n: nat) { n >= 2 && forall d :: 2 <= d < n ==> n % d != 0 }

  predicate HasSmallFactor(n: nat) {
    n % 2 == 0 || n % 3 == 0 || n % 5 == 0 || n % 7 == 0 || n % 11 == 0 || n % 13 == 0 || n % 17 == 0
  }

  predicate LooksPrime(n: nat) { n in {2, 3, 5, 7, 11, 13, 17} || (n > 17 && !HasSmallFactor(n)) }

  /** Below the square of 19 the primes up to 17 decide. */
  lemma LooksIsPrime(n: nat)
    requires 2 <= n < 361
    ensures LooksPrime(n) <==> IsPrime(n)
  {
    if n > 17 && !HasSmallFactor(n) {
      forall d | 2 <= d < n ensures n % d != 0 { NoFactor(n, d); }
    } else if n <= 17 {
      SmallOnes(n);
    }
  }

  lemma SmallOnes(n: nat)
    requires 2 <= n <= 17
    ensures LooksPrime(n) <==> IsPrime(n)
  {
    if n in {4, 6, 8, 10, 12, 14, 16} {
      assert n % 2 == 0;
    } else if n in {9, 15} {
      assert n % 3 == 0;
    }
  }

  lemma NoFactor(n: nat, d: nat)
    requires 17 < n < 361 && !HasSmallFactor(n) && 2 <= d < n
    ensures n % d != 0
  {
    if n % d == 0 {
      var e := n / d;
      assert n == d * e;
      if d <= 18 {
        SmallFactor(n, d, e);
      } else {
        Cofactor(n, d, e);
        SmallFactor(n, e, d);
      }
    }
  }

  lemma Cofactor(n: nat, d: nat, e: nat)
    requires n == d * e && 19 <= d < n < 361
    ensures 2 <= e <= 18
  {
    assert e >= 19 ==> d * e >= 19 * 19;
    assert e <= 1 ==> d * e <= d;
  }

  lemma SmallFactor(n: nat, d: nat, e: nat)
    requires 2 <= d <= 18 && n == d * e
    ensures HasSmallFactor(n)
  {
    if d % 2 == 0 {
      MultipleOf(n, 2, d / 2, e);
    } else if d % 3 == 0 {
      MultipleOf(n, 3, d / 3, e);
    } else {
      MultipleOf(n, d, 1, e);
    }
  }

  lemma MultipleOf(n: nat, q: nat, m: nat, e: nat)
    requires q > 0 && n == q * m * e
    ensures n % q == 0
  {
    assert n == m * e * q;
    WordArithmetic.ExactQuotient(m * e, q);
  }

  lemma Row0(n: nat)
    requires 2 <= n < 23
    ensures LooksPrime(n) <==> n in PRIMES[0]
  {
    assert n % 2 == 0 || n in PRIMES[0] || n in {9, 15, 21};
  }

  lemma Row1(n: nat)
    requires 23 <= n < 59
    ensures LooksPrime(n) <==> n in PRIMES[1]
  {
    assert n % 2 == 0 || n in PRIMES[1] || n in {25, 27, 33, 35, 39, 45, 49, 51, 55, 57};
  }

  lemma Row2(n: nat)
    requires 59 <= n < 97
    ensures LooksPrime(n) <==> n in PRIMES[2]
  {
    assert n % 2 == 0 || n in PRIMES[2] || n in {63, 65, 69, 75, 77, 81, 85, 87, 91, 93, 95};
  }

  lemma Row3(n: nat)
    requires 97 <= n < 137
    ensures LooksPrime(n) <==> n in PRIMES[3]
  {
    assert n % 2 == 0 || n in PRIMES[3] || n in {99, 105, 111, 115, 117, 119, 121, 123, 125, 129, 133, 135};
  }

  lemma Row4(n: nat)
    requires 137 <= n < 179
    ensures LooksPrime(n) <==> n in PRIMES[4]
  {
    assert n % 2 == 0 || n in PRIMES[4] || n in {141, 143, 145, 147, 153, 155, 159, 161, 165, 169, 171, 175, 177};
  }

  lemma Row5(n: nat)
    requires 179 <= n < 227
    ensures LooksPrime(n) <==> n in PRIMES[5]
  {
    assert n % 2 == 0 || n in PRIMES[5] || n in {183, 185, 187, 189, 195, 201, 203, 205, 207, 209, 213, 215, 217,
      219, 221, 225};
  }

  lemma Row6(n: nat)
    requires 227 <= n < 269
    ensures LooksPrime(n) <==> n in PRIMES[6]
  {
    assert n % 2 == 0 || n in PRIMES[6] || n in {231, 235, 237, 243, 245, 247, 249, 253, 255, 259, 261, 265, 267};
  }

  lemma Row7(n: nat)
    requires 269 <= n < 312
    ensures LooksPrime(n) <==> n in PRIMES[7]
  {
    assert n % 2 == 0 || n in PRIMES[7] || n in {273, 275, 279, 285, 287, 289, 291, 295, 297, 299, 301, 303, 305,
      309};
  }

  /** The table holds exactly the primes up to 311, in ascending order: the first 64 primes. */
  lemma TableIsPrimes(n: nat)
    requires n <= 311
    ensures IsPrime(n) <==> exists i :: 0 <= i < 8 && n in PRIMES[i]
    ensures forall t, u :: 0 <= t < u < 64 ==> Prime(t) < Prime(u) <= 311
  {
    hide LooksPrime, IsPrime, Prime;
    forall t, u | 0 <= t < u < 64 ensures Prime(t) < Prime(u) <= 311 { Ascending(t, u); }
    if n >= 2 {
      LooksIsPrime(n);
      InRow(n);
    } else {
      TooSmall(n);
    }
  }

  lemma TooSmall(n: nat)
    requires n < 2
    ensures !IsPrime(n) && forall i :: 0 <= i < 8 ==> n !in PRIMES[i]
  {
  }

  lemma InRow(n: nat)
    requires 2 <= n <= 311
    ensures LooksPrime(n) <==> exists i :: 0 <= i < 8 && n in PRIMES[i]
  {
    hide LooksPrime;
    var rows := PRIMES;
    if n < 23 { Row0(n); assert rows[0] == PRIMES[0]; }
    else if n < 59 { Row1(n); assert rows[1] == PRIMES[1]; }
    else if n < 97 { Row2(n); assert rows[2] == PRIMES[2]; }
    else if n < 137 { Row3(n); assert rows[3] == PRIMES[3]; }
    else if n < 179 { Row4(n); assert rows[4] == PRIMES[4]; }
    else if n < 227 { Row5(n); assert rows[5] == PRIMES[5]; }
    else if n < 269 { Row6(n); assert rows[6] == PRIMES[6]; }
    else { Row7(n); assert rows[7] == PRIMES[7]; }
  }

  /** Where a row starts; the last one ends with 311. */
  function First(i: nat): nat
    requires i <= 8
  {
    if i < 8 then PRIMES[i][0] else 312
  }

  lemma FirstsAscend(i: nat, m: nat)
    requires i <= m <= 8
    ensures First(i) <= First(m)
  {
  }

  lemma RowAscends(i: nat, j: nat)
    requires i < 8 && j < 8
    ensures First(i) <= PRIMES[i][j] < First(i + 1)
    ensures forall k :: j < k < 8 ==> PRIMES[i][j] < PRIMES[i][k]
  {
  }

  lemma Ascending(t: nat, u: nat)
    requires t < u < 64
    ensures Prime(t) < Prime(u) <= 311
  {
    RowAscends(t / 8, t % 8);
    RowAscends(u / 8, u % 8);
    if t / 8 < u / 8 { FirstsAscend(t / 8 + 1, u / 8); }
    FirstsAscend(u / 8 + 1, 8);
  }

  // ---------- roots ----------

  const TWO32 := 0x1_0000_0000

  function Square(x: int): int { x * x }
  function Cube(x: int): int { x * x * x }

  /** `k` is the first 32 bits of the fraction of the cube root of `p`, whose whole part is `n`:
      `n + k / 2^32` is the root rounded down to a multiple of `2^-32`. */
  predicate CubeRoot(n: int, k: Word, p: int) {
    && Cube(n * TWO32 + k as int) <= p * Cube(TWO32)
    && p * Cube(TWO32) < Cube(n * TWO32 + k as int + 1)
  }

  predicate SquareRoot(n: int, k: Word, p: int) {
    && Square(n * TWO32 + k as int) <= p * Square(TWO32)
    && p * Square(TWO32) < Square(n * TWO32 + k as int + 1)
  }

  ghost predicate FractionOfCubeRoot(k: Word, p: int) { exists n: nat :: CubeRoot(n, k, p) }
  ghost predicate FractionOfSquareRoot(k: Word, p: int) { exists n: nat :: SquareRoot(n, k, p) }

  lemma Third(n: nat, k: Word, p: int)
    requires CubeRoot(n, k, p)
    ensures FractionOfCubeRoot(k, p)
  {
  }

  lemma Half(n: nat, k: Word, p: int)
    requires SquareRoot(n, k, p)
    ensures FractionOfSquareRoot(k, p)
  {
  }

  lemma CubeRoots0(j: nat)
    requires j < 8
    ensures FractionOfCubeRoot(Sha256.CONSTANTS[0][j], PRIMES[0][j])
  {
    hide FractionOfCubeRoot;
    match j {
      case 0 => Third(1, 0x428a2f98, 2);
      case 1 => Third(1, 0x71374491, 3);
      case 2 => Third(1, 0xb5c0fbcf, 5);
      case 3 => Third(1, 0xe9b5dba5, 7);
      case 4 => Third(2, 0x3956c25b, 11);
      case 5 => Third(2, 0x59f111f1, 13);
      case 6 => Third(2, 0x923f82a4, 17);
      case _ => Third(2, 0xab1c5ed5, 19);
    }
  }

  lemma CubeRoots1(j: nat)
    requires j < 8
    ensures FractionOfCubeRoot(Sha256.CONSTANTS[1][j], PRIMES[1][j])
  {
    hide FractionOfCubeRoot;
    match j {
      case 0 => Third(2, 0xd807aa98, 23);
      case 1 => Third(3, 0x12835b01, 29);
      case 2 => Third(3, 0x243185be, 31);
      case 3 => Third(3, 0x550c7dc3, 37);
      case 4 => Third(3, 0x72be5d74, 41);
      case 5 => Third(3, 0x80deb1fe, 43);
      case 6 => Third(3, 0x9bdc06a7, 47);
      case _ => Third(3, 0xc19bf174, 53);
    }
  }

  lemma CubeRoots2(j: nat)
    requires j < 8
    ensures FractionOfCubeRoot(Sha256.CONSTANTS[2][j], PRIMES[2][j])
  {
    hide FractionOfCubeRoot;
    match j {
      case 0 => Third(3, 0xe49b69c1, 59);
      case 1 => Third(3, 0xefbe4786, 61);
      case 2 => Third(4, 0x0fc19dc6, 67);
      case 3 => Third(4, 0x240ca1cc, 71);
      case 4 => Third(4, 0x2de92c6f, 73);
      case 5 => Third(4, 0x4a7484aa, 79);
      case 6 => Third(4, 0x5cb0a9dc, 83);
      case _ => Third(4, 0x76f988da, 89);
    }
  }

  lemma CubeRoots3(j: nat)
    requires j < 8
    ensures FractionOfCubeRoot(Sha256.CONSTANTS[3][j], PRIMES[3][j])
  {
    hide FractionOfCubeRoot;
    match j {
      case 0 => Third(4, 0x983e5152, 97);
      case 1 => Third(4, 0xa831c66d, 101);
      case 2 => Third(4, 0xb00327c8, 103);
      case 3 => Third(4, 0xbf597fc7, 107);
      case 4 => Third(4, 0xc6e00bf3, 109);
      case 5 => Third(4, 0xd5a79147, 113);
      case 6 => Third(5, 0x06ca6351, 127);
      case _ => Third(5, 0x14292967, 131);
    }
  }

  lemma CubeRoots4(j: nat)
    requires j < 8
    ensures FractionOfCubeRoot(Sha256.CONSTANTS[4][j], PRIMES[4][j])
  {
    hide FractionOfCubeRoot;
    match j {
      case 0 => Third(5, 0x27b70a85, 137);
      case 1 => Third(5, 0x2e1b2138, 139);
      case 2 => Third(5, 0x4d2c6dfc, 149);
      case 3 => Third(5, 0x53380d13, 151);
      case 4 => Third(5, 0x650a7354, 157);
      case 5 => Third(5, 0x766a0abb, 163);
      case 6 => Third(5, 0x81c2c92e, 167);
      case _ => Third(5, 0x92722c85, 173);
    }
  }

  lemma CubeRoots5(j: nat)
    requires j < 8
    ensures FractionOfCubeRoot(Sha256.CONSTANTS[5][j], PRIMES[5][j])
  {
    hide FractionOfCubeRoot;
    match j {
      case 0 => Third(5, 0xa2bfe8a1, 179);
      case 1 => Third(5, 0xa81a664b, 181);
      case 2 => Third(5, 0xc24b8b70, 191);
      case 3 => Third(5, 0xc76c51a3, 193);
      case 4 => Third(5, 0xd192e819, 197);
      case 5 => Third(5, 0xd6990624, 199);
      case 6 => Third(5, 0xf40e3585, 211);
      case _ => Third(6, 0x106aa070, 223);
    }
  }

  lemma CubeRoots6(j: nat)
    requires j < 8
    ensures FractionOfCubeRoot(Sha256.CONSTANTS[6][j], PRIMES[6][j])
  {
    hide FractionOfCubeRoot;
    match j {
      case 0 => Third(6, 0x19a4c116, 227);
      case 1 => Third(6, 0x1e376c08, 229);
      case 2 => Third(6, 0x2748774c, 233);
      case 3 => Third(6, 0x34b0bcb5, 239);
      case 4 => Third(6, 0x391c0cb3, 241);
      case 5 => Third(6, 0x4ed8aa4a, 251);
      case 6 => Third(6, 0x5b9cca4f, 257);
      case _ => Third(6, 0x682e6ff3, 263);
    }
  }

  lemma CubeRoots7(j: nat)
    requires j < 8
    ensures FractionOfCubeRoot(Sha256.CONSTANTS[7][j], PRIMES[7][j])
  {
    hide FractionOfCubeRoot;
    match j {
      case 0 => Third(6, 0x748f82ee, 269);
      case 1 => Third(6, 0x78a5636f, 271);
      case 2 => Third(6, 0x84c87814, 277);
      case 3 => Third(6, 0x8cc70208, 281);
      case 4 => Third(6, 0x90befffa, 283);
      case 5 => Third(6, 0xa4506ceb, 293);
      case 6 => Third(6, 0xbef9a3f7, 307);
      case _ => Third(6, 0xc67178f2, 311);
    }
  }

  /** Section 4.2.2: the constants of SHA-256 are the fractions of the cube roots of the first 64 primes. */
  lemma RoundConstants(t: nat)
    requires t < 64
    ensures FractionOfCubeRoot(Sha256.K(t), Prime(t))
  {
    hide FractionOfCubeRoot;
    var j := t % 8;
    match t / 8 {
      case 0 => CubeRoots0(j);
      case 1 => CubeRoots1(j);
      case 2 => CubeRoots2(j);
      case 3 => CubeRoots3(j);
      case 4 => CubeRoots4(j);
      case 5 => CubeRoots5(j);
      case 6 => CubeRoots6(j);
      case _ => CubeRoots7(j);
    }
  }

  /** Section 5.3.3: the initial value of SHA-256 is the fractions of the square roots of the first
      eight primes. */
  lemma InitialValue()
    ensures var v := Sha256.INITIAL;
      && FractionOfSquareRoot(v.a, Prime(0)) && FractionOfSquareRoot(v.b, Prime(1))
      && FractionOfSquareRoot(v.c, Prime(2)) && FractionOfSquareRoot(v.d, Prime(3))
      && FractionOfSquareRoot(v.e, Prime(4)) && FractionOfSquareRoot(v.f, Prime(5))
      && FractionOfSquareRoot(v.g, Prime(6)) && FractionOfSquareRoot(v.h, Prime(7))
  {
    hide FractionOfSquareRoot;
    Half(1, 0x6a09e667, 2);
    Half(1, 0xbb67ae85, 3);
    Half(2, 0x3c6ef372, 5);
    Half(2, 0xa54ff53a, 7);
    Half(3, 0x510e527f, 11);
    Half(3, 0x9b05688c, 13);
    Half(4, 0x1f83d9ab, 17);
    Half(4, 0x5be0cd19, 19);
  }

  /** Section 4.2.1: the constants of SHA-1 are `2^30` times the square roots of 2, 3, 5 and 10,
      rounded down. */
  lemma Sha1Constants(t: nat)
    requires t < 80
    ensures var k, p := Sha1Block.K(t) as int, [2, 3, 5, 10][t / 20];
      Square(k) <= p * Square(0x4000_0000) && p * Square(0x4000_0000) < Square(k + 1)
  {
  }
}
