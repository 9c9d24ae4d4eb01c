/** The constants of FIPS 180-4 by their own law: bits of the roots of the first primes. */
module Sha256Constants {
  import opened Words
  import opened Sha256

  // ----- the primes in order -----

  ghost predicate Divides(d: nat, n: nat)
    requires d > 0
  {
    n % d == 0
  }

  ghost predicate Prime(n: nat) {
    n >= 2 && forall d :: 2 <= d < n ==> !Divides(d, n)
  }

  ghost function PrimesBelow(n: nat): nat {
    if n == 0 then 0 else PrimesBelow(n - 1) + if Prime(n - 1) then 1 else 0
  }

  /** p is the prime with exactly t primes below it. */
  ghost predicate PrimeNumber(t: nat, p: nat) {
    Prime(p) && PrimesBelow(p) == t
  }

  lemma {:induction false} PrimesBelowGrows(p: nat, q: nat)
    requires p <= q
    ensures PrimesBelow(p) <= PrimesBelow(q)
    ensures p < q && Prime(p) ==> PrimesBelow(p) < PrimesBelow(q)
    decreases q
  {
    if p < q {
      PrimesBelowGrows(p, q - 1);
    }
  }

  /** There is one such prime only. */
  lemma PrimeNumberUnique(t: nat, p: nat, q: nat)
    requires PrimeNumber(t, p) && PrimeNumber(t, q)
    ensures p == q
  {
    if p < q {
      PrimesBelowGrows(p, q);
    } else if q < p {
      PrimesBelowGrows(q, p);
    }
  }

  // ----- a sieve by the primes below 19 -----

  predicate Sieved(n: nat) {
    n % 2 == 0 || n % 3 == 0 || n % 5 == 0 || n % 7 == 0 || n % 11 == 0 || n % 13 == 0 || n % 17 == 0
  }

  predicate Sieving(n: nat) {
    n in {2, 3, 5, 7, 11, 13, 17}
  }

  predicate AllSieved(c: nat, q: nat)
    decreases q - c
  {
    if c >= q then true else Sieved(c) && !Sieving(c) && AllSieved(c + 1, q)
  }

  /** The next number after p that the sieve lets through, or that it is made of, is q. */
  predicate Next(p: nat, q: nat) {
    p < q < 19 * 19 && (Sieving(q) || (q > 18 && !Sieved(q))) && AllSieved(p + 1, q)
  }

  lemma Regroup(a: nat, b: nat, c: nat)
    ensures a * b * c == a * (b * c)
  {
  }

  lemma SmallFactor(n: nat, s: nat, q: nat)
    requires n == s * q && 2 <= s < 19
    ensures Sieved(n)
  {
    var f, r := SievingFactor(s);
    hide Sieved, Sieving;
    Regroup(f, r, q);
    TimesIsMultiple(f, r * q);
    MultipleIsSieved(n, f);
  }

  lemma SievingFactor(s: nat) returns (f: nat, r: nat)
    requires 2 <= s < 19
    ensures s == f * r && Sieving(f)
  {
    if s % 2 == 0 {
      f, r := 2, s / 2;
    } else if s % 3 == 0 {
      f, r := 3, s / 3;
    } else {
      f, r := s, 1;
    }
  }

  lemma MultipleIsSieved(n: nat, f: nat)
    requires Sieving(f) && n % f == 0
    ensures Sieved(n)
  {
  }

  lemma TimesIsMultiple(s: nat, q: nat)
    requires s > 0
    ensures (s * q) % s == 0
  {
    RemainderUnique(s * q, s, q, 0);
  }

  /** Below the square of 19, a number with any factor has one below 19. */
  lemma AnyFactor(n: nat, d: nat)
    requires 2 <= d < n < 19 * 19 && Divides(d, n)
    ensures Sieved(n)
  {
    hide Sieved;
    var q := n / d;
    assert n == d * q;
    if d < 19 {
      SmallFactor(n, d, q);
    } else {
      if q >= 19 {
        Products(19, 19, d, q);
      }
      assert q != 0;
      assert q != 1;
      SmallFactor(n, q, d);
    }
  }

  lemma Products(a: nat, b: nat, c: nat, d: nat)
    requires a <= c && b <= d
    ensures a * b <= c * d
  {
    Larger(a, b, d);
    Larger(d, a, c);
  }

  lemma Larger(a: nat, b: nat, c: nat)
    requires b <= c
    ensures a * b <= a * c
  {
    assert a * c == a * b + a * (c - b);
  }

  lemma LetThroughIsPrime(n: nat)
    requires n < 19 * 19 && (Sieving(n) || (n > 18 && !Sieved(n)))
    ensures Prime(n)
  {
    forall d | 2 <= d < n
      ensures !Divides(d, n)
    {
      if n > 18 && Divides(d, n) {
        AnyFactor(n, d);
      }
    }
  }

  lemma SievedIsComposite(n: nat)
    requires Sieved(n) && !Sieving(n)
    ensures !Prime(n)
  {
    assert n < 2 || Divides(2, n) || Divides(3, n) || Divides(5, n) || Divides(7, n) || Divides(11, n)
           || Divides(13, n) || Divides(17, n);
  }

  lemma {:induction false} NoneSieved(c: nat, q: nat)
    requires c <= q && AllSieved(c, q)
    ensures PrimesBelow(q) == PrimesBelow(c)
    decreases q - c
  {
    if c < q {
      SievedIsComposite(c);
      NoneSieved(c + 1, q);
    }
  }

  lemma NextPrime(t: nat, p: nat, q: nat)
    requires PrimeNumber(t, p) && Next(p, q)
    ensures PrimeNumber(t + 1, q)
  {
    LetThroughIsPrime(q);
    NoneSieved(p + 1, q);
  }

  ghost predicate PrimeRow(t: nat, p0: nat, p1: nat, p2: nat, p3: nat, p4: nat, p5: nat, p6: nat, p7: nat) {
    && PrimeNumber(t, p0) && PrimeNumber(t + 1, p1) && PrimeNumber(t + 2, p2) && PrimeNumber(t + 3, p3)
    && PrimeNumber(t + 4, p4) && PrimeNumber(t + 5, p5) && PrimeNumber(t + 6, p6) && PrimeNumber(t + 7, p7)
  }

  predicate NextRow(p: nat, q0: nat, q1: nat, q2: nat, q3: nat, q4: nat, q5: nat, q6: nat, q7: nat) {
    && Next(p, q0) && Next(q0, q1) && Next(q1, q2) && Next(q2, q3)
    && Next(q3, q4) && Next(q4, q5) && Next(q5, q6) && Next(q6, q7)
  }

  lemma NextPrimes(t: nat, p: nat, q0: nat, q1: nat, q2: nat, q3: nat, q4: nat, q5: nat, q6: nat, q7: nat)
    requires PrimeNumber(t, p) && NextRow(p, q0, q1, q2, q3, q4, q5, q6, q7)
    ensures PrimeRow(t + 1, q0, q1, q2, q3, q4, q5, q6, q7)
  {
    hide Next, PrimeNumber;
    NextPrime(t, p, q0);
    NextPrime(t + 1, q0, q1);
    NextPrime(t + 2, q1, q2);
    NextPrime(t + 3, q2, q3);
    NextPrime(t + 4, q3, q4);
    NextPrime(t + 5, q4, q5);
    NextPrime(t + 6, q5, q6);
    NextPrime(t + 7, q6, q7);
  }

  lemma Primes0()
    ensures PrimeRow(0, 2, 3, 5, 7, 11, 13, 17, 19)
  {
    assert PrimesBelow(1) == 0;
    assert PrimesBelow(2) == 0;
    LetThroughIsPrime(2);
    hide PrimesBelow, Prime;
    assert NextRow(2, 3, 5, 7, 11, 13, 17, 19, 23);
    NextPrimes(0, 2, 3, 5, 7, 11, 13, 17, 19, 23);
  }

  lemma Primes8()
    ensures PrimeRow(8, 23, 29, 31, 37, 41, 43, 47, 53)
  {
    Primes0();
    hide PrimeNumber;
    assert NextRow(19, 23, 29, 31, 37, 41, 43, 47, 53);
    NextPrimes(7, 19, 23, 29, 31, 37, 41, 43, 47, 53);
  }

  lemma Primes16()
    ensures PrimeRow(16, 59, 61, 67, 71, 73, 79, 83, 89)
  {
    Primes8();
    hide PrimeNumber;
    assert NextRow(53, 59, 61, 67, 71, 73, 79, 83, 89);
    NextPrimes(15, 53, 59, 61, 67, 71, 73, 79, 83, 89);
  }

  lemma Primes24()
    ensures PrimeRow(24, 97, 101, 103, 107, 109, 113, 127, 131)
  {
    Primes16();
    hide PrimeNumber;
    assert Next(113, 127);
    assert NextRow(89, 97, 101, 103, 107, 109, 113, 127, 131);
    NextPrimes(23, 89, 97, 101, 103, 107, 109, 113, 127, 131);
  }

  lemma Primes32()
    ensures PrimeRow(32, 137, 139, 149, 151, 157, 163, 167, 173)
  {
    Primes24();
    hide PrimeNumber;
    assert NextRow(131, 137, 139, 149, 151, 157, 163, 167, 173);
    NextPrimes(31, 131, 137, 139, 149, 151, 157, 163, 167, 173);
  }

  lemma Primes40()
    ensures PrimeRow(40, 179, 181, 191, 193, 197, 199, 211, 223)
  {
    Primes32();
    hide PrimeNumber;
    assert NextRow(173, 179, 181, 191, 193, 197, 199, 211, 223);
    NextPrimes(39, 173, 179, 181, 191, 193, 197, 199, 211, 223);
  }

  lemma Primes48()
    ensures PrimeRow(48, 227, 229, 233, 239, 241, 251, 257, 263)
  {
    Primes40();
    hide PrimeNumber;
    assert NextRow(223, 227, 229, 233, 239, 241, 251, 257, 263);
    NextPrimes(47, 223, 227, 229, 233, 239, 241, 251, 257, 263);
  }

  lemma Primes56()
    ensures PrimeRow(56, 269, 271, 277, 281, 283, 293, 307, 311)
  {
    Primes48();
    hide PrimeNumber;
    assert Next(293, 307);
    assert NextRow(263, 269, 271, 277, 281, 283, 293, 307, 311);
    NextPrimes(55, 263, 269, 271, 277, 281, 283, 293, 307, 311);
  }

  // ----- section 4.2.2: the round constants are bits of cube roots -----

  /** n is the cube root of p, in units of 2^-32, rounded down. */
  ghost predicate IsCubeRoot(n: nat, p: nat) {
    n * n * n <= p * 0x1_0000_0000_0000_0000_0000_0000 < (n + 1) * (n + 1) * (n + 1)
  }

  /** The constant is the first 32 bits behind the point of the cube root. */
  ghost predicate CubeRootBits(p: nat, k: bv32) {
    exists n: nat :: IsCubeRoot(n, p) && n % TWO_TO_THE_32 == k as nat
  }

  ghost predicate FromCubeRoot(t: nat)
    requires t < 64
  {
    exists p :: PrimeNumber(t, p) && CubeRootBits(p, Constant(t))
  }

  predicate Keys(t: nat, k0: bv32, k1: bv32, k2: bv32, k3: bv32, k4: bv32, k5: bv32, k6: bv32, k7: bv32)
    requires t <= 56
  {
    && Constant(t) == k0 && Constant(t + 1) == k1 && Constant(t + 2) == k2 && Constant(t + 3) == k3
    && Constant(t + 4) == k4 && Constant(t + 5) == k5 && Constant(t + 6) == k6 && Constant(t + 7) == k7
  }

  ghost predicate FromCubeRoots(t: nat)
    requires t <= 56
  {
    && FromCubeRoot(t) && FromCubeRoot(t + 1) && FromCubeRoot(t + 2) && FromCubeRoot(t + 3)
    && FromCubeRoot(t + 4) && FromCubeRoot(t + 5) && FromCubeRoot(t + 6) && FromCubeRoot(t + 7)
  }

  lemma CubeRoot(t: nat, p: nat, n: nat)
    requires t < 64 && PrimeNumber(t, p)
    requires IsCubeRoot(n, p) && n % TWO_TO_THE_32 == Constant(t) as nat
    ensures FromCubeRoot(t)
  {
    hide PrimeNumber, IsCubeRoot, Constant;
  }

  lemma Constants0()
    ensures Keys(0, 0x428A2F98, 0x71374491, 0xB5C0FBCF, 0xE9B5DBA5, 0x3956C25B, 0x59F111F1, 0x923F82A4, 0xAB1C5ED5)
  {
  }

  lemma Constants8()
    ensures Keys(8, 0xD807AA98, 0x12835B01, 0x243185BE, 0x550C7DC3, 0x72BE5D74, 0x80DEB1FE, 0x9BDC06A7, 0xC19BF174)
  {
  }

  lemma Constants16()
    ensures Keys(16, 0xE49B69C1, 0xEFBE4786, 0x0FC19DC6, 0x240CA1CC, 0x2DE92C6F, 0x4A7484AA, 0x5CB0A9DC, 0x76F988DA)
  {
  }

  lemma Constants24()
    ensures Keys(24, 0x983E5152, 0xA831C66D, 0xB00327C8, 0xBF597FC7, 0xC6E00BF3, 0xD5A79147, 0x06CA6351, 0x14292967)
  {
  }

  lemma Constants32()
    ensures Keys(32, 0x27B70A85, 0x2E1B2138, 0x4D2C6DFC, 0x53380D13, 0x650A7354, 0x766A0ABB, 0x81C2C92E, 0x92722C85)
  {
  }

  lemma Constants40()
    ensures Keys(40, 0xA2BFE8A1, 0xA81A664B, 0xC24B8B70, 0xC76C51A3, 0xD192E819, 0xD6990624, 0xF40E3585, 0x106AA070)
  {
  }

  lemma Constants48()
    ensures Keys(48, 0x19A4C116, 0x1E376C08, 0x2748774C, 0x34B0BCB5, 0x391C0CB3, 0x4ED8AA4A, 0x5B9CCA4F, 0x682E6FF3)
  {
  }

  lemma Constants56()
    ensures Keys(56, 0x748F82EE, 0x78A5636F, 0x84C87814, 0x8CC70208, 0x90BEFFFA, 0xA4506CEB, 0xBEF9A3F7, 0xC67178F2)
  {
  }

  lemma CubeRoots0()
    ensures FromCubeRoots(0)
  {
    hide PrimeNumber, FromCubeRoot, Constant;
    Constants0();
    Primes0();
    CubeRoot(0, 2, 0x1_428A2F98);
    CubeRoot(1, 3, 0x1_71374491);
    CubeRoot(2, 5, 0x1_B5C0FBCF);
    CubeRoot(3, 7, 0x1_E9B5DBA5);
    CubeRoot(4, 11, 0x2_3956C25B);
    CubeRoot(5, 13, 0x2_59F111F1);
    CubeRoot(6, 17, 0x2_923F82A4);
    CubeRoot(7, 19, 0x2_AB1C5ED5);
  }

  lemma CubeRoots8()
    ensures FromCubeRoots(8)
  {
    hide PrimeNumber, FromCubeRoot, Constant;
    Constants8();
    Primes8();
    CubeRoot(8, 23, 0x2_D807AA98);
    CubeRoot(9, 29, 0x3_12835B01);
    CubeRoot(10, 31, 0x3_243185BE);
    CubeRoot(11, 37, 0x3_550C7DC3);
    CubeRoot(12, 41, 0x3_72BE5D74);
    CubeRoot(13, 43, 0x3_80DEB1FE);
    CubeRoot(14, 47, 0x3_9BDC06A7);
    CubeRoot(15, 53, 0x3_C19BF174);
  }

  lemma CubeRoots16()
    ensures FromCubeRoots(16)
  {
    hide PrimeNumber, FromCubeRoot, Constant;
    Constants16();
    Primes16();
    CubeRoot(16, 59, 0x3_E49B69C1);
    CubeRoot(17, 61, 0x3_EFBE4786);
    CubeRoot(18, 67, 0x4_0FC19DC6);
    CubeRoot(19, 71, 0x4_240CA1CC);
    CubeRoot(20, 73, 0x4_2DE92C6F);
    CubeRoot(21, 79, 0x4_4A7484AA);
    CubeRoot(22, 83, 0x4_5CB0A9DC);
    CubeRoot(23, 89, 0x4_76F988DA);
  }

  lemma CubeRoots24()
    ensures FromCubeRoots(24)
  {
    hide PrimeNumber, FromCubeRoot, Constant;
    Constants24();
    Primes24();
    CubeRoot(24, 97, 0x4_983E5152);
    CubeRoot(25, 101, 0x4_A831C66D);
    CubeRoot(26, 103, 0x4_B00327C8);
    CubeRoot(27, 107, 0x4_BF597FC7);
    CubeRoot(28, 109, 0x4_C6E00BF3);
    CubeRoot(29, 113, 0x4_D5A79147);
    CubeRoot(30, 127, 0x5_06CA6351);
    CubeRoot(31, 131, 0x5_14292967);
  }

  lemma CubeRoots32()
    ensures FromCubeRoots(32)
  {
    hide PrimeNumber, FromCubeRoot, Constant;
    Constants32();
    Primes32();
    CubeRoot(32, 137, 0x5_27B70A85);
    CubeRoot(33, 139, 0x5_2E1B2138);
    CubeRoot(34, 149, 0x5_4D2C6DFC);
    CubeRoot(35, 151, 0x5_53380D13);
    CubeRoot(36, 157, 0x5_650A7354);
    CubeRoot(37, 163, 0x5_766A0ABB);
    CubeRoot(38, 167, 0x5_81C2C92E);
    CubeRoot(39, 173, 0x5_92722C85);
  }

  lemma CubeRoots40()
    ensures FromCubeRoots(40)
  {
    hide PrimeNumber, FromCubeRoot, Constant;
    Constants40();
    Primes40();
    CubeRoot(40, 179, 0x5_A2BFE8A1);
    CubeRoot(41, 181, 0x5_A81A664B);
    CubeRoot(42, 191, 0x5_C24B8B70);
    CubeRoot(43, 193, 0x5_C76C51A3);
    CubeRoot(44, 197, 0x5_D192E819);
    CubeRoot(45, 199, 0x5_D6990624);
    CubeRoot(46, 211, 0x5_F40E3585);
    CubeRoot(47, 223, 0x6_106AA070);
  }

  lemma CubeRoots48()
    ensures FromCubeRoots(48)
  {
    hide PrimeNumber, FromCubeRoot, Constant;
    Constants48();
    Primes48();
    CubeRoot(48, 227, 0x6_19A4C116);
    CubeRoot(49, 229, 0x6_1E376C08);
    CubeRoot(50, 233, 0x6_2748774C);
    CubeRoot(51, 239, 0x6_34B0BCB5);
    CubeRoot(52, 241, 0x6_391C0CB3);
    CubeRoot(53, 251, 0x6_4ED8AA4A);
    CubeRoot(54, 257, 0x6_5B9CCA4F);
    CubeRoot(55, 263, 0x6_682E6FF3);
  }

  lemma CubeRoots56()
    ensures FromCubeRoots(56)
  {
    hide PrimeNumber, FromCubeRoot, Constant;
    Constants56();
    Primes56();
    CubeRoot(56, 269, 0x6_748F82EE);
    CubeRoot(57, 271, 0x6_78A5636F);
    CubeRoot(58, 277, 0x6_84C87814);
    CubeRoot(59, 281, 0x6_8CC70208);
    CubeRoot(60, 283, 0x6_90BEFFFA);
    CubeRoot(61, 293, 0x6_A4506CEB);
    CubeRoot(62, 307, 0x6_BEF9A3F7);
    CubeRoot(63, 311, 0x6_C67178F2);
  }

  /** Each round constant is the first 32 bits behind the point of the cube root of the prime with its number. */
  lemma RoundConstantsAreCubeRoots(t: nat)
    requires t < 64
    ensures FromCubeRoot(t)
  {
    hide FromCubeRoot;
    if t < 8 {
      CubeRoots0();
    } else if t < 16 {
      CubeRoots8();
    } else if t < 24 {
      CubeRoots16();
    } else if t < 32 {
      CubeRoots24();
    } else if t < 40 {
      CubeRoots32();
    } else if t < 48 {
      CubeRoots40();
    } else if t < 56 {
      CubeRoots48();
    } else {
      CubeRoots56();
    }
  }

  /** The law leaves no choice. */
  lemma CubeRootBitsUnique(p: nat, k: bv32, l: bv32)
    requires CubeRootBits(p, k) && CubeRootBits(p, l)
    ensures k == l
  {
    hide IsCubeRoot;
    var m: nat :| IsCubeRoot(m, p) && m % TWO_TO_THE_32 == k as nat;
    var n: nat :| IsCubeRoot(n, p) && n % TWO_TO_THE_32 == l as nat;
    CubeRootUnique(m, n, p);
    hide *;
    SameNumber(k, l);
  }

  lemma SameNumber(k: bv32, l: bv32)
    requires k as nat == l as nat
    ensures k == l
  {
    assert (k as nat) as bv32 == k;
  }

  lemma CubeRootUnique(m: nat, n: nat, p: nat)
    requires IsCubeRoot(m, p) && IsCubeRoot(n, p)
    ensures m == n
  {
    if m < n {
      CubesGrow(m + 1, n);
    } else if n < m {
      CubesGrow(n + 1, m);
    }
  }

  lemma CubesGrow(a: nat, b: nat)
    requires a <= b
    ensures a * a * a <= b * b * b
  {
    Products(a, a, b, b);
    Products(a * a, a, b * b, b);
  }

  // ----- section 5.3.3: the initial state is bits of square roots -----

  ghost predicate IsSquareRoot(n: nat, p: nat) {
    n * n <= p * TWO_TO_THE_64 < (n + 1) * (n + 1)
  }

  ghost predicate SquareRootBits(p: nat, k: bv32) {
    exists n: nat :: IsSquareRoot(n, p) && n % TWO_TO_THE_32 == k as nat
  }

  ghost predicate FromSquareRoot(i: nat)
    requires i < 8
  {
    exists p :: PrimeNumber(i, p) && SquareRootBits(p, InitialState()[i])
  }

  lemma SquareRoot(i: nat, p: nat, n: nat)
    requires i < 8 && PrimeNumber(i, p)
    requires IsSquareRoot(n, p) && n % TWO_TO_THE_32 == InitialState()[i] as nat
    ensures FromSquareRoot(i)
  {
    hide PrimeNumber, IsSquareRoot, InitialState;
  }

  /** Each word of the initial state is the first 32 bits behind the point of the square root of its prime. */
  lemma InitialStateIsSquareRoots(i: nat)
    requires i < 8
    ensures FromSquareRoot(i)
  {
    hide PrimeNumber, FromSquareRoot;
    Primes0();
    SquareRoot(0, 2, 0x1_6A09E667);
    SquareRoot(1, 3, 0x1_BB67AE85);
    SquareRoot(2, 5, 0x2_3C6EF372);
    SquareRoot(3, 7, 0x2_A54FF53A);
    SquareRoot(4, 11, 0x3_510E527F);
    SquareRoot(5, 13, 0x3_9B05688C);
    SquareRoot(6, 17, 0x4_1F83D9AB);
    SquareRoot(7, 19, 0x4_5BE0CD19);
  }

  lemma SquareRootBitsUnique(p: nat, k: bv32, l: bv32)
    requires SquareRootBits(p, k) && SquareRootBits(p, l)
    ensures k == l
  {
    hide IsSquareRoot;
    var m: nat :| IsSquareRoot(m, p) && m % TWO_TO_THE_32 == k as nat;
    var n: nat :| IsSquareRoot(n, p) && n % TWO_TO_THE_32 == l as nat;
    SquareRootUnique(m, n, p);
    hide *;
    SameNumber(k, l);
  }

  lemma SquareRootUnique(m: nat, n: nat, p: nat)
    requires IsSquareRoot(m, p) && IsSquareRoot(n, p)
    ensures m == n
  {
    if m < n {
      Products(m + 1, m + 1, n, n);
    } else if n < m {
      Products(n + 1, n + 1, m, m);
    }
  }
}
