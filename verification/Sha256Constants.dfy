/** Where the constants of crypto/sha256.rs come from (sections 4.2.2 and 5.3.3 of FIPS 180-4): the first
    primes, and the fractional parts of their roots. */
module Sha256Constants {
  import opened NumberTheory
  import opened Bits
  import opened Sha256Block
  import opened Sha256

  // ----- the first 64 primes

  const P0: seq<nat> := [2, 3, 5, 7, 11, 13, 17, 19]
  const P1: seq<nat> := [23, 29, 31, 37, 41, 43, 47, 53]
  const P2: seq<nat> := [59, 61, 67, 71, 73, 79, 83, 89]
  const P3: seq<nat> := [97, 101, 103, 107, 109, 113, 127, 131]
  const P4: seq<nat> := [137, 139, 149, 151, 157, 163, 167, 173]
  const P5: seq<nat> := [179, 181, 191, 193, 197, 199, 211, 223]
  const P6: seq<nat> := [227, 229, 233, 239, 241, 251, 257, 263]
  const P7: seq<nat> := [269, 271, 277, 281, 283, 293, 307, 311]

  const PRIMES: seq<nat> := P0 + P1 + P2 + P3 + P4 + P5 + P6 + P7

  /** No prime below 19 divides n, unless it is n. */
  predicate Sieved(n: nat) {
    && n >= 2 && (n % 2 != 0 || n == 2) && (n % 3 != 0 || n == 3) && (n % 5 != 0 || n == 5) && (n % 7 != 0 || n == 7)
    && (n % 11 != 0 || n == 11) && (n % 13 != 0 || n == 13) && (n % 17 != 0 || n == 17)
  }

  /** A number from 2 to 18 has a prime divisor below 19. */
  lemma SmallDivisor(d: nat) returns (p: nat)
    requires 2 <= d < 19
    ensures p in [2, 3, 5, 7, 11, 13, 17] && Divides(p, d)
  {
    p := if d % 2 == 0 then 2 else if d % 3 == 0 then 3 else if d == 5 then 5 else if d == 7 then 7
         else if d == 11 then 11 else if d == 13 then 13 else 17;
  }

  lemma NotSieved(p: nat, n: nat)
    requires p in [2, 3, 5, 7, 11, 13, 17] && Divides(p, n) && p != n
    ensures !Sieved(n)
  {
  }

  /** Below 19 * 19 that decides whether a number is prime. */
  lemma SieveIff(n: nat)
    requires n < 361
    ensures Sieved(n) <==> Prime(n)
  {
    if Sieved(n) {
      forall d | Divides(d, n)
        ensures d == 1 || d == n
      {
        if d != 1 && d != n {
          Factors(n, d);
        }
      }
    } else if n >= 2 {
      var p :| p in [2, 3, 5, 7, 11, 13, 17] && n % p == 0 && n != p;
      assert Divides(p, n);
    }
  }

  /** A proper divisor gives one below 19, hence a prime one. */
  lemma Factors(n: nat, d: nat)
    requires 2 <= n < 361 && Divides(d, n) && d != 1 && d != n
    ensures !Sieved(n)
  {
    var k := DividesWitness(d, n);
    DividesBound(d, n);
    OneBelow(k, d, n);
    DividesIntro(k, d);
    SmallFactor(if d < 19 then d else k, n);
  }

  lemma SmallFactor(e: nat, n: nat)
    requires 2 <= e < 19 && Divides(e, n) && e < n
    ensures !Sieved(n)
  {
    var p := SmallDivisor(e);
    DividesTrans(p, e, n);
    DividesBound(p, e);
    NotSieved(p, n);
  }

  lemma OneBelow(k: int, d: int, n: int)
    requires n == k * d && 1 < d < n < 361
    ensures 1 < k < n && (d < 19 || k < 19)
  {
    if k <= 1 {
      MulMono(k, 1, d);
    } else {
      MulMono(2, d, k);
      if d >= 19 && k >= 19 {
        MulMono(19, d, k);
      }
    }
  }

  /** No number between p and q is sieved. */
  predicate Clear(p: nat, q: nat)
    decreases q - p
  {
    p + 1 >= q || (!Sieved(p + 1) && Clear(p + 1, q))
  }

  lemma {:induction false} ClearAll(p: nat, q: nat, n: nat)
    requires Clear(p, q) && p < n < q
    ensures !Sieved(n)
    decreases q - p
  {
    if p + 1 < n {
      ClearAll(p + 1, q, n);
    }
  }

  /** q is the prime after p. */
  ghost predicate NextPrime(p: nat, q: nat) {
    p < q && Prime(q) && forall n: nat :: p < n < q ==> !Prime(n)
  }

  lemma Following(p: nat, q: nat)
    requires p < q < 361 && Sieved(q) && Clear(p, q)
    ensures NextPrime(p, q)
  {
    SieveIff(q);
    forall n: nat | p < n < q
      ensures !Prime(n)
    {
      ClearAll(p, q, n);
      SieveIff(n);
    }
  }

  /** From prime to prime. */
  ghost predicate Steps(s: seq<nat>) {
    forall i :: 0 <= i < |s| - 1 ==> NextPrime(s[i], s[i + 1])
  }

  lemma StepsJoin(a: seq<nat>, b: seq<nat>)
    requires Steps(a) && Steps(b) && |a| > 0 && |b| > 0 && NextPrime(a[|a| - 1], b[0])
    ensures Steps(a + b)
  {
    var s := a + b;
    forall i | 0 <= i < |s| - 1
      ensures NextPrime(s[i], s[i + 1])
    {
      if i >= |a| {
        assert s[i] == b[i - |a|] && s[i + 1] == b[i - |a| + 1];
      }
    }
  }

  lemma Row0()
    ensures |P0| == 8 && Steps(P0)
  {
    Following(2, 3);
    Following(3, 5);
    Following(5, 7);
    Following(7, 11);
    Following(11, 13);
    Following(13, 17);
    Following(17, 19);
  }

  lemma Row1()
    ensures |P1| == 8 && Steps(P1) && NextPrime(19, P1[0])
  {
    Following(19, 23);
    Following(23, 29);
    Following(29, 31);
    Following(31, 37);
    Following(37, 41);
    Following(41, 43);
    Following(43, 47);
    Following(47, 53);
  }

  lemma Row2()
    ensures |P2| == 8 && Steps(P2) && NextPrime(53, P2[0])
  {
    Following(53, 59);
    Following(59, 61);
    Following(61, 67);
    Following(67, 71);
    Following(71, 73);
    Following(73, 79);
    Following(79, 83);
    Following(83, 89);
  }

  lemma Row3()
    ensures |P3| == 8 && Steps(P3) && NextPrime(89, P3[0])
  {
    Following(89, 97);
    Following(97, 101);
    Following(101, 103);
    Following(103, 107);
    Following(107, 109);
    Following(109, 113);
    Following(113, 127);
    Following(127, 131);
  }

  lemma Row4()
    ensures |P4| == 8 && Steps(P4) && NextPrime(131, P4[0])
  {
    Following(131, 137);
    Following(137, 139);
    Following(139, 149);
    Following(149, 151);
    Following(151, 157);
    Following(157, 163);
    Following(163, 167);
    Following(167, 173);
  }

  lemma Row5()
    ensures |P5| == 8 && Steps(P5) && NextPrime(173, P5[0])
  {
    Following(173, 179);
    Following(179, 181);
    Following(181, 191);
    Following(191, 193);
    Following(193, 197);
    Following(197, 199);
    Following(199, 211);
    Following(211, 223);
  }

  lemma Row6()
    ensures |P6| == 8 && Steps(P6) && NextPrime(223, P6[0])
  {
    Following(223, 227);
    Following(227, 229);
    Following(229, 233);
    Following(233, 239);
    Following(239, 241);
    Following(241, 251);
    Following(251, 257);
    Following(257, 263);
  }

  lemma Row7()
    ensures |P7| == 8 && Steps(P7) && NextPrime(263, P7[0])
  {
    Following(263, 269);
    Following(269, 271);
    Following(271, 277);
    Following(277, 281);
    Following(281, 283);
    Following(283, 293);
    Following(293, 307);
    Following(307, 311);
  }

  /** The list begins with 2 and goes on from prime to prime. */
  lemma FirstPrimes()
    ensures |PRIMES| == 64 && PRIMES[0] == 2 && Prime(2) && Steps(PRIMES)
  {
    SieveIff(2);
    Row0();
    Row1();
    Row2();
    Row3();
    Row4();
    Row5();
    Row6();
    Row7();
    StepsJoin(P0, P1);
    StepsJoin(P0 + P1, P2);
    StepsJoin(P0 + P1 + P2, P3);
    StepsJoin(P0 + P1 + P2 + P3, P4);
    StepsJoin(P0 + P1 + P2 + P3 + P4, P5);
    StepsJoin(P0 + P1 + P2 + P3 + P4 + P5, P6);
    StepsJoin(P0 + P1 + P2 + P3 + P4 + P5 + P6, P7);
  }

  // ----- fractional parts of roots

  /** k is the first 32 bits of the fractional part of the cube root of p, and q the integer part. */
  predicate CubeRoot(p: nat, q: nat, k: u32) {
    var x := q * 0x1_0000_0000 + k;
    x * x * x <= p * 0x1_0000_0000_0000_0000_0000_0000 < (x + 1) * (x + 1) * (x + 1)
  }

  predicate SquareRoot(p: nat, q: nat, k: u32) {
    var x := q * 0x1_0000_0000 + k;
    x * x <= p * 0x1_0000_0000_0000_0000 < (x + 1) * (x + 1)
  }

  ghost predicate CubeFraction(p: nat, k: u32) {
    exists q :: CubeRoot(p, q, k)
  }

  ghost predicate SquareFraction(p: nat, k: u32) {
    exists q :: SquareRoot(p, q, k)
  }

  /** Every constant comes from the prime at its place. */
  ghost predicate FromCubeRoots(ps: seq<nat>, ks: seq<u32>) {
    |ps| == |ks| && forall i :: 0 <= i < |ps| ==> CubeFraction(ps[i], ks[i])
  }

  lemma FromJoin(ps: seq<nat>, ks: seq<u32>, qs: seq<nat>, ls: seq<u32>)
    requires FromCubeRoots(ps, ks) && FromCubeRoots(qs, ls)
    ensures FromCubeRoots(ps + qs, ks + ls)
  {
    forall i | |ps| <= i < |ps + qs|
      ensures CubeFraction((ps + qs)[i], (ks + ls)[i])
    {
      assert (ps + qs)[i] == qs[i - |ps|] && (ks + ls)[i] == ls[i - |ps|];
    }
  }

  lemma Cubes0()
    ensures FromCubeRoots(P0, K0)
  {
    assert CubeRoot(2, 1, 0x428a_2f98);
    assert CubeRoot(3, 1, 0x7137_4491);
    assert CubeRoot(5, 1, 0xb5c0_fbcf);
    assert CubeRoot(7, 1, 0xe9b5_dba5);
    assert CubeRoot(11, 2, 0x3956_c25b);
    assert CubeRoot(13, 2, 0x59f1_11f1);
    assert CubeRoot(17, 2, 0x923f_82a4);
    assert CubeRoot(19, 2, 0xab1c_5ed5);
  }

  lemma Cubes1()
    ensures FromCubeRoots(P1, K1)
  {
    assert CubeRoot(23, 2, 0xd807_aa98);
    assert CubeRoot(29, 3, 0x1283_5b01);
    assert CubeRoot(31, 3, 0x2431_85be);
    assert CubeRoot(37, 3, 0x550c_7dc3);
    assert CubeRoot(41, 3, 0x72be_5d74);
    assert CubeRoot(43, 3, 0x80de_b1fe);
    assert CubeRoot(47, 3, 0x9bdc_06a7);
    assert CubeRoot(53, 3, 0xc19b_f174);
  }

  lemma Cubes2()
    ensures FromCubeRoots(P2, K2)
  {
    assert CubeRoot(59, 3, 0xe49b_69c1);
    assert CubeRoot(61, 3, 0xefbe_4786);
    assert CubeRoot(67, 4, 0x0fc1_9dc6);
    assert CubeRoot(71, 4, 0x240c_a1cc);
    assert CubeRoot(73, 4, 0x2de9_2c6f);
    assert CubeRoot(79, 4, 0x4a74_84aa);
    assert CubeRoot(83, 4, 0x5cb0_a9dc);
    assert CubeRoot(89, 4, 0x76f9_88da);
  }

  lemma Cubes3()
    ensures FromCubeRoots(P3, K3)
  {
    assert CubeRoot(97, 4, 0x983e_5152);
    assert CubeRoot(101, 4, 0xa831_c66d);
    assert CubeRoot(103, 4, 0xb003_27c8);
    assert CubeRoot(107, 4, 0xbf59_7fc7);
    assert CubeRoot(109, 4, 0xc6e0_0bf3);
    assert CubeRoot(113, 4, 0xd5a7_9147);
    assert CubeRoot(127, 5, 0x06ca_6351);
    assert CubeRoot(131, 5, 0x1429_2967);
  }

  lemma Cubes4()
    ensures FromCubeRoots(P4, K4)
  {
    assert CubeRoot(137, 5, 0x27b7_0a85);
    assert CubeRoot(139, 5, 0x2e1b_2138);
    assert CubeRoot(149, 5, 0x4d2c_6dfc);
    assert CubeRoot(151, 5, 0x5338_0d13);
    assert CubeRoot(157, 5, 0x650a_7354);
    assert CubeRoot(163, 5, 0x766a_0abb);
    assert CubeRoot(167, 5, 0x81c2_c92e);
    assert CubeRoot(173, 5, 0x9272_2c85);
  }

  lemma Cubes5()
    ensures FromCubeRoots(P5, K5)
  {
    assert CubeRoot(179, 5, 0xa2bf_e8a1);
    assert CubeRoot(181, 5, 0xa81a_664b);
    assert CubeRoot(191, 5, 0xc24b_8b70);
    assert CubeRoot(193, 5, 0xc76c_51a3);
    assert CubeRoot(197, 5, 0xd192_e819);
    assert CubeRoot(199, 5, 0xd699_0624);
    assert CubeRoot(211, 5, 0xf40e_3585);
    assert CubeRoot(223, 6, 0x106a_a070);
  }

  lemma Cubes6()
    ensures FromCubeRoots(P6, K6)
  {
    assert CubeRoot(227, 6, 0x19a4_c116);
    assert CubeRoot(229, 6, 0x1e37_6c08);
    assert CubeRoot(233, 6, 0x2748_774c);
    assert CubeRoot(239, 6, 0x34b0_bcb5);
    assert CubeRoot(241, 6, 0x391c_0cb3);
    assert CubeRoot(251, 6, 0x4ed8_aa4a);
    assert CubeRoot(257, 6, 0x5b9c_ca4f);
    assert CubeRoot(263, 6, 0x682e_6ff3);
  }

  lemma Cubes7()
    ensures FromCubeRoots(P7, K7)
  {
    assert CubeRoot(269, 6, 0x748f_82ee);
    assert CubeRoot(271, 6, 0x78a5_636f);
    assert CubeRoot(277, 6, 0x84c8_7814);
    assert CubeRoot(281, 6, 0x8cc7_0208);
    assert CubeRoot(283, 6, 0x90be_fffa);
    assert CubeRoot(293, 6, 0xa450_6ceb);
    assert CubeRoot(307, 6, 0xbef9_a3f7);
    assert CubeRoot(311, 6, 0xc671_78f2);
  }

  /** The round constants are the cube roots of the first 64 primes. */
  lemma ConstantsAreCubeRoots()
    ensures |K| == 64 && FromCubeRoots(PRIMES, K)
  {
    FirstPrimes();
    Cubes0();
    Cubes1();
    Cubes2();
    Cubes3();
    Cubes4();
    Cubes5();
    Cubes6();
    Cubes7();
    FromJoin(P0, K0, P1, K1);
    FromJoin(P0 + P1, K0 + K1, P2, K2);
    FromJoin(P0 + P1 + P2, K0 + K1 + K2, P3, K3);
    FromJoin(P0 + P1 + P2 + P3, K0 + K1 + K2 + K3, P4, K4);
    FromJoin(P0 + P1 + P2 + P3 + P4, K0 + K1 + K2 + K3 + K4, P5, K5);
    FromJoin(P0 + P1 + P2 + P3 + P4 + P5, K0 + K1 + K2 + K3 + K4 + K5, P6, K6);
    FromJoin(P0 + P1 + P2 + P3 + P4 + P5 + P6, K0 + K1 + K2 + K3 + K4 + K5 + K6, P7, K7);
  }

  /** The initial state: square roots of the first eight primes. */
  lemma InitialIsSquareRoots()
    ensures SquareFraction(2, INITIAL.a) && SquareFraction(3, INITIAL.b) && SquareFraction(5, INITIAL.c)
    ensures SquareFraction(7, INITIAL.d) && SquareFraction(11, INITIAL.e) && SquareFraction(13, INITIAL.f)
    ensures SquareFraction(17, INITIAL.g) && SquareFraction(19, INITIAL.h)
  {
    assert SquareRoot(2, 1, 0x6a09_e667);
    assert SquareRoot(3, 1, 0xbb67_ae85);
    assert SquareRoot(5, 2, 0x3c6e_f372);
    assert SquareRoot(7, 2, 0xa54f_f53a);
    assert SquareRoot(11, 3, 0x510e_527f);
    assert SquareRoot(13, 3, 0x9b05_688c);
    assert SquareRoot(17, 4, 0x1f83_d9ab);
    assert SquareRoot(19, 4, 0x5be0_cd19);
  }
}
