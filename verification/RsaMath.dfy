/** Why RSA with the Chinese remainder theorem works, and exactly when the
    recombination of crypto/rsa.rs returns the residue below n. */
module RsaMath {
  import opened NumberTheory

  /** A key pair: distinct odd primes and inverse exponents. */
  ghost predicate KeyPair(n: nat, e: nat, d: nat, p: nat, q: nat) {
    && Prime(p) && Prime(q) && p != q && p % 2 == 1 && q % 2 == 1
    && n == p * q
    && (e * d) % ((p - 1) * (q - 1)) == 1
  }

  // ----- recombination

  /** The factor h of the recombination; p itself when the negative branch is 0 mod p. */
  function CrtFactor(m1: nat, m2: nat, p: nat, qinv: nat): (h: nat)
    requires p > 0
    ensures h <= p
  {
    if m1 >= m2 then (qinv * (m1 - m2)) % p else p - (qinv * (m2 - m1)) % p
  }

  /** m2 + h * q, from residues modulo p and q. */
  function CrtCombine(m1: nat, m2: nat, p: nat, q: nat, qinv: nat): nat
    requires p > 0
  {
    MulNonNeg(CrtFactor(m1, m2, p, qinv), q);
    m2 + CrtFactor(m1, m2, p, qinv) * q
  }

  lemma CrtFactorCong(m1: nat, m2: nat, p: nat, qinv: nat)
    requires p > 0
    ensures CrtFactor(m1, m2, p, qinv) % p == (qinv * (m1 - m2)) % p
  {
    if m1 >= m2 {
      ModMod(qinv * (m1 - m2), p);
    } else {
      var x := qinv * (m2 - m1);
      ModMod(x, p);
      ModSubCong(0, 0, x % p, x, p);
      ModShift(0 - x % p, 1, p);
      MulDist(qinv, m1, m2);
      MulDist(qinv, m2, m1);
    }
  }

  /** The recombination has the given residues, for any order of p and q. */
  lemma CrtResidues(m1: nat, m2: nat, p: nat, q: nat, qinv: nat)
    requires p > 0 && q > 0 && (q * qinv) % p == 1 % p
    ensures CrtCombine(m1, m2, p, q, qinv) % p == m1 % p
    ensures CrtCombine(m1, m2, p, q, qinv) % q == m2 % q
  {
    var h := CrtFactor(m1, m2, p, qinv);
    ModShift(m2, h, q);
    CrtFactorCong(m1, m2, p, qinv);
    var diff := m1 - m2;
    ModMulCong(h, qinv * diff, q, q, p);
    MulAssoc(q, qinv, diff);
    ModMulCong(q * qinv, 1, diff, diff, p);
    assert (h * q) % p == diff % p;
    ModAddCong(m2, m2, h * q, diff, p);
  }

  /** h reaches p exactly when m1 < m2 and p divides their difference. */
  lemma CrtFactorFull(m1: nat, m2: nat, p: nat, q: nat, qinv: nat)
    requires p > 1 && q > 0 && (q * qinv) % p == 1
    ensures CrtFactor(m1, m2, p, qinv) == p <==> m1 < m2 && (m2 - m1) % p == 0
  {
    if m1 < m2 {
      var diff := m2 - m1;
      if (qinv * diff) % p == 0 {
        ModSmall(1, p);
        ModMulCong(q, q, qinv * diff, 0, p);
        MulAssoc(q, qinv, diff);
        ModMulCong(q * qinv, 1, diff, diff, p);
      }
      if diff % p == 0 {
        ModMulCong(qinv, qinv, diff, 0, p);
      }
    }
  }

  /** m2 + h * q, congruent to m modulo n = p * q, is m or m + n. */
  lemma CrtPin(m: nat, m2: nat, h: nat, p: nat, q: nat, n: nat, k: int)
    requires p > 0 && q > 0 && n == p * q && m < n && m2 < q && h <= p
    requires m2 + h * q - m == k * n
    ensures m2 + h * q == if h == p then m + n else m
  {
    MulNonNeg(h, q);
    if h == p {
      MulMono(1, p, q);
      MulDist(n, k, 1);
      SmallMultiple(k - 1, n);
    } else {
      MulMono(h, p - 1, q);
      MulDist(q, p, 1);
      SmallMultiple(k, n);
    }
  }

  /** For the residues of m the case h == p arises exactly for p <= m < q: the residues are then
      congruent modulo p, so m is congruent to m mod q modulo both primes, and is equal to it. */
  lemma OvershootRange(m: nat, p: nat, q: nat)
    requires Prime(p) && Prime(q) && p != q && m < p * q
    ensures m % p < m % q && (m % q - m % p) % p == 0 <==> p <= m < q
  {
    var m1, m2 := m % p, m % q;
    ModMod(m, p);
    ModMod(m, q);
    if m1 < m2 && (m2 - m1) % p == 0 {
      CongIffDivides(m2, m1, p);
      CongIffDivides(m, m2, p);
      CongIffDivides(m, m2, q);
      PrimesDivideProduct(p, q, m - m2);
      var k := DividesWitness(p * q, m - m2);
      MulMono(2, p, q);
      SmallMultiple(k, p * q);
      if m < p {
        ModSmall(m, p);
      }
    }
    if p <= m < q {
      ModSmall(m, q);
      CongIffDivides(m, m1, p);
    }
  }

  /** Exactly what the recombination of the residues of m returns. */
  lemma CrtExact(m: nat, p: nat, q: nat, qinv: nat)
    requires Prime(p) && Prime(q) && p != q && m < p * q && (q * qinv) % p == 1
    ensures CrtCombine(m % p, m % q, p, q, qinv) == if p <= m < q then m + p * q else m
  {
    var m1, m2 := m % p, m % q;
    var h, r := CrtFactor(m1, m2, p, qinv), CrtCombine(m1, m2, p, q, qinv);
    ModSmall(1, p);
    CrtResidues(m1, m2, p, q, qinv);
    ModMod(m, p);
    ModMod(m, q);
    CongIffDivides(r, m, p);
    CongIffDivides(r, m, q);
    PrimesDivideProduct(p, q, r - m);
    var k := DividesWitness(p * q, r - m);
    CrtFactorFull(m1, m2, p, q, qinv);
    OvershootRange(m, p, q);
    CrtPin(m, m2, h, p, q, p * q, k);
  }

  /** The recombination recovers every residue below n exactly when q < p. */
  lemma CrtExactIffOrdered(p: nat, q: nat, qinv: nat)
    requires Prime(p) && Prime(q) && p != q && (q * qinv) % p == 1
    ensures q < p <==> forall m: nat :: m < p * q ==> CrtCombine(m % p, m % q, p, q, qinv) == m
  {
    if q < p {
      forall m: nat | m < p * q
        ensures CrtCombine(m % p, m % q, p, q, qinv) == m
      {
        CrtExact(m, p, q, qinv);
      }
    } else {
      // The residue p itself comes back as p + n.
      MulMono(2, q, p);
      CrtExact(p, p, q, qinv);
    }
  }

  // ----- exponents

  lemma ReducedExponent(e: nat, d: nat, p: nat, phi: nat)
    requires p >= 3 && phi > 0 && Divides(p - 1, phi) && (e * d) % phi == 1
    ensures var x := e * (d % (p - 1)); x >= 1 && (x - 1) % (p - 1) == 0
  {
    var x := e * (d % (p - 1));
    MulNonNeg(e, d % (p - 1));
    ModMod(d, p - 1);
    ModMulCong(e, e, d % (p - 1), d, p - 1);
    assert x % (p - 1) == (e * d) % (p - 1);
    DividesBound(p - 1, phi);
    ModSmall(1, phi);
    CongDivisor(e * d, 1, phi, p - 1);
    ModSmall(1, p - 1);
    CongIffDivides(x, 1, p - 1);
  }

  /** e and d mod (p - 1) undo each other modulo an odd prime p, in either order. */
  lemma ExponentsCancel(m: nat, e: nat, d: nat, p: nat, phi: nat)
    requires Prime(p) && p >= 3 && phi > 0 && Divides(p - 1, phi) && (e * d) % phi == 1
    ensures Pow(Pow(m, e), d % (p - 1)) % p == m % p
    ensures Pow(Pow(m, d % (p - 1)), e) % p == m % p
  {
    var dp := d % (p - 1);
    ReducedExponent(e, d, p, phi);
    FermatExponent(m, e * dp, p);
    PowMul(m, e, dp);
    PowMul(m, dp, e);
    assert dp * e == e * dp;
  }

  /** What the source's private-key operation computes on a number. */
  function PrivatePower(c: nat, dp: nat, dq: nat, p: nat, q: nat, qinv: nat): nat
    requires p > 0 && q > 0
  {
    CrtCombine(Pow(c, dp) % p, Pow(c, dq) % q, p, q, qinv)
  }

  lemma PhiFactors(p: nat, q: nat)
    requires p >= 3 && q >= 3
    ensures (p - 1) * (q - 1) > 0
    ensures Divides(p - 1, (p - 1) * (q - 1)) && Divides(q - 1, (p - 1) * (q - 1))
  {
    MulMono(1, p - 1, q - 1);
    DividesIntro(q - 1, p - 1);
    DividesIntro(p - 1, q - 1);
    assert (q - 1) * (p - 1) == (p - 1) * (q - 1);
  }

  lemma OddPrimes(n: nat, e: nat, d: nat, p: nat, q: nat)
    requires KeyPair(n, e, d, p, q)
    ensures p >= 3 && q >= 3 && Divides(p, n) && Divides(q, n) && n > 0
  {
    DividesIntro(p, q);
    DividesIntro(q, p);
    assert q * p == p * q;
    MulMono(1, p, q);
  }

  lemma SamePrimeResidue(c: nat, m: nat, e: nat, n: nat, p: nat)
    requires n > 0 && Divides(p, n) && c == Pow(m, e) % n
    ensures c % p == Pow(m, e) % p
  {
    ModMod(Pow(m, e), n);
    CongDivisor(c, Pow(m, e), n, p);
  }

  /** The private-key operation undoes the public one: for every m below n the result
      is m, or m + n exactly for p <= m < q. */
  lemma PrivateUndoesPublic(m: nat, n: nat, e: nat, d: nat, p: nat, q: nat, qinv: nat)
    requires KeyPair(n, e, d, p, q) && m < n && (q * qinv) % p == 1
    ensures Pow(m, e) % n >= 0
    ensures PrivatePower(Pow(m, e) % n, d % (p - 1), d % (q - 1), p, q, qinv)
         == if p <= m < q then m + n else m
  {
    OddPrimes(n, e, d, p, q);
    PhiFactors(p, q);
    var c, dp, dq := Pow(m, e) % n, d % (p - 1), d % (q - 1);
    SamePrimeResidue(c, m, e, n, p);
    SamePrimeResidue(c, m, e, n, q);
    PowCong(c, Pow(m, e), dp, p);
    PowCong(c, Pow(m, e), dq, q);
    ExponentsCancel(m, e, d, p, (p - 1) * (q - 1));
    ExponentsCancel(m, e, d, q, (p - 1) * (q - 1));
    CrtExact(m, p, q, qinv);
  }

  /** The public-key operation undoes the private one, whatever the order of p and q. */
  lemma PublicUndoesPrivate(m: nat, n: nat, e: nat, d: nat, p: nat, q: nat, qinv: nat)
    requires KeyPair(n, e, d, p, q) && m < n && (q * qinv) % p == 1
    ensures Pow(PrivatePower(m, d % (p - 1), d % (q - 1), p, q, qinv), e) % n == m
  {
    OddPrimes(n, e, d, p, q);
    PhiFactors(p, q);
    var dp, dq := d % (p - 1), d % (q - 1);
    var s := PrivatePower(m, dp, dq, p, q, qinv);
    ModSmall(1, p);
    CrtResidues(Pow(m, dp) % p, Pow(m, dq) % q, p, q, qinv);
    ModMod(Pow(m, dp), p);
    ModMod(Pow(m, dq), q);
    PowCong(s, Pow(m, dp), e, p);
    PowCong(s, Pow(m, dq), e, q);
    ExponentsCancel(m, e, d, p, (p - 1) * (q - 1));
    ExponentsCancel(m, e, d, q, (p - 1) * (q - 1));
    CongIffDivides(Pow(s, e), m, p);
    CongIffDivides(Pow(s, e), m, q);
    PrimesDivideProduct(p, q, Pow(s, e) - m);
    CongIffDivides(Pow(s, e), m, n);
    ModSmall(m, n);
  }

  /** d and e undo each other modulo n. */
  lemma PowersCancel(m: nat, n: nat, e: nat, d: nat, p: nat, q: nat)
    requires KeyPair(n, e, d, p, q) && m < n
    ensures n > 0 && 0 <= Pow(m, d) % n < n && Pow(Pow(m, d) % n, e) % n == m
  {
    OddPrimes(n, e, d, p, q);
    PhiFactors(p, q);
    PowerModPrime(m, e, d, p, (p - 1) * (q - 1));
    PowerModPrime(m, e, d, q, (p - 1) * (q - 1));
    var s := Pow(m, d) % n;
    ModMod(Pow(m, d), n);
    PowCong(s, Pow(m, d), e, n);
    PowMul(m, d, e);
    assert Pow(s, e) % n == Pow(m, d * e) % n;
    CongIffDivides(Pow(m, d * e), m, p);
    CongIffDivides(Pow(m, d * e), m, q);
    PrimesDivideProduct(p, q, Pow(m, d * e) - m);
    CongIffDivides(Pow(m, d * e), m, n);
    ModSmall(m, n);
  }

  lemma PowerModPrime(m: nat, e: nat, d: nat, p: nat, phi: nat)
    requires Prime(p) && p >= 3 && phi > 0 && Divides(p - 1, phi) && (e * d) % phi == 1
    ensures d * e >= 0 && Pow(m, d * e) % p == m % p
  {
    MulNonNeg(d, e);
    assert d * e == e * d;
    DividesBound(p - 1, phi);
    ModSmall(1, phi);
    CongDivisor(e * d, 1, phi, p - 1);
    CongIffDivides(e * d, 1, p - 1);
    if e * d == 0 {
      ModSmall(0, phi);
    }
    FermatExponent(m, d * e, p);
  }

  /** The private-key operation only depends on its argument modulo n. */
  lemma PrivateModN(c: nat, n: nat, e: nat, d: nat, p: nat, q: nat, qinv: nat)
    requires KeyPair(n, e, d, p, q)
    ensures n > 0
    ensures PrivatePower(c % n, d % (p - 1), d % (q - 1), p, q, qinv)
         == PrivatePower(c, d % (p - 1), d % (q - 1), p, q, qinv)
  {
    OddPrimes(n, e, d, p, q);
    ModMod(c, n);
    CongDivisor(c % n, c, n, p);
    CongDivisor(c % n, c, n, q);
    PowCong(c % n, c, d % (p - 1), p);
    PowCong(c % n, c, d % (q - 1), q);
  }

  /** Exactly what the private-key operation returns, for every c: c^d mod n, or that plus n when
      it lies from p up to q. */
  lemma PrivateExact(c: nat, n: nat, e: nat, d: nat, p: nat, q: nat, qinv: nat)
    requires KeyPair(n, e, d, p, q) && (q * qinv) % p == 1
    ensures n > 0 && 0 <= Pow(c, d) % n < n
    ensures var s := Pow(c, d) % n;
            PrivatePower(c, d % (p - 1), d % (q - 1), p, q, qinv) == if p <= s < q then s + n else s
  {
    PrivateModN(c, n, e, d, p, q, qinv);
    var m := c % n;
    PowersCancel(m, n, e, d, p, q);
    PrivateUndoesPublic(Pow(m, d) % n, n, e, d, p, q, qinv);
    ModMod(c, n);
    PowCong(m, c, d, n);
  }
}
