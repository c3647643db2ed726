/** Integer number theory used by the RSA and Poly1305 models: powers, residues,
    greatest common divisors, primes, and Fermat's little theorem. */
module NumberTheory {

  // ----- multiplication and residues

  lemma MulMono(a: int, b: int, c: int)
    requires a <= b && 0 <= c
    ensures a * c <= b * c
  {
    assert (b - a) * c >= 0;
  }

  lemma MulAssoc(a: int, b: int, c: int)
    ensures a * (b * c) == (a * b) * c == b * (a * c)
  {
  }

  lemma MulDist(a: int, b: int, c: int)
    ensures a * (b + c) == a * b + a * c && (b + c) * a == b * a + c * a
    ensures a * (b - c) == a * b - a * c && (b - c) * a == b * a - c * a
  {
  }

  lemma MulNonNeg(a: int, b: int)
    requires 0 <= a && 0 <= b
    ensures 0 <= a * b
  {
  }

  /** A number strictly between -m and m that is a multiple of m is zero. */
  lemma SmallMultiple(k: int, m: int)
    requires 0 < m && -m < k * m < m
    ensures k == 0
  {
    if k >= 1 {
      MulMono(1, k, m);
    } else if k <= -1 {
      MulMono(k, -1, m);
    }
  }

  lemma DivModSum(a: int, m: int)
    requires 0 < m
    ensures a == a % m + (a / m) * m
  {
  }

  lemma DivModUnique(a: int, q: int, r: int, m: int)
    requires 0 < m && a == q * m + r && 0 <= r < m
    ensures a / m == q && a % m == r
  {
    var q', r' := a / m, a % m;
    assert a == q' * m + r';
    assert (q - q') * m == r' - r;
    SmallMultiple(q - q', m);
  }

  lemma ModShift(b: int, k: int, m: int)
    requires 0 < m
    ensures (b + k * m) % m == b % m
  {
    var a := b + k * m;
    assert b == (b / m) * m + b % m;
    assert a == (b / m + k) * m + b % m;
    DivModUnique(a, b / m + k, b % m, m);
  }

  /** Equal residues mean a difference that is a multiple of the modulus. */
  lemma ModDiff(a: int, b: int, m: int) returns (k: int)
    requires 0 < m && a % m == b % m
    ensures a == b + k * m
  {
    k := a / m - b / m;
    assert a == (a / m) * m + a % m;
    assert b == (b / m) * m + b % m;
    assert k * m == (a / m) * m - (b / m) * m;
  }

  lemma ModSmall(a: int, m: int)
    requires 0 <= a < m
    ensures a % m == a
  {
    DivModUnique(a, 0, a, m);
  }

  lemma ModMod(a: int, m: int)
    requires 0 < m
    ensures a % m % m == a % m
  {
    ModSmall(a % m, m);
  }

  lemma ModAddCong(a: int, a': int, b: int, b': int, m: int)
    requires 0 < m && a % m == a' % m && b % m == b' % m
    ensures (a + b) % m == (a' + b') % m
  {
    var i := ModDiff(a, a', m);
    var j := ModDiff(b, b', m);
    assert a + b == (a' + b') + (i + j) * m;
    ModShift(a' + b', i + j, m);
  }

  lemma ModSubCong(a: int, a': int, b: int, b': int, m: int)
    requires 0 < m && a % m == a' % m && b % m == b' % m
    ensures (a - b) % m == (a' - b') % m
  {
    var i := ModDiff(a, a', m);
    var j := ModDiff(b, b', m);
    assert a - b == (a' - b') + (i - j) * m;
    ModShift(a' - b', i - j, m);
  }

  lemma ModMulCong(a: int, a': int, b: int, b': int, m: int)
    requires 0 < m && a % m == a' % m && b % m == b' % m
    ensures (a * b) % m == (a' * b') % m
  {
    var i := ModDiff(a, a', m);
    var j := ModDiff(b, b', m);
    var im, jm := i * m, j * m;
    assert a * b == (a' + im) * (b' + jm);
    assert (a' + im) * (b' + jm) == a' * b' + a' * jm + im * b' + im * jm;
    assert a' * jm == (a' * j) * m;
    assert im * b' == (i * b') * m;
    assert im * jm == (im * j) * m;
    var k := a' * j + i * b' + im * j;
    assert k * m == (a' * j) * m + (i * b') * m + (im * j) * m;
    ModShift(a' * b', k, m);
  }

  // ----- divisibility

  /** d divides n, for a positive d. */
  predicate Divides(d: int, n: int) {
    d > 0 && n % d == 0
  }

  lemma DividesWitness(d: int, n: int) returns (k: int)
    requires Divides(d, n)
    ensures n == k * d
  {
    k := n / d;
  }

  lemma DividesIntro(d: int, k: int)
    requires d > 0
    ensures Divides(d, k * d)
  {
    DivModUnique(k * d, k, 0, d);
  }

  lemma DividesMul(d: int, a: int, b: int)
    requires Divides(d, a)
    ensures Divides(d, a * b) && Divides(d, b * a)
  {
    var k := DividesWitness(d, a);
    assert a * b == (k * b) * d;
    DividesIntro(d, k * b);
  }

  lemma DividesSum(d: int, a: int, b: int)
    requires Divides(d, a) && Divides(d, b)
    ensures Divides(d, a + b) && Divides(d, a - b)
  {
    var i := DividesWitness(d, a);
    var j := DividesWitness(d, b);
    assert a + b == (i + j) * d && a - b == (i - j) * d;
    DividesIntro(d, i + j);
    DividesIntro(d, i - j);
  }

  lemma DividesTrans(d: int, a: int, b: int)
    requires Divides(d, a) && Divides(a, b)
    ensures Divides(d, b)
  {
    var k := DividesWitness(a, b);
    DividesMul(d, a, k);
  }

  lemma DividesBound(d: int, n: int)
    requires Divides(d, n) && n > 0
    ensures d <= n
  {
    var k := DividesWitness(d, n);
    if k <= 0 {
      MulMono(k, 0, d);
    } else {
      MulMono(1, k, d);
    }
  }

  /** Congruence is divisibility of the difference. */
  lemma CongIffDivides(a: int, b: int, m: int)
    requires 0 < m
    ensures a % m == b % m <==> Divides(m, a - b)
  {
    if a % m == b % m {
      var k := ModDiff(a, b, m);
      DividesIntro(m, k);
    }
    if Divides(m, a - b) {
      var k := DividesWitness(m, a - b);
      ModShift(b, k, m);
    }
  }

  /** A congruence modulo m holds modulo every divisor of m. */
  lemma CongDivisor(a: int, b: int, m: int, d: int)
    requires 0 < m && a % m == b % m && Divides(d, m)
    ensures a % d == b % d
  {
    CongIffDivides(a, b, m);
    DividesTrans(d, m, a - b);
    CongIffDivides(a, b, d);
  }

  // ----- powers

  function Pow(b: int, e: nat): int {
    if e == 0 then 1 else b * Pow(b, e - 1)
  }

  lemma {:induction false} PowPositive(b: int, e: nat)
    requires 0 < b
    ensures 0 < Pow(b, e)
  {
    if e > 0 {
      PowPositive(b, e - 1);
    }
  }

  lemma {:induction false} PowNonNeg(b: int, e: nat)
    requires 0 <= b
    ensures 0 <= Pow(b, e)
  {
    if e > 0 {
      PowNonNeg(b, e - 1);
    }
  }

  lemma {:induction false} PowAdd(b: int, x: nat, y: nat)
    ensures Pow(b, x + y) == Pow(b, x) * Pow(b, y)
  {
    if x > 0 {
      PowAdd(b, x - 1, y);
      assert Pow(b, x + y) == b * Pow(b, x - 1 + y);
      assert b * (Pow(b, x - 1) * Pow(b, y)) == (b * Pow(b, x - 1)) * Pow(b, y);
    }
  }

  lemma {:induction false} PowMul(b: int, x: nat, y: nat)
    ensures x * y >= 0 && Pow(b, x * y) == Pow(Pow(b, x), y)
  {
    if y > 0 {
      PowMul(b, x, y - 1);
      assert x * y == x + x * (y - 1);
      PowAdd(b, x, x * (y - 1));
    }
  }

  lemma {:induction false} PowOne(e: nat)
    ensures Pow(1, e) == 1
  {
    if e > 0 {
      PowOne(e - 1);
    }
  }

  lemma {:induction false} PowMono(b: int, x: nat, y: nat)
    requires 1 <= b && x <= y
    ensures Pow(b, x) <= Pow(b, y)
  {
    if x < y {
      PowMono(b, x, y - 1);
      PowPositive(b, y - 1);
      MulMono(1, b, Pow(b, y - 1));
    }
  }

  lemma {:induction false} PowCong(a: int, b: int, e: nat, m: int)
    requires 0 < m && a % m == b % m
    ensures Pow(a, e) % m == Pow(b, e) % m
  {
    if e > 0 {
      PowCong(a, b, e - 1, m);
      ModMulCong(a, b, Pow(a, e - 1), Pow(b, e - 1), m);
    }
  }

  // ----- greatest common divisor

  function Gcd(a: nat, b: nat): nat
    decreases b
  {
    if b == 0 then a else Gcd(b, a % b)
  }

  /** Bezout coefficients, by the same recursion. */
  function Bezout(a: nat, b: nat): (int, int)
    decreases b
  {
    if b == 0 then (1, 0)
    else
      var (x, y) := Bezout(b, a % b);
      (y, x - (a / b) * y)
  }

  lemma BezoutStep(a: int, b: int, q: int, r: int, x: int, y: int)
    requires a == q * b + r
    ensures a * y + b * (x - q * y) == b * x + r * y
  {
    MulDist(y, q * b, r);
    MulDist(b, x, q * y);
    MulAssoc(b, q, y);
  }

  lemma {:induction false} BezoutIdentity(a: nat, b: nat)
    ensures var (x, y) := Bezout(a, b); a * x + b * y == Gcd(a, b)
    decreases b
  {
    if b > 0 {
      var q, r := a / b, a % b;
      DivModSum(a, b);
      BezoutIdentity(b, r);
      var (x, y) := Bezout(b, r);
      BezoutStep(a, b, q, r, x, y);
    }
  }

  lemma DividesStep(g: int, a: int, b: int)
    requires b > 0 && Divides(g, b) && Divides(g, a % b)
    ensures Divides(g, a)
  {
    var k := a / b;
    assert a == k * b + a % b;
    DividesMul(g, b, k);
    DividesSum(g, k * b, a % b);
  }

  lemma {:induction false} GcdDivides(a: nat, b: nat)
    requires a > 0 || b > 0
    ensures Gcd(a, b) > 0 && Divides(Gcd(a, b), a) && Divides(Gcd(a, b), b)
    decreases b
  {
    if b == 0 {
      assert a == 1 * a;
      DividesIntro(a, 1);
      DividesIntro(a, 0);
    } else {
      GcdDivides(b, a % b);
      DividesStep(Gcd(b, a % b), a, b);
    }
  }

  /** Every common divisor divides the gcd, so the gcd is the greatest one. */
  lemma GcdGreatest(d: int, a: nat, b: nat)
    requires Divides(d, a) && Divides(d, b)
    ensures Divides(d, Gcd(a, b))
  {
    BezoutIdentity(a, b);
    var (x, y) := Bezout(a, b);
    DividesMul(d, a, x);
    DividesMul(d, b, y);
    DividesSum(d, a * x, b * y);
  }

  lemma BezoutScaled(a: int, x: int, n: int, y: int, b: int)
    requires a * x + n * y == 1
    ensures (a * b) * x + (y * b) * n == b
  {
    assert (a * b) * x == b * (a * x);
    assert (y * b) * n == b * (n * y);
    assert b * (a * x) + b * (n * y) == b * (a * x + n * y);
  }

  /** If n divides a*b and is coprime to a, then it divides b. */
  lemma CoprimeDivides(n: nat, a: nat, b: int)
    requires n > 0 && Gcd(a, n) == 1 && Divides(n, a * b)
    ensures Divides(n, b)
  {
    BezoutIdentity(a, n);
    var (x, y) := Bezout(a, n);
    DividesMul(n, a * b, x);
    DividesIntro(n, y * b);
    DividesSum(n, (a * b) * x, (y * b) * n);
    BezoutScaled(a, x, n, y, b);
  }

  // ----- primes

  ghost predicate Prime(p: int) {
    p >= 2 && forall d :: Divides(d, p) ==> d == 1 || d == p
  }

  lemma PrimeCoprime(p: int, a: nat)
    requires Prime(p) && !Divides(p, a)
    ensures Gcd(a, p) == 1
  {
    GcdDivides(a, p);
  }

  /** Euclid's lemma. */
  lemma EuclidLemma(p: int, a: nat, b: int)
    requires Prime(p) && Divides(p, a * b)
    ensures Divides(p, a) || Divides(p, b)
  {
    if !Divides(p, a) {
      PrimeCoprime(p, a);
      CoprimeDivides(p, a, b);
    }
  }

  lemma DistinctPrimesCoprime(p: int, q: int)
    requires Prime(p) && Prime(q) && p != q
    ensures Gcd(q, p) == 1
  {
    GcdDivides(q, p);
  }

  /** Two different primes dividing n divide it together. */
  lemma PrimesDivideProduct(p: int, q: int, n: int)
    requires Prime(p) && Prime(q) && p != q && Divides(p, n) && Divides(q, n)
    ensures p * q > 0 && Divides(p * q, n)
  {
    var k := DividesWitness(p, n);
    assert n == p * k;
    DistinctPrimesCoprime(q, p);
    CoprimeDivides(q, p, k);
    var j := DividesWitness(q, k);
    assert n == j * (p * q);
    MulMono(1, p, q);
    DividesIntro(p * q, j);
  }

  // ----- Fermat's little theorem, by the binomial theorem

  function Choose(n: nat, k: nat): nat {
    if k == 0 then 1
    else if n == 0 then 0
    else Choose(n - 1, k - 1) + Choose(n - 1, k)
  }

  lemma {:induction false} ChooseBeyond(n: nat, k: nat)
    requires k > n
    ensures Choose(n, k) == 0
  {
    if n > 0 {
      ChooseBeyond(n - 1, k - 1);
      ChooseBeyond(n - 1, k);
    }
  }

  lemma {:induction false} ChooseDiagonal(n: nat)
    ensures Choose(n, n) == 1
  {
    if n > 0 {
      ChooseDiagonal(n - 1);
      ChooseBeyond(n - 1, n);
    }
  }

  lemma AbsorbStep(n: int, k: int, c0: int, c1: int, c2: int)
    requires (k - 1) * (c0 + c1) == (n - 1) * c0
    requires k * c2 == (n - 1) * c1
    ensures k * (c0 + c1 + c2) == n * (c0 + c1)
  {
    assert k * (c0 + c1 + c2) == k * (c0 + c1) + k * c2;
    assert k * (c0 + c1) == (k - 1) * (c0 + c1) + (c0 + c1);
    assert (n - 1) * c0 + (n - 1) * c1 == (n - 1) * (c0 + c1);
  }

  /** The absorption identity k * C(n, k) = n * C(n - 1, k - 1). */
  lemma {:induction false} ChooseAbsorb(n: nat, k: nat)
    requires 1 <= n && 1 <= k
    ensures k * Choose(n, k) == n * Choose(n - 1, k - 1)
  {
    if n == 1 {
      if k > 1 {
        ChooseBeyond(0, k - 1);
        ChooseBeyond(0, k);
      }
    } else if k == 1 {
      ChooseAbsorb(n - 1, 1);
    } else {
      ChooseAbsorb(n - 1, k - 1);
      ChooseAbsorb(n - 1, k);
      AbsorbStep(n, k, Choose(n - 2, k - 2), Choose(n - 2, k - 1), Choose(n - 1, k));
    }
  }

  /** The first m + 1 terms of the expansion of (a + 1)^n. */
  function BinomialSum(a: nat, n: nat, m: nat): nat {
    PowNonNeg(a, m);
    Choose(n, m) * Pow(a, m) + if m == 0 then 0 else BinomialSum(a, n, m - 1)
  }

  lemma PascalTerm(x: int, y: int, a: int, pm: int)
    ensures (x + y) * (a * pm) == y * (a * pm) + a * (x * pm)
  {
    MulDist(a * pm, x, y);
    MulAssoc(x, a, pm);
  }

  lemma {:induction false} BinomialPascal(a: nat, n: nat, m: nat)
    requires 1 <= n && 1 <= m
    ensures BinomialSum(a, n, m) == BinomialSum(a, n - 1, m) + a * BinomialSum(a, n - 1, m - 1)
  {
    var x, y, pm := Choose(n - 1, m - 1), Choose(n - 1, m), Pow(a, m - 1);
    assert Choose(n, m) == x + y;
    assert Pow(a, m) == a * pm;
    PascalTerm(x, y, a, pm);
    if m == 1 {
      assert BinomialSum(a, n, 0) == 1 && BinomialSum(a, n - 1, 0) == 1;
    } else {
      BinomialPascal(a, n, m - 1);
      MulDist(a, x * pm, BinomialSum(a, n - 1, m - 2));
    }
  }

  lemma BinomialTop(a: nat, n: nat)
    requires 1 <= n
    ensures BinomialSum(a, n - 1, n) == BinomialSum(a, n - 1, n - 1)
  {
    ChooseBeyond(n - 1, n);
    PowNonNeg(a, n);
    assert Choose(n - 1, n) * Pow(a, n) == 0;
  }

  /** The binomial theorem. */
  lemma {:induction false} BinomialTheorem(a: nat, n: nat)
    ensures BinomialSum(a, n, n) == Pow(a + 1, n)
  {
    if n > 0 {
      BinomialTheorem(a, n - 1);
      var s := Pow(a + 1, n - 1);
      calc {
        BinomialSum(a, n, n);
        { BinomialPascal(a, n, n); }
        BinomialSum(a, n - 1, n) + a * BinomialSum(a, n - 1, n - 1);
        { BinomialTop(a, n); }
        s + a * s;
        (a + 1) * s;
        Pow(a + 1, n);
      }
    }
  }

  lemma ChoosePrime(p: int, k: int)
    requires Prime(p) && 1 <= k < p
    ensures Divides(p, Choose(p, k))
  {
    var c, c' := Choose(p, k), Choose(p - 1, k - 1);
    assert k * c == c' * p by {
      ChooseAbsorb(p, k);
    }
    DividesIntro(p, c');
    EuclidLemma(p, k, c);
    if Divides(p, k) {
      DividesBound(p, k);
    }
  }

  lemma AddMultiple(p: int, c: int, w: int, s: int)
    requires Divides(p, c)
    ensures (c * w + s) % p == s % p
  {
    DividesMul(p, c, w);
    var k := DividesWitness(p, c * w);
    ModShift(s, k, p);
  }

  lemma {:induction false} BinomialMiddle(a: nat, p: int, m: nat)
    requires Prime(p) && m < p
    ensures BinomialSum(a, p, m) % p == 1
    decreases m
  {
    if m == 0 {
      assert BinomialSum(a, p, 0) == 1;
      ModSmall(1, p);
    } else {
      BinomialMiddle(a, p, m - 1);
      ChoosePrime(p, m);
      var c, w, s := Choose(p, m), Pow(a, m), BinomialSum(a, p, m - 1);
      assert BinomialSum(a, p, m) == c * w + s;
      AddMultiple(p, c, w, s);
    }
  }

  /** Fermat's little theorem: a^p = a modulo a prime p. */
  lemma {:induction false} Fermat(a: nat, p: int)
    requires Prime(p)
    ensures Pow(a, p) % p == a % p
  {
    if a == 0 {
      assert Pow(0, p) == 0 * Pow(0, p - 1);
    } else {
      Fermat(a - 1, p);
      BinomialTheorem(a - 1, p);
      BinomialMiddle(a - 1, p, p - 1);
      ChooseDiagonal(p);
      assert Pow(a, p) == Pow(a - 1, p) + BinomialSum(a - 1, p, p - 1);
      ModSmall(1, p);
      ModAddCong(Pow(a - 1, p), a - 1, BinomialSum(a - 1, p, p - 1), 1, p);
    }
  }

  /** Fermat's little theorem for a unit. */
  lemma FermatUnit(a: nat, p: int)
    requires Prime(p) && !Divides(p, a)
    ensures Pow(a, p - 1) % p == 1
  {
    Fermat(a, p);
    CongIffDivides(Pow(a, p), a, p);
    assert a * (Pow(a, p - 1) - 1) == Pow(a, p) - a;
    EuclidLemma(p, a, Pow(a, p - 1) - 1);
    CongIffDivides(Pow(a, p - 1), 1, p);
    ModSmall(1, p);
  }

  /** Raising to an exponent x = 1 mod (p - 1) is the identity modulo p,
      multiples of p included. */
  lemma FermatExponent(a: nat, x: nat, p: int)
    requires Prime(p) && x >= 1 && (x - 1) % (p - 1) == 0
    ensures Pow(a, x) % p == a % p
  {
    if Divides(p, a) {
      DividesMul(p, a, Pow(a, x - 1));
    } else {
      FermatUnit(a, p);
      var k := (x - 1) / (p - 1);
      assert x - 1 == (p - 1) * k;
      PowMul(a, p - 1, k);
      ModSmall(1, p);
      PowCong(Pow(a, p - 1), 1, k, p);
      PowOne(k);
      assert Pow(a, x - 1) % p == 1 % p;
      ModMulCong(a, a, Pow(a, x - 1), 1, p);
    }
  }
}
