/** The Miller-Rabin test of crypto/rsa.rs. The random bases it draws are a parameter;
    the test is proved to compute the strong-probable-prime predicate and, through
    Fermat's theorem, never to reject a prime. */
module MillerRabin {
  import opened NumberTheory
  import opened Bits
  import opened Limbs
  import opened BigUints
  import opened BigShift
  import opened BigDivision

  // ----- m = OddPart(m) * 2^Twos(m)

  function Twos(m: nat): nat
    requires m > 0
  {
    if m % 2 == 0 then 1 + Twos(m / 2) else 0
  }

  function OddPart(m: nat): (d: nat)
    requires m > 0
    ensures d % 2 == 1
  {
    if m % 2 == 0 then OddPart(m / 2) else m
  }

  lemma {:induction false} TwoAdic(m: nat)
    requires m > 0
    ensures m == OddPart(m) * Pow(2, Twos(m))
  {
    if m % 2 == 0 {
      TwoAdic(m / 2);
      MulAssoc(2, OddPart(m / 2), Pow(2, Twos(m / 2)));
    }
  }

  // ----- the strong-probable-prime predicate

  /** a^(d * 2^r). */
  function Squaring(a: nat, d: nat, r: nat): int {
    if r == 0 then Pow(a, d) else Squaring(a, d, r - 1) * Squaring(a, d, r - 1)
  }

  lemma {:induction false} SquaringPower(a: nat, d: nat, r: nat)
    ensures d * Pow(2, r) >= 0 && Squaring(a, d, r) == Pow(a, d * Pow(2, r))
  {
    PowPositive(2, r);
    MulNonNeg(d, Pow(2, r));
    if r > 0 {
      SquaringPower(a, d, r - 1);
      var e := d * Pow(2, r - 1);
      MulAssoc(2, d, Pow(2, r - 1));
      PowAdd(a, e, e);
    }
  }

  /** a^d = 1, or a^(d * 2^r) = -1 for some r < s, modulo n. */
  ghost predicate Strong(n: nat, a: nat, d: nat, s: nat)
    requires n > 0
  {
    Squaring(a, d, 0) % n == 1 || exists r :: 0 <= r < s && Squaring(a, d, r) % n == n - 1
  }

  /** n passes the test for base a. */
  ghost predicate StrongProbablePrime(n: nat, a: nat)
    requires n >= 2
  {
    Strong(n, a, OddPart(n - 1), Twos(n - 1))
  }

  // ----- primes pass

  /** Modulo a prime, 1 has no square roots but 1 and -1. */
  lemma RootsOfUnity(y: nat, p: int)
    requires Prime(p) && (y * y) % p == 1
    ensures y % p == 1 || y % p == p - 1
  {
    ModSmall(1, p);
    CongIffDivides(y * y, 1, p);
    assert (y + 1) * (y - 1) == y * y - 1;
    EuclidLemma(p, y + 1, y - 1);
    CongIffDivides(y, -1, p);
    CongIffDivides(y, 1, p);
    DivModUnique(-1, -1, p - 1, p);
  }

  lemma {:induction false} UnityImpliesStrong(n: nat, a: nat, d: nat, s: nat, r: nat)
    requires Prime(n) && r <= s && Squaring(a, d, r) % n == 1
    ensures Strong(n, a, d, s)
  {
    if r > 0 {
      var y := Squaring(a, d, r - 1);
      SquaringPower(a, d, r - 1);
      PowNonNeg(a, d * Pow(2, r - 1));
      RootsOfUnity(y, n);
      if y % n == 1 {
        UnityImpliesStrong(n, a, d, s, r - 1);
      }
    }
  }

  /** A prime passes for every base it does not divide. */
  lemma PrimePasses(n: nat, a: nat)
    requires Prime(n) && 1 <= a < n
    ensures StrongProbablePrime(n, a)
  {
    var d, s := OddPart(n - 1), Twos(n - 1);
    if Divides(n, a) {
      DividesBound(n, a);
    }
    FermatUnit(a, n);
    TwoAdic(n - 1);
    SquaringPower(a, d, s);
    UnityImpliesStrong(n, a, d, s, s);
  }

  // ----- composites fail for some base

  /** A proper divisor of n is a base for which n fails. */
  lemma DivisorFails(n: nat, g: nat)
    requires n >= 3 && 1 < g < n && Divides(g, n)
    ensures !StrongProbablePrime(n, g)
  {
    var d, s := OddPart(n - 1), Twos(n - 1);
    forall r: nat
      ensures Squaring(g, d, r) % n != 1 && Squaring(g, d, r) % n != n - 1
    {
      DivisorPower(n, g, d, r);
    }
  }

  lemma DivisorPower(n: nat, g: nat, d: nat, r: nat)
    requires n >= 3 && 1 < g < n && Divides(g, n) && d >= 1
    ensures Squaring(g, d, r) % n != 1 && Squaring(g, d, r) % n != n - 1
  {
    var y := Squaring(g, d, r);
    SquaringPower(g, d, r);
    PowPositive(2, r);
    MulMono(1, d, Pow(2, r));
    var e := d * Pow(2, r);
    DividesIntro(g, Pow(g, e - 1));
    assert y == Pow(g, e - 1) * g;
    ModMod(y, n);
    CongDivisor(y, y % n, n, g);
    if y % n == 1 {
      ModSmall(1, g);
    } else if y % n == n - 1 {
      CongIffDivides(n - 1, 0, g);
      DividesSum(g, n, n - 1);
      ModSmall(1, g);
    }
  }

  /** An odd number is prime exactly when it passes for every base the source may draw. */
  lemma PrimeIffAllBasesPass(n: nat)
    requires n >= 3 && n % 2 == 1
    ensures Prime(n) <==> forall a :: 2 <= a <= n - 2 ==> StrongProbablePrime(n, a)
  {
    if Prime(n) {
      forall a | 2 <= a <= n - 2
        ensures StrongProbablePrime(n, a)
      {
        PrimePasses(n, a);
      }
    } else {
      var g :| Divides(g, n) && g != 1 && g != n;
      DividesBound(g, n);
      if g == n - 1 {
        DividesSum(g, n, g);
        ModSmall(1, g);
      }
      DivisorFails(n, g);
    }
  }

  // ----- the test

  /** Strips the factors of two of an even number. */
  method Decompose(m: Big) returns (d: Big, s: nat)
    requires Val(m) > 0
    ensures Val(d) == OddPart(Val(m)) && s == Twos(Val(m))
  {
    d, s := m, 0;
    var even := IsEven(d);
    while even
      invariant Val(d) > 0 && (even <==> Val(d) % 2 == 0)
      invariant OddPart(Val(d)) == OddPart(Val(m))
      invariant s + Twos(Val(d)) == Twos(Val(m))
      decreases Val(d)
    {
      d := Shr(d, 1);
      assert Pow(2, 1) == 2 * Pow(2, 0) == 2;
      s := s + 1;
      even := IsEven(d);
    }
  }

  lemma SquaringStep(a: nat, d: nat, k: nat, x: int, n: int)
    requires n > 0 && x == Squaring(a, d, k) % n
    ensures (x * x) % n == Squaring(a, d, k + 1) % n
  {
    ModMod(Squaring(a, d, k), n);
    ModMulCong(x, Squaring(a, d, k), x, Squaring(a, d, k), n);
  }

  lemma {:induction false} OneStaysOne(n: nat, a: nat, d: nat, k: nat, r: nat)
    requires n >= 3 && k <= r && Squaring(a, d, k) % n == 1
    ensures Squaring(a, d, r) % n == 1
    decreases r
  {
    if k < r {
      OneStaysOne(n, a, d, k, r - 1);
      SquaringStep(a, d, r - 1, 1, n);
      ModSmall(1, n);
    }
  }

  /** One round of the witness loop for base a. */
  method Round(n: Big, n1: Big, d: Big, s: nat, a: Big) returns (pass: bool)
    requires Val(n) >= 3 && Val(n1) == Val(n) - 1 && s >= 1
    ensures pass <==> Strong(Val(n), Val(a), Val(d), s)
  {
    var x := ModPow(a, d, n);
    var unit := IsOne(x);
    var order := Cmp(x, n1);
    if unit || order == Equal {
      return true;
    }
    ghost var N, A, D := Val(n), Val(a), Val(d);
    var k := 0;
    while k < s - 1
      invariant 0 <= k <= s - 1 && Val(x) == Squaring(A, D, k) % N
      invariant Squaring(A, D, 0) % N != 1
      invariant forall r :: 0 <= r <= k ==> Squaring(A, D, r) % N != N - 1
    {
      SquaringStep(A, D, k, Val(x), N);
      x := MulMod(x, x, n);
      k := k + 1;
      order := Cmp(x, n1);
      if order == Equal {
        return true;
      }
      unit := IsOne(x);
      if unit {
        forall r | k <= r < s
          ensures Squaring(A, D, r) % N != N - 1
        {
          OneStaysOne(N, A, D, k, r);
        }
        return false;
      }
    }
    return false;
  }

  /** The bases stand for what random_in_range draws from [2, n - 2]; for n = 3 that
      range is empty and the source would draw for ever, so there no base exists. */
  method IsProbablyPrime(n: Big, bases: seq<Big>) returns (r: bool)
    requires Val(n) >= 3 && Val(n) % 2 == 1 ==>
               forall i :: 0 <= i < |bases| ==> 2 <= Val(bases[i]) <= Val(n) - 2
    ensures r <==> Val(n) == 2 || (Val(n) >= 3 && Val(n) % 2 == 1
                   && forall i :: 0 <= i < |bases| ==> StrongProbablePrime(Val(n), Val(bases[i])))
    ensures Prime(Val(n)) ==> r
  {
    var two := FromU64(2);
    var order := Cmp(n, two);
    if order == Less {
      return false;
    }
    var even := IsEven(n);
    if even {
      if Prime(Val(n)) {
        assert Divides(2, Val(n));
      }
      return order == Equal;
    }
    SmallValues();
    var n1 := Sub(n, ONE);
    var d, s := Decompose(n1);
    PrimeIffAllBasesPass(Val(n));
    for i := 0 to |bases|
      invariant forall j :: 0 <= j < i ==> StrongProbablePrime(Val(n), Val(bases[j]))
    {
      var pass := Round(n, n1, d, s, bases[i]);
      if !pass {
        return false;
      }
    }
    return true;
  }
}
