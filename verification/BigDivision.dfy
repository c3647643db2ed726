/** Binary long division, modular powers, the signed-magnitude extended Euclidean
    algorithm and modular inverses of crypto/rsa.rs. */
module BigDivision {
  import opened Options
  import opened NumberTheory
  import opened Bits
  import opened Limbs
  import opened BigUints
  import opened BigShift

  // ----- division

  /** One subtraction of long division: d * p moves from remainder to quotient. */
  lemma DivisionStep(n: int, q: int, r: int, d: int, p: int, q': int, r': int)
    requires n == q * d + r && 0 < d && 0 < p && q' == q + p && r' == r - d * p
    ensures n == q' * d + r' && r' < r
  {
    MulDist(d, q, p);
    MulMono(1, p, d);
  }

  /** The divisor shifted to one bit below the remainder's length fits in it. */
  lemma ShiftBelow(d: nat, r: nat)
    requires 0 < d <= r
    ensures BitLen(d) <= BitLen(r)
    ensures d * Pow(2, BitLen(r) - BitLen(d)) > r ==> BitLen(d) < BitLen(r)
    ensures BitLen(d) < BitLen(r) ==> d * Pow(2, BitLen(r) - BitLen(d) - 1) <= r
  {
    var dBits, rBits := BitLen(d), BitLen(r);
    var dTop := dBits - 1;
    if dBits > rBits {
      PowMono(2, rBits, dTop);
    } else if dBits == rBits {
      assert Pow(2, 0) == 1;
    } else {
      var k := rBits - dBits - 1;
      PowPositive(2, k);
      MulMono(d, Pow(2, dBits), Pow(2, k));
      PowAdd(2, dBits, k);
    }
  }

  /** Panics on a zero divisor in the source, hence the precondition. */
  method DivRem(a: Big, d: Big) returns (quotient: Big, remainder: Big)
    requires Val(d) > 0
    ensures Val(a) == Val(quotient) * Val(d) + Val(remainder)
    ensures Val(remainder) < Val(d)
    ensures Val(quotient) == Val(a) / Val(d) && Val(remainder) == Val(a) % Val(d)
  {
    SmallValues();
    var order := Cmp(a, d);
    quotient, remainder := ZERO, a;
    if order != Less {
      var dBits := BitCount(d);
      order := Cmp(remainder, d);
      while order != Less
        invariant Val(a) == Val(quotient) * Val(d) + Val(remainder)
        invariant order == Less <==> Val(remainder) < Val(d)
        decreases Val(remainder)
      {
        quotient, remainder := DivStep(a, d, dBits, quotient, remainder);
        order := Cmp(remainder, d);
      }
    }
    DivModUnique(Val(a), Val(quotient), Val(remainder), Val(d));
  }

  /** Aligns the divisor with the remainder, one bit lower if that is too much. */
  method Align(d: Big, dBits: nat, remainder: Big) returns (shift: nat, shifted: Big)
    requires 0 < Val(d) <= Val(remainder) && dBits == BitLen(Val(d))
    ensures Val(shifted) == Val(d) * Pow(2, shift) <= Val(remainder)
  {
    var rBits := BitCount(remainder);
    ShiftBelow(Val(d), Val(remainder));
    shift := rBits - dBits;
    shifted := Shl(d, shift);
    var order := Cmp(shifted, remainder);
    if order == Greater {
      // The source leaves the loop here if shift is 0; that cannot happen.
      shift := shift - 1;
      shifted := Shl(d, shift);
    }
  }

  /** The body of the division loop. */
  method DivStep(ghost a: Big, d: Big, dBits: nat, quotient: Big, remainder: Big)
      returns (quotient': Big, remainder': Big)
    requires 0 < Val(d) <= Val(remainder) && dBits == BitLen(Val(d))
    requires Val(a) == Val(quotient) * Val(d) + Val(remainder)
    ensures Val(a) == Val(quotient') * Val(d) + Val(remainder')
    ensures Val(remainder') < Val(remainder)
  {
    SmallValues();
    var shift, shifted := Align(d, dBits, remainder);
    var bit := Shl(ONE, shift);
    quotient' := Add(quotient, bit);
    remainder' := Sub(remainder, shifted);
    PowPositive(2, shift);
    DivisionStep(Val(a), Val(quotient), Val(remainder), Val(d), Pow(2, shift), Val(quotient'), Val(remainder'));
  }

  method Modulo(a: Big, m: Big) returns (r: Big)
    requires Val(m) > 0
    ensures Val(r) == Val(a) % Val(m)
  {
    var q, rem := DivRem(a, m);
    r := rem;
  }

  method MulMod(a: Big, b: Big, m: Big) returns (r: Big)
    requires Val(m) > 0
    ensures Val(r) == (Val(a) * Val(b)) % Val(m)
  {
    var product := Mul(a, b);
    r := Modulo(product, m);
  }

  // ----- square and multiply

  /** b^e = (b^2)^(e/2) * b^(e mod 2). */
  lemma SquareStep(b: int, e: nat)
    ensures Pow(b, e) == (if e % 2 == 1 then b else 1) * Pow(b * b, e / 2)
  {
    var k := e / 2;
    PowMul(b, 2, k);
    assert Pow(b, 2) == b * (b * Pow(b, 0)) == b * b;
    if e % 2 == 1 {
      assert e == 2 * k + 1;
    }
  }

  /** Squaring the base and halving the exponent keeps result * base^e modulo m. */
  lemma PowModStep(result: int, base: int, e: nat, m: int, result': int, base': int)
    requires m > 0 && e > 0
    requires result' % m == (if e % 2 == 1 then result * base else result) % m
    requires base' % m == (base * base) % m
    ensures (result' * Pow(base', e / 2)) % m == (result * Pow(base, e)) % m
  {
    var k, f := e / 2, if e % 2 == 1 then base else 1;
    PowCong(base', base * base, k, m);
    ModMulCong(result', result * f, Pow(base', k), Pow(base * base, k), m);
    SquareStep(base, e);
    MulAssoc(result, f, Pow(base * base, k));
  }

  method ModPow(b: Big, exp: Big, m: Big) returns (result: Big)
    requires Val(m) > 0
    ensures Val(result) == Pow(Val(b), Val(exp)) % Val(m)
  {
    SmallValues();
    var unit := IsOne(m);
    if unit {
      return ZERO;
    }
    result := ONE;
    var base := Modulo(b, m);
    var e := exp;
    ModMod(Val(b), Val(m));
    PowCong(Val(base), Val(b), Val(exp), Val(m));
    ModSmall(1, Val(m));
    var done := IsZero(e);
    while !done
      invariant done <==> Val(e) == 0
      invariant Val(result) < Val(m)
      invariant (Val(result) * Pow(Val(base), Val(e))) % Val(m) == Pow(Val(b), Val(exp)) % Val(m)
      decreases Val(e)
    {
      result, base, e := ModPowStep(result, base, e, m);
      done := IsZero(e);
    }
    ModSmall(Val(result), Val(m));
  }

  /** The body of the square-and-multiply loop. */
  method ModPowStep(result: Big, base: Big, e: Big, m: Big) returns (result': Big, base': Big, e': Big)
    requires Val(m) > 0 && Val(e) > 0 && Val(result) < Val(m)
    ensures Val(result') < Val(m) && Val(e') == Val(e) / 2
    ensures (Val(result') * Pow(Val(base'), Val(e'))) % Val(m)
         == (Val(result) * Pow(Val(base), Val(e))) % Val(m)
  {
    result' := result;
    var even := IsEven(e);
    if !even {
      result' := MulMod(result, base, m);
      ModMod(Val(result) * Val(base), Val(m));
    }
    base' := MulMod(base, base, m);
    ModMod(Val(base) * Val(base), Val(m));
    e' := Shr(e, 1);
    assert Pow(2, 1) == 2 * Pow(2, 0) == 2;
    PowModStep(Val(result), Val(base), Val(e), Val(m), Val(result'), Val(base'));
  }

  // ----- extended Euclid

  /** The integer a magnitude and a sign flag stand for. */
  function Signed(magnitude: Big, negative: bool): int {
    if negative then 0 - Val(magnitude) else Val(magnitude)
  }

  /** old - q * cur on signed magnitudes. */
  method SignedStep(old_: Big, oldNeg: bool, q: Big, cur: Big, curNeg: bool)
      returns (r: Big, neg: bool)
    ensures Signed(r, neg) == Signed(old_, oldNeg) - Val(q) * Signed(cur, curNeg)
  {
    var qs := Mul(q, cur);
    MulDist(Val(q), 0, Val(cur));
    if oldNeg == curNeg {
      var order := Cmp(old_, qs);
      if order != Less {
        r := Sub(old_, qs);
        neg := oldNeg;
      } else {
        r := Sub(qs, old_);
        neg := !oldNeg;
      }
    } else {
      r := Add(old_, qs);
      neg := oldNeg;
    }
  }

  lemma EuclidRow(a: int, b: int, s0: int, t0: int, r0: int, s1: int, t1: int, r1: int, q: int)
    requires a * s0 + b * t0 == r0 && a * s1 + b * t1 == r1
    ensures a * (s0 - q * s1) + b * (t0 - q * t1) == r0 - q * r1
  {
    MulDist(a, s0, q * s1);
    MulDist(b, t0, q * t1);
    MulAssoc(a, q, s1);
    MulAssoc(b, q, t1);
    MulDist(q, a * s1, b * t1);
  }

  lemma UnitRows(a: int, b: int)
    ensures a * 1 + b * 0 == a && a * 0 + b * 1 == b
  {
  }

  /** Returns the gcd and Bezout coefficients as magnitudes with sign flags. */
  method ExtendedGcd(a: Big, b: Big) returns (g: Big, x: Big, y: Big, xNeg: bool, yNeg: bool)
    ensures Val(g) == Gcd(Val(a), Val(b))
    ensures Val(a) * Signed(x, xNeg) + Val(b) * Signed(y, yNeg) == Val(g)
  {
    SmallValues();
    UnitRows(Val(a), Val(b));
    var zero := IsZero(b);
    if zero {
      return a, ONE, ZERO, false, false;
    }
    var r, s, t := b, ZERO, ONE;
    var sNeg, tNeg := false, false;
    g, x, y, xNeg, yNeg := a, ONE, ZERO, false, false;
    var done := IsZero(r);
    while !done
      invariant done <==> Val(r) == 0
      invariant Gcd(Val(g), Val(r)) == Gcd(Val(a), Val(b))
      invariant Val(a) * Signed(x, xNeg) + Val(b) * Signed(y, yNeg) == Val(g)
      invariant Val(a) * Signed(s, sNeg) + Val(b) * Signed(t, tNeg) == Val(r)
      decreases Val(r)
    {
      var q, rem := DivRem(g, r);
      var newS, newSNeg := SignedStep(x, xNeg, q, s, sNeg);
      var newT, newTNeg := SignedStep(y, yNeg, q, t, tNeg);
      EuclidRow(Val(a), Val(b), Signed(x, xNeg), Signed(y, yNeg), Val(g),
                Signed(s, sNeg), Signed(t, tNeg), Val(r), Val(q));
      g, r := r, rem;
      x, xNeg, s, sNeg := s, sNeg, newS, newSNeg;
      y, yNeg, t, tNeg := t, tNeg, newT, newTNeg;
      done := IsZero(r);
    }
  }

  /** a * x = 1 mod m, from a Bezout identity a * x + m * y = 1. */
  lemma InverseFromBezout(a: int, x: int, m: int, y: int, r: int)
    requires m > 0 && a * x + m * y == 1 && r % m == x % m
    ensures (a * r) % m == 1 % m
  {
    ModMulCong(a, a, r, x, m);
    ModShift(1, -y, m);
    assert a * x == 1 + (-y) * m;
  }

  /** The source divides by zero only for m = 0 and self = 1. */
  method ModInverse(a: Big, m: Big) returns (r: Option<Big>)
    requires Val(m) > 0 || Val(a) != 1
    ensures r.Some? <==> Gcd(Val(a), Val(m)) == 1
    ensures r.Some? && Val(m) > 0 ==> (Val(a) * Val(r.value)) % Val(m) == 1 % Val(m)
    ensures r.Some? && Val(m) >= 2 ==> 0 < Val(r.value) < Val(m)
  {
    var g, x, y, xNeg, yNeg := ExtendedGcd(a, m);
    var unit := IsOne(g);
    if !unit {
      return None;
    }
    var reduced := Modulo(x, m);
    if xNeg {
      var inverse := Sub(m, reduced);
      InverseCorrect(Val(a), Val(x), Val(m), 0 - Val(x), Signed(y, yNeg), Val(inverse));
      r := Some(inverse);
    } else {
      InverseCorrect(Val(a), Val(x), Val(m), Val(x), Signed(y, yNeg), Val(reduced));
      r := Some(reduced);
    }
  }

  /** Reducing a Bezout coefficient of either sign gives the inverse. */
  lemma InverseCorrect(a: int, x: int, m: int, signed: int, y: int, r: int)
    requires m > 0 && a * signed + m * y == 1
    requires (signed == x && r == x % m) || (signed == 0 - x && r == m - x % m)
    ensures (a * r) % m == 1 % m
    ensures m >= 2 ==> 0 < r < m
  {
    ModMod(x, m);
    if signed != x || r != x % m {
      ModSubCong(0, 0, x % m, x, m);
      ModShift(0 - x % m, 1, m);
    }
    InverseFromBezout(a, signed, m, y, r);
    if m >= 2 {
      InverseInRange(a, r, m);
    }
  }

  /** An inverse modulo m >= 2 is neither 0 nor m. */
  lemma InverseInRange(a: int, r: int, m: int)
    requires m >= 2 && 0 <= r <= m && (a * r) % m == 1 % m
    ensures 0 < r < m
  {
    ModSmall(1, m);
    if r == 0 {
      ModSmall(0, m);
    } else if r == m {
      ModShift(0, a, m);
      ModSmall(0, m);
    }
  }
}
