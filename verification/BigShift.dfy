/** Bit length and shifts of crypto/rsa.rs big integers. */
module BigShift {
  import opened NumberTheory
  import opened Bits
  import opened Limbs
  import opened BigUints

  /** 64 minus the leading zeros of a word. */
  function BitLen(x: nat): (n: nat)
    ensures x == 0 ==> n == 0
    ensures x > 0 ==> n > 0 && Pow(2, n - 1) <= x < Pow(2, n)
  {
    if x == 0 then 0
    else if x == 1 then assert Pow(2, 1) == 2 * Pow(2, 0); 1
    else
      var n := BitLen(x / 2);
      Pow2Step(n - 1);
      Pow2Step(n);
      n + 1
  }

  lemma BitLenUnique(x: nat, n: nat)
    requires n > 0 && Pow(2, n - 1) <= x < Pow(2, n)
    ensures n == BitLen(x)
  {
    PowPositive(2, n - 1);
    if n < BitLen(x) {
      PowMono(2, n, BitLen(x) - 1);
    } else if BitLen(x) < n {
      PowMono(2, BitLen(x), n - 1);
    }
  }

  method BitCount(b: Big) returns (n: nat)
    ensures n == BitLen(Val(b))
  {
    var zero := IsZero(b);
    if zero {
      return 0;
    }
    var top := b.limbs[|b.limbs| - 1];
    ValueZeroIff(b.limbs);
    ValueBits(b.limbs, BitLen(top));
    n := (|b.limbs| - 1) * 64 + BitLen(top);
    BitLenUnique(Val(b), n);
  }

  // ----- left shift

  lemma Pow2Complement(s: nat)
    requires s <= 64
    ensures Pow(2, s) > 0 && Pow(2, 64 - s) > 0 && Pow(2, 64 - s) * Pow(2, s) == U64
  {
    PowPositive(2, s);
    PowPositive(2, 64 - s);
    PowAdd(2, 64 - s, s);
    Pow2Words();
  }

  /** A shifted word is its kept low bits, moved up, and the bits shifted out. */
  lemma ShlSplit(x: u64, s: nat)
    requires s <= 64
    ensures Pow(2, 64 - s) > 0 && x * Pow(2, s) >= 0
    ensures Low(x * Pow(2, s)) == (x % Pow(2, 64 - s)) * Pow(2, s)
    ensures x * Pow(2, s) == Low(x * Pow(2, s)) + U64 * (x / Pow(2, 64 - s))
    ensures Low(x * Pow(2, s)) <= U64 - Pow(2, s)
    ensures x / Pow(2, 64 - s) < Pow(2, s)
  {
    Pow2Complement(s);
    var p, c := Pow(2, s), Pow(2, 64 - s);
    var q, r := x / c, x % c;
    MulNonNeg(x, p);
    assert x == q * c + r;
    calc {
      x * p;
      { MulDist(p, q * c, r); }
      (q * c) * p + r * p;
      { MulAssoc(q, c, p); }
      q * U64 + r * p;
    }
    MulNonNeg(r, p);
    MulMono(r, c - 1, p);
    MulDist(p, c, 1);
    DivModUnique(x * p, q, r * p, U64);
    if q >= p {
      MulMono(p, q, c);
    }
  }

  /** `(x << s) | carry` for a carry of fewer than s bits. */
  function ShlWord(x: u64, s: nat, carry: u64): (r: u64)
    requires 0 < s < 64 && carry < Pow(2, s)
    ensures Pow(2, 64 - s) > 0 && r + U64 * (x / Pow(2, 64 - s)) == x * Pow(2, s) + carry
  {
    ShlSplit(x, s);
    OrDisjoint(x % Pow(2, 64 - s), s, carry);
    Or(Low(x * Pow(2, s)), carry)
  }

  /** `x >> (64 - s)`: what a left shift by s pushes out. */
  function Spill(x: u64, s: nat): (r: u64)
    requires s <= 64
    ensures r < Pow(2, s)
  {
    ShlSplit(x, s);
    x / Pow(2, 64 - s)
  }

  function ShlSeq(x: seq<u64>, s: nat, carry: u64): (r: seq<u64>)
    requires 0 < s < 64 && carry < Pow(2, s)
    ensures |r| == |x| + 1
  {
    if |x| == 0 then [carry]
    else [ShlWord(x[0], s, carry)] + ShlSeq(x[1..], s, Spill(x[0], s))
  }

  lemma {:induction false} ShlSeqValue(x: seq<u64>, s: nat, carry: u64)
    requires 0 < s < 64 && carry < Pow(2, s)
    ensures Value(ShlSeq(x, s, carry)) == Value(x) * Pow(2, s) + carry
  {
    if |x| > 0 {
      var c := Spill(x[0], s);
      ShlSeqValue(x[1..], s, c);
      ValueCons(ShlWord(x[0], s, carry), ShlSeq(x[1..], s, c));
      MulDist(Pow(2, s), x[0], U64 * Value(x[1..]));
      MulAssoc(U64, Value(x[1..]), Pow(2, s));
    }
  }

  method ShlBits(x: seq<u64>, limbShift: nat, s: nat) returns (result: seq<u64>)
    requires 0 < s < 64
    ensures Pow(2, s) > 0 && result == Zeros(limbShift) + ShlSeq(x, s, 0)
  {
    PowPositive(2, s);
    result := Zeros(|x| + limbShift + 1);
    var carry: u64 := 0;
    for i := 0 to |x|
      invariant |result| == |x| + limbShift + 1 && carry < Pow(2, s)
      invariant result[..i + limbShift] + ShlSeq(x[i..], s, carry) == Zeros(limbShift) + ShlSeq(x, s, 0)
    {
      var word := ShlWord(x[i], s, carry);
      assert x[i..][1..] == x[i + 1..];
      Written(result, i + limbShift, word, ShlSeq(x[i + 1..], s, Spill(x[i], s)));
      result := result[i + limbShift := word];
      carry := Spill(x[i], s);
    }
    Written(result, |x| + limbShift, carry, []);
    result := result[|x| + limbShift := carry];
  }

  method ShlWords(x: seq<u64>, limbShift: nat) returns (result: seq<u64>)
    ensures result == Zeros(limbShift) + x + [0]
  {
    result := Zeros(|x| + limbShift + 1);
    for i := 0 to |x|
      invariant |result| == |x| + limbShift + 1
      invariant result == Zeros(limbShift) + x[..i] + Zeros(|x| + 1 - i)
    {
      result := result[i + limbShift := x[i]];
    }
  }

  lemma ShlWordsValue(x: seq<u64>, limbShift: nat)
    ensures Value(Zeros(limbShift) + x + [0]) == Value(x) * Pow(2, 64 * limbShift)
  {
    assert Zeros(limbShift) + x + [0] == Zeros(limbShift) + (x + [0]);
    assert (x + [0])[..|x|] == x;
    ValueDropZero(x + [0]);
    ValueShifted(limbShift, x + [0]);
  }

  lemma ShlBitsValue(x: seq<u64>, limbShift: nat, s: nat)
    requires 0 < s < 64
    ensures Pow(2, s) > 0
    ensures Value(Zeros(limbShift) + ShlSeq(x, s, 0)) == Value(x) * Pow(2, 64 * limbShift + s)
  {
    PowPositive(2, s);
    ShlSeqValue(x, s, 0);
    ValueShifted(limbShift, ShlSeq(x, s, 0));
    PowAdd(2, 64 * limbShift, s);
    MulAssoc(Pow(2, 64 * limbShift), Value(x), Pow(2, s));
  }

  method Shl(b: Big, bits: nat) returns (r: Big)
    ensures Val(r) == Val(b) * Pow(2, bits)
  {
    var zero := IsZero(b);
    if bits == 0 || zero {
      return b;
    }
    var limbShift, bitShift := bits / 64, bits % 64;
    var result: seq<u64>;
    if bitShift == 0 {
      result := ShlWords(b.limbs, limbShift);
      ShlWordsValue(b.limbs, limbShift);
    } else {
      result := ShlBits(b.limbs, limbShift, bitShift);
      ShlBitsValue(b.limbs, limbShift, bitShift);
    }
    r := Normalize(result);
  }

  // ----- right shift

  /** `(x >> s) | (next << (64 - s))`. */
  function ShrWord(x: u64, next: u64, s: nat): (r: u64)
    requires 0 < s < 64
    ensures Pow(2, s) > 0 && Pow(2, 64 - s) > 0
    ensures r == x / Pow(2, s) + (next % Pow(2, s)) * Pow(2, 64 - s)
  {
    Pow2Complement(s);
    ShlSplit(x, 64 - s);
    ShlSplit(next, 64 - s);
    OrDisjoint(next % Pow(2, s), 64 - s, x / Pow(2, s));
    Or(x / Pow(2, s), Low(next * Pow(2, 64 - s)))
  }

  function ShrSeq(x: seq<u64>, s: nat): (r: seq<u64>)
    requires 0 < s < 64
    ensures |r| == |x|
  {
    if |x| == 0 then [] else [ShrWord(x[0], Limb(x, 1), s)] + ShrSeq(x[1..], s)
  }

  lemma LowBits(x: seq<u64>, s: nat)
    requires s <= 64
    ensures Pow(2, s) > 0 && Value(x) % Pow(2, s) == Limb(x, 0) % Pow(2, s)
  {
    Pow2Complement(s);
    ValueStep(x);
    var p, c, v := Pow(2, s), Pow(2, 64 - s), Value(Rest(x, 1));
    MulAssoc(c, p, v);
    ModShift(Limb(x, 0), c * v, p);
    assert (c * v) * p == U64 * v;
  }

  lemma ShrArithmetic(x: nat, v: nat, p: nat, c: nat)
    requires p > 0 && c > 0 && c * p == U64
    ensures (x / p + (v % p) * c) + U64 * (v / p) == (x + U64 * v) / p
  {
    var q, r := v / p, v % p;
    assert v == q * p + r;
    var t := x / p + r * c + U64 * q;
    calc {
      t * p;
      { MulDist(p, x / p + r * c, U64 * q); MulDist(p, x / p, r * c); }
      (x / p) * p + (r * c) * p + (U64 * q) * p;
      { MulAssoc(r, c, p); MulAssoc(U64, q, p); }
      (x - x % p) + U64 * r + U64 * (q * p);
    }
    DivModUnique(x + U64 * v, t, x % p, p);
  }

  lemma {:induction false} ShrSeqValue(x: seq<u64>, s: nat)
    requires 0 < s < 64
    ensures Pow(2, s) > 0 && Value(ShrSeq(x, s)) == Value(x) / Pow(2, s)
  {
    Pow2Complement(s);
    if |x| > 0 {
      ShrSeqValue(x[1..], s);
      ValueCons(ShrWord(x[0], Limb(x, 1), s), ShrSeq(x[1..], s));
      LowBits(x[1..], s);
      assert Limb(x[1..], 0) == Limb(x, 1);
      ShrArithmetic(x[0], Value(x[1..]), Pow(2, s), Pow(2, 64 - s));
    }
  }

  method ShrBits(x: seq<u64>, s: nat) returns (result: seq<u64>)
    requires 0 < s < 64
    ensures result == ShrSeq(x, s)
  {
    result := Zeros(|x|);
    for i := 0 to |x|
      invariant |result| == |x|
      invariant result[..i] + ShrSeq(x[i..], s) == ShrSeq(x, s)
    {
      var word := ShrWord(x[i], Limb(x, i + 1), s);
      assert x[i..][1..] == x[i + 1..] && Limb(x[i..], 1) == Limb(x, i + 1);
      Written(result, i, word, ShrSeq(x[i + 1..], s));
      result := result[i := word];
    }
  }

  method Shr(b: Big, bits: nat) returns (r: Big)
    ensures Pow(2, bits) > 0 && Val(r) == Val(b) / Pow(2, bits)
  {
    PowPositive(2, bits);
    if bits == 0 {
      return b;
    }
    var limbShift, bitShift := bits / 64, bits % 64;
    if limbShift >= |b.limbs| {
      SmallValues();
      ShiftedOut(b.limbs, bits);
      return ZERO;
    }
    var result := b.limbs[limbShift..];
    ValueDropped(b.limbs, limbShift);
    if bitShift != 0 {
      result := ShrBits(result, bitShift);
      ShrSeqValue(b.limbs[limbShift..], bitShift);
      DivDiv(Val(b), 64 * limbShift, bitShift);
    }
    r := Normalize(result);
  }

  lemma DivDiv(v: nat, x: nat, y: nat)
    ensures Pow(2, x) > 0 && Pow(2, y) > 0 && Pow(2, x + y) > 0
    ensures v / Pow(2, x) / Pow(2, y) == v / Pow(2, x + y)
  {
    PowPositive(2, x);
    PowPositive(2, y);
    PowAdd(2, x, y);
    var p, q := Pow(2, x), Pow(2, y);
    var a := v / p;
    assert v == a * p + v % p;
    assert a == (a / q) * q + a % q;
    var r := (a % q) * p + v % p;
    MulDist(p, (a / q) * q, a % q);
    MulAssoc(a / q, q, p);
    MulMono(a % q, q - 1, p);
    MulNonNeg(a % q, p);
    MulDist(p, q, 1);
    PowPositive(2, x + y);
    DivModUnique(v, a / q, r, q * p);
  }

  lemma ShiftedOut(x: seq<u64>, bits: nat)
    requires bits / 64 >= |x|
    ensures Pow(2, bits) > 0 && Value(x) / Pow(2, bits) == 0
  {
    ValueDropped(x, |x|);
    assert x[|x|..] == [];
    PowPositive(2, bits);
    PowMono(2, 64 * |x|, bits);
    var p := Pow(2, 64 * |x|);
    assert Value(x) < p by {
      if Value(x) >= p {
        DivPositive(Value(x), p);
      }
    }
    DivModUnique(Value(x), 0, Value(x), Pow(2, bits));
  }

  lemma DivPositive(v: nat, p: nat)
    requires v >= p > 0
    ensures v / p >= 1
  {
    var k := v / p;
    assert v == k * p + v % p;
    if k <= 0 {
      MulMono(k, 0, p);
    }
  }
}
