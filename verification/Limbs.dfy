/** The natural number denoted by little-endian 64-bit limbs and by big-endian
    bytes (crypto/rsa.rs keeps the former and exchanges the latter). */
module Limbs {
  import opened NumberTheory
  import opened Bits

  /** The number a limb vector denotes, least significant limb first. */
  function Value(s: seq<u64>): nat {
    if |s| == 0 then 0 else s[0] + U64 * Value(s[1..])
  }

  /** The vector `vec![0; n]`. */
  function Zeros(n: nat): (s: seq<u64>)
    ensures |s| == n && forall i :: 0 <= i < n ==> s[i] == 0
  {
    seq(n, _ => 0)
  }

  /** The limbs from position i on; none past the end. */
  function Rest(s: seq<u64>, i: nat): seq<u64> {
    if i <= |s| then s[i..] else []
  }

  /** Limb i, reading zero past the end as the source's loops do. */
  function Limb(s: seq<u64>, i: nat): u64 {
    if i < |s| then s[i] else 0
  }

  lemma ValueStep(s: seq<u64>)
    ensures Value(s) == Limb(s, 0) + U64 * Value(Rest(s, 1))
  {
  }

  lemma RestRest(s: seq<u64>, i: nat)
    ensures Rest(Rest(s, i), 1) == Rest(s, i + 1) && Limb(Rest(s, i), 0) == Limb(s, i)
  {
  }

  lemma ValueCons(x: u64, s: seq<u64>)
    ensures Value([x] + s) == x + U64 * Value(s)
  {
    assert ([x] + s)[1..] == s;
  }

  lemma {:induction false} ValueZeroIff(s: seq<u64>)
    ensures Value(s) == 0 <==> forall i :: 0 <= i < |s| ==> s[i] == 0
  {
    if |s| > 0 {
      ValueZeroIff(s[1..]);
      if forall i :: 0 <= i < |s| ==> s[i] == 0 {
        assert forall i :: 0 <= i < |s[1..]| ==> s[1..][i] == s[i + 1];
      }
      if Value(s) == 0 {
        assert s[0] == 0 && Value(s[1..]) == 0;
        assert forall i :: 1 <= i < |s| ==> s[i] == s[1..][i - 1];
      }
    }
  }

  /** A zero limb at the top does not count. */
  lemma {:induction false} ValueDropZero(s: seq<u64>)
    requires |s| > 0 && s[|s| - 1] == 0
    ensures Value(s[..|s| - 1]) == Value(s)
  {
    if |s| > 1 {
      ValueDropZero(s[1..]);
      assert s[1..][..|s| - 2] == s[..|s| - 1][1..];
    }
  }

  /** A shorter vector denotes less than one with a non-zero top limb. */
  lemma {:induction false} ShorterLess(s: seq<u64>, t: seq<u64>)
    requires |s| < |t| && t[|t| - 1] != 0
    ensures Value(s) < Value(t)
  {
    if |s| == 0 {
      ValueZeroIff(t);
    } else {
      ShorterLess(s[1..], t[1..]);
    }
  }

  /** Equal high parts and a smaller limb make a smaller value. */
  lemma {:induction false} ValueLess(s: seq<u64>, t: seq<u64>, i: nat)
    requires |s| == |t| && i < |s| && s[i] < t[i] && s[i + 1..] == t[i + 1..]
    ensures Value(s) < Value(t)
    decreases i
  {
    if i > 0 {
      assert s[1..][i..] == s[i + 1..] && t[1..][i..] == t[i + 1..];
      ValueLess(s[1..], t[1..], i - 1);
    }
  }

  /** Zero limbs below shift the value by that many limbs. */
  lemma {:induction false} ValueShifted(n: nat, s: seq<u64>)
    ensures Value(Zeros(n) + s) == Pow(2, 64 * n) * Value(s)
  {
    if n == 0 {
      assert Zeros(0) + s == s;
    } else {
      ValueShifted(n - 1, s);
      assert Zeros(n) + s == [0] + (Zeros(n - 1) + s);
      ValueCons(0, Zeros(n - 1) + s);
      Pow2Words();
      PowAdd(2, 64, 64 * (n - 1));
      MulAssoc(U64, Pow(2, 64 * (n - 1)), Value(s));
    }
  }

  /** Dropping n low limbs is division by 2^(64 n). */
  lemma {:induction false} ValueDropped(s: seq<u64>, n: nat)
    requires n <= |s|
    ensures Pow(2, 64 * n) > 0 && Value(s[n..]) == Value(s) / Pow(2, 64 * n)
  {
    PowPositive(2, 64 * n);
    if n > 0 {
      ValueDropped(s[1..], n - 1);
      assert s[1..][n - 1..] == s[n..];
      Pow2Words();
      PowAdd(2, 64, 64 * (n - 1));
      DivByDigit(Value(s), s[0], Value(s[1..]), Pow(2, 64 * (n - 1)));
    }
  }

  lemma DivByDigit(v: nat, lo: u64, hi: nat, p: nat)
    requires v == lo + U64 * hi && p > 0
    ensures v / (U64 * p) == hi / p
  {
    var q, r := hi / p, hi % p;
    assert hi == q * p + r;
    MulAssoc(U64, q, p);
    DivModUnique(v, q, lo + U64 * r, U64 * p);
  }

  /** The value of a vector of n limbs lies below 2^(64 n), and above half of the
      range its top limb spans. */
  lemma {:induction false} ValueBits(s: seq<u64>, b: nat)
    requires |s| > 0 && b > 0 && Pow(2, b - 1) <= s[|s| - 1] < Pow(2, b)
    ensures Pow(2, 64 * (|s| - 1) + b - 1) <= Value(s) < Pow(2, 64 * (|s| - 1) + b)
  {
    if |s| > 1 {
      ValueBits(s[1..], b);
      Pow2Words();
      PowAdd(2, 64, 64 * (|s| - 2) + b - 1);
      PowAdd(2, 64, 64 * (|s| - 2) + b);
    }
  }

  // ----- big-endian bytes

  function BytesValue(b: seq<u8>): nat {
    if |b| == 0 then 0 else 256 * BytesValue(b[..|b| - 1]) + b[|b| - 1]
  }

  function ByteWeight(k: nat): nat
    ensures ByteWeight(k) > 0
  {
    if k == 0 then 1 else 256 * ByteWeight(k - 1)
  }

  lemma BytesPush(b: seq<u8>, x: u8)
    ensures BytesValue(b + [x]) == 256 * BytesValue(b) + x
  {
    assert (b + [x])[..|b|] == b;
  }

  lemma {:induction false} BytesConcat(a: seq<u8>, b: seq<u8>)
    ensures BytesValue(a + b) == BytesValue(a) * ByteWeight(|b|) + BytesValue(b)
  {
    if |b| == 0 {
      assert a + b == a;
    } else {
      var b' := b[..|b| - 1];
      BytesConcat(a, b');
      assert a + b == (a + b') + [b[|b| - 1]];
      BytesPush(a + b', b[|b| - 1]);
      MulAssoc(256, BytesValue(a), ByteWeight(|b| - 1));
    }
  }

  lemma {:induction false} BytesBound(b: seq<u8>)
    ensures BytesValue(b) < ByteWeight(|b|)
  {
    if |b| > 0 {
      BytesBound(b[..|b| - 1]);
    }
  }

  /** Leading zero bytes do not change the value. */
  lemma BytesLeadingZero(b: seq<u8>)
    requires |b| > 0 && b[0] == 0
    ensures BytesValue(b) == BytesValue(b[1..])
  {
    assert b == [0] + b[1..];
    BytesConcat([0], b[1..]);
    assert BytesValue([0]) == 0;
  }

  lemma {:induction false} BytesAllZero(b: seq<u8>)
    requires forall i :: 0 <= i < |b| ==> b[i] == 0
    ensures BytesValue(b) == 0
  {
    if |b| > 0 {
      BytesAllZero(b[..|b| - 1]);
    }
  }

  /** Byte strings of one length are determined by their value. */
  lemma {:induction false} BytesInjective(a: seq<u8>, b: seq<u8>)
    requires |a| == |b| && BytesValue(a) == BytesValue(b)
    ensures a == b
  {
    if |a| > 0 {
      var x, y := a[|a| - 1], b[|b| - 1];
      assert x == y;
      BytesInjective(a[..|a| - 1], b[..|b| - 1]);
      assert a == a[..|a| - 1] + [x] && b == b[..|b| - 1] + [y];
    }
  }

  lemma {:induction false} ByteWeightPow2(k: nat)
    ensures ByteWeight(k) == Pow(2, 8 * k)
  {
    if k > 0 {
      ByteWeightPow2(k - 1);
      PowAdd(2, 8, 8 * (k - 1));
      assert Pow(2, 8) == 256;
    }
  }

  lemma ByteWeightLimb()
    ensures ByteWeight(8) == U64
  {
    ByteWeightPow2(8);
    Pow2Words();
  }

  lemma {:induction false} ByteWeightMono(j: nat, k: nat)
    requires j <= k
    ensures ByteWeight(j) <= ByteWeight(k)
  {
    if j < k {
      ByteWeightMono(j, k - 1);
    }
  }

  /** A byte string whose first byte is not zero reaches its top weight. */
  lemma BytesTop(b: seq<u8>)
    requires |b| > 0 && b[0] != 0
    ensures ByteWeight(|b| - 1) <= BytesValue(b)
  {
    assert b == [b[0]] + b[1..];
    BytesConcat([b[0]], b[1..]);
    assert [b[0]][..0] == [];
    assert BytesValue([b[0]]) == b[0];
    MulMono(1, b[0], ByteWeight(|b| - 1));
  }

  function ZeroBytes(n: nat): (s: seq<u8>)
    ensures |s| == n && forall i :: 0 <= i < n ==> s[i] == 0
  {
    seq(n, i => 0)
  }
}
