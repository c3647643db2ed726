/** Bitwise operators of the source's unsigned machine words, given on naturals
    bit by bit, with the facts that tie them to arithmetic. */
module Bits {
  import opened NumberTheory

  const U32: nat := 0x1_0000_0000
  const U64: nat := 0x1_0000_0000_0000_0000

  type u8 = x: int | 0 <= x < 0x100
  type u32 = x: int | 0 <= x < 0x1_0000_0000
  type u64 = x: int | 0 <= x < 0x1_0000_0000_0000_0000

  /** The cast `as u64` and the shift `>> 64` of a wide accumulator. */
  function Low(x: nat): u64 { x % U64 }

  function High(x: nat): nat { x / U64 }

  lemma LowHigh(x: nat)
    ensures x == Low(x) + U64 * High(x)
    ensures x < U64 ==> Low(x) == x && High(x) == 0
  {
  }

  function And(a: nat, b: nat): nat
    decreases a
  {
    if a == 0 then 0
    else (if a % 2 == 1 && b % 2 == 1 then 1 else 0) + 2 * And(a / 2, b / 2)
  }

  function Or(a: nat, b: nat): nat
    decreases a + b
  {
    if a == 0 && b == 0 then 0
    else (if a % 2 == 1 || b % 2 == 1 then 1 else 0) + 2 * Or(a / 2, b / 2)
  }

  function Xor(a: nat, b: nat): nat
    decreases a + b
  {
    if a == 0 && b == 0 then 0
    else (if a % 2 != b % 2 then 1 else 0) + 2 * Xor(a / 2, b / 2)
  }

  // ----- powers of two

  lemma Pow2Step(k: nat)
    ensures Pow(2, k + 1) == 2 * Pow(2, k) && Pow(2, k) > 0
  {
    PowPositive(2, k);
  }

  lemma Pow2Words()
    ensures Pow(2, 8) == 0x100 && Pow(2, 16) == 0x1_0000
    ensures Pow(2, 32) == U32 && Pow(2, 64) == U64
  {
    assert Pow(2, 8) == 0x100;
    PowAdd(2, 8, 8);
    PowAdd(2, 16, 16);
    PowAdd(2, 32, 32);
  }

  /** Shifting a multiple of 2^(k+1) right by one bit. */
  lemma HalfShift(a: nat, k: nat)
    requires k > 0
    ensures (a * Pow(2, k)) % 2 == 0 && (a * Pow(2, k)) / 2 == a * Pow(2, k - 1)
    ensures a * Pow(2, k) >= 0 && a * Pow(2, k - 1) >= 0
  {
    PowPositive(2, k - 1);
    MulNonNeg(a, Pow(2, k - 1));
    assert a * Pow(2, k) == 2 * (a * Pow(2, k - 1));
  }

  // ----- disjunction

  lemma {:induction false} OrZero(a: nat)
    ensures Or(a, 0) == a && Or(0, a) == a
  {
    if a > 0 {
      OrZero(a / 2);
    }
  }

  /** Or of a left-shifted word and a word below the shift is their sum. */
  lemma {:induction false} OrDisjoint(a: nat, k: nat, b: nat)
    requires b < Pow(2, k)
    ensures a * Pow(2, k) >= 0
    ensures Or(a * Pow(2, k), b) == a * Pow(2, k) + b
    ensures Or(b, a * Pow(2, k)) == a * Pow(2, k) + b
    decreases k
  {
    if k == 0 {
      OrZero(a);
    } else {
      HalfShift(a, k);
      Pow2Step(k - 1);
      OrDisjoint(a, k - 1, b / 2);
      var m := a * Pow(2, k);
      if m == 0 && b == 0 {
      } else {
        assert Or(m, b) == (if b % 2 == 1 then 1 else 0) + 2 * Or(m / 2, b / 2);
      }
    }
  }

  lemma {:induction false} OrBound(a: nat, b: nat, k: nat)
    requires a < Pow(2, k) && b < Pow(2, k)
    ensures Or(a, b) < Pow(2, k)
    decreases k
  {
    if k > 0 && (a > 0 || b > 0) {
      Pow2Step(k - 1);
      OrBound(a / 2, b / 2, k - 1);
    }
  }

  lemma {:induction false} OrIsZero(a: nat, b: nat)
    ensures Or(a, b) == 0 <==> a == 0 && b == 0
    decreases a + b
  {
    if a > 0 || b > 0 {
      OrIsZero(a / 2, b / 2);
    }
  }

  // ----- conjunction

  lemma {:induction false} AndComm(a: nat, b: nat)
    ensures And(a, b) == And(b, a)
    decreases a
  {
    if a == 0 {
      AndZero(b);
    } else if b == 0 {
      AndZero(a);
    } else {
      AndComm(a / 2, b / 2);
    }
  }

  lemma {:induction false} AndZero(a: nat)
    ensures And(a, 0) == 0
  {
    if a > 0 {
      AndZero(a / 2);
    }
  }

  lemma AndDouble(x: nat, i: nat, y: nat, j: nat)
    requires i < 2 && j < 2
    ensures And(2 * x + i, 2 * y + j) == 2 * And(x, y) + (if i == 1 && j == 1 then 1 else 0)
  {
    assert (2 * x + i) / 2 == x && (2 * x + i) % 2 == i;
    assert (2 * y + j) / 2 == y && (2 * y + j) % 2 == j;
  }

  lemma ModDouble(a: nat, i: nat, m: nat)
    requires 0 < m && i < 2
    ensures (2 * a + i) % (2 * m) == 2 * (a % m) + i
  {
    var q, r := a / m, a % m;
    assert a == q * m + r;
    assert q * (2 * m) == 2 * (q * m);
    DivModUnique(2 * a + i, q, 2 * r + i, 2 * m);
  }

  /** Masking with 2^k - 1 keeps the low k bits. */
  lemma {:induction false} AndMask(a: nat, k: nat)
    ensures Pow(2, k) > 0
    ensures And(a, Pow(2, k) - 1) == a % Pow(2, k)
    decreases k
  {
    PowPositive(2, k);
    if k == 0 {
      AndZero(a);
    } else {
      Pow2Step(k - 1);
      AndMask(a / 2, k - 1);
      AndMaskStep(a / 2, a % 2, Pow(2, k - 1));
    }
  }

  lemma AndMaskStep(a: nat, i: nat, m: nat)
    requires m > 0 && i < 2 && And(a, m - 1) == a % m
    ensures And(2 * a + i, 2 * m - 1) == (2 * a + i) % (2 * m)
  {
    AndDouble(a, i, m - 1, 1);
    ModDouble(a, i, m);
  }

  /** And works on the low k bits and on the rest independently. */
  lemma {:induction false} AndSplit(a: nat, b: nat, c: nat, d: nat, k: nat)
    requires a < Pow(2, k) && c < Pow(2, k)
    ensures b * Pow(2, k) >= 0 && d * Pow(2, k) >= 0
    ensures And(a + b * Pow(2, k), c + d * Pow(2, k)) == And(a, c) + And(b, d) * Pow(2, k)
    decreases k
  {
    if k > 0 {
      Pow2Step(k - 1);
      var x, i, y, j := a / 2, a % 2, c / 2, c % 2;
      AndSplit(x, b, y, d, k - 1);
      AndSplitStep(x, i, b, y, j, d, Pow(2, k - 1));
      assert a == 2 * x + i && c == 2 * y + j;
    }
  }

  lemma AndSplitStep(x: nat, i: nat, b: nat, y: nat, j: nat, d: nat, p: nat)
    requires b * p >= 0 && d * p >= 0 && i < 2 && j < 2
    requires And(x + b * p, y + d * p) == And(x, y) + And(b, d) * p
    ensures b * (2 * p) >= 0 && d * (2 * p) >= 0
    ensures And(2 * x + i + b * (2 * p), 2 * y + j + d * (2 * p)) == And(2 * x + i, 2 * y + j) + And(b, d) * (2 * p)
  {
    AndJoin(x, i, y, j, b * p, d * p, And(b, d) * p);
    Doubled(b, p);
    Doubled(d, p);
    Doubled(And(b, d), p);
  }

  lemma AndJoin(a: nat, i: nat, c: nat, j: nat, x: nat, y: nat, v: int)
    requires i < 2 && j < 2 && And(a + x, c + y) == And(a, c) + v
    ensures And(2 * a + i + 2 * x, 2 * c + j + 2 * y) == And(2 * a + i, 2 * c + j) + 2 * v
  {
    AndDouble(a, i, c, j);
    AndDouble(a + x, i, c + y, j);
  }

  lemma Doubled(a: int, p: int)
    ensures a * (2 * p) == 2 * (a * p)
  {
  }

  lemma {:induction false} AndBound(a: nat, b: nat)
    ensures And(a, b) <= a && And(a, b) <= b
    decreases a
  {
    if a > 0 {
      AndBound(a / 2, b / 2);
    }
  }

  // ----- exclusive or

  lemma {:induction false} XorBound(a: nat, b: nat, k: nat)
    requires a < Pow(2, k) && b < Pow(2, k)
    ensures Xor(a, b) < Pow(2, k)
    decreases k
  {
    if k > 0 && (a > 0 || b > 0) {
      Pow2Step(k - 1);
      XorBound(a / 2, b / 2, k - 1);
    }
  }

  /** Xor with the same mask twice is the identity. */
  lemma {:induction false} XorCancel(a: nat, b: nat)
    ensures Xor(Xor(a, b), b) == a
    decreases a + b
  {
    if a > 0 || b > 0 {
      XorCancel(a / 2, b / 2);
    }
  }

  lemma {:induction false} XorIsZero(a: nat, b: nat)
    ensures Xor(a, b) == 0 <==> a == b
    decreases a + b
  {
    if a > 0 || b > 0 {
      XorIsZero(a / 2, b / 2);
    }
  }
}
