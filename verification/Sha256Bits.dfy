/** The word functions of crypto/sha256.rs bit by bit (section 4.1.2 of FIPS 180-4). */
module Sha256Bits {
  import opened NumberTheory
  import opened Bits
  import opened Words32
  import opened Sha256Block

  /** Bit i of a number, from the lowest. */
  predicate Bit(x: nat, i: nat)
    decreases i
  {
    if i == 0 then x % 2 == 1 else Bit(x / 2, i - 1)
  }

  lemma BitDouble(x: nat, b: nat, i: nat)
    requires b < 2
    ensures Bit(2 * x + b, i) <==> if i == 0 then b == 1 else Bit(x, i - 1)
  {
    assert (2 * x + b) / 2 == x && (2 * x + b) % 2 == b;
  }

  lemma {:induction false} ZeroBit(i: nat)
    ensures !Bit(0, i)
  {
    if i > 0 {
      ZeroBit(i - 1);
    }
  }

  lemma {:induction false} XorBit(x: nat, y: nat, i: nat)
    ensures Bit(Xor(x, y), i) <==> Bit(x, i) != Bit(y, i)
    decreases i
  {
    if x == 0 && y == 0 {
      ZeroBit(i);
    } else {
      BitDouble(Xor(x / 2, y / 2), if x % 2 != y % 2 then 1 else 0, i);
      if i > 0 {
        XorBit(x / 2, y / 2, i - 1);
      }
    }
  }

  lemma {:induction false} AndBit(x: nat, y: nat, i: nat)
    ensures Bit(And(x, y), i) <==> Bit(x, i) && Bit(y, i)
    decreases i
  {
    if x == 0 {
      ZeroBit(i);
    } else {
      BitDouble(And(x / 2, y / 2), if x % 2 == 1 && y % 2 == 1 then 1 else 0, i);
      if i > 0 {
        AndBit(x / 2, y / 2, i - 1);
      }
    }
  }

  /** The complement among numbers of k bits. */
  lemma {:induction false} ComplementBit(x: nat, k: nat, i: nat)
    requires i < k && x < Pow(2, k)
    ensures Bit(Pow(2, k) - 1 - x, i) <==> !Bit(x, i)
    decreases i
  {
    Pow2Step(k - 1);
    var p := Pow(2, k - 1);
    BitDouble(p - 1 - x / 2, 1 - x % 2, i);
    assert Pow(2, k) - 1 - x == 2 * (p - 1 - x / 2) + (1 - x % 2);
    if i > 0 {
      ComplementBit(x / 2, k - 1, i - 1);
    }
  }

  /** A number put above k bits of another. */
  lemma {:induction false} JoinBit(a: nat, b: nat, k: nat, i: nat)
    requires b < Pow(2, k)
    ensures a * Pow(2, k) + b >= 0
    ensures Bit(a * Pow(2, k) + b, i) <==> if i < k then Bit(b, i) else Bit(a, i - k)
    decreases k
  {
    PowPositive(2, k);
    MulNonNeg(a, Pow(2, k));
    if k > 0 {
      Pow2Step(k - 1);
      JoinBit(a, b / 2, k - 1, if i == 0 then 0 else i - 1);
      Doubled(a, Pow(2, k - 1));
      var h := a * Pow(2, k - 1) + b / 2;
      BitDouble(h, b % 2, i);
      assert a * Pow(2, k) + b == 2 * h + b % 2;
    }
  }

  /** The bits below k and those from k up. */
  lemma CutBit(x: nat, k: nat, i: nat)
    ensures Pow(2, k) > 0
    ensures Bit(x, i) <==> if i < k then Bit(x % Pow(2, k), i) else Bit(x / Pow(2, k), i - k)
  {
    PowPositive(2, k);
    DivModSum(x, Pow(2, k));
    JoinBit(x / Pow(2, k), x % Pow(2, k), k, i);
  }

  /** rotate_right: bit i comes from place i + k, cyclically. */
  lemma RotRBit(x: u32, k: nat, i: nat)
    requires 0 < k < 32 && i < 32
    ensures Bit(RotR(x, k), i) <==> Bit(x, (i + k) % 32)
  {
    RotBound(x, 32 - k);
    JoinBit(x % Pow(2, k), x / Pow(2, k), 32 - k, i);
    CutBit(x, k, (i + k) % 32);
  }

  lemma ShRBit(x: u32, k: nat, i: nat)
    ensures Bit(ShR(x, k), i) <==> Bit(x, i + k)
  {
    CutBit(x, k, i + k);
  }

  lemma Xor3Bit(x: u32, y: u32, z: u32, i: nat)
    ensures Bit(Xor3(x, y, z), i) <==> (Bit(x, i) != Bit(y, i)) != Bit(z, i)
  {
    XorBit(x, y, i);
    XorBit(Xor32(x, y), z, i);
  }

  /** Ch chooses: where x has a one the bit of y, and where it has a zero that of z. */
  lemma ChBit(x: u32, y: u32, z: u32, i: nat)
    requires i < 32
    ensures Bit(Ch(x, y, z), i) <==> if Bit(x, i) then Bit(y, i) else Bit(z, i)
  {
    Pow2Words();
    ComplementBit(x, 32, i);
    AndBit(x, y, i);
    AndBit(Not32(x), z, i);
    XorBit(And32(x, y), And32(Not32(x), z), i);
  }

  /** Maj is the majority of the three bits. */
  lemma MajBit(x: u32, y: u32, z: u32, i: nat)
    ensures Bit(Maj(x, y, z), i) <==> (Bit(x, i) && Bit(y, i)) || (Bit(x, i) && Bit(z, i)) || (Bit(y, i) && Bit(z, i))
  {
    AndBit(x, y, i);
    AndBit(x, z, i);
    AndBit(y, z, i);
    Xor3Bit(And32(x, y), And32(x, z), And32(y, z), i);
  }

  /** Each bit of the sums of rotations is the sum of three bits further up, cyclically. */
  lemma TurnBit(x: u32, a: nat, b: nat, c: nat, i: nat)
    requires 0 < a < 32 && 0 < b < 32 && 0 < c < 32 && i < 32
    ensures Bit(Turn(x, a, b, c), i) <==> (Bit(x, (i + a) % 32) != Bit(x, (i + b) % 32)) != Bit(x, (i + c) % 32)
  {
    RotRBit(x, a, i);
    RotRBit(x, b, i);
    RotRBit(x, c, i);
    Xor3Bit(RotR(x, a), RotR(x, b), RotR(x, c), i);
  }

  /** The same for two rotations and a shift, which brings in zeros. */
  lemma SlideBit(x: u32, a: nat, b: nat, k: nat, i: nat)
    requires 0 < a < 32 && 0 < b < 32 && i < 32
    ensures Bit(Xor3(RotR(x, a), RotR(x, b), ShR(x, k)), i) <==>
            (Bit(x, (i + a) % 32) != Bit(x, (i + b) % 32)) != (i + k < 32 && Bit(x, i + k))
  {
    RotRBit(x, a, i);
    RotRBit(x, b, i);
    ShRBit(x, k, i);
    Xor3Bit(RotR(x, a), RotR(x, b), ShR(x, k), i);
    WordHasNoHighBit(x, i + k);
  }

  lemma WordHasNoHighBit(x: u32, i: nat)
    ensures i >= 32 ==> !Bit(x, i)
  {
    Pow2Words();
    if i >= 32 {
      NoHighBit(x, 32, i);
    }
  }

  lemma {:induction false} NoHighBit(x: nat, k: nat, i: nat)
    requires x < Pow(2, k) && k <= i
    ensures !Bit(x, i)
    decreases k
  {
    if k == 0 {
      ZeroBit(i);
    } else {
      Pow2Step(k - 1);
      NoHighBit(x / 2, k - 1, i - 1);
    }
  }

  // ----- the rounds as two recurrences

  /** The values the first and the fifth variable take; the first four of each are the initial ones, in
      reverse. */
  function A(h: Vars, block: seq<u8>, i: nat): u32
    requires |block| == 64 && i < 68
    decreases i, 1
  {
    if i < 4 then (if i == 0 then h.d else if i == 1 then h.c else if i == 2 then h.b else h.a)
    else
      var s, m := Turn(A(h, block, i - 1), 2, 13, 22), Maj(A(h, block, i - 1), A(h, block, i - 2), A(h, block, i - 3));
      Plus(T(h, block, i), Plus(s, m))
  }

  function E(h: Vars, block: seq<u8>, i: nat): u32
    requires |block| == 64 && i < 68
    decreases i, 1
  {
    if i < 4 then (if i == 0 then h.h else if i == 1 then h.g else if i == 2 then h.f else h.e)
    else Plus(A(h, block, i - 4), T(h, block, i))
  }

  function T(h: Vars, block: seq<u8>, i: nat): u32
    requires |block| == 64 && 4 <= i < 68
    decreases i, 0
  {
    TableSize();
    var s, c := Turn(E(h, block, i - 1), 6, 11, 25), Ch(E(h, block, i - 1), E(h, block, i - 2), E(h, block, i - 3));
    Plus(Plus(Plus3(E(h, block, i - 4), s, c), K[i - 4]), W(block, i - 4))
  }

  /** After n rounds the variables hold the last four values of each. */
  lemma {:induction false} RoundsAreRecurrences(h: Vars, block: seq<u8>, n: nat)
    requires |block| == 64 && n <= 64
    ensures |K| == 64
    ensures Rounds(h, block, n) ==
            Vars(A(h, block, n + 3), A(h, block, n + 2), A(h, block, n + 1), A(h, block, n),
                 E(h, block, n + 3), E(h, block, n + 2), E(h, block, n + 1), E(h, block, n))
  {
    TableSize();
    if n > 0 {
      RoundsAreRecurrences(h, block, n - 1);
      RoundsNext(h, block, n - 1);
      OneFurther(h, block, n + 3);
    }
  }

  lemma OneFurther(h: Vars, block: seq<u8>, i: nat)
    requires |block| == 64 && 4 <= i < 68
    ensures |K| == 64
    ensures Round(Vars(A(h, block, i - 1), A(h, block, i - 2), A(h, block, i - 3), A(h, block, i - 4),
                       E(h, block, i - 1), E(h, block, i - 2), E(h, block, i - 3), E(h, block, i - 4)), K[i - 4], W(block, i - 4))
         == Vars(A(h, block, i), A(h, block, i - 1), A(h, block, i - 2), A(h, block, i - 3),
                 E(h, block, i), E(h, block, i - 1), E(h, block, i - 2), E(h, block, i - 3))
  {
    TableSize();
    PlusComm(A(h, block, i - 4), T(h, block, i));
  }

  lemma PlusComm(x: u32, y: u32)
    ensures Plus(x, y) == Plus(y, x)
  {
  }
}
