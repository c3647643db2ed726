/** The end of a Poly1305 computation: the full carry, the branch-free subtraction of
    2^130 - 5, and the addition of the pad modulo 2^128. */
module PolyTag {
  import opened NumberTheory
  import opened Bits
  import opened PolyLimbs

  predicate Canonical(h: Limbs5) {
    h.a0 < 0x400_0000 && h.a1 < 0x400_0000 && h.a2 < 0x400_0000 && h.a3 < 0x400_0000 && h.a4 < 0x400_0000
  }

  /** The carry chain from limb 1 round to limb 0. A carry out of the top limb needs limb 1 to have
      overflowed, so the last carry into limb 1 cannot overflow it again. */
  method FullCarry(h: Limbs5) returns (n: Limbs5)
    requires Reduced(h)
    ensures Canonical(n)
    ensures V(n) % P == V(h) % P
  {
    var h1, c1 := Carry32(h.a1);
    var h2 := Add32(h.a2, c1);
    var c2;
    h2, c2 := Carry32(h2);
    var h3 := Add32(h.a3, c2);
    var c3;
    h3, c3 := Carry32(h3);
    var h4 := Add32(h.a4, c3);
    var c4;
    h4, c4 := Carry32(h4);
    ChainValue(h.a0, h.a1, h.a2, h.a3, h.a4, h.a0, h1, h2, h3, h4, 0, c1, c2, c3, c4);
    assert c4 <= c3 <= c2 <= c1 <= 1 && (c1 == 1 ==> h1 < 64);
    var h0 := Add32(h.a0, c4 * 5);
    var c0;
    h0, c0 := Carry32(h0);
    h1 := Add32(h1, c0);
    n := Limbs5(h0, h1, h2, h3, h4);
    Spread(h);
    Spread(n);
    Reentered(V(h), V(n), c4);
  }

  /** `(h & !mask) | (g & mask)` for a mask of all ones or all zeros. */
  method Select(h: u32, g: u32, mask: u32) returns (x: u32)
    requires mask == 0 || mask == 0xffff_ffff
    ensures x == if mask == 0 then h else g
  {
    Pow2Words();
    AndMask(h, 32);
    AndMask(g, 32);
    AndZero(h);
    AndZero(g);
    OrZero(h);
    OrZero(g);
    ModSmall(h, U32);
    ModSmall(g, U32);
    x := Or(And(h, U32 - 1 - mask), And(g, mask));
  }

  /** `x.wrapping_sub(y)`. */
  method Sub32(x: u32, y: u32) returns (z: u32)
    ensures z == if x < y then x - y + 0x1_0000_0000 else x - y
  {
    z := (x - y) % 0x1_0000_0000;
  }

  /** h + 5 - 2^130 with the borrow left in the sign bit of the top limb. */
  method MinusP(h: Limbs5) returns (g: Limbs5)
    requires Canonical(h)
    ensures g.a4 / 0x8000_0000 == if V(h) < P then 1 else 0
    ensures V(h) >= P ==> Canonical(g) && V(g) == V(h) - P
  {
    var g0 := Add32(h.a0, 5);
    var c0;
    g0, c0 := Carry32(g0);
    var g1 := Add32(h.a1, c0);
    var c1;
    g1, c1 := Carry32(g1);
    var g2 := Add32(h.a2, c1);
    var c2;
    g2, c2 := Carry32(g2);
    var g3 := Add32(h.a3, c2);
    var c3;
    g3, c3 := Carry32(g3);
    var g4 := Add32(h.a4, c3);
    ghost var top := g4;
    g4 := Sub32(g4, 0x400_0000);
    g := Limbs5(g0, g1, g2, g3, g4);
    Spread(h);
    Spread(g);
    ChainValue(h.a0 + 5, h.a1, h.a2, h.a3, h.a4, g0, g1, g2, g3, top, c0, c1, c2, c3, 0);
  }

  lemma BelowP(v: nat)
    requires v < 2 * P
    ensures v % P == if v < P then v else v - P
  {
  }

  /** The constant-time choice between h and h - P yields the remainder. */
  method ReduceOnce(h: Limbs5) returns (n: Limbs5)
    requires Canonical(h)
    ensures Canonical(n) && V(n) == V(h) % P
  {
    var g := MinusP(h);
    var mask := Sub32(g.a4 / 0x8000_0000, 1);
    var n0 := Select(h.a0, g.a0, mask);
    var n1 := Select(h.a1, g.a1, mask);
    var n2 := Select(h.a2, g.a2, mask);
    var n3 := Select(h.a3, g.a3, mask);
    var n4 := Select(h.a4, g.a4, mask);
    n := Limbs5(n0, n1, n2, n3, n4);
    Spread(h);
    BelowP(V(h));
  }

  /** `lo | (hi << s)` on 32-bit words. */
  method Join(lo: u32, hi: u32, s: nat) returns (x: u32)
    requires 0 < s <= 32 && lo < Pow(2, s)
    ensures Pow(2, 32 - s) > 0 && x == lo + (hi % Pow(2, 32 - s)) * Pow(2, s)
  {
    ShiftedWord(hi, s);
    MulNonNeg(hi, Pow(2, s));
    JoinFits(hi, s, lo);
    OrDisjoint(hi % Pow(2, 32 - s), s, lo);
    x := Or(lo, (hi * Pow(2, s)) % U32);
  }

  lemma JoinFits(hi: nat, s: nat, lo: nat)
    requires s <= 32 && lo < Pow(2, s)
    ensures Pow(2, 32 - s) > 0 && 0 <= lo + (hi % Pow(2, 32 - s)) * Pow(2, s) < U32
  {
    Pow2Words();
    PowAdd(2, s, 32 - s);
    PowPositive(2, 32 - s);
    var m, w := Pow(2, 32 - s), Pow(2, s);
    MulMono(hi % m, m - 1, w);
    MulNonNeg(hi % m, w);
    MulDist(w, m, 1);
  }

  lemma PackValue(h0: int, h1: int, h2: int, h3: int, h4: int, x1: int, x2: int, x3: int, x4: int,
                  y1: int, y2: int, y3: int, y4: int)
    requires h1 == x1 + 0x40 * y1 && h2 == x2 + 0x1000 * y2 && h3 == x3 + 0x4_0000 * y3 && h4 == x4 + 0x100_0000 * y4
    ensures h0 + 0x400_0000 * (h1 + 0x400_0000 * (h2 + 0x400_0000 * (h3 + 0x400_0000 * h4)))
         == (h0 + x1 * 0x400_0000) + 0x1_0000_0000 * ((y1 + x2 * 0x10_0000)
              + 0x1_0000_0000 * ((y2 + x3 * 0x4000) + 0x1_0000_0000 * (y3 + x4 * 0x100)))
            + 0x1_0000_0000_0000_0000_0000_0000_0000_0000 * y4
  {
  }

  datatype Words4 = Words4(w0: u32, w1: u32, w2: u32, w3: u32)
  {
    function Value(): nat {
      Words(w0, w1, w2, w3)
    }
  }

  const B128: nat := 0x1_0000_0000_0000_0000_0000_0000_0000_0000

  lemma Mod128(w: nat, y: nat, v: nat)
    requires w < B128 && v == w + 0x1_0000_0000_0000_0000_0000_0000_0000_0000 * y
    ensures v % B128 == w
  {
    DivModUnique(v, y, w, B128);
  }

  /** Five canonical limbs packed into four words drop exactly the bits from 128 up. */
  method Pack(h: Limbs5) returns (w: Words4)
    requires Canonical(h)
    ensures w.Value() == V(h) % B128
  {
    Pow2Table();
    var w0 := Join(h.a0, h.a1, 26);
    var w1 := Join(h.a1 / 0x40, h.a2, 20);
    var w2 := Join(h.a2 / 0x1000, h.a3, 14);
    var w3 := Join(h.a3 / 0x4_0000, h.a4, 8);
    w := Words4(w0, w1, w2, w3);
    PackValue(h.a0, h.a1, h.a2, h.a3, h.a4, h.a1 % 0x40, h.a2 % 0x1000, h.a3 % 0x4_0000, h.a4 % 0x100_0000,
              h.a1 / 0x40, h.a2 / 0x1000, h.a3 / 0x4_0000, h.a4 / 0x100_0000);
    Spread(h);
    Mod128(w.Value(), h.a4 / 0x100_0000, V(h));
  }

  /** `f as u32` and `f >> 32`. */
  method Split64(f: u64) returns (low: u32, c: u32)
    ensures f == low + 0x1_0000_0000 * c
  {
    low, c := f % 0x1_0000_0000, f / 0x1_0000_0000;
  }

  /** Addition of the pad with 64-bit intermediate sums; the carry out of bit 128 is dropped. */
  method AddPad(h: Words4, pad: Words4) returns (w: Words4)
    ensures w.Value() == (h.Value() + pad.Value()) % B128
  {
    var w0, c0 := Split64(h.w0 + pad.w0);
    var w1, c1 := Split64(h.w1 + pad.w1 + c0);
    var w2, c2 := Split64(h.w2 + pad.w2 + c1);
    var w3, c3 := Split64(h.w3 + pad.w3 + c2);
    w := Words4(w0, w1, w2, w3);
    Mod128(w.Value(), c3, h.Value() + pad.Value());
  }
}
