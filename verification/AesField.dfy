/** The byte arithmetic of crypto/aes.rs: the S-box and its inverse, and multiplication in GF(2^8)
    (sections 4.2 and 5.1 of FIPS 197). */
module AesField {
  import Circulant

  /** Entry i, modulo 16, of a row of sixteen. */
  function Pick(i: bv8, v0: bv8, v1: bv8, v2: bv8, v3: bv8, v4: bv8, v5: bv8, v6: bv8, v7: bv8,
                v8: bv8, v9: bv8, v10: bv8, v11: bv8, v12: bv8, v13: bv8, v14: bv8, v15: bv8): bv8 {
    if i & 8 == 0 then Pick8(i, v0, v1, v2, v3, v4, v5, v6, v7) else Pick8(i, v8, v9, v10, v11, v12, v13, v14, v15)
  }

  function Pick8(i: bv8, v0: bv8, v1: bv8, v2: bv8, v3: bv8, v4: bv8, v5: bv8, v6: bv8, v7: bv8): bv8 {
    if i & 4 == 0 then Pick4(i, v0, v1, v2, v3) else Pick4(i, v4, v5, v6, v7)
  }

  function Pick4(i: bv8, v0: bv8, v1: bv8, v2: bv8, v3: bv8): bv8 {
    if i & 2 == 0 then (if i & 1 == 0 then v0 else v1) else (if i & 1 == 0 then v2 else v3)
  }

  /** SBOX. */
  function Sub(x: bv8): bv8 {
    Pick(x >> 4,
         Pick(x, 0x63, 0x7c, 0x77, 0x7b, 0xf2, 0x6b, 0x6f, 0xc5, 0x30, 0x01, 0x67, 0x2b, 0xfe, 0xd7, 0xab, 0x76),
         Pick(x, 0xca, 0x82, 0xc9, 0x7d, 0xfa, 0x59, 0x47, 0xf0, 0xad, 0xd4, 0xa2, 0xaf, 0x9c, 0xa4, 0x72, 0xc0),
         Pick(x, 0xb7, 0xfd, 0x93, 0x26, 0x36, 0x3f, 0xf7, 0xcc, 0x34, 0xa5, 0xe5, 0xf1, 0x71, 0xd8, 0x31, 0x15),
         Pick(x, 0x04, 0xc7, 0x23, 0xc3, 0x18, 0x96, 0x05, 0x9a, 0x07, 0x12, 0x80, 0xe2, 0xeb, 0x27, 0xb2, 0x75),
         Pick(x, 0x09, 0x83, 0x2c, 0x1a, 0x1b, 0x6e, 0x5a, 0xa0, 0x52, 0x3b, 0xd6, 0xb3, 0x29, 0xe3, 0x2f, 0x84),
         Pick(x, 0x53, 0xd1, 0x00, 0xed, 0x20, 0xfc, 0xb1, 0x5b, 0x6a, 0xcb, 0xbe, 0x39, 0x4a, 0x4c, 0x58, 0xcf),
         Pick(x, 0xd0, 0xef, 0xaa, 0xfb, 0x43, 0x4d, 0x33, 0x85, 0x45, 0xf9, 0x02, 0x7f, 0x50, 0x3c, 0x9f, 0xa8),
         Pick(x, 0x51, 0xa3, 0x40, 0x8f, 0x92, 0x9d, 0x38, 0xf5, 0xbc, 0xb6, 0xda, 0x21, 0x10, 0xff, 0xf3, 0xd2),
         Pick(x, 0xcd, 0x0c, 0x13, 0xec, 0x5f, 0x97, 0x44, 0x17, 0xc4, 0xa7, 0x7e, 0x3d, 0x64, 0x5d, 0x19, 0x73),
         Pick(x, 0x60, 0x81, 0x4f, 0xdc, 0x22, 0x2a, 0x90, 0x88, 0x46, 0xee, 0xb8, 0x14, 0xde, 0x5e, 0x0b, 0xdb),
         Pick(x, 0xe0, 0x32, 0x3a, 0x0a, 0x49, 0x06, 0x24, 0x5c, 0xc2, 0xd3, 0xac, 0x62, 0x91, 0x95, 0xe4, 0x79),
         Pick(x, 0xe7, 0xc8, 0x37, 0x6d, 0x8d, 0xd5, 0x4e, 0xa9, 0x6c, 0x56, 0xf4, 0xea, 0x65, 0x7a, 0xae, 0x08),
         Pick(x, 0xba, 0x78, 0x25, 0x2e, 0x1c, 0xa6, 0xb4, 0xc6, 0xe8, 0xdd, 0x74, 0x1f, 0x4b, 0xbd, 0x8b, 0x8a),
         Pick(x, 0x70, 0x3e, 0xb5, 0x66, 0x48, 0x03, 0xf6, 0x0e, 0x61, 0x35, 0x57, 0xb9, 0x86, 0xc1, 0x1d, 0x9e),
         Pick(x, 0xe1, 0xf8, 0x98, 0x11, 0x69, 0xd9, 0x8e, 0x94, 0x9b, 0x1e, 0x87, 0xe9, 0xce, 0x55, 0x28, 0xdf),
         Pick(x, 0x8c, 0xa1, 0x89, 0x0d, 0xbf, 0xe6, 0x42, 0x68, 0x41, 0x99, 0x2d, 0x0f, 0xb0, 0x54, 0xbb, 0x16))
  }

  /** INV_SBOX. */
  function InvSub(x: bv8): bv8 {
    Pick(x >> 4,
         Pick(x, 0x52, 0x09, 0x6a, 0xd5, 0x30, 0x36, 0xa5, 0x38, 0xbf, 0x40, 0xa3, 0x9e, 0x81, 0xf3, 0xd7, 0xfb),
         Pick(x, 0x7c, 0xe3, 0x39, 0x82, 0x9b, 0x2f, 0xff, 0x87, 0x34, 0x8e, 0x43, 0x44, 0xc4, 0xde, 0xe9, 0xcb),
         Pick(x, 0x54, 0x7b, 0x94, 0x32, 0xa6, 0xc2, 0x23, 0x3d, 0xee, 0x4c, 0x95, 0x0b, 0x42, 0xfa, 0xc3, 0x4e),
         Pick(x, 0x08, 0x2e, 0xa1, 0x66, 0x28, 0xd9, 0x24, 0xb2, 0x76, 0x5b, 0xa2, 0x49, 0x6d, 0x8b, 0xd1, 0x25),
         Pick(x, 0x72, 0xf8, 0xf6, 0x64, 0x86, 0x68, 0x98, 0x16, 0xd4, 0xa4, 0x5c, 0xcc, 0x5d, 0x65, 0xb6, 0x92),
         Pick(x, 0x6c, 0x70, 0x48, 0x50, 0xfd, 0xed, 0xb9, 0xda, 0x5e, 0x15, 0x46, 0x57, 0xa7, 0x8d, 0x9d, 0x84),
         Pick(x, 0x90, 0xd8, 0xab, 0x00, 0x8c, 0xbc, 0xd3, 0x0a, 0xf7, 0xe4, 0x58, 0x05, 0xb8, 0xb3, 0x45, 0x06),
         Pick(x, 0xd0, 0x2c, 0x1e, 0x8f, 0xca, 0x3f, 0x0f, 0x02, 0xc1, 0xaf, 0xbd, 0x03, 0x01, 0x13, 0x8a, 0x6b),
         Pick(x, 0x3a, 0x91, 0x11, 0x41, 0x4f, 0x67, 0xdc, 0xea, 0x97, 0xf2, 0xcf, 0xce, 0xf0, 0xb4, 0xe6, 0x73),
         Pick(x, 0x96, 0xac, 0x74, 0x22, 0xe7, 0xad, 0x35, 0x85, 0xe2, 0xf9, 0x37, 0xe8, 0x1c, 0x75, 0xdf, 0x6e),
         Pick(x, 0x47, 0xf1, 0x1a, 0x71, 0x1d, 0x29, 0xc5, 0x89, 0x6f, 0xb7, 0x62, 0x0e, 0xaa, 0x18, 0xbe, 0x1b),
         Pick(x, 0xfc, 0x56, 0x3e, 0x4b, 0xc6, 0xd2, 0x79, 0x20, 0x9a, 0xdb, 0xc0, 0xfe, 0x78, 0xcd, 0x5a, 0xf4),
         Pick(x, 0x1f, 0xdd, 0xa8, 0x33, 0x88, 0x07, 0xc7, 0x31, 0xb1, 0x12, 0x10, 0x59, 0x27, 0x80, 0xec, 0x5f),
         Pick(x, 0x60, 0x51, 0x7f, 0xa9, 0x19, 0xb5, 0x4a, 0x0d, 0x2d, 0xe5, 0x7a, 0x9f, 0x93, 0xc9, 0x9c, 0xef),
         Pick(x, 0xa0, 0xe0, 0x3b, 0x4d, 0xae, 0x2a, 0xf5, 0xb0, 0xc8, 0xeb, 0xbb, 0x3c, 0x83, 0x53, 0x99, 0x61),
         Pick(x, 0x17, 0x2b, 0x04, 0x7e, 0xba, 0x77, 0xd6, 0x26, 0xe1, 0x69, 0x14, 0x63, 0x55, 0x21, 0x0c, 0x7d))
  }

  lemma SubRow0(x: bv8)
    requires x >> 4 == 0x0
    ensures InvSub(Sub(x)) == x
  {
  }

  lemma SubRow1(x: bv8)
    requires x >> 4 == 0x1
    ensures InvSub(Sub(x)) == x
  {
  }

  lemma SubRow2(x: bv8)
    requires x >> 4 == 0x2
    ensures InvSub(Sub(x)) == x
  {
  }

  lemma SubRow3(x: bv8)
    requires x >> 4 == 0x3
    ensures InvSub(Sub(x)) == x
  {
  }

  lemma SubRow4(x: bv8)
    requires x >> 4 == 0x4
    ensures InvSub(Sub(x)) == x
  {
  }

  lemma SubRow5(x: bv8)
    requires x >> 4 == 0x5
    ensures InvSub(Sub(x)) == x
  {
  }

  lemma SubRow6(x: bv8)
    requires x >> 4 == 0x6
    ensures InvSub(Sub(x)) == x
  {
  }

  lemma SubRow7(x: bv8)
    requires x >> 4 == 0x7
    ensures InvSub(Sub(x)) == x
  {
  }

  lemma SubRow8(x: bv8)
    requires x >> 4 == 0x8
    ensures InvSub(Sub(x)) == x
  {
  }

  lemma SubRow9(x: bv8)
    requires x >> 4 == 0x9
    ensures InvSub(Sub(x)) == x
  {
  }

  lemma SubRowA(x: bv8)
    requires x >> 4 == 0xa
    ensures InvSub(Sub(x)) == x
  {
  }

  lemma SubRowB(x: bv8)
    requires x >> 4 == 0xb
    ensures InvSub(Sub(x)) == x
  {
  }

  lemma SubRowC(x: bv8)
    requires x >> 4 == 0xc
    ensures InvSub(Sub(x)) == x
  {
  }

  lemma SubRowD(x: bv8)
    requires x >> 4 == 0xd
    ensures InvSub(Sub(x)) == x
  {
  }

  lemma SubRowE(x: bv8)
    requires x >> 4 == 0xe
    ensures InvSub(Sub(x)) == x
  {
  }

  lemma SubRowF(x: bv8)
    requires x >> 4 == 0xf
    ensures InvSub(Sub(x)) == x
  {
  }

  /** The second table undoes the first on every byte. */
  lemma SubUndo(x: bv8)
    ensures InvSub(Sub(x)) == x
  {
    if x >> 4 == 0x0 {
      SubRow0(x);
    } else if x >> 4 == 0x1 {
      SubRow1(x);
    } else if x >> 4 == 0x2 {
      SubRow2(x);
    } else if x >> 4 == 0x3 {
      SubRow3(x);
    } else if x >> 4 == 0x4 {
      SubRow4(x);
    } else if x >> 4 == 0x5 {
      SubRow5(x);
    } else if x >> 4 == 0x6 {
      SubRow6(x);
    } else if x >> 4 == 0x7 {
      SubRow7(x);
    } else if x >> 4 == 0x8 {
      SubRow8(x);
    } else if x >> 4 == 0x9 {
      SubRow9(x);
    } else if x >> 4 == 0xa {
      SubRowA(x);
    } else if x >> 4 == 0xb {
      SubRowB(x);
    } else if x >> 4 == 0xc {
      SubRowC(x);
    } else if x >> 4 == 0xd {
      SubRowD(x);
    } else if x >> 4 == 0xe {
      SubRowE(x);
    } else {
      SubRowF(x);
    }
  }

  // ----- exclusive or, and multiplication in GF(2^8)

  function XorByte(a: bv8, b: bv8): bv8 {
    a ^ b
  }

  lemma XorAssoc(a: bv8, b: bv8, c: bv8)
    ensures XorByte(XorByte(a, b), c) == XorByte(a, XorByte(b, c))
  {
  }

  lemma XorComm(a: bv8, b: bv8)
    ensures XorByte(a, b) == XorByte(b, a)
  {
  }

  lemma XorExchange(a: bv8, b: bv8, c: bv8, d: bv8)
    ensures XorByte(XorByte(a, b), XorByte(c, d)) == XorByte(XorByte(a, c), XorByte(b, d))
  {
    XorAssoc(a, b, XorByte(c, d));
    XorAssoc(b, c, d);
    XorComm(b, c);
    XorAssoc(c, b, d);
    XorAssoc(a, c, XorByte(b, d));
  }

  lemma XorIsAddition()
    ensures Circulant.Addition(XorByte, 0)
  {
    forall a, b, c, d
      ensures Circulant.Exch(XorByte, a, b, c, d)
    {
      XorExchange(a, b, c, d);
    }
    forall a
      ensures Circulant.Neutral(XorByte, 0, a)
    {
    }
    forall a
      ensures Circulant.Cancels(XorByte, 0, a)
    {
    }
    forall a, b
      ensures Circulant.Swaps(XorByte, a, b)
    {
      XorComm(a, b);
    }
  }

  function Id(x: bv8): bv8 { x }

  /** gf_mul2: doubling modulo x^8 + x^4 + x^3 + x + 1. */
  function Mul2(x: bv8): bv8 {
    (x << 1) ^ (((x >> 7) & 1) * 0x1b)
  }

  /** gf_mul3, gf_mul9, gf_mul11, gf_mul13 and gf_mul14, with the products they pass through. */
  function Mul3(x: bv8): bv8 { Circulant.By3(XorByte, Mul2, x) }

  function Mul4(x: bv8): bv8 { Mul2(Mul2(x)) }

  function Mul5(x: bv8): bv8 { Circulant.By5(XorByte, Mul2, x) }

  function Mul6(x: bv8): bv8 { Mul2(Mul3(x)) }

  function Mul7(x: bv8): bv8 { Circulant.By7(XorByte, Mul2, x) }

  function Mul8(x: bv8): bv8 { Mul2(Mul4(x)) }

  function Mul9(x: bv8): bv8 { Circulant.By9(XorByte, Mul2, x) }

  function Mul10(x: bv8): bv8 { Mul2(Mul5(x)) }

  function Mul11(x: bv8): bv8 { Circulant.By11(XorByte, Mul2, x) }

  function Mul12(x: bv8): bv8 { Mul2(Mul6(x)) }

  function Mul13(x: bv8): bv8 { Circulant.By13(XorByte, Mul2, x) }

  function Mul14(x: bv8): bv8 { Circulant.By14(XorByte, Mul2, x) }

  lemma DoublingAdds(a: bv8, b: bv8)
    ensures Mul2(XorByte(a, b)) == XorByte(Mul2(a), Mul2(b))
  {
  }

  ghost predicate Maps(f: bv8 -> bv8) {
    Circulant.Additive(XorByte, 0, f)
  }

  lemma BaseMaps()
    ensures Maps(Mul2) && Maps(Id)
  {
    forall a, b
      ensures Circulant.Splits(XorByte, Mul2, a, b)
    {
      DoublingAdds(a, b);
    }
    assert Mul2(0) == 0;
  }

  /** If k is f plus the identity, or f doubled, it inherits additivity. */
  lemma PlusId(f: bv8 -> bv8, k: bv8 -> bv8)
    requires Maps(f) && forall x :: k(x) == XorByte(f(x), Id(x))
    ensures Maps(k)
  {
    XorIsAddition();
    BaseMaps();
    Circulant.SumAdditive(XorByte, 0, f, Id, k);
  }

  lemma Doubled(g: bv8 -> bv8, f: bv8 -> bv8, k: bv8 -> bv8)
    requires Maps(g) && Maps(f) && forall x :: k(x) == g(f(x))
    ensures Maps(k)
  {
    forall a, b
      ensures Circulant.Splits(XorByte, k, a, b)
    {
      assert Circulant.Splits(XorByte, f, a, b) && Circulant.Splits(XorByte, g, f(a), f(b));
    }
  }

  lemma Maps3()
    ensures Maps(Mul3)
  {
    BaseMaps();
    PlusId(Mul2, Mul3);
  }

  lemma Maps4()
    ensures Maps(Mul4)
  {
    BaseMaps();
    Doubled(Mul2, Mul2, Mul4);
  }

  lemma Maps5()
    ensures Maps(Mul5)
  {
    Maps4();
    PlusId(Mul4, Mul5);
  }

  lemma Maps6()
    ensures Maps(Mul6)
  {
    BaseMaps();
    Maps3();
    Doubled(Mul2, Mul3, Mul6);
  }

  lemma Maps7()
    ensures Maps(Mul7)
  {
    Maps6();
    PlusId(Mul6, Mul7);
  }

  lemma Maps8()
    ensures Maps(Mul8)
  {
    BaseMaps();
    Maps4();
    Doubled(Mul2, Mul4, Mul8);
  }

  lemma Maps9()
    ensures Maps(Mul9)
  {
    Maps8();
    PlusId(Mul8, Mul9);
  }

  lemma Maps10()
    ensures Maps(Mul10)
  {
    BaseMaps();
    Maps5();
    Doubled(Mul2, Mul5, Mul10);
  }

  lemma Maps11()
    ensures Maps(Mul11)
  {
    Maps10();
    PlusId(Mul10, Mul11);
  }

  lemma Maps12()
    ensures Maps(Mul12)
  {
    BaseMaps();
    Maps6();
    Doubled(Mul2, Mul6, Mul12);
  }

  lemma Maps13()
    ensures Maps(Mul13)
  {
    Maps12();
    PlusId(Mul12, Mul13);
  }

  lemma Maps14()
    ensures Maps(Mul14)
  {
    BaseMaps();
    Maps7();
    Doubled(Mul2, Mul7, Mul14);
  }

  // ----- the column matrices

  function Matrices(): Circulant.Pair<bv8> {
    Circulant.Pair(Mul2, Mul3, Id, Id, Mul14, Mul11, Mul13, Mul9)
  }

  function Four(a: bv8, b: bv8, c: bv8, d: bv8): bv8 {
    XorByte(XorByte(a, b), XorByte(c, d))
  }

  lemma Unit0(x: bv8)
    ensures Matrices().Unit0(XorByte, 0, x)
  {
    XorIsAddition();
    BaseMaps();
    Circulant.Sum0(XorByte, 0, Mul2, x);
  }

  lemma Unit1(x: bv8)
    ensures Matrices().Unit1(XorByte, 0, x)
  {
    XorIsAddition();
    BaseMaps();
    Circulant.Sum1(XorByte, 0, Mul2, x);
  }

  lemma Unit2(x: bv8)
    ensures Matrices().Unit2(XorByte, 0, x)
  {
    XorIsAddition();
    BaseMaps();
    Circulant.Sum2(XorByte, 0, Mul2, x);
  }

  lemma Unit3(x: bv8)
    ensures Matrices().Unit3(XorByte, 0, x)
  {
    XorIsAddition();
    BaseMaps();
    Circulant.Sum3(XorByte, 0, Mul2, x);
  }

  lemma MatricesUndo(x: bv8)
    ensures Matrices().UnitSums(XorByte, 0, x)
  {
    Unit0(x);
    Unit1(x);
    Unit2(x);
    Unit3(x);
  }

  lemma MatricesLinear()
    ensures Matrices().Linear(XorByte, 0)
  {
    BaseMaps();
    Maps3();
    Maps9();
    Maps11();
    Maps13();
    Maps14();
  }

  function Mix(s: Circulant.Col<bv8>): Circulant.Col<bv8> {
    Matrices().Forth(XorByte, s)
  }

  function Unmix(s: Circulant.Col<bv8>): Circulant.Col<bv8> {
    Matrices().Back(XorByte, s)
  }

  /** `a ^ b ^ c ^ d`. */
  function Xor4(a: bv8, b: bv8, c: bv8, d: bv8): bv8 {
    XorByte(XorByte(XorByte(a, b), c), d)
  }

  /** One column of mix_columns and of inv_mix_columns, as the code writes it. */
  function MixColumn(s: Circulant.Col<bv8>): Circulant.Col<bv8> {
    Circulant.Col(Xor4(Mul2(s.a), Mul3(s.b), s.c, s.d),
                  Xor4(s.a, Mul2(s.b), Mul3(s.c), s.d),
                  Xor4(s.a, s.b, Mul2(s.c), Mul3(s.d)),
                  Xor4(Mul3(s.a), s.b, s.c, Mul2(s.d)))
  }

  function UnmixColumn(s: Circulant.Col<bv8>): Circulant.Col<bv8> {
    Circulant.Col(Xor4(Mul14(s.a), Mul11(s.b), Mul13(s.c), Mul9(s.d)),
                  Xor4(Mul9(s.a), Mul14(s.b), Mul11(s.c), Mul13(s.d)),
                  Xor4(Mul13(s.a), Mul9(s.b), Mul14(s.c), Mul11(s.d)),
                  Xor4(Mul11(s.a), Mul13(s.b), Mul9(s.c), Mul14(s.d)))
  }

  lemma Flat(a: bv8, b: bv8, c: bv8, d: bv8)
    ensures Xor4(a, b, c, d) == Four(a, b, c, d)
  {
    XorAssoc(XorByte(a, b), c, d);
  }

  lemma MixFormula(s: Circulant.Col<bv8>)
    ensures Mix(s) == Circulant.Col(Four(Mul2(s.a), Mul3(s.b), s.c, s.d),
                                    Four(s.a, Mul2(s.b), Mul3(s.c), s.d),
                                    Four(s.a, s.b, Mul2(s.c), Mul3(s.d)),
                                    Four(Mul3(s.a), s.b, s.c, Mul2(s.d)))
  {
  }

  lemma UnmixFormula(s: Circulant.Col<bv8>)
    ensures Unmix(s) == Circulant.Col(Four(Mul14(s.a), Mul11(s.b), Mul13(s.c), Mul9(s.d)),
                                      Four(Mul9(s.a), Mul14(s.b), Mul11(s.c), Mul13(s.d)),
                                      Four(Mul13(s.a), Mul9(s.b), Mul14(s.c), Mul11(s.d)),
                                      Four(Mul11(s.a), Mul13(s.b), Mul9(s.c), Mul14(s.d)))
  {
  }

  /** The code's formulas are the circulant matrices. */
  lemma MixColumnIsMix(s: Circulant.Col<bv8>)
    ensures MixColumn(s) == Mix(s)
  {
    MixFormula(s);
    Flat(Mul2(s.a), Mul3(s.b), s.c, s.d);
    Flat(s.a, Mul2(s.b), Mul3(s.c), s.d);
    Flat(s.a, s.b, Mul2(s.c), Mul3(s.d));
    Flat(Mul3(s.a), s.b, s.c, Mul2(s.d));
  }

  lemma UnmixColumnIsUnmix(s: Circulant.Col<bv8>)
    ensures UnmixColumn(s) == Unmix(s)
  {
    UnmixFormula(s);
    Flat(Mul14(s.a), Mul11(s.b), Mul13(s.c), Mul9(s.d));
    Flat(Mul9(s.a), Mul14(s.b), Mul11(s.c), Mul13(s.d));
    Flat(Mul13(s.a), Mul9(s.b), Mul14(s.c), Mul11(s.d));
    Flat(Mul11(s.a), Mul13(s.b), Mul9(s.c), Mul14(s.d));
  }

  lemma UnmixMix(s: Circulant.Col<bv8>)
    ensures Unmix(Mix(s)) == s
  {
    XorIsAddition();
    MatricesLinear();
    MatricesUndo(s.a);
    MatricesUndo(s.b);
    MatricesUndo(s.c);
    MatricesUndo(s.d);
    Matrices().Undo(XorByte, 0, s);
  }

  /** inv_mix_columns undoes mix_columns on every column. */
  lemma MixColumnUndo(s: Circulant.Col<bv8>)
    ensures UnmixColumn(MixColumn(s)) == s
  {
    MixColumnIsMix(s);
    UnmixColumnIsUnmix(Mix(s));
    UnmixMix(s);
  }
}
