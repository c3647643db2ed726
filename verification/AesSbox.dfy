/** What the S-box of crypto/aes.rs is: the inverse in GF(2^8), followed by an affine map of the bits
    (section 5.1.1 of FIPS 197). */
module AesSbox {
  import opened AesField
  import Circulant

  function Times(x: bv8, mask: bv8, y: bv8): bv8 {
    if x & mask == 0 then 0 else y
  }

  /** The product in GF(2^8): y times each power of the variable that occurs in x (section 4.2). */
  function Gf(x: bv8, y: bv8): bv8 {
    var y2 := Mul2(y);
    var y4 := Mul2(y2);
    var y8 := Mul2(y4);
    var y16 := Mul2(y8);
    var y32 := Mul2(y16);
    var y64 := Mul2(y32);
    Times(x, 0x01, y) ^ Times(x, 0x02, y2) ^ Times(x, 0x04, y4) ^ Times(x, 0x08, y8)
    ^ Times(x, 0x10, y16) ^ Times(x, 0x20, y32) ^ Times(x, 0x40, y64) ^ Times(x, 0x80, Mul2(y64))
  }

  /** The inverse of x, where 0 counts as its own inverse. */
  predicate Inverse(x: bv8, y: bv8) {
    if x == 0 then y == 0 else Gf(x, y) == 1
  }

  function Affine(b: bv8): bv8 {
    b ^ ((b << 1) | (b >> 7)) ^ ((b << 2) | (b >> 6)) ^ ((b << 3) | (b >> 5)) ^ ((b << 4) | (b >> 4)) ^ 0x63
  }

  function InvAffine(b: bv8): bv8 {
    ((b << 1) | (b >> 7)) ^ ((b << 3) | (b >> 5)) ^ ((b << 6) | (b >> 2)) ^ 0x05
  }

  lemma AffineUndo(b: bv8)
    ensures Affine(InvAffine(b)) == b
  {
  }

  /** v is right as the entry for x. */
  predicate Entry(x: bv8, v: bv8) {
    Inverse(x, InvAffine(v))
  }

  /** A property of all entries of a row is one of every entry picked from it. */
  lemma PickFour(p: (bv8, bv8) -> bool, x: bv8, h: bv8, v0: bv8, v1: bv8, v2: bv8, v3: bv8)
    requires x & 0xfc == h && p(h, v0) && p(h | 1, v1) && p(h | 2, v2) && p(h | 3, v3)
    ensures p(x, Pick4(x, v0, v1, v2, v3))
  {
    assert x == if x & 2 == 0 then (if x & 1 == 0 then h else h | 1) else (if x & 1 == 0 then h | 2 else h | 3);
  }

  lemma PickEight(p: (bv8, bv8) -> bool, x: bv8, h: bv8, v0: bv8, v1: bv8, v2: bv8, v3: bv8,
                  v4: bv8, v5: bv8, v6: bv8, v7: bv8)
    requires x & 0xf8 == h && p(h, v0) && p(h | 1, v1) && p(h | 2, v2) && p(h | 3, v3)
    requires p(h | 4, v4) && p(h | 5, v5) && p(h | 6, v6) && p(h | 7, v7)
    ensures p(x, Pick8(x, v0, v1, v2, v3, v4, v5, v6, v7))
  {
    if x & 4 == 0 {
      assert x & 0xfc == h;
      PickFour(p, x, h, v0, v1, v2, v3);
    } else {
      assert x & 0xfc == h | 4 && (h | 4) | 1 == h | 5 && (h | 4) | 2 == h | 6 && (h | 4) | 3 == h | 7;
      PickFour(p, x, h | 4, v4, v5, v6, v7);
    }
  }

  lemma PickAll(p: (bv8, bv8) -> bool, x: bv8, h: bv8, v0: bv8, v1: bv8, v2: bv8, v3: bv8, v4: bv8, v5: bv8, v6: bv8, v7: bv8,
                v8: bv8, v9: bv8, v10: bv8, v11: bv8, v12: bv8, v13: bv8, v14: bv8, v15: bv8)
    requires x & 0xf0 == h
    requires p(h, v0) && p(h | 1, v1) && p(h | 2, v2) && p(h | 3, v3)
    requires p(h | 4, v4) && p(h | 5, v5) && p(h | 6, v6) && p(h | 7, v7)
    requires p(h | 8, v8) && p(h | 9, v9) && p(h | 10, v10) && p(h | 11, v11)
    requires p(h | 12, v12) && p(h | 13, v13) && p(h | 14, v14) && p(h | 15, v15)
    ensures p(x, Pick(x, v0, v1, v2, v3, v4, v5, v6, v7, v8, v9, v10, v11, v12, v13, v14, v15))
  {
    if x & 8 == 0 {
      assert x & 0xf8 == h;
      PickEight(p, x, h, v0, v1, v2, v3, v4, v5, v6, v7);
    } else {
      var g := h | 8;
      assert x & 0xf8 == g && g | 1 == h | 9 && g | 2 == h | 10 && g | 3 == h | 11;
      assert g | 4 == h | 12 && g | 5 == h | 13 && g | 6 == h | 14 && g | 7 == h | 15;
      PickEight(p, x, g, v8, v9, v10, v11, v12, v13, v14, v15);
    }
  }

  lemma Entries0()
    ensures Entry(0x00, 0x63) && Entry(0x01, 0x7c) && Entry(0x02, 0x77) && Entry(0x03, 0x7b)
    ensures Entry(0x04, 0xf2) && Entry(0x05, 0x6b) && Entry(0x06, 0x6f) && Entry(0x07, 0xc5)
    ensures Entry(0x08, 0x30) && Entry(0x09, 0x01) && Entry(0x0a, 0x67) && Entry(0x0b, 0x2b)
    ensures Entry(0x0c, 0xfe) && Entry(0x0d, 0xd7) && Entry(0x0e, 0xab) && Entry(0x0f, 0x76)
  {
  }

  lemma OnRow0(p: (bv8, bv8) -> bool, x: bv8)
    requires x & 0xf0 == 0x00
    requires p(0x00, 0x63) && p(0x01, 0x7c) && p(0x02, 0x77) && p(0x03, 0x7b)
    requires p(0x04, 0xf2) && p(0x05, 0x6b) && p(0x06, 0x6f) && p(0x07, 0xc5)
    requires p(0x08, 0x30) && p(0x09, 0x01) && p(0x0a, 0x67) && p(0x0b, 0x2b)
    requires p(0x0c, 0xfe) && p(0x0d, 0xd7) && p(0x0e, 0xab) && p(0x0f, 0x76)
    ensures p(x, Sub(x))
  {
    PickAll(p, x, 0x00, 0x63, 0x7c, 0x77, 0x7b, 0xf2, 0x6b, 0x6f, 0xc5,
            0x30, 0x01, 0x67, 0x2b, 0xfe, 0xd7, 0xab, 0x76);
  }

  lemma Row0(x: bv8)
    requires x & 0xf0 == 0x00
    ensures Entry(x, Sub(x))
  {
    Entries0();
    OnRow0(Entry, x);
  }

  lemma Entries1()
    ensures Entry(0x10, 0xca) && Entry(0x11, 0x82) && Entry(0x12, 0xc9) && Entry(0x13, 0x7d)
    ensures Entry(0x14, 0xfa) && Entry(0x15, 0x59) && Entry(0x16, 0x47) && Entry(0x17, 0xf0)
    ensures Entry(0x18, 0xad) && Entry(0x19, 0xd4) && Entry(0x1a, 0xa2) && Entry(0x1b, 0xaf)
    ensures Entry(0x1c, 0x9c) && Entry(0x1d, 0xa4) && Entry(0x1e, 0x72) && Entry(0x1f, 0xc0)
  {
  }

  lemma OnRow1(p: (bv8, bv8) -> bool, x: bv8)
    requires x & 0xf0 == 0x10
    requires p(0x10, 0xca) && p(0x11, 0x82) && p(0x12, 0xc9) && p(0x13, 0x7d)
    requires p(0x14, 0xfa) && p(0x15, 0x59) && p(0x16, 0x47) && p(0x17, 0xf0)
    requires p(0x18, 0xad) && p(0x19, 0xd4) && p(0x1a, 0xa2) && p(0x1b, 0xaf)
    requires p(0x1c, 0x9c) && p(0x1d, 0xa4) && p(0x1e, 0x72) && p(0x1f, 0xc0)
    ensures p(x, Sub(x))
  {
    PickAll(p, x, 0x10, 0xca, 0x82, 0xc9, 0x7d, 0xfa, 0x59, 0x47, 0xf0,
            0xad, 0xd4, 0xa2, 0xaf, 0x9c, 0xa4, 0x72, 0xc0);
  }

  lemma Row1(x: bv8)
    requires x & 0xf0 == 0x10
    ensures Entry(x, Sub(x))
  {
    Entries1();
    OnRow1(Entry, x);
  }

  lemma Entries2()
    ensures Entry(0x20, 0xb7) && Entry(0x21, 0xfd) && Entry(0x22, 0x93) && Entry(0x23, 0x26)
    ensures Entry(0x24, 0x36) && Entry(0x25, 0x3f) && Entry(0x26, 0xf7) && Entry(0x27, 0xcc)
    ensures Entry(0x28, 0x34) && Entry(0x29, 0xa5) && Entry(0x2a, 0xe5) && Entry(0x2b, 0xf1)
    ensures Entry(0x2c, 0x71) && Entry(0x2d, 0xd8) && Entry(0x2e, 0x31) && Entry(0x2f, 0x15)
  {
  }

  lemma OnRow2(p: (bv8, bv8) -> bool, x: bv8)
    requires x & 0xf0 == 0x20
    requires p(0x20, 0xb7) && p(0x21, 0xfd) && p(0x22, 0x93) && p(0x23, 0x26)
    requires p(0x24, 0x36) && p(0x25, 0x3f) && p(0x26, 0xf7) && p(0x27, 0xcc)
    requires p(0x28, 0x34) && p(0x29, 0xa5) && p(0x2a, 0xe5) && p(0x2b, 0xf1)
    requires p(0x2c, 0x71) && p(0x2d, 0xd8) && p(0x2e, 0x31) && p(0x2f, 0x15)
    ensures p(x, Sub(x))
  {
    PickAll(p, x, 0x20, 0xb7, 0xfd, 0x93, 0x26, 0x36, 0x3f, 0xf7, 0xcc,
            0x34, 0xa5, 0xe5, 0xf1, 0x71, 0xd8, 0x31, 0x15);
  }

  lemma Row2(x: bv8)
    requires x & 0xf0 == 0x20
    ensures Entry(x, Sub(x))
  {
    Entries2();
    OnRow2(Entry, x);
  }

  lemma Entries3()
    ensures Entry(0x30, 0x04) && Entry(0x31, 0xc7) && Entry(0x32, 0x23) && Entry(0x33, 0xc3)
    ensures Entry(0x34, 0x18) && Entry(0x35, 0x96) && Entry(0x36, 0x05) && Entry(0x37, 0x9a)
    ensures Entry(0x38, 0x07) && Entry(0x39, 0x12) && Entry(0x3a, 0x80) && Entry(0x3b, 0xe2)
    ensures Entry(0x3c, 0xeb) && Entry(0x3d, 0x27) && Entry(0x3e, 0xb2) && Entry(0x3f, 0x75)
  {
  }

  lemma OnRow3(p: (bv8, bv8) -> bool, x: bv8)
    requires x & 0xf0 == 0x30
    requires p(0x30, 0x04) && p(0x31, 0xc7) && p(0x32, 0x23) && p(0x33, 0xc3)
    requires p(0x34, 0x18) && p(0x35, 0x96) && p(0x36, 0x05) && p(0x37, 0x9a)
    requires p(0x38, 0x07) && p(0x39, 0x12) && p(0x3a, 0x80) && p(0x3b, 0xe2)
    requires p(0x3c, 0xeb) && p(0x3d, 0x27) && p(0x3e, 0xb2) && p(0x3f, 0x75)
    ensures p(x, Sub(x))
  {
    PickAll(p, x, 0x30, 0x04, 0xc7, 0x23, 0xc3, 0x18, 0x96, 0x05, 0x9a,
            0x07, 0x12, 0x80, 0xe2, 0xeb, 0x27, 0xb2, 0x75);
  }

  lemma Row3(x: bv8)
    requires x & 0xf0 == 0x30
    ensures Entry(x, Sub(x))
  {
    Entries3();
    OnRow3(Entry, x);
  }

  lemma Entries4()
    ensures Entry(0x40, 0x09) && Entry(0x41, 0x83) && Entry(0x42, 0x2c) && Entry(0x43, 0x1a)
    ensures Entry(0x44, 0x1b) && Entry(0x45, 0x6e) && Entry(0x46, 0x5a) && Entry(0x47, 0xa0)
    ensures Entry(0x48, 0x52) && Entry(0x49, 0x3b) && Entry(0x4a, 0xd6) && Entry(0x4b, 0xb3)
    ensures Entry(0x4c, 0x29) && Entry(0x4d, 0xe3) && Entry(0x4e, 0x2f) && Entry(0x4f, 0x84)
  {
  }

  lemma OnRow4(p: (bv8, bv8) -> bool, x: bv8)
    requires x & 0xf0 == 0x40
    requires p(0x40, 0x09) && p(0x41, 0x83) && p(0x42, 0x2c) && p(0x43, 0x1a)
    requires p(0x44, 0x1b) && p(0x45, 0x6e) && p(0x46, 0x5a) && p(0x47, 0xa0)
    requires p(0x48, 0x52) && p(0x49, 0x3b) && p(0x4a, 0xd6) && p(0x4b, 0xb3)
    requires p(0x4c, 0x29) && p(0x4d, 0xe3) && p(0x4e, 0x2f) && p(0x4f, 0x84)
    ensures p(x, Sub(x))
  {
    PickAll(p, x, 0x40, 0x09, 0x83, 0x2c, 0x1a, 0x1b, 0x6e, 0x5a, 0xa0,
            0x52, 0x3b, 0xd6, 0xb3, 0x29, 0xe3, 0x2f, 0x84);
  }

  lemma Row4(x: bv8)
    requires x & 0xf0 == 0x40
    ensures Entry(x, Sub(x))
  {
    Entries4();
    OnRow4(Entry, x);
  }

  lemma Entries5()
    ensures Entry(0x50, 0x53) && Entry(0x51, 0xd1) && Entry(0x52, 0x00) && Entry(0x53, 0xed)
    ensures Entry(0x54, 0x20) && Entry(0x55, 0xfc) && Entry(0x56, 0xb1) && Entry(0x57, 0x5b)
    ensures Entry(0x58, 0x6a) && Entry(0x59, 0xcb) && Entry(0x5a, 0xbe) && Entry(0x5b, 0x39)
    ensures Entry(0x5c, 0x4a) && Entry(0x5d, 0x4c) && Entry(0x5e, 0x58) && Entry(0x5f, 0xcf)
  {
  }

  lemma OnRow5(p: (bv8, bv8) -> bool, x: bv8)
    requires x & 0xf0 == 0x50
    requires p(0x50, 0x53) && p(0x51, 0xd1) && p(0x52, 0x00) && p(0x53, 0xed)
    requires p(0x54, 0x20) && p(0x55, 0xfc) && p(0x56, 0xb1) && p(0x57, 0x5b)
    requires p(0x58, 0x6a) && p(0x59, 0xcb) && p(0x5a, 0xbe) && p(0x5b, 0x39)
    requires p(0x5c, 0x4a) && p(0x5d, 0x4c) && p(0x5e, 0x58) && p(0x5f, 0xcf)
    ensures p(x, Sub(x))
  {
    PickAll(p, x, 0x50, 0x53, 0xd1, 0x00, 0xed, 0x20, 0xfc, 0xb1, 0x5b,
            0x6a, 0xcb, 0xbe, 0x39, 0x4a, 0x4c, 0x58, 0xcf);
  }

  lemma Row5(x: bv8)
    requires x & 0xf0 == 0x50
    ensures Entry(x, Sub(x))
  {
    Entries5();
    OnRow5(Entry, x);
  }

  lemma Entries6()
    ensures Entry(0x60, 0xd0) && Entry(0x61, 0xef) && Entry(0x62, 0xaa) && Entry(0x63, 0xfb)
    ensures Entry(0x64, 0x43) && Entry(0x65, 0x4d) && Entry(0x66, 0x33) && Entry(0x67, 0x85)
    ensures Entry(0x68, 0x45) && Entry(0x69, 0xf9) && Entry(0x6a, 0x02) && Entry(0x6b, 0x7f)
    ensures Entry(0x6c, 0x50) && Entry(0x6d, 0x3c) && Entry(0x6e, 0x9f) && Entry(0x6f, 0xa8)
  {
  }

  lemma OnRow6(p: (bv8, bv8) -> bool, x: bv8)
    requires x & 0xf0 == 0x60
    requires p(0x60, 0xd0) && p(0x61, 0xef) && p(0x62, 0xaa) && p(0x63, 0xfb)
    requires p(0x64, 0x43) && p(0x65, 0x4d) && p(0x66, 0x33) && p(0x67, 0x85)
    requires p(0x68, 0x45) && p(0x69, 0xf9) && p(0x6a, 0x02) && p(0x6b, 0x7f)
    requires p(0x6c, 0x50) && p(0x6d, 0x3c) && p(0x6e, 0x9f) && p(0x6f, 0xa8)
    ensures p(x, Sub(x))
  {
    PickAll(p, x, 0x60, 0xd0, 0xef, 0xaa, 0xfb, 0x43, 0x4d, 0x33, 0x85,
            0x45, 0xf9, 0x02, 0x7f, 0x50, 0x3c, 0x9f, 0xa8);
  }

  lemma Row6(x: bv8)
    requires x & 0xf0 == 0x60
    ensures Entry(x, Sub(x))
  {
    Entries6();
    OnRow6(Entry, x);
  }

  lemma Entries7()
    ensures Entry(0x70, 0x51) && Entry(0x71, 0xa3) && Entry(0x72, 0x40) && Entry(0x73, 0x8f)
    ensures Entry(0x74, 0x92) && Entry(0x75, 0x9d) && Entry(0x76, 0x38) && Entry(0x77, 0xf5)
    ensures Entry(0x78, 0xbc) && Entry(0x79, 0xb6) && Entry(0x7a, 0xda) && Entry(0x7b, 0x21)
    ensures Entry(0x7c, 0x10) && Entry(0x7d, 0xff) && Entry(0x7e, 0xf3) && Entry(0x7f, 0xd2)
  {
  }

  lemma OnRow7(p: (bv8, bv8) -> bool, x: bv8)
    requires x & 0xf0 == 0x70
    requires p(0x70, 0x51) && p(0x71, 0xa3) && p(0x72, 0x40) && p(0x73, 0x8f)
    requires p(0x74, 0x92) && p(0x75, 0x9d) && p(0x76, 0x38) && p(0x77, 0xf5)
    requires p(0x78, 0xbc) && p(0x79, 0xb6) && p(0x7a, 0xda) && p(0x7b, 0x21)
    requires p(0x7c, 0x10) && p(0x7d, 0xff) && p(0x7e, 0xf3) && p(0x7f, 0xd2)
    ensures p(x, Sub(x))
  {
    PickAll(p, x, 0x70, 0x51, 0xa3, 0x40, 0x8f, 0x92, 0x9d, 0x38, 0xf5,
            0xbc, 0xb6, 0xda, 0x21, 0x10, 0xff, 0xf3, 0xd2);
  }

  lemma Row7(x: bv8)
    requires x & 0xf0 == 0x70
    ensures Entry(x, Sub(x))
  {
    Entries7();
    OnRow7(Entry, x);
  }

  lemma Entries8()
    ensures Entry(0x80, 0xcd) && Entry(0x81, 0x0c) && Entry(0x82, 0x13) && Entry(0x83, 0xec)
    ensures Entry(0x84, 0x5f) && Entry(0x85, 0x97) && Entry(0x86, 0x44) && Entry(0x87, 0x17)
    ensures Entry(0x88, 0xc4) && Entry(0x89, 0xa7) && Entry(0x8a, 0x7e) && Entry(0x8b, 0x3d)
    ensures Entry(0x8c, 0x64) && Entry(0x8d, 0x5d) && Entry(0x8e, 0x19) && Entry(0x8f, 0x73)
  {
  }

  lemma OnRow8(p: (bv8, bv8) -> bool, x: bv8)
    requires x & 0xf0 == 0x80
    requires p(0x80, 0xcd) && p(0x81, 0x0c) && p(0x82, 0x13) && p(0x83, 0xec)
    requires p(0x84, 0x5f) && p(0x85, 0x97) && p(0x86, 0x44) && p(0x87, 0x17)
    requires p(0x88, 0xc4) && p(0x89, 0xa7) && p(0x8a, 0x7e) && p(0x8b, 0x3d)
    requires p(0x8c, 0x64) && p(0x8d, 0x5d) && p(0x8e, 0x19) && p(0x8f, 0x73)
    ensures p(x, Sub(x))
  {
    PickAll(p, x, 0x80, 0xcd, 0x0c, 0x13, 0xec, 0x5f, 0x97, 0x44, 0x17,
            0xc4, 0xa7, 0x7e, 0x3d, 0x64, 0x5d, 0x19, 0x73);
  }

  lemma Row8(x: bv8)
    requires x & 0xf0 == 0x80
    ensures Entry(x, Sub(x))
  {
    Entries8();
    OnRow8(Entry, x);
  }

  lemma Entries9()
    ensures Entry(0x90, 0x60) && Entry(0x91, 0x81) && Entry(0x92, 0x4f) && Entry(0x93, 0xdc)
    ensures Entry(0x94, 0x22) && Entry(0x95, 0x2a) && Entry(0x96, 0x90) && Entry(0x97, 0x88)
    ensures Entry(0x98, 0x46) && Entry(0x99, 0xee) && Entry(0x9a, 0xb8) && Entry(0x9b, 0x14)
    ensures Entry(0x9c, 0xde) && Entry(0x9d, 0x5e) && Entry(0x9e, 0x0b) && Entry(0x9f, 0xdb)
  {
  }

  lemma OnRow9(p: (bv8, bv8) -> bool, x: bv8)
    requires x & 0xf0 == 0x90
    requires p(0x90, 0x60) && p(0x91, 0x81) && p(0x92, 0x4f) && p(0x93, 0xdc)
    requires p(0x94, 0x22) && p(0x95, 0x2a) && p(0x96, 0x90) && p(0x97, 0x88)
    requires p(0x98, 0x46) && p(0x99, 0xee) && p(0x9a, 0xb8) && p(0x9b, 0x14)
    requires p(0x9c, 0xde) && p(0x9d, 0x5e) && p(0x9e, 0x0b) && p(0x9f, 0xdb)
    ensures p(x, Sub(x))
  {
    PickAll(p, x, 0x90, 0x60, 0x81, 0x4f, 0xdc, 0x22, 0x2a, 0x90, 0x88,
            0x46, 0xee, 0xb8, 0x14, 0xde, 0x5e, 0x0b, 0xdb);
  }

  lemma Row9(x: bv8)
    requires x & 0xf0 == 0x90
    ensures Entry(x, Sub(x))
  {
    Entries9();
    OnRow9(Entry, x);
  }

  lemma EntriesA()
    ensures Entry(0xa0, 0xe0) && Entry(0xa1, 0x32) && Entry(0xa2, 0x3a) && Entry(0xa3, 0x0a)
    ensures Entry(0xa4, 0x49) && Entry(0xa5, 0x06) && Entry(0xa6, 0x24) && Entry(0xa7, 0x5c)
    ensures Entry(0xa8, 0xc2) && Entry(0xa9, 0xd3) && Entry(0xaa, 0xac) && Entry(0xab, 0x62)
    ensures Entry(0xac, 0x91) && Entry(0xad, 0x95) && Entry(0xae, 0xe4) && Entry(0xaf, 0x79)
  {
  }

  lemma OnRowA(p: (bv8, bv8) -> bool, x: bv8)
    requires x & 0xf0 == 0xa0
    requires p(0xa0, 0xe0) && p(0xa1, 0x32) && p(0xa2, 0x3a) && p(0xa3, 0x0a)
    requires p(0xa4, 0x49) && p(0xa5, 0x06) && p(0xa6, 0x24) && p(0xa7, 0x5c)
    requires p(0xa8, 0xc2) && p(0xa9, 0xd3) && p(0xaa, 0xac) && p(0xab, 0x62)
    requires p(0xac, 0x91) && p(0xad, 0x95) && p(0xae, 0xe4) && p(0xaf, 0x79)
    ensures p(x, Sub(x))
  {
    PickAll(p, x, 0xa0, 0xe0, 0x32, 0x3a, 0x0a, 0x49, 0x06, 0x24, 0x5c,
            0xc2, 0xd3, 0xac, 0x62, 0x91, 0x95, 0xe4, 0x79);
  }

  lemma RowA(x: bv8)
    requires x & 0xf0 == 0xa0
    ensures Entry(x, Sub(x))
  {
    EntriesA();
    OnRowA(Entry, x);
  }

  lemma EntriesB()
    ensures Entry(0xb0, 0xe7) && Entry(0xb1, 0xc8) && Entry(0xb2, 0x37) && Entry(0xb3, 0x6d)
    ensures Entry(0xb4, 0x8d) && Entry(0xb5, 0xd5) && Entry(0xb6, 0x4e) && Entry(0xb7, 0xa9)
    ensures Entry(0xb8, 0x6c) && Entry(0xb9, 0x56) && Entry(0xba, 0xf4) && Entry(0xbb, 0xea)
    ensures Entry(0xbc, 0x65) && Entry(0xbd, 0x7a) && Entry(0xbe, 0xae) && Entry(0xbf, 0x08)
  {
  }

  lemma OnRowB(p: (bv8, bv8) -> bool, x: bv8)
    requires x & 0xf0 == 0xb0
    requires p(0xb0, 0xe7) && p(0xb1, 0xc8) && p(0xb2, 0x37) && p(0xb3, 0x6d)
    requires p(0xb4, 0x8d) && p(0xb5, 0xd5) && p(0xb6, 0x4e) && p(0xb7, 0xa9)
    requires p(0xb8, 0x6c) && p(0xb9, 0x56) && p(0xba, 0xf4) && p(0xbb, 0xea)
    requires p(0xbc, 0x65) && p(0xbd, 0x7a) && p(0xbe, 0xae) && p(0xbf, 0x08)
    ensures p(x, Sub(x))
  {
    PickAll(p, x, 0xb0, 0xe7, 0xc8, 0x37, 0x6d, 0x8d, 0xd5, 0x4e, 0xa9,
            0x6c, 0x56, 0xf4, 0xea, 0x65, 0x7a, 0xae, 0x08);
  }

  lemma RowB(x: bv8)
    requires x & 0xf0 == 0xb0
    ensures Entry(x, Sub(x))
  {
    EntriesB();
    OnRowB(Entry, x);
  }

  lemma EntriesC()
    ensures Entry(0xc0, 0xba) && Entry(0xc1, 0x78) && Entry(0xc2, 0x25) && Entry(0xc3, 0x2e)
    ensures Entry(0xc4, 0x1c) && Entry(0xc5, 0xa6) && Entry(0xc6, 0xb4) && Entry(0xc7, 0xc6)
    ensures Entry(0xc8, 0xe8) && Entry(0xc9, 0xdd) && Entry(0xca, 0x74) && Entry(0xcb, 0x1f)
    ensures Entry(0xcc, 0x4b) && Entry(0xcd, 0xbd) && Entry(0xce, 0x8b) && Entry(0xcf, 0x8a)
  {
  }

  lemma OnRowC(p: (bv8, bv8) -> bool, x: bv8)
    requires x & 0xf0 == 0xc0
    requires p(0xc0, 0xba) && p(0xc1, 0x78) && p(0xc2, 0x25) && p(0xc3, 0x2e)
    requires p(0xc4, 0x1c) && p(0xc5, 0xa6) && p(0xc6, 0xb4) && p(0xc7, 0xc6)
    requires p(0xc8, 0xe8) && p(0xc9, 0xdd) && p(0xca, 0x74) && p(0xcb, 0x1f)
    requires p(0xcc, 0x4b) && p(0xcd, 0xbd) && p(0xce, 0x8b) && p(0xcf, 0x8a)
    ensures p(x, Sub(x))
  {
    PickAll(p, x, 0xc0, 0xba, 0x78, 0x25, 0x2e, 0x1c, 0xa6, 0xb4, 0xc6,
            0xe8, 0xdd, 0x74, 0x1f, 0x4b, 0xbd, 0x8b, 0x8a);
  }

  lemma RowC(x: bv8)
    requires x & 0xf0 == 0xc0
    ensures Entry(x, Sub(x))
  {
    EntriesC();
    OnRowC(Entry, x);
  }

  lemma EntriesD()
    ensures Entry(0xd0, 0x70) && Entry(0xd1, 0x3e) && Entry(0xd2, 0xb5) && Entry(0xd3, 0x66)
    ensures Entry(0xd4, 0x48) && Entry(0xd5, 0x03) && Entry(0xd6, 0xf6) && Entry(0xd7, 0x0e)
    ensures Entry(0xd8, 0x61) && Entry(0xd9, 0x35) && Entry(0xda, 0x57) && Entry(0xdb, 0xb9)
    ensures Entry(0xdc, 0x86) && Entry(0xdd, 0xc1) && Entry(0xde, 0x1d) && Entry(0xdf, 0x9e)
  {
  }

  lemma OnRowD(p: (bv8, bv8) -> bool, x: bv8)
    requires x & 0xf0 == 0xd0
    requires p(0xd0, 0x70) && p(0xd1, 0x3e) && p(0xd2, 0xb5) && p(0xd3, 0x66)
    requires p(0xd4, 0x48) && p(0xd5, 0x03) && p(0xd6, 0xf6) && p(0xd7, 0x0e)
    requires p(0xd8, 0x61) && p(0xd9, 0x35) && p(0xda, 0x57) && p(0xdb, 0xb9)
    requires p(0xdc, 0x86) && p(0xdd, 0xc1) && p(0xde, 0x1d) && p(0xdf, 0x9e)
    ensures p(x, Sub(x))
  {
    PickAll(p, x, 0xd0, 0x70, 0x3e, 0xb5, 0x66, 0x48, 0x03, 0xf6, 0x0e,
            0x61, 0x35, 0x57, 0xb9, 0x86, 0xc1, 0x1d, 0x9e);
  }

  lemma RowD(x: bv8)
    requires x & 0xf0 == 0xd0
    ensures Entry(x, Sub(x))
  {
    EntriesD();
    OnRowD(Entry, x);
  }

  lemma EntriesE()
    ensures Entry(0xe0, 0xe1) && Entry(0xe1, 0xf8) && Entry(0xe2, 0x98) && Entry(0xe3, 0x11)
    ensures Entry(0xe4, 0x69) && Entry(0xe5, 0xd9) && Entry(0xe6, 0x8e) && Entry(0xe7, 0x94)
    ensures Entry(0xe8, 0x9b) && Entry(0xe9, 0x1e) && Entry(0xea, 0x87) && Entry(0xeb, 0xe9)
    ensures Entry(0xec, 0xce) && Entry(0xed, 0x55) && Entry(0xee, 0x28) && Entry(0xef, 0xdf)
  {
  }

  lemma OnRowE(p: (bv8, bv8) -> bool, x: bv8)
    requires x & 0xf0 == 0xe0
    requires p(0xe0, 0xe1) && p(0xe1, 0xf8) && p(0xe2, 0x98) && p(0xe3, 0x11)
    requires p(0xe4, 0x69) && p(0xe5, 0xd9) && p(0xe6, 0x8e) && p(0xe7, 0x94)
    requires p(0xe8, 0x9b) && p(0xe9, 0x1e) && p(0xea, 0x87) && p(0xeb, 0xe9)
    requires p(0xec, 0xce) && p(0xed, 0x55) && p(0xee, 0x28) && p(0xef, 0xdf)
    ensures p(x, Sub(x))
  {
    PickAll(p, x, 0xe0, 0xe1, 0xf8, 0x98, 0x11, 0x69, 0xd9, 0x8e, 0x94,
            0x9b, 0x1e, 0x87, 0xe9, 0xce, 0x55, 0x28, 0xdf);
  }

  lemma RowE(x: bv8)
    requires x & 0xf0 == 0xe0
    ensures Entry(x, Sub(x))
  {
    EntriesE();
    OnRowE(Entry, x);
  }

  lemma EntriesF()
    ensures Entry(0xf0, 0x8c) && Entry(0xf1, 0xa1) && Entry(0xf2, 0x89) && Entry(0xf3, 0x0d)
    ensures Entry(0xf4, 0xbf) && Entry(0xf5, 0xe6) && Entry(0xf6, 0x42) && Entry(0xf7, 0x68)
    ensures Entry(0xf8, 0x41) && Entry(0xf9, 0x99) && Entry(0xfa, 0x2d) && Entry(0xfb, 0x0f)
    ensures Entry(0xfc, 0xb0) && Entry(0xfd, 0x54) && Entry(0xfe, 0xbb) && Entry(0xff, 0x16)
  {
  }

  lemma OnRowF(p: (bv8, bv8) -> bool, x: bv8)
    requires x & 0xf0 == 0xf0
    requires p(0xf0, 0x8c) && p(0xf1, 0xa1) && p(0xf2, 0x89) && p(0xf3, 0x0d)
    requires p(0xf4, 0xbf) && p(0xf5, 0xe6) && p(0xf6, 0x42) && p(0xf7, 0x68)
    requires p(0xf8, 0x41) && p(0xf9, 0x99) && p(0xfa, 0x2d) && p(0xfb, 0x0f)
    requires p(0xfc, 0xb0) && p(0xfd, 0x54) && p(0xfe, 0xbb) && p(0xff, 0x16)
    ensures p(x, Sub(x))
  {
    PickAll(p, x, 0xf0, 0x8c, 0xa1, 0x89, 0x0d, 0xbf, 0xe6, 0x42, 0x68,
            0x41, 0x99, 0x2d, 0x0f, 0xb0, 0x54, 0xbb, 0x16);
  }

  lemma RowF(x: bv8)
    requires x & 0xf0 == 0xf0
    ensures Entry(x, Sub(x))
  {
    EntriesF();
    OnRowF(Entry, x);
  }

  /** Every entry of the table. */
  lemma Entries(x: bv8)
    ensures Entry(x, Sub(x))
  {
    if x & 0xf0 == 0x00 {
      Row0(x);
    } else if x & 0xf0 == 0x10 {
      Row1(x);
    } else if x & 0xf0 == 0x20 {
      Row2(x);
    } else if x & 0xf0 == 0x30 {
      Row3(x);
    } else if x & 0xf0 == 0x40 {
      Row4(x);
    } else if x & 0xf0 == 0x50 {
      Row5(x);
    } else if x & 0xf0 == 0x60 {
      Row6(x);
    } else if x & 0xf0 == 0x70 {
      Row7(x);
    } else if x & 0xf0 == 0x80 {
      Row8(x);
    } else if x & 0xf0 == 0x90 {
      Row9(x);
    } else if x & 0xf0 == 0xa0 {
      RowA(x);
    } else if x & 0xf0 == 0xb0 {
      RowB(x);
    } else if x & 0xf0 == 0xc0 {
      RowC(x);
    } else if x & 0xf0 == 0xd0 {
      RowD(x);
    } else if x & 0xf0 == 0xe0 {
      RowE(x);
    } else {
      RowF(x);
    }
  }

  /** The S-box on every byte: the affine map of the inverse. */
  lemma SubIsAffineInverse(x: bv8) returns (y: bv8)
    ensures Inverse(x, y) && Sub(x) == Affine(y)
  {
    y := InvAffine(Sub(x));
    Entries(x);
    AffineUndo(Sub(x));
  }

  // ----- the multipliers of the column mixing

  lemma Product3(x: bv8)
    ensures Mul3(x) == Gf(3, x)
  {
  }

  lemma Product9(x: bv8)
    ensures Mul9(x) == Gf(9, x)
  {
  }

  lemma Product11(x: bv8)
    ensures Mul11(x) == Gf(11, x)
  {
  }

  lemma Product13(x: bv8)
    ensures Mul13(x) == Gf(13, x)
  {
  }

  lemma Product14(x: bv8)
    ensures Mul14(x) == Gf(14, x)
  {
  }

  /** The multiplications the code composes of doublings are the products in the field. */
  lemma MultipliersAreProducts(x: bv8)
    ensures Mul2(x) == Gf(2, x) && Mul3(x) == Gf(3, x) && Mul9(x) == Gf(9, x)
    ensures Mul11(x) == Gf(11, x) && Mul13(x) == Gf(13, x) && Mul14(x) == Gf(14, x)
  {
    Product3(x);
    Product9(x);
    Product11(x);
    Product13(x);
    Product14(x);
  }

  /** The coefficients of {03}x^3 + {01}x^2 + {01}x + {02}, from the constant one up, cyclically. */
  function Coefficient(i: nat): bv8 {
    if i % 4 == 0 then 2 else if i % 4 == 3 then 3 else 1
  }

  /** Coefficient i of that polynomial times the column's, modulo x^4 + 1 (section 4.3). */
  function ProductAt(times: (bv8, bv8) -> bv8, s: Circulant.Col<bv8>, i: nat): bv8 {
    Xor4(times(Coefficient(i), s.a), times(Coefficient(i + 3), s.b), times(Coefficient(i + 2), s.c), times(Coefficient(i + 1), s.d))
  }

  ghost predicate Multiplies(times: (bv8, bv8) -> bv8, y: bv8) {
    times(1, y) == y && times(2, y) == Mul2(y) && times(3, y) == Mul3(y)
  }

  lemma GfMultiplies(y: bv8)
    ensures Multiplies(Gf, y)
  {
    MultipliersAreProducts(y);
    assert Gf(1, y) == y;
  }

  lemma ProductsBy(times: (bv8, bv8) -> bv8, s: Circulant.Col<bv8>, two: Circulant.Col<bv8>, three: Circulant.Col<bv8>)
    requires times(1, s.a) == s.a && times(1, s.b) == s.b && times(1, s.c) == s.c && times(1, s.d) == s.d
    requires two == Circulant.Col(times(2, s.a), times(2, s.b), times(2, s.c), times(2, s.d))
    requires three == Circulant.Col(times(3, s.a), times(3, s.b), times(3, s.c), times(3, s.d))
    ensures ProductAt(times, s, 0) == Xor4(two.a, three.b, s.c, s.d) && ProductAt(times, s, 1) == Xor4(s.a, two.b, three.c, s.d)
    ensures ProductAt(times, s, 2) == Xor4(s.a, s.b, two.c, three.d) && ProductAt(times, s, 3) == Xor4(three.a, s.b, s.c, two.d)
  {
    assert Coefficient(0) == 2 && Coefficient(1) == 1 && Coefficient(2) == 1 && Coefficient(3) == 3;
    assert Coefficient(4) == 2 && Coefficient(5) == 1 && Coefficient(6) == 1;
  }

  /** mix_columns multiplies the polynomial of a column (section 5.1.3). */
  lemma MixIsPolynomialProduct(s: Circulant.Col<bv8>)
    ensures MixColumn(s) == Circulant.Col(ProductAt(Gf, s, 0), ProductAt(Gf, s, 1), ProductAt(Gf, s, 2), ProductAt(Gf, s, 3))
  {
    GfMultiplies(s.a);
    GfMultiplies(s.b);
    GfMultiplies(s.c);
    GfMultiplies(s.d);
    ProductsBy(Gf, s, Circulant.Col(Mul2(s.a), Mul2(s.b), Mul2(s.c), Mul2(s.d)),
               Circulant.Col(Mul3(s.a), Mul3(s.b), Mul3(s.c), Mul3(s.d)));
  }
}
