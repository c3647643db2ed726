/** The Poly1305 authenticator of crypto/chacha20.rs against section 2.5 of RFC 8439. */
module Poly1305Mac {
  import opened NumberTheory
  import opened Bits
  import opened Limbs
  import opened LittleEndian
  import opened PolyLimbs
  import opened PolyTag

  // ----- the key

  const CLAMP0: nat := 0x3ff_ffff
  const CLAMP1: nat := 0x3ff_ff03
  const CLAMP2: nat := 0x3ff_c0ff
  const CLAMP3: nat := 0x3f0_3fff
  const CLAMP4: nat := 0x00f_ffff
  /** The 128-bit clamp of section 2.5 of RFC 8439. */
  const CLAMP: nat := 0x0fff_fffc_0fff_fffc_0fff_fffc_0fff_ffff

  /** Five overlapping words of the key, shifted and masked. */
  method ClampedLimbs(key: seq<u8>) returns (r: Limbs5)
    requires |key| == 32
    ensures Clamped(r) && V(r) == And(Le(key[..16]), CLAMP)
  {
    var r0 := MaskWord(Word(key, 0), CLAMP0);
    var r1 := MaskWord(Word(key, 3) / 4, CLAMP1);
    var r2 := MaskWord(Word(key, 6) / 16, CLAMP2);
    var r3 := MaskWord(Word(key, 9) / 64, CLAMP3);
    var r4 := MaskWord(Word(key, 12) / 256, CLAMP4);
    r := Limbs5(r0, r1, r2, r3, r4);
    ClampValue(key);
    HornerDigits(r);
  }

  method MaskWord(x: u32, m: u32) returns (y: u32)
    ensures y == And(x, m) && y <= m
  {
    AndBound(x, m);
    y := And(x, m);
  }

  function Digit(low: nat, high: nat): nat {
    low + 0x400_0000 * high
  }

  lemma AndDigit(a: nat, b: nat, c: nat, d: nat)
    requires a < 0x400_0000 && c < 0x400_0000
    ensures And(Digit(a, b), Digit(c, d)) == Digit(And(a, c), And(b, d))
  {
    Pow26();
    AndSplit(a, b, c, d, 26);
  }

  lemma AndLow(x: nat, k: nat, hi: nat, m: nat)
    requires x == k + 0x400_0000 * hi && k < 0x400_0000 && m < 0x400_0000
    ensures And(x, m) == And(k, m)
  {
    AndDigit(k, hi, m, 0);
    AndZero(hi);
  }

  /** And on five digits of 26 bits is And on each. */
  lemma AndFive(k: Limbs5, m: Limbs5)
    requires Canonical(k) && Canonical(m)
    ensures And(V(k), V(m))
         == Digit(And(k.a0, m.a0), Digit(And(k.a1, m.a1), Digit(And(k.a2, m.a2), Digit(And(k.a3, m.a3), And(k.a4, m.a4)))))
  {
    var k3, m3 := Digit(k.a3, k.a4), Digit(m.a3, m.a4);
    var k2, m2 := Digit(k.a2, k3), Digit(m.a2, m3);
    var k1, m1 := Digit(k.a1, k2), Digit(m.a1, m2);
    AndDigit(k.a3, k.a4, m.a3, m.a4);
    AndDigit(k.a2, k3, m.a2, m3);
    AndDigit(k.a1, k2, m.a1, m2);
    AndDigit(k.a0, k1, m.a0, m1);
    HornerDigits(k);
    HornerDigits(m);
  }

  lemma HornerDigits(k: Limbs5)
    ensures V(k) == Digit(k.a0, Digit(k.a1, Digit(k.a2, Digit(k.a3, k.a4))))
  {
    Spread(k);
  }

  /** Sixteen bytes as five 26-bit digits. */
  lemma Digits(b0: int, b1: int, b2: int, b3: int, b4: int, b5: int, b6: int, b7: int,
               b8: int, b9: int, b10: int, b11: int, b12: int, b13: int, b14: int, b15: int,
               l3: int, u3: int, l6: int, u6: int, l9: int, u9: int)
    requires b3 == l3 + 4 * u3 && b6 == l6 + 16 * u6 && b9 == l9 + 64 * u9
    ensures (b0 + 0x100 * b1 + 0x1_0000 * b2 + 0x100_0000 * b3)
            + 0x1_0000_0000 * ((b4 + 0x100 * b5 + 0x1_0000 * b6 + 0x100_0000 * b7)
            + 0x1_0000_0000 * ((b8 + 0x100 * b9 + 0x1_0000 * b10 + 0x100_0000 * b11)
            + 0x1_0000_0000 * (b12 + 0x100 * b13 + 0x1_0000 * b14 + 0x100_0000 * b15)))
         == (b0 + 0x100 * b1 + 0x1_0000 * b2 + 0x100_0000 * l3)
            + 0x400_0000 * ((u3 + 0x40 * b4 + 0x4000 * b5 + 0x40_0000 * l6)
            + 0x400_0000 * ((u6 + 0x10 * b7 + 0x1000 * b8 + 0x10_0000 * l9)
            + 0x400_0000 * ((u9 + 0x4 * b10 + 0x400 * b11 + 0x4_0000 * b12)
            + 0x400_0000 * (b13 + 0x100 * b14 + 0x1_0000 * b15))))
  {
  }

  lemma Le16(b: seq<u8>)
    requires |b| >= 16
    ensures Le(b[..16]) == Words(Word(b, 0), Word(b, 4), Word(b, 8), Word(b, 12))
  {
    var c := b[..16];
    assert c[0..] == c;
    LeWord(c, 0);
    LeWord(c, 4);
    LeWord(c, 8);
    LeWord(c, 12);
  }

  /** The 26-bit digits of the first half of the key. */
  function KeyDigits(key: seq<u8>): (k: Limbs5)
    requires |key| == 32
    ensures Canonical(k)
  {
    var b: seq<int> := key;
    Limbs5(b[0] + 0x100 * b[1] + 0x1_0000 * b[2] + 0x100_0000 * (b[3] % 4),
           b[3] / 4 + 0x40 * b[4] + 0x4000 * b[5] + 0x40_0000 * (b[6] % 16),
           b[6] / 16 + 0x10 * b[7] + 0x1000 * b[8] + 0x10_0000 * (b[9] % 64),
           b[9] / 64 + 0x4 * b[10] + 0x400 * b[11] + 0x4_0000 * b[12],
           b[13] + 0x100 * b[14] + 0x1_0000 * b[15])
  }

  lemma KeyDigitsValue(key: seq<u8>)
    requires |key| == 32
    ensures V(KeyDigits(key)) == Le(key[..16])
  {
    Spread(KeyDigits(key));
    Le16(key);
    Digits(key[0], key[1], key[2], key[3], key[4], key[5], key[6], key[7], key[8], key[9], key[10],
           key[11], key[12], key[13], key[14], key[15],
           key[3] % 4, key[3] / 4, key[6] % 16, key[6] / 16, key[9] % 64, key[9] / 64);
  }

  lemma WordDigits(key: seq<u8>)
    requires |key| == 32
    ensures var k := KeyDigits(key);
            && Word(key, 0) == Digit(k.a0, key[3] / 4)
            && Word(key, 3) / 4 == Digit(k.a1, key[6] / 16)
            && Word(key, 6) / 16 == Digit(k.a2, key[9] / 64)
            && Word(key, 9) / 64 == k.a3
            && Word(key, 12) / 256 == k.a4
  {
  }

  function ClampMasks(): (m: Limbs5)
    ensures Canonical(m) && V(m) == CLAMP
  {
    var m := Limbs5(CLAMP0, CLAMP1, CLAMP2, CLAMP3, CLAMP4);
    Spread(m);
    m
  }

  lemma ClampValue(key: seq<u8>)
    requires |key| == 32
    ensures And(Le(key[..16]), CLAMP)
         == Digit(And(Word(key, 0), CLAMP0), Digit(And(Word(key, 3) / 4, CLAMP1), Digit(And(Word(key, 6) / 16, CLAMP2),
              Digit(And(Word(key, 9) / 64, CLAMP3), And(Word(key, 12) / 256, CLAMP4)))))
  {
    var k := KeyDigits(key);
    KeyDigitsValue(key);
    WordDigits(key);
    AndFive(k, ClampMasks());
    AndLow(Word(key, 0), k.a0, key[3] / 4, CLAMP0);
    AndLow(Word(key, 3) / 4, k.a1, key[6] / 16, CLAMP1);
    AndLow(Word(key, 6) / 16, k.a2, key[9] / 64, CLAMP2);
  }

  // ----- the polynomial of section 2.5 of RFC 8439

  /** A block of up to 16 bytes with a one byte appended. */
  function Coefficient(block: seq<u8>): nat {
    Le(block) + ByteWeight(|block|)
  }

  /** The first block of a non-empty message. */
  function Head(msg: seq<u8>): seq<u8> {
    if |msg| < 16 then msg else msg[..16]
  }

  function Tail(msg: seq<u8>): seq<u8> {
    if |msg| < 16 then [] else msg[16..]
  }

  function BlockCount(msg: seq<u8>): nat {
    (|msg| + 15) / 16
  }

  /** Horner's rule from an accumulator a. */
  function Accumulate(a: nat, r: nat, msg: seq<u8>): nat
    decreases |msg|
  {
    if |msg| == 0 then a
    else Accumulate((a + Coefficient(Head(msg))) * r % P, r, Tail(msg))
  }

  /** The sum of coefficient * r^(blocks left), without any reduction. */
  function Polynomial(r: nat, msg: seq<u8>): int
    decreases |msg|
  {
    if |msg| == 0 then 0
    else Coefficient(Head(msg)) * Pow(r, BlockCount(msg)) + Polynomial(r, Tail(msg))
  }

  lemma PolynomialStep(a: int, c: int, r: int, y: int, p: int, t: int)
    requires y % P == ((a + c) * r) % P
    ensures (y * p + t) % P == (a * (r * p) + (c * (r * p) + t)) % P
  {
    ModMulCong(y, (a + c) * r, p, p, P);
    ModAddCong(y * p, ((a + c) * r) * p, t, t, P);
    MulAssoc(a + c, r, p);
    MulDist(r * p, a, c);
  }

  lemma BlockCountStep(msg: seq<u8>)
    requires |msg| > 0
    ensures BlockCount(msg) == BlockCount(Tail(msg)) + 1
  {
  }

  lemma {:induction false} AccumulateBelow(a: nat, r: nat, msg: seq<u8>)
    requires a < P
    ensures Accumulate(a, r, msg) < P
    decreases |msg|
  {
    if |msg| > 0 {
      var y := (a + Coefficient(Head(msg))) * r % P;
      AccumulateBelow(y, r, Tail(msg));
    }
  }

  /** The polynomial with the accumulator as leading term. */
  function From(a: nat, r: nat, msg: seq<u8>): int {
    a * Pow(r, BlockCount(msg)) + Polynomial(r, msg)
  }

  lemma FromStep(a: nat, r: nat, msg: seq<u8>, y: nat)
    requires |msg| > 0 && y == (a + Coefficient(Head(msg))) * r % P
    ensures From(y, r, Tail(msg)) % P == From(a, r, msg) % P
  {
    var c, rest := Coefficient(Head(msg)), Tail(msg);
    ModMod((a + c) * r, P);
    BlockCountStep(msg);
    PolynomialStep(a, c, r, y, Pow(r, BlockCount(rest)), Polynomial(r, rest));
  }

  /** The accumulator loop evaluates the message polynomial at r. */
  lemma {:induction false} AccumulateIsPolynomial(a: nat, r: nat, msg: seq<u8>)
    ensures Accumulate(a, r, msg) % P == From(a, r, msg) % P
    decreases |msg|
  {
    if |msg| == 0 {
      assert From(a, r, msg) == a * 1;
    } else {
      var y := (a + Coefficient(Head(msg))) * r % P;
      AccumulateIsPolynomial(y, r, Tail(msg));
      FromStep(a, r, msg, y);
    }
  }

  /** The authenticator as the standard defines it. */
  function MacValue(key: seq<u8>, msg: seq<u8>): nat
    requires |key| == 32
  {
    (Accumulate(0, And(Le(key[..16]), CLAMP), msg) + Le(key[16..])) % B128
  }

  /** It is (polynomial at the clamped r, modulo P) + s, modulo 2^128. */
  lemma MacIsPolynomial(key: seq<u8>, msg: seq<u8>)
    requires |key| == 32
    ensures MacValue(key, msg) == (Polynomial(And(Le(key[..16]), CLAMP), msg) % P + Le(key[16..])) % B128
  {
    var r := And(Le(key[..16]), CLAMP);
    AccumulateIsPolynomial(0, r, msg);
    AccumulateBelow(0, r, msg);
    ModSmall(Accumulate(0, r, msg), P);
  }

  // ----- the stateful code

  /** The number one call of block adds to the accumulator. */
  function BlockNumber(data: seq<u8>, isLast: bool): nat {
    Le(Head(data))
    + (if !isLast && |data| < 16 then ByteWeight(|data|) else 0)
    + (if isLast then 0 else B128)
  }

  lemma LeZeroPad(d: seq<u8>, n: nat)
    ensures Le(d + ZeroBytes(n)) == Le(d)
  {
    LeConcat(d, ZeroBytes(n));
    LeZeros(n);
  }

  lemma {:induction false} LeOnePad(d: seq<u8>)
    ensures Le(d + [1]) == Le(d) + ByteWeight(|d|)
  {
    if |d| > 0 {
      assert (d + [1])[1..] == d[1..] + [1];
      LeOnePad(d[1..]);
    }
  }

  lemma WeightTop()
    ensures ByteWeight(16) == B128
  {
    assert ByteWeight(4) == 0x1_0000_0000;
    assert ByteWeight(8) == 0x1_0000_0000_0000_0000;
    assert ByteWeight(12) == 0x1_0000_0000_0000_0000_0000_0000;
  }

  /** The 17-byte buffer of a block. */
  method PadBlock(data: seq<u8>, isLast: bool) returns (n: seq<u8>)
    ensures |n| == 17
    ensures Le(n[..16]) + (if isLast then 0 else B128) == BlockNumber(data, isLast)
  {
    var len := if |data| < 16 then |data| else 16;
    var d := data[..len];
    assert d == Head(data);
    n := d + ZeroBytes(17 - len);
    if !isLast && len < 16 {
      n := n[len := 1];
      assert n[..16] == d + [1] + ZeroBytes(15 - len);
      LeZeroPad(d + [1], 15 - len);
      LeOnePad(d);
    } else {
      assert n[..16] == d + ZeroBytes(16 - len);
      LeZeroPad(d, 16 - len);
    }
  }

  /** A block read as words, added to the accumulator and multiplied by r. */
  method AbsorbBlock(h: Limbs5, r: Limbs5, n: seq<u8>, hibit: u32) returns (next: Limbs5)
    requires Reduced(h) && Clamped(r) && |n| == 17 && (hibit == 0 || hibit == 0x100_0000)
    ensures Reduced(next)
    ensures V(next) % P == (V(h) + (Le(n[..16]) + if hibit == 0 then 0 else B128)) * V(r) % P
  {
    Le16(n);
    var m := Cut(Word(n, 0), Word(n, 4), Word(n, 8), Word(n, 12), hibit);
    var sum := AddLimbs(h, m);
    next := MultiplyByR(sum, r);
  }

  method Serialize(w: Words4) returns (tag: seq<u8>)
    ensures |tag| == 16 && Le(tag) == w.Value()
  {
    var b0, b1, b2, b3 := WordBytes(w.w0), WordBytes(w.w1), WordBytes(w.w2), WordBytes(w.w3);
    tag := b0 + b1 + b2 + b3;
    assert tag[..16] == tag;
    Le16(tag);
    assert Word(tag, 0) == Word(b0, 0) && Word(tag, 4) == Word(b1, 0);
    assert Word(tag, 8) == Word(b2, 0) && Word(tag, 12) == Word(b3, 0);
  }

  lemma Mod128Cong(v: nat, s: nat)
    ensures (v % B128 + s) % B128 == (v + s) % B128
  {
    ModMod(v, B128);
    ModAddCong(v % B128, v, s, s, B128);
  }

  /** The accumulator fully reduced, plus the pad, modulo 2^128. */
  method FinalWords(h: Limbs5, pad: Words4) returns (w: Words4)
    requires Reduced(h)
    ensures w.Value() == (V(h) % P + pad.Value()) % B128
  {
    var n := FullCarry(h);
    n := ReduceOnce(n);
    w := Pack(n);
    Mod128Cong(V(n), pad.Value());
    w := AddPad(w, pad);
  }

  class Poly1305 {
    var r: Limbs5
    var h: Limbs5
    var pad: Words4

    ghost predicate Valid()
      reads this
    {
      Reduced(h) && Clamped(r)
    }

    constructor (key: seq<u8>)
      requires |key| == 32
      ensures Valid() && V(h) == 0
      ensures V(r) == And(Le(key[..16]), CLAMP) && pad.Value() == Le(key[16..])
    {
      var limbs := ClampedLimbs(key);
      var s := key[16..];
      assert s[..16] == s;
      Le16(s);
      Spread(Limbs5(0, 0, 0, 0, 0));
      r, h := limbs, Limbs5(0, 0, 0, 0, 0);
      pad := Words4(Word(s, 0), Word(s, 4), Word(s, 8), Word(s, 12));
    }

    /** One block: the accumulator plus the block's number, times r, modulo P. */
    method Block(data: seq<u8>, isLast: bool)
      requires Valid()
      modifies this`h
      ensures Valid()
      ensures V(h) % P == (old(V(h)) + BlockNumber(data, isLast)) * V(r) % P
    {
      var n := PadBlock(data, isLast);
      h := AbsorbBlock(h, r, n, if isLast then 0 else 0x100_0000);
    }

    method Finalize() returns (tag: seq<u8>)
      requires Valid()
      ensures |tag| == 16 && Le(tag) == (V(h) % P + pad.Value()) % B128
    {
      var w := FinalWords(h, pad);
      tag := Serialize(w);
    }
  }

  lemma StepModP(v: nat, c: nat, r: nat)
    ensures (v + c) * r % P == (v % P + c) * r % P
  {
    var u := v % P;
    ModMod(v, P);
    ModAddCong(v, u, c, c, P);
    ModMulCong(v + c, u + c, r, r, P);
  }

  /** One block of the message moves the accumulator along Horner's rule. */
  lemma AccumulateStep(v: nat, next: nat, r: nat, rest: seq<u8>)
    requires |rest| > 0
    requires next % P == (v + Coefficient(Head(rest))) * r % P
    ensures Accumulate(next % P, r, Tail(rest)) == Accumulate(v % P, r, rest)
  {
    StepModP(v, Coefficient(Head(rest)), r);
  }

  /** A full 16-byte block of the message. */
  method AbsorbFull(mac: Poly1305, block: seq<u8>, ghost rest: seq<u8>)
    requires mac.Valid() && |rest| >= 16 && block == rest[..16]
    modifies mac`h
    ensures mac.Valid()
    ensures Accumulate(V(mac.h) % P, V(mac.r), rest[16..]) == Accumulate(old(V(mac.h)) % P, V(mac.r), rest)
  {
    ghost var v := V(mac.h);
    WeightTop();
    assert Head(block) == block;
    mac.Block(block, false);
    AccumulateStep(v, V(mac.h), V(mac.r), rest);
  }

  /** The last, shorter block: a one byte and zeros are appended and bit 128 stays clear. */
  method AbsorbPartial(mac: Poly1305, remaining: seq<u8>)
    requires mac.Valid() && 0 < |remaining| < 16
    modifies mac`h
    ensures mac.Valid()
    ensures V(mac.h) % P == Accumulate(old(V(mac.h)) % P, V(mac.r), remaining)
  {
    ghost var v := V(mac.h);
    var padded := remaining + [1] + ZeroBytes(15 - |remaining|);
    LeZeroPad(remaining + [1], 15 - |remaining|);
    LeOnePad(remaining);
    assert Head(padded) == padded;
    mac.Block(padded, true);
    AccumulateStep(v, V(mac.h), V(mac.r), remaining);
  }

  /** The whole authenticator, for every key and every message. */
  method Poly1305Tag(key: seq<u8>, message: seq<u8>) returns (tag: seq<u8>)
    requires |key| == 32
    ensures |tag| == 16 && Le(tag) == MacValue(key, message)
  {
    var mac := new Poly1305(key);
    ghost var limbs, pad, r := mac.r, mac.pad, V(mac.r);
    var offset := 0;
    assert message[offset..] == message;
    while offset + 16 <= |message|
      invariant offset <= |message| && mac.Valid() && mac.r == limbs && mac.pad == pad
      invariant Accumulate(V(mac.h) % P, r, message[offset..]) == Accumulate(0, r, message)
    {
      assert message[offset..offset + 16] == message[offset..][..16];
      assert message[offset..][16..] == message[offset + 16..];
      AbsorbFull(mac, message[offset..offset + 16], message[offset..]);
      offset := offset + 16;
    }
    if offset < |message| {
      AbsorbPartial(mac, message[offset..]);
    }
    tag := mac.Finalize();
  }
}
