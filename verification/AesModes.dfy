/** The CBC and CTR modes of crypto/aes.rs (sections 6.2 and 6.5 of NIST SP 800-38A) and the XTS
    sector mode of crypto/luks.rs (IEEE 1619), for any invertible block cipher. */
module AesModes {
  import opened NumberTheory
  import opened Limbs
  import opened AesField
  import opened AesBlock

  type Bytes = seq<bv8>

  /** d undoes e. */
  ghost predicate Inverse(e: Block -> Block, d: Block -> Block) {
    forall s {:trigger e(s)} :: d(e(s)) == s
  }

  function Whole(n: nat): nat {
    n / 16 * 16
  }

  // ----- CBC

  function CbcEnc(e: Block -> Block, prev: Block, data: Bytes): (r: Bytes)
    ensures |r| == Whole(|data|)
    decreases |data|
  {
    if |data| < 16 then []
    else
      var c := e(AddKey(data[..16], prev));
      c + CbcEnc(e, c, data[16..])
  }

  function CbcDec(d: Block -> Block, prev: Block, data: Bytes): (r: Bytes)
    ensures |r| == Whole(|data|)
    decreases |data|
  {
    if |data| < 16 then []
    else AddKey(d(data[..16]), prev) + CbcDec(d, data[..16], data[16..])
  }

  lemma WholeStep(n: nat)
    requires n >= 16
    ensures Whole(n) == 16 + Whole(n - 16)
  {
  }

  /** Decryption recovers all whole blocks. */
  lemma {:induction false} CbcRoundTrip(e: Block -> Block, d: Block -> Block, iv: Block, data: Bytes)
    requires Inverse(e, d)
    ensures CbcDec(d, iv, CbcEnc(e, iv, data)) == data[..Whole(|data|)]
    decreases |data|
  {
    if |data| >= 16 {
      WholeStep(|data|);
      var b, rest := data[..16], data[16..];
      var c := e(AddKey(b, iv));
      var first: Bytes, tail: Bytes := c, CbcEnc(e, c, rest);
      assert CbcEnc(e, iv, data) == first + tail;
      assert (first + tail)[..16] == c && (first + tail)[16..] == tail;
      AddKeyUndo(b, iv);
      CbcRoundTrip(e, d, c, rest);
      assert b + rest[..Whole(|rest|)] == data[..Whole(|data|)];
    }
  }

  /** Block i of a string. */
  function BlockOf(data: Bytes, i: nat): Block
    requires 16 * i + 16 <= |data|
  {
    data[16 * i..16 * i + 16]
  }

  lemma BlockOfPair(head: Block, tail: Bytes, i: nat)
    requires 16 * i <= |tail|
    ensures var whole: Bytes := head + tail;
            BlockOf(whole, i) == if i == 0 then head else BlockOf(tail, i - 1)
  {
  }

  lemma BlockOfRest(data: Bytes, i: nat)
    requires i > 0 && 16 * i + 16 <= |data|
    ensures BlockOf(data, i) == BlockOf(data[16..], i - 1)
  {
  }

  lemma CbcSplit(e: Block -> Block, iv: Block, data: Bytes)
    requires |data| >= 16
    ensures var c := e(AddKey(BlockOf(data, 0), iv)); CbcEnc(e, iv, data) == c + CbcEnc(e, c, data[16..])
  {
    assert data[0..16] == data[..16];
  }

  /** Ciphertext block i is the cipher of plaintext block i plus the ciphertext block before it, or the
      initialization vector (section 6.2 of NIST SP 800-38A). */
  lemma {:induction false} CbcBlock(e: Block -> Block, iv: Block, data: Bytes, i: nat)
    requires 16 * i + 16 <= |data|
    ensures 16 * i + 16 <= |CbcEnc(e, iv, data)|
    ensures var c := CbcEnc(e, iv, data); BlockOf(c, i) == e(AddKey(BlockOf(data, i), if i == 0 then iv else BlockOf(c, i - 1)))
    decreases i
  {
    CbcSplit(e, iv, data);
    WholeStep(|data|);
    var c0 := e(AddKey(BlockOf(data, 0), iv));
    var tail := CbcEnc(e, c0, data[16..]);
    if i > 0 {
      CbcBlock(e, c0, data[16..], i - 1);
      BlockOfRest(data, i);
      BlockOfPair(c0, tail, i - 1);
    }
    BlockOfPair(c0, tail, i);
  }

  // ----- CTR

  /** The big-endian counter plus one: trailing 0xff bytes wrap and the next byte is increased. */
  function Next(c: Bytes): (r: Bytes)
    ensures |r| == |c|
  {
    if |c| == 0 then []
    else
      var front, b := c[..|c| - 1], c[|c| - 1];
      if b == 0xff then Next(front) + [0] else front + [b + 1]
  }

  function XorPrefix(data: Bytes, key: Block): (r: Bytes)
    requires |data| <= 16
    ensures |r| == |data|
  {
    seq(|data|, i requires 0 <= i < |data| => data[i] ^ key[i])
  }

  function Head(data: Bytes): Bytes {
    if |data| < 16 then data else data[..16]
  }

  function Tail(data: Bytes): Bytes {
    if |data| < 16 then [] else data[16..]
  }

  function Ctr(e: Block -> Block, counter: Block, data: Bytes): (r: Bytes)
    ensures |r| == |data|
    decreases |data|
  {
    if |data| == 0 then []
    else XorPrefix(Head(data), e(counter)) + Ctr(e, Next(counter), Tail(data))
  }

  lemma XorPrefixTwice(data: Bytes, key: Block)
    requires |data| <= 16
    ensures XorPrefix(XorPrefix(data, key), key) == data
  {
    forall i | 0 <= i < |data|
      ensures XorPrefix(XorPrefix(data, key), key)[i] == data[i]
    {
      XorTwice(data[i], key[i]);
    }
  }

  /** Applying the mode twice is the identity, whatever the cipher. */
  lemma {:induction false} CtrTwice(e: Block -> Block, counter: Block, data: Bytes)
    ensures Ctr(e, counter, Ctr(e, counter, data)) == data
    decreases |data|
  {
    if |data| > 0 {
      var h, t := Head(data), Tail(data);
      var h', t' := XorPrefix(h, e(counter)), Ctr(e, Next(counter), t);
      assert data == h + t;
      assert Head(h' + t') == h' && Tail(h' + t') == t';
      XorPrefixTwice(h, e(counter));
      CtrTwice(e, Next(counter), t);
    }
  }

  function Bit(b: bv8, mask: bv8, weight: nat): nat {
    if b & mask == 0 then 0 else weight
  }

  function ByteValue(b: bv8): nat {
    Bit(b, 0x01, 1) + Bit(b, 0x02, 2) + Bit(b, 0x04, 4) + Bit(b, 0x08, 8)
    + Bit(b, 0x10, 16) + Bit(b, 0x20, 32) + Bit(b, 0x40, 64) + Bit(b, 0x80, 128)
  }

  /** The number of a big-endian string, for given byte values. */
  function BeOf(v: bv8 -> nat, c: Bytes): nat {
    if |c| == 0 then 0 else 256 * BeOf(v, c[..|c| - 1]) + v(c[|c| - 1])
  }

  function Be(c: Bytes): nat {
    BeOf(ByteValue, c)
  }

  /** A byte value that counts from 0 to 255. */
  ghost predicate Counts(v: bv8 -> nat, b: bv8) {
    v(b) < 256 && v(0) == 0 && (b != 0xff ==> v(b + 1) == v(b) + 1) && (b == 0xff <==> v(b) == 255)
  }

  lemma ByteNext(b: bv8)
    ensures ByteValue(b) < 256 && ByteValue(0) == 0
    ensures b != 0xff ==> ByteValue(b + 1) == ByteValue(b) + 1
    ensures b == 0xff <==> ByteValue(b) == 255
  {
  }

  lemma ByteCounts(b: bv8)
    ensures Counts(ByteValue, b)
  {
    ByteNext(b);
  }

  lemma BePush(v: bv8 -> nat, c: Bytes, b: bv8)
    ensures BeOf(v, c + [b]) == 256 * BeOf(v, c) + v(b)
  {
    assert (c + [b])[..|c|] == c;
  }

  lemma BytesCount()
    ensures forall b {:trigger Counts(ByteValue, b)} :: Counts(ByteValue, b)
  {
    forall b: bv8
      ensures Counts(ByteValue, b)
    {
      ByteCounts(b);
    }
  }

  /** One step of the counter, modulo 256^k. */
  lemma {:induction false} NextValueBy(v: bv8 -> nat, c: Bytes)
    requires forall b {:trigger Counts(v, b)} :: Counts(v, b)
    ensures BeOf(v, c) < ByteWeight(|c|)
    ensures BeOf(v, Next(c)) == if BeOf(v, c) + 1 == ByteWeight(|c|) then 0 else BeOf(v, c) + 1
  {
    if |c| > 0 {
      var front, b := c[..|c| - 1], c[|c| - 1];
      assert Counts(v, b);
      NextValueBy(v, front);
      NextStep(v, front, b);
      NextNumbers(BeOf(v, front), v(b), ByteWeight(|front|), BeOf(v, Next(front)));
      assert c == front + [b];
    }
  }

  lemma NextStep(v: bv8 -> nat, front: Bytes, b: bv8)
    ensures BeOf(v, front + [b]) == 256 * BeOf(v, front) + v(b)
    ensures BeOf(v, Next(front + [b]))
         == if b == 0xff then 256 * BeOf(v, Next(front)) + v(0) else 256 * BeOf(v, front) + v(b + 1)
  {
    BePush(v, front, b);
    NextPush(front, b);
    if b == 0xff {
      BePush(v, Next(front), 0);
    } else {
      BePush(v, front, b + 1);
    }
  }

  lemma NextPush(front: Bytes, b: bv8)
    ensures Next(front + [b]) == if b == 0xff then Next(front) + [0] else front + [b + 1]
  {
    assert (front + [b])[..|front|] == front;
  }

  lemma NextNumbers(v: nat, b: nat, w: nat, n: nat)
    requires v < w && b < 256 && n == if v + 1 == w then 0 else v + 1
    ensures 256 * v + b < 256 * w
    ensures b == 255 ==> 256 * n == if 256 * v + b + 1 == 256 * w then 0 else 256 * v + b + 1
    ensures b < 255 ==> 256 * v + b + 1 != 256 * w
  {
  }

  function CounterAt(nonce: Bytes, i: nat): (r: Bytes)
    ensures |r| == |nonce|
  {
    if i == 0 then nonce else Next(CounterAt(nonce, i - 1))
  }

  /** The counter of block i is nonce + i modulo 256^16. */
  lemma CounterValue(nonce: Bytes, i: nat)
    ensures Be(CounterAt(nonce, i)) == (Be(nonce) + i) % ByteWeight(|nonce|)
  {
    BytesCount();
    CounterValueBy(ByteValue, nonce, i);
  }

  lemma CounterValueBy(v: bv8 -> nat, nonce: Bytes, i: nat)
    requires forall b {:trigger Counts(v, b)} :: Counts(v, b)
    ensures BeOf(v, CounterAt(nonce, i)) == (BeOf(v, nonce) + i) % ByteWeight(|nonce|)
  {
    var number: Bytes -> nat := c => BeOf(v, c);
    NextValueBy(v, nonce);
    forall c: Bytes
      ensures CountsUp(number, c)
    {
      NextValueBy(v, c);
    }
    CountedUp(number, nonce, i, ByteWeight(|nonce|));
  }

  ghost predicate CountsUp(number: Bytes -> nat, c: Bytes) {
    number(Next(c)) == if number(c) + 1 == ByteWeight(|c|) then 0 else number(c) + 1
  }

  lemma {:induction false} CountedUp(number: Bytes -> nat, nonce: Bytes, i: nat, w: nat)
    requires number(nonce) < w == ByteWeight(|nonce|) && forall c {:trigger CountsUp(number, c)} :: CountsUp(number, c)
    ensures number(CounterAt(nonce, i)) == (number(nonce) + i) % w
  {
    if i == 0 {
      ModSmall(number(nonce), w);
    } else {
      CountedUp(number, nonce, i - 1, w);
      assert CountsUp(number, CounterAt(nonce, i - 1));
      ModNext(number(nonce) + (i - 1), w);
    }
  }

  lemma ModNext(n: nat, w: nat)
    requires w > 0
    ensures (n + 1) % w == if n % w + 1 == w then 0 else n % w + 1
  {
    var q, r := n / w, n % w;
    assert n == q * w + r;
    if r + 1 == w {
      MulDist(w, q, 1);
      DivModUnique(n + 1, q + 1, 0, w);
    } else {
      DivModUnique(n + 1, q, r + 1, w);
    }
  }

  lemma CtrFirst(e: Block -> Block, counter: Block, data: Bytes, i: nat, x: bv8)
    requires i < |data| && i < 16 && XorPrefix(Head(data), e(counter))[i] == x
    ensures Ctr(e, counter, data)[i] == x
  {
    var h: Bytes, t: Bytes := XorPrefix(Head(data), e(counter)), Ctr(e, Next(counter), Tail(data));
    assert Ctr(e, counter, data) == h + t;
  }

  lemma XorPrefixAt(data: Bytes, key: Block, i: nat)
    requires i < |data| <= 16
    ensures XorPrefix(data, key)[i] == XorByte(data[i], key[i])
  {
  }

  lemma CtrLater(e: Block -> Block, counter: Block, data: Bytes, i: nat, k: bv8)
    requires 16 <= i < |data| && Ctr(e, Next(counter), data[16..])[i - 16] == XorByte(data[16..][i - 16], k)
    ensures Ctr(e, counter, data)[i] == XorByte(data[i], k)
  {
    var h: Bytes, t: Bytes := XorPrefix(Head(data), e(counter)), Ctr(e, Next(counter), Tail(data));
    assert Ctr(e, counter, data) == h + t && |h| == 16;
  }

  /** Byte j of the key stream: the cipher at counter nonce + j / 16. */
  function KeyByte(e: Block -> Block, nonce: Block, j: nat): bv8 {
    e(CounterAt(nonce, j / 16))[j % 16]
  }

  lemma FirstKeyBytes(e: Block -> Block, nonce: Block, first: nat, i: nat)
    requires i < 16
    ensures KeyByte(e, nonce, 16 * first + i) == e(CounterAt(nonce, first))[i]
  {
    assert (16 * first + i) / 16 == first && (16 * first + i) % 16 == i;
  }

  /** Byte i of the output is byte i of the input under byte i of the key stream. */
  lemma {:induction false} CtrByte(e: Block -> Block, nonce: Block, first: nat, data: Bytes, i: nat)
    requires i < |data|
    ensures Ctr(e, CounterAt(nonce, first), data)[i] == XorByte(data[i], KeyByte(e, nonce, 16 * first + i))
    decreases i
  {
    if i < 16 {
      var k := CounterAt(nonce, first);
      XorPrefixAt(Head(data), e(k), i);
      FirstKeyBytes(e, nonce, first, i);
      CtrFirst(e, k, data, i, XorByte(data[i], e(k)[i]));
    } else {
      CtrByte(e, nonce, first + 1, data[16..], i - 16);
      assert 16 * (first + 1) + (i - 16) == 16 * first + i;
      CtrLater(e, CounterAt(nonce, first), data, i, KeyByte(e, nonce, 16 * first + i));
    }
  }

  // ----- XTS

  function TopBit(b: bv8): bv8 {
    (b >> 7) & 1
  }

  function ShiftIn(b: bv8, carry: bv8): bv8 {
    (b << 1) | carry
  }

  /** A little-endian string shifted left by one bit, with the bit shifted in and the bit shifted out. */
  function ShiftLeft(t: Bytes, carry: bv8): (r: (Bytes, bv8))
    ensures |r.0| == |t|
  {
    if |t| == 0 then ([], carry)
    else
      var (rest, out) := ShiftLeft(t[1..], TopBit(t[0]));
      ([ShiftIn(t[0], carry)] + rest, out)
  }

  /** gf_mul2 of the tweak: times x modulo x^128 + x^7 + x^2 + x + 1. */
  function Double(t: Block): Block {
    var (s, out) := ShiftLeft(t, 0);
    if out != 0 then s[0 := s[0] ^ 0x87] else s
  }

  predicate IsBit(c: bv8) {
    c == 0 || c == 1
  }

  /** A byte value under which the shift of one byte doubles it. */
  ghost predicate Doubles(v: bv8 -> nat, b: bv8, c: bv8) {
    IsBit(TopBit(b)) && (IsBit(c) ==> v(ShiftIn(b, c)) + 256 * v(TopBit(b)) == 2 * v(b) + v(c))
  }

  lemma TopBitIsBit(b: bv8)
    ensures IsBit(TopBit(b))
  {
  }

  lemma ByteShift(b: bv8, c: bv8)
    requires IsBit(c)
    ensures ByteValue(ShiftIn(b, c)) + 256 * ByteValue(TopBit(b)) == 2 * ByteValue(b) + ByteValue(c)
  {
    TopBitIsBit(b);
    BitValue(c);
    BitValue(TopBit(b));
    BitsUp(b, c);
  }

  lemma BitValue(c: bv8)
    requires IsBit(c)
    ensures ByteValue(c) == if c == 0 then 0 else 1
  {
  }

  /** Where each bit of a shifted byte comes from. */
  lemma BitsUp(b: bv8, c: bv8)
    requires IsBit(c)
    ensures TopBit(b) == 0 <==> b & 0x80 == 0
    ensures ShiftIn(b, c) & 0x01 == 0 <==> c == 0
    ensures ShiftIn(b, c) & 0x02 == 0 <==> b & 0x01 == 0
    ensures ShiftIn(b, c) & 0x04 == 0 <==> b & 0x02 == 0
    ensures ShiftIn(b, c) & 0x08 == 0 <==> b & 0x04 == 0
    ensures ShiftIn(b, c) & 0x10 == 0 <==> b & 0x08 == 0
    ensures ShiftIn(b, c) & 0x20 == 0 <==> b & 0x10 == 0
    ensures ShiftIn(b, c) & 0x40 == 0 <==> b & 0x20 == 0
    ensures ShiftIn(b, c) & 0x80 == 0 <==> b & 0x40 == 0
  {
  }

  lemma ByteDoubles(b: bv8, c: bv8)
    ensures Doubles(ByteValue, b, c)
  {
    TopBitIsBit(b);
    if IsBit(c) {
      ByteShift(b, c);
    }
  }

  /** The number of a little-endian string, for given byte values. */
  function LeOf(v: bv8 -> nat, t: Bytes): nat {
    if |t| == 0 then 0 else v(t[0]) + 256 * LeOf(v, t[1..])
  }

  lemma ShiftNumbers(x: int, c: int, b: int, k: int, l': int, w: int, o: int, l: int)
    requires x + 256 * c == 2 * b + k && l' + w * o == 2 * l + c
    ensures x + 256 * l' + (256 * w) * o == 2 * (b + 256 * l) + k
  {
    MulAssoc(256, w, o);
  }

  lemma {:induction false} ShiftDoublesBy(v: bv8 -> nat, t: Bytes, carry: bv8)
    requires IsBit(carry) && forall b, c {:trigger Doubles(v, b, c)} :: Doubles(v, b, c)
    ensures var r := ShiftLeft(t, carry);
            IsBit(r.1) && LeOf(v, r.0) + ByteWeight(|t|) * v(r.1) == 2 * LeOf(v, t) + v(carry)
  {
    if |t| > 0 {
      var b := t[0];
      var x, c := ShiftIn(b, carry), TopBit(b);
      assert Doubles(v, b, carry);
      ShiftDoublesBy(v, t[1..], c);
      var r := ShiftLeft(t[1..], c);
      var s := [x] + r.0;
      assert s[1..] == r.0;
      ShiftNumbers(v(x), v(c), v(b), v(carry), LeOf(v, r.0), ByteWeight(|t| - 1), v(r.1), LeOf(v, t[1..]));
    }
  }

  /** The shift doubles the 128-bit number, the bit shifted out having weight 2^128. */
  lemma ShiftDoubles(t: Block)
    ensures var r := ShiftLeft(t, 0);
            IsBit(r.1) && LeOf(ByteValue, r.0) + ByteWeight(16) * ByteValue(r.1) == 2 * LeOf(ByteValue, t)
  {
    forall b, c
      ensures Doubles(ByteValue, b, c)
    {
      ByteDoubles(b, c);
    }
    ShiftDoublesBy(ByteValue, t, 0);
    assert ByteValue(0) == 0;
  }

  /** Whole blocks one after the other, each under its tweak. */
  function XtsBy(one: (Block, Block) -> Block, t: Block, data: Bytes): (r: Bytes)
    ensures |r| == Whole(|data|)
    decreases |data|
  {
    if |data| < 16 then [] else one(t, data[..16]) + XtsBy(one, Double(t), data[16..])
  }

  /** One block between two additions of its tweak. */
  function XtsOne(e: Block -> Block, t: Block, b: Block): Block {
    AddKey(e(AddKey(b, t)), t)
  }

  function XtsCipher(e: Block -> Block): (Block, Block) -> Block {
    (t, b) => XtsOne(e, t, b)
  }

  function XtsEnc(e: Block -> Block, t: Block, data: Bytes): (r: Bytes)
    ensures |r| == Whole(|data|)
  {
    XtsBy(XtsCipher(e), t, data)
  }

  lemma XtsOneUndo(e: Block -> Block, d: Block -> Block, t: Block, b: Block)
    requires Inverse(e, d)
    ensures XtsOne(d, t, XtsOne(e, t, b)) == b
  {
    AddKeyUndo(e(AddKey(b, t)), t);
    AddKeyUndo(b, t);
  }

  lemma XtsJoin(e: Block -> Block, t: Block, b: Block, rest: Bytes)
    ensures XtsEnc(e, t, b + rest) == XtsOne(e, t, b) + XtsEnc(e, Double(t), rest)
  {
    assert (b + rest)[..16] == b && (b + rest)[16..] == rest;
  }

  lemma WholeJoin(b: Block, rest: Bytes)
    ensures (b + rest)[..Whole(|b + rest|)] == b + rest[..Whole(|rest|)]
  {
    WholeStep(|b + rest|);
  }

  /** Decryption with the inverse cipher along the same tweaks recovers the sector. */
  lemma {:induction false} XtsRoundTrip(e: Block -> Block, d: Block -> Block, t: Block, data: Bytes)
    requires Inverse(e, d)
    ensures XtsEnc(d, t, XtsEnc(e, t, data)) == data[..Whole(|data|)]
    decreases |data|
  {
    if |data| >= 16 {
      var b, rest := data[..16], data[16..];
      assert data == b + rest;
      XtsJoin(e, t, b, rest);
      XtsJoin(d, t, XtsOne(e, t, b), XtsEnc(e, Double(t), rest));
      XtsOneUndo(e, d, t, b);
      XtsRoundTrip(e, d, Double(t), rest);
      WholeJoin(b, rest);
    }
  }

  lemma XtsWholeSector(e: Block -> Block, d: Block -> Block, t: Block, data: Bytes)
    requires Inverse(e, d) && |data| % 16 == 0
    ensures XtsEnc(d, t, XtsEnc(e, t, data)) == data
  {
    XtsRoundTrip(e, d, t, data);
    assert data[..|data|] == data;
  }

  /** The tweak after i doublings. */
  function TweakAt(t: Block, i: nat): Block
    decreases i
  {
    if i == 0 then t else TweakAt(Double(t), i - 1)
  }

  lemma XtsParts(one: (Block, Block) -> Block, t: Block, data: Bytes)
    requires |data| >= 16
    ensures XtsBy(one, t, data) == one(t, BlockOf(data, 0)) + XtsBy(one, Double(t), data[16..])
  {
    assert BlockOf(data, 0) == data[..16];
  }

  lemma BlockOfParts(whole: Bytes, head: Block, tail: Bytes, i: nat)
    requires whole == head + tail && 16 * i <= |tail|
    ensures 16 * i + 16 <= |whole| && BlockOf(whole, i) == if i == 0 then head else BlockOf(tail, i - 1)
  {
    BlockOfPair(head, tail, i);
  }

  lemma WholeBlocks(n: nat, i: nat)
    requires 16 * i + 16 <= n
    ensures 16 * i + 16 <= Whole(n)
  {
  }

  lemma {:induction false} XtsByAt(one: (Block, Block) -> Block, t: Block, data: Bytes, i: nat)
    requires 16 * i + 16 <= |data|
    ensures 16 * i + 16 <= |XtsBy(one, t, data)|
    ensures BlockOf(XtsBy(one, t, data), i) == one(TweakAt(t, i), BlockOf(data, i))
    decreases i
  {
    XtsParts(one, t, data);
    var whole, head, tail := XtsBy(one, t, data), one(t, BlockOf(data, 0)), XtsBy(one, Double(t), data[16..]);
    if i > 0 {
      WholeBlocks(|data| - 16, i - 1);
      XtsByAt(one, Double(t), data[16..], i - 1);
      BlockOfRest(data, i);
    }
    BlockOfParts(whole, head, tail, i);
  }

  /** Output block i is the cipher between two additions of tweak i (IEEE 1619). */
  lemma XtsBlockAt(e: Block -> Block, t: Block, data: Bytes, i: nat)
    requires 16 * i + 16 <= |data|
    ensures 16 * i + 16 <= |XtsEnc(e, t, data)|
    ensures BlockOf(XtsEnc(e, t, data), i) == XtsOne(e, TweakAt(t, i), BlockOf(data, i))
  {
    XtsByAt(XtsCipher(e), t, data, i);
  }

  // ----- what the doubling of a tweak is

  function Mask(k: nat): bv8
    requires k < 8
  {
    if k < 4 then (if k < 2 then (if k == 0 then 0x01 else 0x02) else (if k == 2 then 0x04 else 0x08))
    else (if k < 6 then (if k == 4 then 0x10 else 0x20) else (if k == 6 then 0x40 else 0x80))
  }

  predicate Bit8(b: bv8, k: nat) {
    k < 8 && b & Mask(k) != 0
  }

  /** Bit i of a little-endian string, for a given meaning of the bits of a byte: the coefficient of the
      i-th power of the variable. */
  predicate BitAt(bit: (bv8, nat) -> bool, t: Bytes, i: nat)
    requires i < 8 * |t|
  {
    bit(t[i / 8], i % 8)
  }

  /** The powers that stand for the highest one, in x^128 = x^7 + x^2 + x + 1. */
  predicate Reduced(i: nat) {
    i == 0 || i == 1 || i == 2 || i == 7
  }

  /** What shifting, the bit shifted out and the constant 0x87 do to the bits of a byte. */
  ghost predicate Moves(bit: (bv8, nat) -> bool, b: bv8, c: bv8, k: nat) {
    IsBit(c) && k < 8 ==> (bit(ShiftIn(b, c), k) <==> if k == 0 then c != 0 else bit(b, k - 1))
  }

  ghost predicate Tops(bit: (bv8, nat) -> bool, b: bv8) {
    IsBit(TopBit(b)) && (TopBit(b) != 0 <==> bit(b, 7))
  }

  ghost predicate Flips(bit: (bv8, nat) -> bool, b: bv8, k: nat) {
    k < 8 ==> (bit(XorByte(b, 0x87), k) <==> bit(b, k) != Reduced(k))
  }

  ghost predicate Bits(bit: (bv8, nat) -> bool) {
    && (forall b, c, k {:trigger Moves(bit, b, c, k)} :: Moves(bit, b, c, k))
    && (forall b {:trigger Tops(bit, b)} :: Tops(bit, b))
    && (forall b, k {:trigger Flips(bit, b, k)} :: Flips(bit, b, k))
  }

  lemma Bit8Moves(b: bv8, c: bv8, k: nat)
    ensures Moves(Bit8, b, c, k)
  {
    if IsBit(c) {
      BitsUp(b, c);
    }
  }

  lemma Bit8Tops(b: bv8)
    ensures Tops(Bit8, b)
  {
    TopBitIsBit(b);
    BitsUp(b, 0);
  }

  lemma Bit8Flips(b: bv8, k: nat)
    ensures Flips(Bit8, b, k)
  {
  }

  lemma Bit8IsBits()
    ensures Bits(Bit8)
  {
    forall b, c, k: nat
      ensures Moves(Bit8, b, c, k)
    {
      Bit8Moves(b, c, k);
    }
    forall b
      ensures Tops(Bit8, b)
    {
      Bit8Tops(b);
    }
    forall b, k: nat
      ensures Flips(Bit8, b, k)
    {
      Bit8Flips(b, k);
    }
  }

  /** Each byte takes in the top bit of the one before it. */
  lemma {:induction false} ShiftLeftAt(t: Bytes, carry: bv8, j: nat)
    requires j < |t|
    ensures ShiftLeft(t, carry).0[j] == ShiftIn(t[j], if j == 0 then carry else TopBit(t[j - 1]))
    ensures ShiftLeft(t, carry).1 == TopBit(t[|t| - 1])
    decreases |t|
  {
    if |t| > 1 {
      ShiftLeftAt(t[1..], TopBit(t[0]), if j == 0 then 0 else j - 1);
    }
  }

  lemma ShiftLeftBit(bit: (bv8, nat) -> bool, t: Bytes, i: nat)
    requires Bits(bit) && i < 8 * |t|
    ensures BitAt(bit, ShiftLeft(t, 0).0, i) <==> i > 0 && BitAt(bit, t, i - 1)
  {
    ShiftLeftByte(bit, t, i / 8, i % 8);
    BitBefore(i);
  }

  lemma ShiftLeftByte(bit: (bv8, nat) -> bool, t: Bytes, j: nat, k: nat)
    requires Bits(bit) && j < |t| && k < 8
    ensures bit(ShiftLeft(t, 0).0[j], k) <==> if k > 0 then bit(t[j], k - 1) else j > 0 && bit(t[j - 1], 7)
  {
    ShiftLeftAt(t, 0, j);
    if j > 0 {
      assert Tops(bit, t[j - 1]);
    }
    assert Moves(bit, t[j], if j == 0 then 0 else TopBit(t[j - 1]), k);
  }

  lemma BitBefore(i: nat)
    ensures i % 8 > 0 ==> (i - 1) / 8 == i / 8 && (i - 1) % 8 == i % 8 - 1
    ensures i % 8 == 0 && i > 0 ==> (i - 1) / 8 == i / 8 - 1 && (i - 1) % 8 == 7
  {
  }

  lemma DoubleBit(bit: (bv8, nat) -> bool, t: Block, i: nat)
    requires Bits(bit) && i < 128
    ensures BitAt(bit, Double(t), i) <==> (i > 0 && BitAt(bit, t, i - 1)) != (BitAt(bit, t, 127) && Reduced(i))
  {
    var (s, out) := ShiftLeft(t, 0);
    ShiftLeftBit(bit, t, i);
    ShiftLeftAt(t, 0, 0);
    assert Tops(bit, t[15]);
    assert i < 8 ==> Flips(bit, s[0], i);
  }

  /** gf_mul2 multiplies by x modulo x^128 + x^7 + x^2 + x + 1. */
  lemma DoubleIsTimesX(t: Block, i: nat)
    requires i < 128
    ensures BitAt(Bit8, Double(t), i) <==> (i > 0 && BitAt(Bit8, t, i - 1)) != (BitAt(Bit8, t, 127) && Reduced(i))
  {
    Bit8IsBits();
    DoubleBit(Bit8, t, i);
  }
}
