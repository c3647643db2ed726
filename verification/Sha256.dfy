/** The buffered hasher of crypto/sha256.rs against the one-shot definition of sections 5.1.1 and 6.2
    of FIPS 180-4. */
module Sha256 {
  import opened NumberTheory
  import opened Bits
  import opened Limbs
  import opened LittleEndian
  import opened Sha256Block

  /** A compression function on 64-byte blocks. */
  type Step = (Vars, seq<u8>) -> Vars

  const INITIAL: Vars := Vars(0x6a09_e667, 0xbb67_ae85, 0x3c6e_f372, 0xa54f_f53a,
                              0x510e_527f, 0x9b05_688c, 0x1f83_d9ab, 0x5be0_cd19)

  // ----- the one-shot definition

  /** Compressing whole blocks one after the other. */
  function Fold(f: Step, h: Vars, msg: seq<u8>): Vars
    decreases |msg|
  {
    if |msg| < 64 then h else Fold(f, f(h, msg[..64]), msg[64..])
  }

  /** The smallest k with |m| + 1 + k congruent to 56 modulo 64. */
  function PadZeros(len: nat): (k: nat)
    ensures k < 64 && (len + 1 + k) % 64 == 56
  {
    (119 - len % 64) % 64
  }

  const WORD_BYTES: nat := 4
  const LENGTH_BYTES: nat := 8

  /** Eight bytes, most significant first. */
  function Be64(n: u64): (b: seq<u8>)
    ensures |b| == 8 && BytesValue(b) == n
  {
    var b := BeBytes(n, LENGTH_BYTES);
    BeBytesValue(n, LENGTH_BYTES);
    ByteWeightLimb();
    ModSmall(n, U64);
    b
  }

  function BeBytes(n: nat, k: nat): (b: seq<u8>)
    ensures |b| == k
  {
    if k == 0 then [] else BeBytes(n / 256, k - 1) + [n % 256]
  }

  lemma {:induction false} BeBytesValue(n: nat, k: nat)
    ensures ByteWeight(k) > 0 && BytesValue(BeBytes(n, k)) == n % ByteWeight(k)
  {
    if k > 0 {
      BeBytesValue(n / 256, k - 1);
      BytesPush(BeBytes(n / 256, k - 1), n % 256);
      DigitMod(n, ByteWeight(k - 1));
    }
  }

  lemma DigitMod(n: nat, w: nat)
    requires w > 0
    ensures 256 * (n / 256 % w) + n % 256 == n % (256 * w)
  {
    var d, l := n / 256, n % 256;
    var q, r := d / w, d % w;
    assert d == q * w + r;
    assert n == 256 * (q * w) + 256 * r + l;
    MulAssoc(256, q, w);
    DivModUnique(n, q, 256 * r + l, 256 * w);
  }

  function Padded(msg: seq<u8>): seq<u8>
    requires 8 * |msg| < U64
  {
    msg + [0x80] + ZeroBytes(PadZeros(|msg|)) + Be64(8 * |msg|)
  }

  /** Section 5.1.1, read off the bytes: the message, a one bit, zeros, and the length in bits in the last
      eight bytes; whole blocks, and no more of them than needed. */
  lemma PaddedLayout(msg: seq<u8>)
    requires 8 * |msg| < U64
    ensures var p, n := Padded(msg), |msg|;
            && |p| % 64 == 0 && n + 9 <= |p| < n + 9 + 64
            && p[..n] == msg && p[n] == 0x80 && (forall i :: n < i < |p| - 8 ==> p[i] == 0)
            && BytesValue(p[|p| - 8..]) == 8 * n
  {
    var zeros, last := ZeroBytes(PadZeros(|msg|)), Be64(8 * |msg|);
    PaddedLength(|msg|);
    PartsAt(msg, zeros, last);
  }

  lemma PaddedLength(n: nat)
    ensures (n + 1 + PadZeros(n) + 8) % 64 == 0
  {
  }

  lemma PartsAt(msg: seq<u8>, zeros: seq<u8>, last: seq<u8>)
    requires |last| == 8 && forall i :: 0 <= i < |zeros| ==> zeros[i] == 0
    ensures var p, n := msg + [0x80] + zeros + last, |msg|;
            && |p| == n + 1 + |zeros| + 8 && p[..n] == msg && p[n] == 0x80
            && (forall i :: n < i < |p| - 8 ==> p[i] == 0) && p[|p| - 8..] == last
  {
  }

  /** The digest is the eight words of the state, most significant byte first. */
  lemma DigestWord(v: Vars, i: nat)
    requires i < 8
    ensures |DigestBytes(v)| == 32
    ensures BytesValue(DigestBytes(v)[4 * i..4 * i + 4]) == [v.a, v.b, v.c, v.d, v.e, v.f, v.g, v.h][i]
  {
    var d := DigestBytes(v);
    assert d[4 * i..4 * i + 4] == WordBe([v.a, v.b, v.c, v.d, v.e, v.f, v.g, v.h][i]);
  }

  /** Word i of a block is its i-th group of four bytes, most significant byte first. */
  lemma BlockWord(block: seq<u8>, i: nat)
    requires 4 * i + 4 <= |block|
    ensures BeWord(block, i) == BytesValue(block[4 * i..4 * i + 4])
  {
    var b := block[4 * i..4 * i + 4];
    assert b[..4] == b;
    assert b[..3] == b[..2] + [b[2]] && b[..2] == b[..1] + [b[1]] && b[..1] == [] + [b[0]] && b == b[..3] + [b[3]];
    BytesPush([], b[0]);
    BytesPush(b[..1], b[1]);
    BytesPush(b[..2], b[2]);
    BytesPush(b[..3], b[3]);
  }

  /** `to_be_bytes` of a word. */
  function WordBe(w: u32): (b: seq<u8>)
    ensures |b| == 4 && BytesValue(b) == w
  {
    BeBytesValue(w, WORD_BYTES);
    FourBytes();
    ModSmall(w, U32);
    BeBytes(w, WORD_BYTES)
  }

  lemma FourBytes()
    ensures ByteWeight(4) == U32
  {
    assert ByteWeight(2) == 0x1_0000;
  }

  function DigestBytes(v: Vars): seq<u8> {
    WordBe(v.a) + WordBe(v.b) + WordBe(v.c) + WordBe(v.d) + WordBe(v.e) + WordBe(v.f) + WordBe(v.g) + WordBe(v.h)
  }

  /** The digest of a message. */
  function Digest(f: Step, msg: seq<u8>): seq<u8>
    requires 8 * |msg| < U64
  {
    DigestBytes(Fold(f, INITIAL, Padded(msg)))
  }

  lemma {:induction false} FoldConcat(f: Step, h: Vars, a: seq<u8>, b: seq<u8>)
    requires |a| % 64 == 0
    ensures Fold(f, h, a + b) == Fold(f, Fold(f, h, a), b)
    decreases |a|
  {
    if |a| == 0 {
      assert a + b == b;
    } else {
      assert (a + b)[..64] == a[..64] && (a + b)[64..] == a[64..] + b;
      FoldConcat(f, f(h, a[..64]), a[64..], b);
    }
  }

  lemma FoldOne(f: Step, h: Vars, block: seq<u8>)
    requires |block| == 64
    ensures Fold(f, h, block) == f(h, block)
  {
    assert block[..64] == block && |block[64..]| == 0;
  }

  lemma FoldPush(f: Step, h: Vars, a: seq<u8>, block: seq<u8>)
    requires |a| % 64 == 0 && |block| == 64
    ensures Fold(f, h, a + block) == f(Fold(f, h, a), block)
  {
    FoldConcat(f, h, a, block);
    FoldOne(f, Fold(f, h, a), block);
  }

  // ----- the buffered hasher

  class Hasher {
    const compress: Step
    var state: Vars
    var buffer: array<u8>
    var bufferLen: nat
    var totalLen: u64
    /** The bytes already compressed, and all bytes fed so far. */
    ghost var whole: seq<u8>
    ghost var fed: seq<u8>

    ghost predicate Valid()
      reads this, buffer
    {
      && buffer.Length == 64 && bufferLen < 64
      && |whole| % 64 == 0
      && fed == whole + buffer[..bufferLen]
      && state == Fold(compress, INITIAL, whole)
      && totalLen == |fed|
    }

    constructor (f: Step)
      ensures Valid() && fresh(buffer) && fed == [] && compress == f
    {
      compress := f;
      state, bufferLen, totalLen := INITIAL, 0, 0;
      buffer := new u8[64](i => 0);
      whole, fed := [], [];
    }

    /** What the three phases of update keep; taken is how much of data they have used. */
    ghost predicate Taking(before: seq<u8>, data: seq<u8>, taken: nat)
      requires taken <= |data|
      reads this, buffer
    {
      && buffer.Length == 64 && bufferLen < 64
      && |whole| % 64 == 0
      && whole + buffer[..bufferLen] == before + data[..taken]
      && state == Fold(compress, INITIAL, whole)
    }

    method CompressBlock(block: seq<u8>)
      requires |block| == 64 && |whole| % 64 == 0 && state == Fold(compress, INITIAL, whole)
      modifies this`state, this`whole
      ensures whole == old(whole) + block && |whole| % 64 == 0 && state == Fold(compress, INITIAL, whole)
    {
      FoldPush(compress, INITIAL, whole, block);
      whole := whole + block;
      state := compress(state, block);
    }

    /** Fills a buffer that holds something already, and compresses it when it is full. */
    method TopUp(data: seq<u8>) returns (offset: nat)
      requires Valid() && bufferLen > 0
      modifies this`state, this`bufferLen, this`whole, buffer
      ensures offset <= |data| && Taking(fed, data, offset) && (bufferLen > 0 ==> offset == |data|)
    {
      var room := 64 - bufferLen;
      var toCopy := if room < |data| then room else |data|;
      ghost var was := buffer[..bufferLen];
      forall i | 0 <= i < toCopy {
        buffer[bufferLen + i] := data[i];
      }
      assert buffer[..bufferLen + toCopy] == was + data[..toCopy];
      assert whole + (was + data[..toCopy]) == fed + data[..toCopy];
      bufferLen := bufferLen + toCopy;
      offset := toCopy;
      if bufferLen == 64 {
        assert buffer[..64] == buffer[..];
        CompressBlock(buffer[..]);
        bufferLen := 0;
        assert whole + buffer[..0] == whole;
      }
    }

    method SaveRest(data: seq<u8>, offset: nat)
      requires offset < |data| < offset + 64 && bufferLen == 0 && Taking(fed, data, offset)
      modifies this`bufferLen, buffer
      ensures Taking(fed, data, |data|)
    {
      var remaining := |data| - offset;
      forall i | 0 <= i < remaining {
        buffer[i] := data[offset + i];
      }
      assert buffer[..remaining] == data[offset..];
      assert whole + buffer[..0] == whole;
      assert fed + data[..offset] + data[offset..] == fed + data[..|data|];
      bufferLen := remaining;
    }

    /** Feeds bytes: any split of a message into updates has the same effect. */
    method Update(data: seq<u8>)
      requires Valid() && |fed| + |data| < U64
      modifies this, buffer
      ensures Valid() && buffer == old(buffer) && fed == old(fed) + data
    {
      var offset := 0;
      assert fed + data[..0] == fed;
      if bufferLen > 0 {
        offset := TopUp(data);
      }
      while offset + 64 <= |data|
        invariant offset <= |data| && buffer == old(buffer) && fed == old(fed) && totalLen == old(totalLen)
        invariant Taking(fed, data, offset) && (bufferLen > 0 ==> offset == |data|)
      {
        var block := data[offset..offset + 64];
        assert whole + buffer[..0] == whole;
        assert fed + data[..offset] + block == fed + data[..offset + 64];
        CompressBlock(block);
        assert whole + buffer[..0] == whole;
        offset := offset + 64;
      }
      if offset < |data| {
        SaveRest(data, offset);
      }
      assert data[..|data|] == data;
      fed := fed + data;
      totalLen := totalLen + |data|;
    }

    /** Zero bytes from one position of the buffer to another. */
    method ZeroFrom(from: nat, to: nat)
      requires from <= to <= 64 == buffer.Length
      modifies buffer
      ensures buffer[..to] == old(buffer[..from]) + ZeroBytes(to - from)
    {
      for i := from to to
        invariant buffer[..i] == old(buffer[..from]) + ZeroBytes(i - from)
      {
        buffer[i] := 0;
        assert buffer[..i + 1] == buffer[..i] + [0];
        assert ZeroBytes(i - from) + [0] == ZeroBytes(i + 1 - from);
      }
    }

    method StoreLength(bits: u64)
      requires buffer.Length == 64
      modifies buffer
      ensures buffer[..] == old(buffer[..56]) + Be64(bits)
    {
      var length := Be64(bits);
      forall i | 0 <= i < 8 {
        buffer[56 + i] := length[i];
      }
    }

    /** The byte 0x80, and a first block of padding if the length does not fit any more. */
    method StartPadding()
      requires Valid()
      modifies this`state, this`bufferLen, this`whole, buffer
      ensures buffer.Length == 64 && |whole| % 64 == 0 && state == Fold(compress, INITIAL, whole)
      ensures bufferLen == AfterMark(old(bufferLen))
      ensures whole + buffer[..bufferLen] == fed + [0x80] + ZeroBytes(FirstZeros(old(bufferLen)))
    {
      ghost var tail := buffer[..bufferLen];
      buffer[bufferLen] := 0x80;
      bufferLen := bufferLen + 1;
      assert buffer[..bufferLen] == tail + [0x80];
      assert whole + (tail + [0x80]) == fed + [0x80] + ZeroBytes(0);
      if bufferLen > 56 {
        ZeroFrom(bufferLen, 64);
        assert buffer[..64] == buffer[..];
        CompressBlock(buffer[..]);
        bufferLen := 0;
      }
    }

    /** Zeros up to the length field, the length, and the last block. */
    method FinishPadding(bits: u64)
      requires buffer.Length == 64 && bufferLen <= 56 && |whole| % 64 == 0 && state == Fold(compress, INITIAL, whole)
      modifies this`state, this`whole, buffer
      ensures whole == old(whole + buffer[..bufferLen]) + ZeroBytes(56 - bufferLen) + Be64(bits)
      ensures state == Fold(compress, INITIAL, whole)
    {
      ghost var start := buffer[..bufferLen];
      ZeroFrom(bufferLen, 56);
      StoreLength(bits);
      assert whole + (start + ZeroBytes(56 - bufferLen) + Be64(bits)) == whole + start + ZeroBytes(56 - bufferLen) + Be64(bits);
      CompressBlock(buffer[..]);
    }

    method AddPadding()
      requires Valid() && 8 * |fed| < U64
      modifies this`state, this`bufferLen, this`whole, buffer
      ensures state == Fold(compress, INITIAL, Padded(fed))
    {
      TailLength(|whole|, bufferLen);
      PaddingFits(fed, bufferLen);
      var bits := totalLen * 8;
      StartPadding();
      FinishPadding(bits);
    }

    /** The digest of everything fed; the hasher itself is consumed. */
    method Finalize() returns (digest: seq<u8>)
      requires Valid() && 8 * |fed| < U64
      modifies this, buffer
      ensures digest == Digest(compress, old(fed))
    {
      AddPadding();
      digest := DigestBytes(state);
    }
  }

  /** How far the buffer is filled once the byte 0x80 is in, and the zeros written until then. */
  function AfterMark(len: nat): nat {
    if len <= 55 then len + 1 else 0
  }

  function FirstZeros(len: nat): nat {
    if len <= 55 || len > 63 then 0 else 63 - len
  }

  lemma TailLength(whole: nat, tail: nat)
    requires whole % 64 == 0 && tail < 64
    ensures (whole + tail) % 64 == tail
  {
  }

  /** The zeros written in one block or in two are those of the padding rule. */
  lemma PaddingFits(fed: seq<u8>, len: nat)
    requires |fed| % 64 == len && 8 * |fed| < U64
    ensures fed + [0x80] + ZeroBytes(FirstZeros(len)) + ZeroBytes(56 - AfterMark(len)) + Be64(8 * |fed|) == Padded(fed)
  {
    var a, b := FirstZeros(len), 56 - AfterMark(len);
    assert PadZeros(|fed|) == a + b;
    assert ZeroBytes(a) + ZeroBytes(b) == ZeroBytes(a + b);
  }

  /** A message fed in any pieces gives the digest of their concatenation. */
  method HashPieces(f: Step, pieces: seq<seq<u8>>) returns (digest: seq<u8>)
    requires 8 * |Concat(pieces)| < U64
    ensures digest == Digest(f, Concat(pieces))
  {
    var hasher := new Hasher(f);
    for i := 0 to |pieces|
      invariant hasher.Valid() && hasher.compress == f && fresh(hasher) && fresh(hasher.buffer)
      invariant hasher.fed == Concat(pieces[..i])
    {
      ConcatStep(pieces, i);
      hasher.Update(pieces[i]);
    }
    assert pieces[..|pieces|] == pieces;
    digest := hasher.Finalize();
  }

  function CompressStep(): Step {
    (h, block) => if |block| == 64 then Compressed(h, block) else h
  }

  /** One-shot hashing with the SHA-256 compression function. */
  method Hash(data: seq<u8>) returns (digest: seq<u8>)
    requires 8 * |data| < U64
    ensures digest == Digest(CompressStep(), data)
  {
    assert Concat([data]) == Concat([]) + data == data;
    digest := HashPieces(CompressStep(), [data]);
  }

  function Concat(pieces: seq<seq<u8>>): seq<u8> {
    if |pieces| == 0 then [] else Concat(pieces[..|pieces| - 1]) + pieces[|pieces| - 1]
  }

  lemma ConcatStep(pieces: seq<seq<u8>>, i: nat)
    requires i < |pieces|
    ensures Concat(pieces[..i + 1]) == Concat(pieces[..i]) + pieces[i]
    ensures |Concat(pieces[..i + 1])| <= |Concat(pieces)|
  {
    assert pieces[..i + 1][..i] == pieces[..i];
    ConcatGrows(pieces, i + 1);
  }

  lemma {:induction false} ConcatGrows(pieces: seq<seq<u8>>, i: nat)
    requires i <= |pieces|
    ensures |Concat(pieces[..i])| <= |Concat(pieces)|
    decreases |pieces| - i
  {
    if i == |pieces| {
      assert pieces[..i] == pieces;
    } else {
      assert pieces[..i + 1][..i] == pieces[..i];
      ConcatGrows(pieces, i + 1);
    }
  }
}
