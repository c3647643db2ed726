/** The mode loops of crypto/aes.rs and crypto/luks.rs over a block cipher given as a function, and
    what they do with AES-256. */
module AesCode {
  import opened AesField
  import opened AesBlock
  import opened AesModes

  // ----- AES-256 as such a function

  /** The fifteen round keys of AES-256; the key schedule itself is a parameter. */
  type Keys = k: seq<Block> | |k| == 15 witness NoKeys()

  function NoKeys(): seq<Block> {
    seq(15, i => ZeroBlock())
  }

  /** A cipher of given layers, in both directions, as functions on blocks. */
  function Forward(a: Layers, keys: Keys): Block -> Block {
    s => a.Encrypt(s, keys)
  }

  function Backward(a: Layers, keys: Keys): Block -> Block {
    s => a.Decrypt(s, keys)
  }

  lemma LayersInverse(a: Layers, keys: Keys)
    requires a.Undone()
    ensures Inverse(Forward(a, keys), Backward(a, keys))
  {
    forall s: Block
      ensures Backward(a, keys)(Forward(a, keys)(s)) == s
    {
      a.DecryptEncrypt(s, keys);
    }
  }

  function Enc(keys: Keys): Block -> Block {
    Forward(Aes(), keys)
  }

  function Dec(keys: Keys): Block -> Block {
    Backward(Aes(), keys)
  }

  lemma CipherInverse(keys: Keys)
    ensures Inverse(Enc(keys), Dec(keys))
  {
    AesUndone();
    LayersInverse(Aes(), keys);
  }

  /** With AES itself, for any fifteen round keys, CBC recovers all whole blocks and XTS recovers
      sectors. */
  lemma ModesRoundTrip(keys: Keys, start: Block, data: Bytes)
    ensures CbcDec(Dec(keys), start, CbcEnc(Enc(keys), start, data)) == data[..Whole(|data|)]
    ensures XtsEnc(Dec(keys), start, XtsEnc(Enc(keys), start, data)) == data[..Whole(|data|)]
  {
    CipherInverse(keys);
    CbcRoundTrip(Enc(keys), Dec(keys), start, data);
    XtsRoundTrip(Enc(keys), Dec(keys), start, data);
  }

  // ----- CBC

  lemma BlockSlice(data: Bytes, i: nat)
    requires 16 * (i + 1) <= |data|
    ensures data[16 * i..][..16] == data[16 * i..16 * (i + 1)] && data[16 * i..][16..] == data[16 * (i + 1)..]
  {
  }

  lemma CbcEncStep(e: Block -> Block, prev: Block, data: Bytes, i: nat, out: Bytes)
    requires 16 * (i + 1) <= |data|
    ensures var c: Bytes := e(AddKey(data[16 * i..16 * (i + 1)], prev));
            out + CbcEnc(e, prev, data[16 * i..]) == out + c + CbcEnc(e, c, data[16 * (i + 1)..])
  {
    BlockSlice(data, i);
  }

  lemma CbcDecStep(d: Block -> Block, prev: Block, data: Bytes, i: nat, out: Bytes)
    requires 16 * (i + 1) <= |data|
    ensures var b: Bytes := data[16 * i..16 * (i + 1)];
            var p: Bytes := AddKey(d(b), prev);
            out + CbcDec(d, prev, data[16 * i..]) == out + p + CbcDec(d, b, data[16 * (i + 1)..])
  {
    BlockSlice(data, i);
  }

  method CbcEncrypt(plaintext: Bytes, e: Block -> Block, iv: Block) returns (ciphertext: Bytes)
    ensures ciphertext == CbcEnc(e, iv, plaintext)
  {
    ciphertext := [];
    var prev := iv;
    assert plaintext[16 * 0..] == plaintext;
    for i := 0 to |plaintext| / 16
      invariant ciphertext + CbcEnc(e, prev, plaintext[16 * i..]) == CbcEnc(e, iv, plaintext)
    {
      CbcEncStep(e, prev, plaintext, i, ciphertext);
      var encrypted := e(AddKey(plaintext[16 * i..16 * (i + 1)], prev));
      ciphertext := ciphertext + encrypted;
      prev := encrypted;
    }
  }

  method CbcDecrypt(ciphertext: Bytes, d: Block -> Block, iv: Block) returns (plaintext: Bytes)
    ensures plaintext == CbcDec(d, iv, ciphertext)
  {
    plaintext := [];
    var prev := iv;
    assert ciphertext[16 * 0..] == ciphertext;
    for i := 0 to |ciphertext| / 16
      invariant plaintext + CbcDec(d, prev, ciphertext[16 * i..]) == CbcDec(d, iv, ciphertext)
    {
      CbcDecStep(d, prev, ciphertext, i, plaintext);
      var block: Block := ciphertext[16 * i..16 * (i + 1)];
      plaintext := plaintext + AddKey(d(block), prev);
      prev := block;
    }
  }

  // ----- CTR

  lemma NextPrefix(c: Bytes, j: nat, after: Bytes)
    requires j < |c|
    ensures c[j] + 1 == 0 ==> Next(c[..j + 1]) + after == Next(c[..j]) + ([c[j] + 1] + after)
    ensures c[j] + 1 != 0 ==> Next(c[..j + 1]) + after == c[..j] + ([c[j] + 1] + after)
  {
    assert c[..j + 1][..j] == c[..j] && c[..j + 1][j] == c[j];
    WrapsAtTop(c[j]);
  }

  lemma WrapsAtTop(b: bv8)
    ensures b + 1 == 0 <==> b == 0xff
  {
  }

  /** The byte loop from the end, stopping at the first byte that does not wrap. */
  method Increment(counter: array<bv8>)
    requires counter.Length == 16
    modifies counter
    ensures counter[..] == Next(old(counter[..]))
  {
    var j := 16;
    ghost var c := counter[..];
    assert c[..16] == c && counter[16..] == [];
    while j > 0
      invariant 0 <= j <= 16 && counter[..j] == c[..j] && Next(c) == Next(c[..j]) + counter[j..]
    {
      j := j - 1;
      ghost var after := counter[j + 1..];
      NextPrefix(c, j, after);
      assert counter[j] == counter[..j + 1][j] == c[j];
      counter[j] := counter[j] + 1;
      assert counter[j..] == [c[j] + 1] + after;
      assert counter[..j] == c[..j];
      if counter[j] != 0 {
        assert counter[..] == counter[..j] + counter[j..];
        return;
      }
    }
    assert counter[0..] == counter[..];
  }

  method XorChunk(chunk: Bytes, keystream: Block) returns (out: Bytes)
    requires |chunk| <= 16
    ensures out == XorPrefix(chunk, keystream)
  {
    out := [];
    for j := 0 to |chunk|
      invariant out == XorPrefix(chunk[..j], keystream)
    {
      out := out + [chunk[j] ^ keystream[j]];
    }
    assert chunk[..|chunk|] == chunk;
  }

  lemma CtrStep(data: Bytes, start: nat, end: nat, e: Block -> Block, counter: Block, output: Bytes, out: Bytes)
    requires start < |data| && end == if start + 16 <= |data| then start + 16 else |data|
    requires out == XorPrefix(data[start..end], e(counter))
    ensures output + Ctr(e, counter, data[start..]) == output + out + Ctr(e, Next(counter), data[end..])
  {
    assert Head(data[start..]) == data[start..end] && Tail(data[start..]) == data[end..];
    var rest := Ctr(e, Next(counter), data[end..]);
    assert Ctr(e, counter, data[start..]) == out + rest;
    assert output + (out + rest) == output + out + rest;
  }

  method CtrCrypt(data: Bytes, e: Block -> Block, nonce: Block) returns (output: Bytes)
    ensures output == Ctr(e, nonce, data)
  {
    output := [];
    var counter := Load(nonce);
    var start := 0;
    assert data[0..] == data;
    for i := 0 to (|data| + 15) / 16
      invariant counter.Length == 16 && fresh(counter)
      invariant start == (if 16 * i <= |data| then 16 * i else |data|)
      invariant output + Ctr(e, counter[..], data[start..]) == Ctr(e, nonce, data)
    {
      var end := if start + 16 <= |data| then start + 16 else |data|;
      var out := XorChunk(data[start..end], e(counter[..]));
      CtrStep(data, start, end, e, counter[..], output, out);
      output := output + out;
      Increment(counter);
      start := end;
    }
  }

  // ----- XTS

  lemma ShiftOne(t: Bytes, i: nat, done: Bytes, carry: bv8)
    requires i < |t|
    ensures var r, r' := ShiftLeft(t[i..], carry), ShiftLeft(t[i + 1..], TopBit(t[i]));
            done + r.0 == done + [ShiftIn(t[i], carry)] + r'.0 && r.1 == r'.1
  {
    assert t[i..][1..] == t[i + 1..];
  }

  /** The shift of gf_mul2 of luks.rs, in place, with the bit shifted out. */
  method ShiftInPlace(tweak: array<bv8>) returns (carry: bv8)
    requires tweak.Length == 16
    modifies tweak
    ensures tweak[..] == ShiftLeft(old(tweak[..]), 0).0 && carry == ShiftLeft(old(tweak[..]), 0).1
  {
    ghost var t := tweak[..];
    carry := 0;
    assert t[0..] == t;
    for i := 0 to 16
      invariant tweak[i..] == t[i..]
      invariant ShiftLeft(t, 0).0 == tweak[..i] + ShiftLeft(t[i..], carry).0
      invariant ShiftLeft(t, 0).1 == ShiftLeft(t[i..], carry).1
    {
      ShiftOne(t, i, tweak[..i], carry);
      assert tweak[i] == tweak[i..][0] == t[i];
      ghost var before := tweak[..i];
      var newCarry := TopBit(tweak[i]);
      tweak[i] := ShiftIn(tweak[i], carry);
      assert tweak[..i + 1] == before + [tweak[i]];
      carry := newCarry;
    }
    assert t[16..] == [] && tweak[..16] == tweak[..];
  }

  method DoubleInPlace(tweak: array<bv8>)
    requires tweak.Length == 16
    modifies tweak
    ensures tweak[..] == Double(old(tweak[..]))
  {
    var carry := ShiftInPlace(tweak);
    if carry != 0 {
      tweak[0] := tweak[0] ^ 0x87;
    }
  }

  lemma XtsStep(e: Block -> Block, t: Block, data: Bytes, i: nat, out: Bytes, c: Bytes)
    requires 16 * (i + 1) <= |data| && c == AddKey(e(AddKey(data[16 * i..16 * (i + 1)], t)), t)
    ensures out + XtsEnc(e, t, data[16 * i..]) == out + c + XtsEnc(e, Double(t), data[16 * (i + 1)..])
  {
    BlockSlice(data, i);
    var rest := XtsEnc(e, Double(t), data[16 * (i + 1)..]);
    assert XtsEnc(e, t, data[16 * i..]) == c + rest;
    assert out + (c + rest) == out + c + rest;
  }

  /** One block between two additions of the tweak. */
  method XtsBlock(block: Block, e: Block -> Block, tweak: Block) returns (c: Block)
    ensures c == AddKey(e(AddKey(block, tweak)), tweak)
  {
    c := AddKey(e(AddKey(block, tweak)), tweak);
  }

  /** The block loop of both sector functions, with the cipher in one direction. */
  method XtsBlocks(data: Bytes, e: Block -> Block, start: Block) returns (out: Bytes)
    ensures out == XtsEnc(e, start, data)
  {
    out := [];
    var tweak := Load(start);
    assert data[16 * 0..] == data;
    for i := 0 to |data| / 16
      invariant tweak.Length == 16 && fresh(tweak)
      invariant out + XtsEnc(e, tweak[..], data[16 * i..]) == XtsEnc(e, start, data)
    {
      var c := XtsBlock(data[16 * i..16 * (i + 1)], e, tweak[..]);
      XtsStep(e, tweak[..], data, i, out, c);
      out := out + c;
      DoubleInPlace(tweak);
    }
  }

  /** Sector encryption and decryption: nothing for a key of the wrong length or a sector that is not
      whole blocks; otherwise the tweaks start from the sector number, in little-endian order,
      encrypted under the second half of the key. */
  method XtsSector(data: Bytes, key: Bytes, sector: Block, expand: Bytes -> Keys, decrypt: bool) returns (out: Bytes)
    ensures |key| != 64 || |data| % 16 != 0 ==> out == []
    ensures |key| == 64 && |data| % 16 == 0 ==>
              out == XtsEnc(if decrypt then Dec(expand(key[..32])) else Enc(expand(key[..32])),
                            Enc(expand(key[32..]))(sector), data)
  {
    if |key| != 64 || |data| % 16 != 0 {
      return [];
    }
    var keys1, keys2 := expand(key[..32]), expand(key[32..]);
    var e := if decrypt then Dec(keys1) else Enc(keys1);
    out := XtsBlocks(data, e, Enc(keys2)(sector));
  }

  /** Decrypting an encrypted sector with the same key and number returns it. */
  lemma SectorRoundTrip(keys1: Keys, keys2: Keys, sector: Block, data: Bytes)
    requires |data| % 16 == 0
    ensures var t := Enc(keys2)(sector); XtsEnc(Dec(keys1), t, XtsEnc(Enc(keys1), t, data)) == data
  {
    CipherInverse(keys1);
    XtsWholeSector(Enc(keys1), Dec(keys1), Enc(keys2)(sector), data);
  }
}
