/** ChaCha20-Poly1305 as in crypto/chacha20.rs and section 2.8 of RFC 8439. */
module Aead {
  import opened Options
  import opened NumberTheory
  import opened Bits
  import opened Limbs
  import opened LittleEndian
  import opened ChaCha
  import opened Poly1305Mac

  function Pad16(len: nat): (n: nat)
    ensures n < 16 && (len + n) % 16 == 0
  {
    if len % 16 == 0 then 0 else 16 - len % 16
  }

  /** `(len as u64).to_le_bytes()`. */
  function LengthBytes(len: nat): (b: seq<u8>)
    ensures |b| == 8 && Le(b) == len % 0x1_0000_0000_0000_0000
  {
    var low, high := len % 0x1_0000_0000, len / 0x1_0000_0000 % 0x1_0000_0000;
    var b := WordBytes(low) + WordBytes(high);
    LengthValue(low, high);
    b
  }

  lemma LengthValue(low: u32, high: u32)
    ensures Le(WordBytes(low) + WordBytes(high)) == low + 0x1_0000_0000 * high
  {
    var b := WordBytes(low) + WordBytes(high);
    assert b[0..] == b && b[8..] == [];
    LeWord(b, 0);
    LeWord(b, 4);
    assert Word(b, 0) == Word(WordBytes(low), 0) && Word(b, 4) == Word(WordBytes(high), 0);
  }

  function Padded(data: seq<u8>): seq<u8> {
    data + ZeroBytes(Pad16(|data|))
  }

  /** The bytes that are authenticated. */
  function MacInput(aad: seq<u8>, ciphertext: seq<u8>): seq<u8> {
    Padded(aad) + Padded(ciphertext) + LengthBytes(|aad|) + LengthBytes(|ciphertext|)
  }

  /** The authenticated bytes determine both parts, for the lengths a 64-bit machine can hold. */
  lemma MacInputInjective(aad: seq<u8>, ct: seq<u8>, aad': seq<u8>, ct': seq<u8>)
    requires |aad| < U64 && |ct| < U64 && |aad'| < U64 && |ct'| < U64
    requires MacInput(aad, ct) == MacInput(aad', ct')
    ensures aad == aad' && ct == ct'
  {
    var m := MacInput(aad, ct);
    var n := |m|;
    assert m[n - 8..] == LengthBytes(|ct|) == LengthBytes(|ct'|);
    assert m[n - 16..n - 8] == LengthBytes(|aad|) == LengthBytes(|aad'|);
    LengthsAgree(|aad|, |aad'|);
    LengthsAgree(|ct|, |ct'|);
    MacInputParts(aad, ct);
    MacInputParts(aad', ct');
  }

  lemma MacInputParts(aad: seq<u8>, ct: seq<u8>)
    ensures var m, k := MacInput(aad, ct), |aad| + Pad16(|aad|);
            k + |ct| <= |m| && m[..|aad|] == aad && m[k..k + |ct|] == ct
  {
  }

  /** Section 2.8 of RFC 8439, read off the bytes: both parts are followed by zeros up to a multiple of
      16, then come the two lengths, that of the associated data first, as 64-bit little-endian numbers. */
  lemma MacInputLayout(aad: seq<u8>, ct: seq<u8>)
    ensures var m, k := MacInput(aad, ct), |aad| + Pad16(|aad|);
            var n := k + |ct| + Pad16(|ct|);
            && |m| == n + 16 && k % 16 == 0 && n % 16 == 0
            && m[..|aad|] == aad && m[k..k + |ct|] == ct
            && (forall i :: |aad| <= i < k || k + |ct| <= i < n ==> m[i] == 0)
            && Le(m[n..n + 8]) == |aad| % 0x1_0000_0000_0000_0000 && Le(m[n + 8..]) == |ct| % 0x1_0000_0000_0000_0000
  {
    var m, k := MacInput(aad, ct), |aad| + Pad16(|aad|);
    var n := k + |ct| + Pad16(|ct|);
    SixteenMore(k, |ct| + Pad16(|ct|));
    assert m[n..n + 8] == LengthBytes(|aad|) && m[n + 8..] == LengthBytes(|ct|);
  }

  lemma SixteenMore(k: nat, l: nat)
    requires k % 16 == 0 && l % 16 == 0
    ensures (k + l) % 16 == 0
  {
  }

  lemma LengthsAgree(x: nat, y: nat)
    requires x < U64 && y < U64 && LengthBytes(x) == LengthBytes(y)
    ensures x == y
  {
    assert Le(LengthBytes(x)) == Le(LengthBytes(y));
    ModSmall(x, U64);
    ModSmall(y, U64);
  }

  /** The one-time key: the first half of block 0. */
  function PolyKey(key: seq<u8>, nonce: seq<u8>): (k: seq<u8>)
    requires KeyNonce(key, nonce)
    ensures |k| == 32
  {
    var block := Cipher(key, nonce)(0);
    block[..32]
  }

  /** One key stream from counter 0 serves both: its first 32 bytes are the one-time key, the next 32
      are not used, and byte i of the message meets byte 64 + i. */
  lemma StreamLayout(key: seq<u8>, nonce: seq<u8>, plaintext: seq<u8>)
    requires KeyNonce(key, nonce)
    ensures forall i :: 0 <= i < 32 ==> PolyKey(key, nonce)[i] == KeyByte(Cipher(key, nonce), 0, i)
    ensures var c := Crypt(Cipher(key, nonce), 1, plaintext);
            forall i :: 0 <= i < |c| ==> c[i] == XorByte(plaintext[i], KeyByte(Cipher(key, nonce), 0, 64 + i))
  {
    FirstBlock(Cipher(key, nonce));
    SecondBlock(Cipher(key, nonce), plaintext);
  }

  lemma FirstBlock(f: u32 -> Block64)
    ensures forall i :: 0 <= i < 64 ==> f(0)[i] == KeyByte(f, 0, i)
  {
    forall i | 0 <= i < 64
      ensures f(0)[i] == KeyByte(f, 0, i)
    {
      assert Advance(0, 0) == 0;
    }
  }

  lemma SecondBlock(f: u32 -> Block64, text: seq<u8>)
    ensures forall i :: 0 <= i < |text| ==> Crypt(f, 1, text)[i] == XorByte(text[i], KeyByte(f, 0, 64 + i))
  {
    forall i | 0 <= i < |text|
      ensures Crypt(f, 1, text)[i] == XorByte(text[i], KeyByte(f, 0, 64 + i))
    {
      KeyByteShift(f, 0, 1, i);
    }
  }

  /** The number that the right tag encodes. */
  function TagNumber(key: seq<u8>, nonce: seq<u8>, aad: seq<u8>, ciphertext: seq<u8>): nat
    requires KeyNonce(key, nonce)
  {
    MacValue(PolyKey(key, nonce), MacInput(aad, ciphertext))
  }

  ghost predicate Sealed(key: seq<u8>, nonce: seq<u8>, aad: seq<u8>, plaintext: seq<u8>, ciphertext: seq<u8>, tag: seq<u8>)
    requires KeyNonce(key, nonce)
  {
    && ciphertext == Crypt(Cipher(key, nonce), 1, plaintext)
    && |tag| == 16 && Le(tag) == TagNumber(key, nonce, aad, ciphertext)
  }

  /** What decryption answers. */
  ghost function Opened(key: seq<u8>, nonce: seq<u8>, aad: seq<u8>, ciphertext: seq<u8>, tag: seq<u8>): Option<seq<u8>>
    requires KeyNonce(key, nonce)
  {
    if Le(tag) == TagNumber(key, nonce, aad, ciphertext) then Some(Crypt(Cipher(key, nonce), 1, ciphertext)) else None
  }

  /** Decryption yields p exactly for the output of encrypting p. */
  lemma OpenedIffSealed(key: seq<u8>, nonce: seq<u8>, aad: seq<u8>, p: seq<u8>, ciphertext: seq<u8>, tag: seq<u8>)
    requires KeyNonce(key, nonce) && |tag| == 16
    ensures Opened(key, nonce, aad, ciphertext, tag) == Some(p) <==> Sealed(key, nonce, aad, p, ciphertext, tag)
  {
    CryptTwice(Cipher(key, nonce), 1, ciphertext);
    CryptTwice(Cipher(key, nonce), 1, p);
  }

  /** Encryption has one output for each input. */
  lemma SealedUnique(key: seq<u8>, nonce: seq<u8>, aad: seq<u8>, p: seq<u8>, c: seq<u8>, t: seq<u8>, c': seq<u8>, t': seq<u8>)
    requires KeyNonce(key, nonce) && Sealed(key, nonce, aad, p, c, t) && Sealed(key, nonce, aad, p, c', t')
    ensures c == c' && t == t'
  {
    LeInjective(t, t');
  }

  method BuildMacInput(aad: seq<u8>, ciphertext: seq<u8>) returns (data: seq<u8>)
    ensures data == MacInput(aad, ciphertext)
  {
    data := aad;
    data := data + ZeroBytes(Pad16(|aad|));
    data := data + ciphertext;
    data := data + ZeroBytes(Pad16(|ciphertext|));
    data := data + LengthBytes(|aad|);
    data := data + LengthBytes(|ciphertext|);
  }

  method ComputeTag(key: seq<u8>, nonce: seq<u8>, aad: seq<u8>, ciphertext: seq<u8>) returns (tag: seq<u8>)
    requires KeyNonce(key, nonce)
    ensures |tag| == 16 && Le(tag) == TagNumber(key, nonce, aad, ciphertext)
  {
    var block := Chacha20Block(key, 0, nonce);
    var data := BuildMacInput(aad, ciphertext);
    tag := Poly1305Tag(block[..32], data);
  }

  method Encrypt(key: seq<u8>, nonce: seq<u8>, aad: seq<u8>, plaintext: seq<u8>) returns (ciphertext: seq<u8>, tag: seq<u8>)
    requires KeyNonce(key, nonce)
    ensures Sealed(key, nonce, aad, plaintext, ciphertext, tag)
  {
    ciphertext := Chacha20Encrypt(key, nonce, 1, plaintext);
    tag := ComputeTag(key, nonce, aad, ciphertext);
  }

  /** `diff |= x ^ y`. */
  method Collect(diff: u8, x: u8, y: u8) returns (r: u8)
    ensures r == 0 <==> diff == 0 && x == y
  {
    Pow2Words();
    var z := XorByte(x, y);
    XorIsZero(x, y);
    OrBound(diff, z, 8);
    OrIsZero(diff, z);
    r := Or(diff, z);
  }

  /** The constant-time comparison: all byte differences collected into one byte. */
  method SameTag(tag: seq<u8>, expected: seq<u8>) returns (same: bool)
    requires |tag| == |expected| == 16
    ensures same <==> tag == expected
  {
    var diff: u8 := 0;
    for i := 0 to 16
      invariant diff == 0 <==> tag[..i] == expected[..i]
    {
      assert tag[..i + 1] == tag[..i] + [tag[i]] && expected[..i + 1] == expected[..i] + [expected[i]];
      diff := Collect(diff, tag[i], expected[i]);
    }
    assert tag[..16] == tag && expected[..16] == expected;
    same := diff == 0;
  }

  lemma TagsAgree(tag: seq<u8>, expected: seq<u8>)
    requires |tag| == |expected|
    ensures Le(tag) == Le(expected) <==> tag == expected
  {
    if Le(tag) == Le(expected) {
      LeInjective(tag, expected);
    }
  }

  method Decrypt(key: seq<u8>, nonce: seq<u8>, aad: seq<u8>, ciphertext: seq<u8>, tag: seq<u8>) returns (r: Option<seq<u8>>)
    requires KeyNonce(key, nonce) && |tag| == 16
    ensures r == Opened(key, nonce, aad, ciphertext, tag)
  {
    var expected := ComputeTag(key, nonce, aad, ciphertext);
    var same := SameTag(tag, expected);
    TagsAgree(tag, expected);
    if !same {
      return None;
    }
    var plaintext := Chacha20Encrypt(key, nonce, 1, ciphertext);
    return Some(plaintext);
  }
}
