/** RSA keys and PKCS#1 v1.5 encryption and signatures of crypto/rsa.rs
    (sections 7.2 and 8.2 of RFC 8017). Random padding bytes and the SHA-256
    digest of the signed message are parameters. */
module Rsa {
  import opened Options
  import opened NumberTheory
  import opened Bits
  import opened Limbs
  import opened BigUints
  import opened BigShift
  import opened BigDivision
  import opened BigBytes
  import opened RsaMath

  datatype PublicKey = PublicKey(n: Big, e: Big, bits: nat)

  datatype PrivateKey = PrivateKey(n: Big, e: Big, d: Big, p: Big, q: Big,
                                   dp: Big, dq: Big, qinv: Big, bits: nat)

  /** Modulus length in bytes. */
  function KeyBytes(bits: nat): nat {
    (bits + 7) / 8
  }

  /** What `new` establishes about the derived fields. */
  ghost predicate WellFormed(key: PrivateKey) {
    && Val(key.p) >= 2 && Val(key.q) >= 2
    && Val(key.dp) == Val(key.d) % (Val(key.p) - 1)
    && Val(key.dq) == Val(key.d) % (Val(key.q) - 1)
    && (Val(key.q) * Val(key.qinv)) % Val(key.p) == 1
    && key.bits == BitLen(Val(key.n))
  }

  /** A private key whose components are a key pair. */
  ghost predicate ValidKey(key: PrivateKey) {
    WellFormed(key) && KeyPair(Val(key.n), Val(key.e), Val(key.d), Val(key.p), Val(key.q))
  }

  method NewPublicKey(n: Big, e: Big) returns (key: PublicKey)
    ensures key.n == n && key.e == e && key.bits == BitLen(Val(n))
  {
    var bits := BitCount(n);
    key := PublicKey(n, e, bits);
  }

  /** The source divides by p - 1 and q - 1. */
  method NewPrivateKey(n: Big, e: Big, d: Big, p: Big, q: Big) returns (r: Option<PrivateKey>)
    requires Val(p) >= 2 && Val(q) >= 2
    ensures r.Some? <==> Gcd(Val(q), Val(p)) == 1
    ensures r.Some? ==> WellFormed(r.value)
    ensures r.Some? ==> r.value.n == n && r.value.e == e && r.value.d == d && r.value.p == p && r.value.q == q
  {
    SmallValues();
    var p1 := Sub(p, ONE);
    var q1 := Sub(q, ONE);
    var dp := Modulo(d, p1);
    var dq := Modulo(d, q1);
    var qinv := ModInverse(q, p);
    if qinv.None? {
      return None;
    }
    ModSmall(1, Val(p));
    var bits := BitCount(n);
    r := Some(PrivateKey(n, e, d, p, q, dp, dq, qinv.value, bits));
  }

  /** The public exponent F4. */
  function PublicExponent(): u64 { 65537 }

  function Phi(p: nat, q: nat): (phi: nat)
    requires p >= 2 && q >= 2
    ensures phi > 0
  {
    MulMono(1, p - 1, q - 1);
    (p - 1) * (q - 1)
  }

  /** Key generation once two primes have been drawn. */
  method KeypairFromPrimes(p: Big, q: Big) returns (r: Option<PrivateKey>)
    requires Val(p) >= 2 && Val(q) >= 2
    ensures r.Some? <==> Gcd(PublicExponent(), Phi(Val(p), Val(q))) == 1 && Gcd(Val(q), Val(p)) == 1
    ensures r.Some? ==> r.value.p == p && r.value.q == q && Val(r.value.n) == Val(p) * Val(q)
    ensures r.Some? && Prime(Val(p)) && Prime(Val(q)) && Val(p) % 2 == 1 && Val(q) % 2 == 1 ==>
              ValidKey(r.value)
  {
    SmallValues();
    var n := Mul(p, q);
    var p1 := Sub(p, ONE);
    var q1 := Sub(q, ONE);
    var phi := Mul(p1, q1);
    assert Val(phi) == Phi(Val(p), Val(q));
    var e := FromU64(PublicExponent());
    var d := ModInverse(e, phi);
    if d.None? {
      return None;
    }
    r := NewPrivateKey(n, e, d.value, p, q);
    if r.Some? && Val(p) >= 3 && Val(q) >= 3 {
      MulMono(2, Val(p) - 1, Val(q) - 1);
      ModSmall(1, Val(phi));
      if Val(p) == Val(q) {
        GcdSelf(Val(p));
      }
    }
  }

  lemma GcdSelf(p: nat)
    requires p > 0
    ensures Gcd(p, p) == p
  {
    DivModUnique(p, 1, 0, p);
  }

  // ----- the private-key operation

  /** The number the private-key operation yields for c. */
  function Private(key: PrivateKey, c: nat): nat
    requires Val(key.p) > 0 && Val(key.q) > 0
  {
    PrivatePower(c, Val(key.dp), Val(key.dq), Val(key.p), Val(key.q), Val(key.qinv))
  }

  method CrtPower(key: PrivateKey, c: Big) returns (m: Big)
    requires Val(key.p) > 0 && Val(key.q) > 0
    ensures Val(m) == Private(key, Val(c))
  {
    var m1 := ModPow(c, key.dp, key.p);
    var m2 := ModPow(c, key.dq, key.q);
    var order := Cmp(m1, m2);
    var h: Big;
    if order != Less {
      var diff := Sub(m1, m2);
      h := MulMod(key.qinv, diff, key.p);
    } else {
      var diff := Sub(m2, m1);
      var negH := MulMod(key.qinv, diff, key.p);
      h := Sub(key.p, negH);
    }
    var hq := Mul(h, key.q);
    m := Add(m2, hq);
  }

  // ----- lengths

  /** A modulus of k bytes lies between 256^(k-1) and 256^k. */
  lemma ModulusRange(n: nat)
    requires n > 0
    ensures KeyBytes(BitLen(n)) > 0
    ensures ByteWeight(KeyBytes(BitLen(n)) - 1) <= n < ByteWeight(KeyBytes(BitLen(n)))
  {
    var bits := BitLen(n);
    var k := KeyBytes(bits);
    ByteWeightPow2(k - 1);
    ByteWeightPow2(k);
    PowMono(2, 8 * (k - 1), bits - 1);
    PowMono(2, bits, 8 * k);
  }

  /** A block of k bytes that starts with zero denotes a number below the modulus. */
  lemma BlockBelowModulus(em: seq<u8>, n: nat)
    requires n > 0 && |em| == KeyBytes(BitLen(n)) && em[0] == 0
    ensures BytesValue(em) < n
  {
    ModulusRange(n);
    BytesLeadingZero(em);
    BytesBound(em[1..]);
  }

  // ----- encryption padding: 0x00 || 0x02 || PS || 0x00 || M

  function EncryptionBlock(ps: seq<u8>, data: seq<u8>): seq<u8> {
    [0, 2] + ps + [0] + data
  }

  ghost predicate NonZero(ps: seq<u8>) {
    forall i :: 0 <= i < |ps| ==> ps[i] != 0
  }

  /** The first zero byte from position i on, or the length. */
  function FindZero(em: seq<u8>, i: nat): (j: nat)
    requires i <= |em|
    ensures i <= j <= |em| && (j < |em| ==> em[j] == 0)
    ensures forall t :: i <= t < j ==> em[t] != 0
    decreases |em| - i
  {
    if i == |em| || em[i] == 0 then i else FindZero(em, i + 1)
  }

  /** What decrypt strips from a decrypted block. */
  function Unpad(em: seq<u8>): Option<seq<u8>>
    requires |em| >= 2
  {
    if em[0] != 0 || em[1] != 2 then None
    else
      var sep := FindZero(em, 2);
      if sep == |em| || sep < 10 then None else Some(em[sep + 1..])
  }

  /** Unpadding succeeds exactly on well-formed blocks with at least eight padding bytes. */
  lemma UnpadIff(em: seq<u8>, data: seq<u8>)
    requires |em| >= 2
    ensures Unpad(em) == Some(data) <==>
            exists ps :: |ps| >= 8 && NonZero(ps) && em == [0, 2] + ps + [0] + data
  {
    if Unpad(em) == Some(data) {
      var sep := FindZero(em, 2);
      var ps := em[2..sep];
      assert em == [em[0], em[1]] + ps + [em[sep]] + em[sep + 1..];
      assert NonZero(ps);
    }
    if ps :| |ps| >= 8 && NonZero(ps) && em == [0, 2] + ps + [0] + data {
      UnpadBlock(ps, data);
    }
  }

  lemma UnpadBlock(ps: seq<u8>, data: seq<u8>)
    requires |ps| >= 8 && NonZero(ps)
    ensures Unpad(EncryptionBlock(ps, data)) == Some(data)
  {
    var em := EncryptionBlock(ps, data);
    var at := 2 + |ps|;
    assert em[at] == 0;
    assert forall t :: 2 <= t < at ==> em[t] == ps[t - 2];
    assert FindZero(em, 2) == at;
    assert em[at + 1..] == data;
  }

  /** c = m^e mod n in k bytes, for the padded block m. */
  function Encrypted(n: nat, e: nat, k: nat, ps: seq<u8>, data: seq<u8>): seq<u8>
    requires n > 0
  {
    PaddedBE(Pow(BytesValue(EncryptionBlock(ps, data)), e) % n, k)
  }

  method BuildEncryptionBlock(k: nat, data: seq<u8>, random: seq<u8>) returns (em: seq<u8>)
    requires |data| + |random| + 3 == k
    ensures em == EncryptionBlock(random, data)
  {
    em := ZeroBytes(k);
    em := em[1 := 2];
    for i := 0 to |random|
      invariant |em| == k && em[..2 + i] == [0, 2] + random[..i]
    {
      em := em[2 + i := random[i]];
    }
    em := em[2 + |random| := 0];
    em := em[..3 + |random|] + data;
  }

  /** Encrypts with the non-zero random bytes the source draws; `k - 11` must not underflow. */
  method Encrypt(key: PublicKey, data: seq<u8>, random: seq<u8>) returns (r: Option<seq<u8>>)
    requires Val(key.n) > 0 && KeyBytes(key.bits) >= 11
    requires |data| <= KeyBytes(key.bits) - 11 ==> |random| == KeyBytes(key.bits) - |data| - 3
    ensures r == if |data| > KeyBytes(key.bits) - 11 then None
                 else Some(Encrypted(Val(key.n), Val(key.e), KeyBytes(key.bits), random, data))
  {
    var k := KeyBytes(key.bits);
    if |data| > k - 11 {
      return None;
    }
    var em := BuildEncryptionBlock(k, data, random);
    var m := FromBytesBE(em);
    var c := ModPow(m, key.e, key.n);
    var bytes := ToBytesBEPadded(c, k);
    r := Some(bytes);
  }

  /** What decrypt returns. */
  function Decrypted(key: PrivateKey, ciphertext: seq<u8>): Option<seq<u8>>
    requires Val(key.p) > 0 && Val(key.q) > 0
  {
    var k := KeyBytes(key.bits);
    var m := Private(key, BytesValue(ciphertext));
    if |ciphertext| != k || |PaddedBE(m, k)| < 2 then None
    else Unpad(PaddedBE(m, k))
  }

  method Decrypt(key: PrivateKey, ciphertext: seq<u8>) returns (r: Option<seq<u8>>)
    requires Val(key.p) > 0 && Val(key.q) > 0 && KeyBytes(key.bits) >= 2
    ensures r == Decrypted(key, ciphertext)
  {
    var k := KeyBytes(key.bits);
    if |ciphertext| != k {
      return None;
    }
    var c := FromBytesBE(ciphertext);
    var m := CrtPower(key, c);
    var em := ToBytesBEPadded(m, k);
    PaddedAtLeast(Val(m), k);
    if em[0] != 0 || em[1] != 2 {
      return None;
    }
    var sep := 2;
    while sep < |em| && em[sep] != 0
      invariant 2 <= sep <= |em|
      invariant FindZero(em, sep) == FindZero(em, 2)
    {
      sep := sep + 1;
    }
    if sep == |em| || sep < 10 {
      return None;
    }
    r := Some(em[sep + 1..]);
  }

  lemma PaddedAtLeast(v: nat, k: nat)
    ensures |PaddedBE(v, k)| >= k
  {
  }

  /** A number of at least n never unpads: its first byte is not zero. */
  lemma TooLargeToUnpad(v: nat, n: nat)
    requires 0 < n <= v && KeyBytes(BitLen(n)) >= 2
    ensures |PaddedBE(v, KeyBytes(BitLen(n)))| >= 2 && Unpad(PaddedBE(v, KeyBytes(BitLen(n)))) == None
  {
    ModulusRange(n);
    PaddedFull(v, KeyBytes(BitLen(n)));
  }

  /** Data short enough for the key, with as much non-zero padding as encrypt draws. */
  ghost predicate Fits(key: PrivateKey, ps: seq<u8>, data: seq<u8>) {
    NonZero(ps) && |data| + 11 <= KeyBytes(key.bits) && |ps| == KeyBytes(key.bits) - |data| - 3
  }

  /** What the key's private operation makes of a public power. */
  lemma PrivateOfPower(key: PrivateKey, m: nat)
    requires ValidKey(key) && m < Val(key.n)
    ensures 0 <= Pow(m, Val(key.e)) % Val(key.n) < Val(key.n)
    ensures Private(key, Pow(m, Val(key.e)) % Val(key.n)) == if Val(key.p) <= m < Val(key.q) then m + Val(key.n) else m
  {
    PrivateUndoesPublic(m, Val(key.n), Val(key.e), Val(key.d), Val(key.p), Val(key.q), Val(key.qinv));
  }

  lemma KeyModulus(key: PrivateKey)
    requires ValidKey(key)
    ensures Val(key.n) > 0 && KeyBytes(key.bits) > 0 && key.bits == BitLen(Val(key.n))
    ensures ByteWeight(KeyBytes(key.bits) - 1) <= Val(key.n) < ByteWeight(KeyBytes(key.bits))
  {
    OddPrimes(Val(key.n), Val(key.e), Val(key.d), Val(key.p), Val(key.q));
    ModulusRange(Val(key.n));
  }

  /** Decrypting what was encrypted, for every valid key, message and non-zero padding: the message
      comes back, unless the padded block lies from p up to q; then nothing does. */
  lemma DecryptOfEncrypt(key: PrivateKey, ps: seq<u8>, data: seq<u8>)
    requires ValidKey(key) && Fits(key, ps, data)
    ensures Val(key.n) > 0
    ensures Decrypted(key, Encrypted(Val(key.n), Val(key.e), KeyBytes(key.bits), ps, data))
         == if Val(key.p) <= BytesValue(EncryptionBlock(ps, data)) < Val(key.q) then None else Some(data)
  {
    var n, k := Val(key.n), KeyBytes(key.bits);
    KeyModulus(key);
    var em := EncryptionBlock(ps, data);
    var m := BytesValue(em);
    BlockBelowModulus(em, n);
    PrivateOfPower(key, m);
    if Val(key.p) <= m < Val(key.q) {
      TooLargeToUnpad(m + n, n);
    } else {
      BlockComesBack(em);
      UnpadBlock(ps, data);
    }
  }

  lemma BlockComesBack(em: seq<u8>)
    requires |em| > 0
    ensures PaddedBE(BytesValue(em), |em|) == em
  {
    BytesBound(em);
    BytesInjective(PaddedBE(BytesValue(em), |em|), em);
  }

  // The padded block of least value: eight padding bytes 1, and data of zeros only.

  function LeastPadding(): (ps: seq<u8>)
    ensures |ps| == 8 && NonZero(ps)
  {
    [1, 1, 1, 1, 1, 1, 1, 1]
  }

  function LeastBlock(k: nat): (m: nat)
    requires k >= 11
  {
    BytesValue(EncryptionBlock(LeastPadding(), ZeroBytes(k - 11)))
  }

  lemma {:induction false} BytesMonotone(a: seq<u8>, b: seq<u8>)
    requires |a| == |b| && forall i :: 0 <= i < |a| ==> a[i] <= b[i]
    ensures BytesValue(a) <= BytesValue(b)
  {
    if |a| > 0 {
      BytesMonotone(a[..|a| - 1], b[..|b| - 1]);
    }
  }

  lemma LeastBlockIsLeast(ps: seq<u8>, data: seq<u8>)
    requires |ps| >= 8 && NonZero(ps)
    ensures LeastBlock(|ps| + |data| + 3) <= BytesValue(EncryptionBlock(ps, data))
  {
    var k := |ps| + |data| + 3;
    var a, b := EncryptionBlock(LeastPadding(), ZeroBytes(k - 11)), EncryptionBlock(ps, data);
    forall i | 0 <= i < k
      ensures a[i] <= b[i]
    {
      if 2 <= i < 10 {
        assert b[i] == ps[i - 2];
      } else if i >= 10 {
        assert a[i] == 0;
      }
    }
    BytesMonotone(a, b);
  }

  /** The block starts with the bytes 0 and 2. */
  lemma LeastBlockRange(k: nat)
    requires k >= 11
    ensures 2 * ByteWeight(k - 2) <= LeastBlock(k)
  {
    var tail := LeastPadding() + [0] + ZeroBytes(k - 11);
    assert EncryptionBlock(LeastPadding(), ZeroBytes(k - 11)) == [0, 2] + tail;
    BytesConcat([0, 2], tail);
    assert [0, 2][..1] == [0] && [0][..0] == [];
    assert BytesValue([0, 2]) == 2;
  }

  /** p <= LeastBlock(k) whenever LeastBlock(k) < q, for otherwise n = p * q had more than k bytes. */
  lemma SmallerPrimeBelow(n: nat, p: nat, q: nat, k: nat)
    requires k >= 11 && n == p * q && n < ByteWeight(k) && LeastBlock(k) < q
    ensures p <= LeastBlock(k) && p < 0x8000
  {
    LeastBlockRange(k);
    var w := ByteWeight(k - 2);
    assert ByteWeight(k) == 0x1_0000 * w by {
      assert ByteWeight(k) == 256 * ByteWeight(k - 1) && ByteWeight(k - 1) == 256 * w;
    }
    if p >= 0x8000 {
      MulMono(2 * w, q, 0x8000);
      MulMono(0x8000, p, q);
    }
    ByteWeightMono(2, k - 2);
    assert ByteWeight(2) == 0x1_0000;
  }

  /** Decryption undoes encryption for every message and padding exactly when q is at most the least
      padded block. */
  lemma DecryptUndoesEncryptIff(key: PrivateKey)
    requires ValidKey(key) && KeyBytes(key.bits) >= 11
    ensures Val(key.n) > 0
    ensures Val(key.q) <= LeastBlock(KeyBytes(key.bits)) <==>
            forall ps, data :: Fits(key, ps, data) ==>
              Decrypted(key, Encrypted(Val(key.n), Val(key.e), KeyBytes(key.bits), ps, data)) == Some(data)
  {
    var n, e, k := Val(key.n), Val(key.e), KeyBytes(key.bits);
    KeyModulus(key);
    if Val(key.q) <= LeastBlock(k) {
      forall ps, data | Fits(key, ps, data)
        ensures Decrypted(key, Encrypted(n, e, k, ps, data)) == Some(data)
      {
        DecryptOfEncrypt(key, ps, data);
        LeastBlockIsLeast(ps, data);
      }
    } else {
      var ps, data := LeastPadding(), ZeroBytes(k - 11);
      assert Fits(key, ps, data);
      SmallerPrimeBelow(n, Val(key.p), Val(key.q), k);
      DecryptOfEncrypt(key, ps, data);
    }
  }

  /** In either order of the primes: a key whose p has 16 bits or more, or exceeds q, decrypts
      whatever it encrypted. */
  lemma DecryptUndoesEncrypt(key: PrivateKey, ps: seq<u8>, data: seq<u8>)
    requires ValidKey(key) && Fits(key, ps, data)
    requires Val(key.p) >= 0x8000 || Val(key.q) < Val(key.p)
    ensures Val(key.n) > 0
    ensures Decrypted(key, Encrypted(Val(key.n), Val(key.e), KeyBytes(key.bits), ps, data)) == Some(data)
  {
    var n, k := Val(key.n), KeyBytes(key.bits);
    KeyModulus(key);
    DecryptOfEncrypt(key, ps, data);
    if Val(key.p) < Val(key.q) && LeastBlock(k) < Val(key.q) {
      SmallerPrimeBelow(n, Val(key.p), Val(key.q), k);
    }
    LeastBlockIsLeast(ps, data);
  }

  // ----- signatures: 0x00 || 0x01 || 0xff ... || 0x00 || DigestInfo

  const DIGEST_PREFIX: seq<u8> := [
    0x30, 0x31, 0x30, 0x0d, 0x06, 0x09, 0x60, 0x86, 0x48, 0x01,
    0x65, 0x03, 0x04, 0x02, 0x01, 0x05, 0x00, 0x04, 0x20]

  function Ones(n: nat): (s: seq<u8>)
    ensures |s| == n && forall i :: 0 <= i < n ==> s[i] == 0xff
  {
    seq(n, _ => 0xff)
  }

  /** The padded DigestInfo of a 32-byte hash in k bytes. */
  function SignatureBlock(k: nat, hash: seq<u8>): (em: seq<u8>)
    requires |hash| == 32 && k >= 54
    ensures |em| == k
  {
    [0, 1] + Ones(k - 54) + [0] + DIGEST_PREFIX + hash
  }

  function Signature(key: PrivateKey, hash: seq<u8>): seq<u8>
    requires |hash| == 32 && KeyBytes(key.bits) >= 54 && Val(key.p) > 0 && Val(key.q) > 0
  {
    PaddedBE(Private(key, BytesValue(SignatureBlock(KeyBytes(key.bits), hash))), KeyBytes(key.bits))
  }

  method BuildSignatureBlock(k: nat, hash: seq<u8>) returns (em: seq<u8>)
    requires |hash| == 32 && k >= 54
    ensures em == SignatureBlock(k, hash)
  {
    var psLen := k - (|DIGEST_PREFIX| + |hash|) - 3;
    em := ZeroBytes(k);
    em := em[1 := 1];
    for i := 0 to psLen
      invariant |em| == k && em[..2 + i] == [0, 1] + Ones(i)
    {
      assert Ones(i + 1) == Ones(i) + [0xff];
      em := em[2 + i := 0xff];
    }
    em := em[2 + psLen := 0];
    em := em[..3 + psLen] + DIGEST_PREFIX + hash;
  }

  /** `k - t_len - 3` must not underflow, hence 54 bytes. */
  method Sign(key: PrivateKey, hash: seq<u8>) returns (signature: seq<u8>)
    requires |hash| == 32 && KeyBytes(key.bits) >= 54 && Val(key.p) > 0 && Val(key.q) > 0
    ensures signature == Signature(key, hash)
  {
    var k := KeyBytes(key.bits);
    var em := BuildSignatureBlock(k, hash);
    var m := FromBytesBE(em);
    var s := CrtPower(key, m);
    signature := ToBytesBEPadded(s, k);
  }

  /** RFC 8017, section 8.2.2: a signature of k bytes is valid when its public power
      is the padded block of the hash. The source also asks for eight padding bytes. */
  ghost predicate Accepts(n: nat, e: nat, k: nat, hash: seq<u8>, signature: seq<u8>)
    requires n > 0 && |hash| == 32
  {
    && |signature| == k && k >= 62
    && Pow(BytesValue(signature), e) % n == BytesValue(SignatureBlock(k, hash))
  }

  /** The checks of verify on the recovered block. */
  method CheckBlock(em: seq<u8>, hash: seq<u8>) returns (ok: bool)
    requires |hash| == 32 && |em| >= 2
    ensures ok <==> |em| >= 62 && em == SignatureBlock(|em|, hash)
  {
    if em[0] != 0 || em[1] != 1 {
      return false;
    }
    var sep := 2;
    while sep < |em| && em[sep] != 0
      invariant 2 <= sep <= |em|
      invariant forall t :: 2 <= t < sep ==> em[t] == 0xff
    {
      if em[sep] != 0xff {
        BlockShape(em, hash, sep);
        return false;
      }
      sep := sep + 1;
    }
    BlockShape(em, hash, sep);
    if sep == |em| || sep < 10 {
      return false;
    }
    var info := em[sep + 1..];
    ok := |info| == |DIGEST_PREFIX| + 32 && info[..19] == DIGEST_PREFIX && info[19..] == hash;
    InfoSplit(info, hash);
    if ok {
      BlockFromParts(em, hash, sep);
    }
  }

  lemma InfoSplit(info: seq<u8>, hash: seq<u8>)
    requires |hash| == 32
    ensures |info| == |DIGEST_PREFIX| + 32 && info[..19] == DIGEST_PREFIX && info[19..] == hash <==>
            info == DIGEST_PREFIX + hash
  {
    if |info| == |DIGEST_PREFIX| + 32 {
      assert info == info[..19] + info[19..];
    }
  }

  lemma BlockFromParts(em: seq<u8>, hash: seq<u8>, sep: nat)
    requires |hash| == 32 && 10 <= sep < |em| && em[0] == 0 && em[1] == 1 && em[sep] == 0
    requires (forall t :: 2 <= t < sep ==> em[t] == 0xff) && em[sep + 1..] == DIGEST_PREFIX + hash
    ensures |em| >= 62 && em == SignatureBlock(|em|, hash)
  {
    assert |em| == sep + 1 + |em[sep + 1..]|;
    assert em[2..sep] == Ones(sep - 2);
    assert em == [em[0], em[1]] + em[2..sep] + [em[sep]] + em[sep + 1..];
  }

  /** In a signature block everything between the header and the separator is 0xff. */
  lemma BlockShape(em: seq<u8>, hash: seq<u8>, sep: nat)
    requires |hash| == 32 && 2 <= sep <= |em|
    requires forall t :: 2 <= t < sep ==> em[t] == 0xff
    requires sep < |em| ==> em[sep] != 0xff
    ensures |em| >= 54 && em == SignatureBlock(|em|, hash) ==>
              sep == |em| - 52 && em[sep] == 0 && em[sep + 1..] == DIGEST_PREFIX + hash
  {
    if |em| >= 54 && em == SignatureBlock(|em|, hash) {
      var k := |em|;
      assert em[k - 52] == 0;
      assert forall t :: 2 <= t < k - 52 ==> em[t] == Ones(k - 54)[t - 2];
      assert em[k - 51..] == DIGEST_PREFIX + hash;
    }
  }

  /** Accepts exactly the signatures section 8.2.2 describes. */
  method Verify(key: PublicKey, hash: seq<u8>, signature: seq<u8>) returns (ok: bool)
    requires Val(key.n) > 0 && |hash| == 32
    requires key.bits == BitLen(Val(key.n)) && KeyBytes(key.bits) >= 2
    ensures ok <==> Accepts(Val(key.n), Val(key.e), KeyBytes(key.bits), hash, signature)
  {
    var k := KeyBytes(key.bits);
    if |signature| != k {
      return false;
    }
    var s := FromBytesBE(signature);
    var m := ModPow(s, key.e, key.n);
    var em := ToBytesBEPadded(m, k);
    ModulusRange(Val(key.n));
    assert |em| == k;
    ok := CheckBlock(em, hash);
    if k >= 62 && BytesValue(em) == BytesValue(SignatureBlock(k, hash)) {
      BytesInjective(em, SignatureBlock(k, hash));
    }
  }

  /** The private-key power of the signature block, before the Chinese remainder theorem. */
  ghost function SignaturePower(key: PrivateKey, hash: seq<u8>): int
    requires |hash| == 32 && KeyBytes(key.bits) >= 54 && Val(key.n) > 0
  {
    Pow(BytesValue(SignatureBlock(KeyBytes(key.bits), hash)), Val(key.d)) % Val(key.n)
  }

  lemma PrivateOfNumber(key: PrivateKey, m: nat)
    requires ValidKey(key) && m < Val(key.n)
    ensures 0 <= Pow(m, Val(key.d)) % Val(key.n) < Val(key.n)
    ensures var s := Pow(m, Val(key.d)) % Val(key.n);
            Private(key, m) == if Val(key.p) <= s < Val(key.q) then s + Val(key.n) else s
    ensures Pow(Private(key, m), Val(key.e)) % Val(key.n) == m
  {
    PrivateExact(m, Val(key.n), Val(key.e), Val(key.d), Val(key.p), Val(key.q), Val(key.qinv));
    PublicUndoesPrivate(m, Val(key.n), Val(key.e), Val(key.d), Val(key.p), Val(key.q), Val(key.qinv));
  }

  /** Verify accepts what sign produced exactly when the key has at least 62 bytes (sign works from
      54 on) and m^d mod n is not one of the values from p up to q to which adding n takes a byte
      more than k. There is none with q < p, nor with n + q within k bytes. */
  lemma VerifyOfSign(key: PrivateKey, hash: seq<u8>)
    requires ValidKey(key) && |hash| == 32 && KeyBytes(key.bits) >= 54
    ensures Val(key.n) > 0
    ensures Accepts(Val(key.n), Val(key.e), KeyBytes(key.bits), hash, Signature(key, hash)) <==>
            KeyBytes(key.bits) >= 62 && !Spills(key, SignaturePower(key, hash))
    ensures Val(key.q) < Val(key.p) || Val(key.n) + Val(key.q) <= ByteWeight(KeyBytes(key.bits)) ==>
              !Spills(key, SignaturePower(key, hash))
  {
    KeyModulus(key);
    var em := SignatureBlock(KeyBytes(key.bits), hash);
    BlockBelowModulus(em, Val(key.n));
    PrivateOfNumber(key, BytesValue(em));
  }

  /** The recombination returns s + n for s, and that does not fit in the bytes of the modulus. */
  predicate Spills(key: PrivateKey, s: int) {
    Val(key.p) <= s < Val(key.q) && s + Val(key.n) >= ByteWeight(KeyBytes(key.bits))
  }

  // ----- what the digest prefix encodes

  /** A DER value of fewer than 128 bytes (section 8.1 of X.690). */
  function Der(tag: u8, content: seq<u8>): seq<u8>
    requires |content| < 128
  {
    [tag, |content|] + content
  }

  /** A number in groups of seven bits, all but the last marked (section 8.19 of X.690). */
  function Base128(n: nat): seq<u8> {
    if n < 128 then [n] else Marked(n / 128) + [n % 128]
  }

  function Marked(n: nat): seq<u8> {
    if n < 128 then [128 + n] else Marked(n / 128) + [128 + n % 128]
  }

  function ObjectId(first: nat, second: nat, arcs: seq<nat>): seq<u8> {
    Base128(40 * first + second) + Arcs(arcs)
  }

  function Arcs(arcs: seq<nat>): seq<u8> {
    if |arcs| == 0 then [] else Arcs(arcs[..|arcs| - 1]) + Base128(arcs[|arcs| - 1])
  }

  lemma ArcsPush(arcs: seq<nat>, n: nat)
    ensures Arcs(arcs + [n]) == Arcs(arcs) + Base128(n)
  {
    assert (arcs + [n])[..|arcs|] == arcs;
  }

  lemma LastOut(a: seq<nat>, b: seq<nat>)
    requires |b| > 0
    ensures a + b == a + b[..|b| - 1] + [b[|b| - 1]]
  {
  }

  /** Arcs below 128 take a byte each. */
  lemma {:induction false} SmallArcs(first: nat, rest: seq<u8>)
    requires forall i :: 0 <= i < |rest| ==> rest[i] < 128
    ensures Arcs([first] + rest) == Base128(first) + rest
  {
    if |rest| == 0 {
      ArcsPush([], first);
      assert [] + [first] == [first] + rest;
    } else {
      var front, last := rest[..|rest| - 1], rest[|rest| - 1];
      SmallArcs(first, front);
      ArcsPush([first] + front, last);
      LastOut([first], rest);
      LastOut(Base128(first), rest);
    }
  }

  /** id-sha256, 2.16.840.1.101.3.4.2.1. */
  lemma Sha256Id()
    ensures ObjectId(2, 16, [840, 1, 101, 3, 4, 2, 1]) == [0x60, 0x86, 0x48, 0x01, 0x65, 0x03, 0x04, 0x02, 0x01]
  {
    SmallArcs(840, [1, 101, 3, 4, 2, 1]);
    assert [840] + [1, 101, 3, 4, 2, 1] == [840, 1, 101, 3, 4, 2, 1];
    assert Base128(840) == [0x86, 0x48] && Base128(96) == [0x60];
  }

  /** Prefix and digest are the DER encoding of a DigestInfo for SHA-256: the algorithm identifier with its
      null parameters, and the digest as an octet string (section 9.2 of RFC 8017). */
  lemma PrefixIsDigestInfo(hash: seq<u8>)
    requires |hash| == 32
    ensures var id := ObjectId(2, 16, [840, 1, 101, 3, 4, 2, 1]);
            && |id| == 9
            && DIGEST_PREFIX + hash == Der(0x30, Der(0x30, Der(0x06, id) + Der(0x05, [])) + Der(0x04, hash))
  {
    Sha256Id();
  }
}
