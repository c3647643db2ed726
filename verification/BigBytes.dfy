/** Big-endian byte conversions of crypto/rsa.rs big integers. */
module BigBytes {
  import opened NumberTheory
  import opened Bits
  import opened Limbs
  import opened BigUints
  import opened BigShift

  // ----- from bytes

  /** The start of the group of at most eight bytes that ends before i. */
  function GroupStart(i: nat, width: nat): nat {
    if i >= width then i - width else 0
  }

  lemma BytesFront(x: u8, b: seq<u8>)
    ensures BytesValue([x] + b) == x * ByteWeight(|b|) + BytesValue(b)
  {
    BytesConcat([x], b);
    assert [x][..0] == [];
    assert BytesValue([x]) == x;
  }

  lemma PackStep(limb: u64, x: u8, j: nat)
    requires j < 8 && limb < ByteWeight(j)
    ensures x * Pow(2, j * 8) >= 0 && Or(limb, x * Pow(2, j * 8)) == limb + x * ByteWeight(j)
    ensures limb + x * ByteWeight(j) < ByteWeight(j + 1) <= U64
  {
    ByteWeightPow2(j);
    OrDisjoint(x, 8 * j, limb);
    MulMono(x, 255, ByteWeight(j));
    ByteWeightMono(j + 1, 8);
    ByteWeightLimb();
  }

  /** `limb | (byte << (8 * j))` puts one more byte in front of the group. */
  function PackByte(limb: u64, x: u8, j: nat): (r: u64)
    requires j < 8 && limb < ByteWeight(j)
    ensures r == limb + x * ByteWeight(j) < ByteWeight(j + 1)
  {
    PackStep(limb, x, j);
    Or(limb, x * Pow(2, j * 8))
  }

  lemma GroupGrows(bytes: seq<u8>, k: nat, i: nat)
    requires k < i <= |bytes|
    ensures BytesValue(bytes[k..i]) == bytes[k] * ByteWeight(i - k - 1) + BytesValue(bytes[k + 1..i])
  {
    BytesFront(bytes[k], bytes[k + 1..i]);
    assert bytes[k..i] == [bytes[k]] + bytes[k + 1..i];
  }

  /** The limb made of the last eight bytes before i. */
  method PackLimb(bytes: seq<u8>, i: nat) returns (limb: u64)
    requires i <= |bytes|
    ensures limb == BytesValue(bytes[GroupStart(i, 8)..i])
  {
    limb := 0;
    for j := 0 to 8
      invariant limb == BytesValue(bytes[GroupStart(i, j)..i]) && limb < ByteWeight(j)
    {
      if i > j {
        GroupGrows(bytes, i - 1 - j, i);
        limb := PackByte(limb, bytes[i - 1 - j], j);
      }
    }
  }

  lemma GroupBound(bytes: seq<u8>, i: nat)
    requires i <= |bytes|
    ensures BytesValue(bytes[GroupStart(i, 8)..i]) < U64
  {
    var group := bytes[GroupStart(i, 8)..i];
    BytesBound(group);
    ByteWeightMono(|group|, 8);
    ByteWeightLimb();
  }

  /** The limb made of the last eight bytes. */
  function LastLimb(bytes: seq<u8>): u64 {
    GroupBound(bytes, |bytes|);
    BytesValue(bytes[GroupStart(|bytes|, 8)..|bytes|])
  }

  function LimbsOf(bytes: seq<u8>): seq<u64>
    decreases |bytes|
  {
    if |bytes| == 0 then []
    else [LastLimb(bytes)] + LimbsOf(bytes[..GroupStart(|bytes|, 8)])
  }

  lemma BytesConcatLimb(high: seq<u8>, low: seq<u8>)
    requires |low| == 8
    ensures BytesValue(high + low) == BytesValue(low) + U64 * BytesValue(high)
  {
    BytesConcat(high, low);
    ByteWeightLimb();
  }

  lemma {:induction false} LimbsOfValue(bytes: seq<u8>)
    ensures Value(LimbsOf(bytes)) == BytesValue(bytes)
    decreases |bytes|
  {
    var n := |bytes|;
    if 0 < n < 8 {
      assert bytes[0..n] == bytes;
      ValueCons(LastLimb(bytes), []);
    } else if n >= 8 {
      var high, low := bytes[..n - 8], bytes[n - 8..n];
      LimbsOfValue(high);
      calc {
        Value(LimbsOf(bytes));
        { ValueCons(LastLimb(bytes), LimbsOf(high)); }
        LastLimb(bytes) + U64 * Value(LimbsOf(high));
        BytesValue(low) + U64 * BytesValue(high);
        { BytesConcatLimb(high, low); }
        BytesValue(high + low);
        { assert high + low == bytes; }
        BytesValue(bytes);
      }
    }
  }

  method PackLimbs(bytes: seq<u8>) returns (limbs: seq<u64>)
    ensures limbs == LimbsOf(bytes)
  {
    limbs := [];
    var i := |bytes|;
    assert bytes[..i] == bytes;
    while i > 0
      invariant 0 <= i <= |bytes|
      invariant limbs + LimbsOf(bytes[..i]) == LimbsOf(bytes)
    {
      var limb := PackLimb(bytes, i);
      var start := GroupStart(i, 8);
      assert bytes[..i][start..i] == bytes[start..i] && bytes[..i][..start] == bytes[..start];
      limbs := limbs + [limb];
      i := start;
    }
  }

  lemma SkipZeros(bytes: seq<u8>, start: nat)
    requires start <= |bytes| && forall j :: 0 <= j < start ==> bytes[j] == 0
    ensures BytesValue(bytes[start..]) == BytesValue(bytes)
  {
    assert bytes == bytes[..start] + bytes[start..];
    BytesConcat(bytes[..start], bytes[start..]);
    BytesAllZero(bytes[..start]);
  }

  method FromBytesBE(bytes: seq<u8>) returns (r: Big)
    ensures Val(r) == BytesValue(bytes)
  {
    SmallValues();
    if |bytes| == 0 {
      return ZERO;
    }
    var start := 0;
    while start < |bytes| - 1 && bytes[start] == 0
      invariant start < |bytes| && forall j :: 0 <= j < start ==> bytes[j] == 0
    {
      start := start + 1;
    }
    SkipZeros(bytes, start);
    var limbs := PackLimbs(bytes[start..]);
    LimbsOfValue(bytes[start..]);
    r := Normalize(limbs);
  }

  // ----- to bytes

  /** The low n bytes of x, most significant first. */
  function BytesOf(x: nat, n: nat): (b: seq<u8>)
    ensures |b| == n
  {
    if n == 0 then [] else BytesOf(x / 256, n - 1) + [x % 256]
  }

  lemma {:induction false} BytesOfValue(x: nat, n: nat)
    requires x < ByteWeight(n)
    ensures BytesValue(BytesOf(x, n)) == x
  {
    if n > 0 {
      BytesOfValue(x / 256, n - 1);
      BytesPush(BytesOf(x / 256, n - 1), x % 256);
    }
  }

  /** `(limb >> (8 * i)) as u8`. */
  function ByteAt(limb: u64, i: nat): u8 {
    PowPositive(2, 8 * i);
    (limb / Pow(2, 8 * i)) % 256
  }

  /** The bytes of a limb above position i. */
  ghost function BytesAbove(limb: u64, i: nat): seq<u8>
    requires i <= 8
  {
    PowPositive(2, 8 * i);
    BytesOf(limb / Pow(2, 8 * i), 8 - i)
  }

  lemma UnpackStep(limb: u64, i: nat)
    requires i < 8
    ensures BytesAbove(limb, i) == BytesAbove(limb, i + 1) + [ByteAt(limb, i)]
  {
    DivDiv(limb, 8 * i, 8);
    Pow2Words();
  }

  method UnpackLimb(limb: u64) returns (bytes: seq<u8>)
    ensures bytes == BytesOf(limb, 8)
  {
    bytes := [];
    var i := 8;
    while i > 0
      invariant 0 <= i <= 8
      invariant bytes == BytesAbove(limb, i)
    {
      i := i - 1;
      UnpackStep(limb, i);
      bytes := bytes + [ByteAt(limb, i)];
    }
    assert limb / Pow(2, 0) == limb;
  }

  function BytesOfLimbs(limbs: seq<u64>): (b: seq<u8>)
    ensures |b| == 8 * |limbs|
  {
    if |limbs| == 0 then [] else BytesOfLimbs(limbs[1..]) + BytesOf(limbs[0], 8)
  }

  lemma {:induction false} BytesOfLimbsValue(limbs: seq<u64>)
    ensures BytesValue(BytesOfLimbs(limbs)) == Value(limbs)
  {
    if |limbs| > 0 {
      BytesOfLimbsValue(limbs[1..]);
      ByteWeightLimb();
      BytesOfValue(limbs[0], 8);
      BytesConcatLimb(BytesOfLimbs(limbs[1..]), BytesOf(limbs[0], 8));
    }
  }

  /** The shortest big-endian form; a single zero byte for zero. */
  ghost predicate Minimal(bytes: seq<u8>) {
    |bytes| > 0 && (|bytes| > 1 ==> bytes[0] != 0)
  }

  /** A value below 256^n has a minimal form of at most n bytes. */
  lemma MinimalLength(bytes: seq<u8>, n: nat)
    requires Minimal(bytes) && n > 0 && BytesValue(bytes) < ByteWeight(n)
    ensures |bytes| <= n
  {
    if |bytes| > n {
      BytesTop(bytes);
      ByteWeightMono(n, |bytes| - 1);
    }
  }

  /** Minimal byte strings are determined by their value. */
  lemma {:induction false} MinimalUnique(a: seq<u8>, b: seq<u8>)
    requires Minimal(a) && Minimal(b) && BytesValue(a) == BytesValue(b)
    ensures a == b
  {
    BytesBound(a);
    BytesBound(b);
    MinimalLength(a, |b|);
    MinimalLength(b, |a|);
    BytesInjective(a, b);
  }

  /** The base-256 digits of v. */
  function MinimalBE(v: nat): (b: seq<u8>)
    ensures Minimal(b) && BytesValue(b) == v
  {
    if v < 256 then
      assert [v][..0] == [];
      [v]
    else
      BytesPush(MinimalBE(v / 256), v % 256);
      BytesNonZero(MinimalBE(v / 256));
      MinimalBE(v / 256) + [v % 256]
  }

  lemma BytesNonZero(b: seq<u8>)
    requires Minimal(b) && BytesValue(b) > 0
    ensures b[0] != 0
  {
    if |b| == 1 {
      assert b[..0] == [];
    }
  }

  /** v in big-endian form, filled with zero bytes to at least len bytes. */
  function PaddedBE(v: nat, len: nat): (b: seq<u8>)
    ensures BytesValue(b) == v
    ensures len > 0 && v < ByteWeight(len) ==> |b| == len
    ensures v >= ByteWeight(len) ==> |b| > len
  {
    var m := MinimalBE(v);
    if |m| >= len then
      PaddedLength(m, len);
      m
    else
      var zeros := ZeroBytes(len - |m|);
      BytesConcat(zeros, m);
      BytesAllZero(zeros);
      BytesBound(zeros + m);
      zeros + m
  }

  /** A value that needs all len bytes is not padded at all. */
  lemma PaddedFull(v: nat, len: nat)
    requires len >= 2 && v >= ByteWeight(len - 1)
    ensures |PaddedBE(v, len)| >= len && PaddedBE(v, len)[0] != 0
  {
    var m := MinimalBE(v);
    BytesBound(m);
    if |m| < len {
      ByteWeightMono(|m|, len - 1);
    }
  }

  lemma PaddedLength(m: seq<u8>, len: nat)
    requires Minimal(m) && |m| >= len
    ensures len > 0 && BytesValue(m) < ByteWeight(len) ==> |m| == len
    ensures BytesValue(m) >= ByteWeight(len) ==> |m| > len
  {
    BytesBound(m);
    if len > 0 && BytesValue(m) < ByteWeight(len) {
      MinimalLength(m, len);
    }
  }

  method ToBytesBE(b: Big) returns (bytes: seq<u8>)
    ensures bytes == MinimalBE(Val(b))
  {
    bytes := [];
    var i := |b.limbs|;
    assert b.limbs[i..] == [];
    while i > 0
      invariant 0 <= i <= |b.limbs|
      invariant bytes == BytesOfLimbs(b.limbs[i..])
    {
      i := i - 1;
      var chunk := UnpackLimb(b.limbs[i]);
      assert b.limbs[i..][1..] == b.limbs[i + 1..];
      bytes := bytes + chunk;
    }
    assert b.limbs[0..] == b.limbs;
    BytesOfLimbsValue(b.limbs);
    while |bytes| > 1 && bytes[0] == 0
      invariant |bytes| > 0 && BytesValue(bytes) == Val(b)
    {
      BytesLeadingZero(bytes);
      bytes := bytes[1..];
    }
    MinimalUnique(bytes, MinimalBE(Val(b)));
  }

  method ToBytesBEPadded(b: Big, len: nat) returns (bytes: seq<u8>)
    ensures bytes == PaddedBE(Val(b), len)
  {
    bytes := ToBytesBE(b);
    bytes := PadLeft(bytes, len);
    PaddedForm(Val(b), len);
  }

  /** The loop that inserts a zero at the front while the bytes are too short. */
  method PadLeft(m: seq<u8>, len: nat) returns (bytes: seq<u8>)
    ensures bytes == ZeroBytes(if |m| >= len then 0 else len - |m|) + m
  {
    bytes := m;
    ghost var zeros := 0;
    while |bytes| < len
      invariant bytes == ZeroBytes(zeros) + m && (zeros == 0 || |m| + zeros <= len)
      decreases len - |bytes|
    {
      PushZero(zeros, m);
      bytes := [0] + bytes;
      zeros := zeros + 1;
    }
  }

  lemma PushZero(zeros: nat, m: seq<u8>)
    ensures [0] + (ZeroBytes(zeros) + m) == ZeroBytes(zeros + 1) + m
  {
    assert [0] + ZeroBytes(zeros) == ZeroBytes(zeros + 1);
  }

  lemma PaddedForm(v: nat, len: nat)
    ensures var m := MinimalBE(v); PaddedBE(v, len) == ZeroBytes(if |m| >= len then 0 else len - |m|) + m
  {
    assert ZeroBytes(0) + MinimalBE(v) == MinimalBE(v);
  }

  // ----- both conversions are injective, hence inverse to each other

  lemma {:induction false} LimbsInjective(s: seq<u64>, t: seq<u64>)
    requires |s| == |t| && Value(s) == Value(t)
    ensures s == t
  {
    if |s| > 0 {
      assert s[0] == t[0] by {
        LowHigh(Value(s));
        DivModUnique(Value(s), Value(s[1..]), s[0], U64);
        DivModUnique(Value(t), Value(t[1..]), t[0], U64);
      }
      LimbsInjective(s[1..], t[1..]);
      assert s == [s[0]] + s[1..] && t == [t[0]] + t[1..];
    }
  }

  /** Normalized big integers are determined by their value. */
  lemma NormalUnique(a: Big, b: Big)
    requires Val(a) == Val(b)
    ensures a == b
  {
    if |a.limbs| < |b.limbs| {
      ShorterLess(a.limbs, b.limbs);
    } else if |b.limbs| < |a.limbs| {
      ShorterLess(b.limbs, a.limbs);
    } else {
      LimbsInjective(a.limbs, b.limbs);
    }
  }

  /** Converting to bytes and back is the identity. */
  method LimbsRoundTrip(b: Big) returns (bytes: seq<u8>, r: Big)
    ensures r == b
  {
    bytes := ToBytesBE(b);
    r := FromBytesBE(bytes);
    NormalUnique(r, b);
  }

  /** Converting from bytes and back drops leading zeros and nothing else. */
  method BytesRoundTrip(bytes: seq<u8>) returns (b: Big, r: seq<u8>)
    ensures Minimal(r) && BytesValue(r) == BytesValue(bytes)
    ensures Minimal(bytes) ==> r == bytes
  {
    b := FromBytesBE(bytes);
    r := ToBytesBE(b);
    if Minimal(bytes) {
      MinimalUnique(r, bytes);
    }
  }
}
