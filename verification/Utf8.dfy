/** The UTF-8 codec of unicode.rs (section 3 of RFC 3629). */
module Utf8 {
  import opened NumberTheory
  import opened Bits

  /** A Rust char: a code point that is no surrogate. */
  predicate Scalar(cp: int) {
    0 <= cp < 0x11_0000 && !(0xd800 <= cp <= 0xdfff)
  }

  const REPLACEMENT: int := 0xfffd

  // ----- bit tests on bytes

  const E0: nat := 0xe0
  const F0: nat := 0xf0
  const F8: nat := 0xf8
  const C0: nat := 0xc0

  /** Masking off the low k bits of a number of k + j bits. */
  lemma AndHigh(lo: nat, hi: nat, k: nat, j: nat)
    requires lo < Pow(2, k) && hi < Pow(2, j)
    ensures hi * Pow(2, k) >= 0 && (Pow(2, j) - 1) * Pow(2, k) >= 0
    ensures And(lo + hi * Pow(2, k), (Pow(2, j) - 1) * Pow(2, k)) == hi * Pow(2, k)
  {
    PowPositive(2, j);
    AndSplit(lo, hi, 0, Pow(2, j) - 1, k);
    AndZero(lo);
    AndMask(hi, j);
    ModSmall(hi, Pow(2, j));
  }

  lemma SmallPowers()
    ensures Pow(2, 1) == 2 && Pow(2, 2) == 4 && Pow(2, 3) == 8 && Pow(2, 4) == 16 && Pow(2, 5) == 32 && Pow(2, 6) == 64
    ensures Pow(2, 8) == 256 && Pow(2, 12) == 4096 && Pow(2, 18) == 262144
  {
    assert Pow(2, 6) == 64 && Pow(2, 8) == 256;
    PowAdd(2, 6, 6);
    PowAdd(2, 12, 6);
  }

  /** A mask of the j high bits of a byte tells which multiple of w = 2^k it lies above. */
  lemma MaskHigh(b: nat, mask: nat, w: nat, k: nat, j: nat, v: nat)
    requires w == Pow(2, k) && b < Pow(2, k + j) && mask == (Pow(2, j) - 1) * w
    ensures And(b, mask) == v * w <==> v * w <= b < v * w + w
  {
    PowPositive(2, k);
    PowAdd(2, k, j);
    DivBelow(b, w, Pow(2, j));
    DivModSum(b, w);
    AndHigh(b % w, b / w, k, j);
    RoundsTo(b, w, v);
  }

  lemma RoundsTo(b: nat, w: nat, v: nat)
    requires w > 0
    ensures (b / w) * w == v * w <==> v * w <= b < v * w + w
  {
    DivModSum(b, w);
    if v * w <= b < v * w + w {
      DivModUnique(b, v, b - v * w, w);
    }
  }

  lemma DivBelow(b: nat, w: nat, top: nat)
    requires w > 0 && b < w * top
    ensures b / w < top
  {
    if b / w >= top {
      MulMono(w, top, b / w);
      DivModSum(b, w);
    }
  }

  lemma MaskC0(b: u8)
    ensures And(b, C0) == 0x80 <==> 0x80 <= b < 0xc0
  {
    SmallPowers();
    MaskHigh(b, C0, 64, 6, 2, 2);
  }

  lemma MaskE0(b: u8)
    ensures And(b, E0) == 0xc0 <==> 0xc0 <= b < 0xe0
  {
    SmallPowers();
    MaskHigh(b, E0, 32, 5, 3, 6);
  }

  lemma MaskF0(b: u8)
    ensures And(b, F0) == 0xe0 <==> 0xe0 <= b < 0xf0
  {
    SmallPowers();
    MaskHigh(b, F0, 16, 4, 4, 14);
  }

  lemma MaskF8(b: u8)
    ensures And(b, F8) == 0xf0 <==> 0xf0 <= b < 0xf8
  {
    SmallPowers();
    MaskHigh(b, F8, 8, 3, 5, 30);
  }

  /** `(b & mask) == mark`, for each of the four byte classes the decoder tells apart. */
  method IsLead2(b: u8) returns (r: bool)
    ensures r <==> 0xc0 <= b < 0xe0
  {
    MaskE0(b);
    r := And(b, E0) == 0xc0;
  }

  method IsLead3(b: u8) returns (r: bool)
    ensures r <==> 0xe0 <= b < 0xf0
  {
    MaskF0(b);
    r := And(b, F0) == 0xe0;
  }

  method IsLead4(b: u8) returns (r: bool)
    ensures r <==> 0xf0 <= b < 0xf8
  {
    MaskF8(b);
    r := And(b, F8) == 0xf0;
  }

  method IsTrail(b: u8) returns (r: bool)
    ensures r <==> 0x80 <= b < 0xc0
  {
    MaskC0(b);
    r := And(b, C0) == 0x80;
  }

  /** `x & (2^k - 1)`. */
  method LowBits(x: nat, k: nat) returns (r: nat)
    ensures Pow(2, k) > 0 && r == x % Pow(2, k)
  {
    AndMask(x, k);
    r := And(x, Pow(2, k) - 1);
  }

  /** `(x << k) | y`. */
  method ShiftOr(x: nat, k: nat, y: nat) returns (r: nat)
    requires y < Pow(2, k)
    ensures r == x * Pow(2, k) + y
  {
    OrDisjoint(x, k, y);
    r := Or(x * Pow(2, k), y);
  }

  // ----- the two maps of the standard

  function Byte(bytes: seq<u8>, i: nat): int
    requires i < |bytes|
  {
    bytes[i]
  }

  /** The bytes after the first, up to n, are continuation bytes. */
  predicate Trailing(bytes: seq<u8>, n: nat) {
    |bytes| >= n && forall i :: 1 <= i < n ==> 0x80 <= bytes[i] < 0xc0
  }

  /** The number a lead byte and its continuation bytes stand for. */
  function Joined(bytes: seq<u8>, n: nat): int
    requires 2 <= n <= 4 && |bytes| >= n
  {
    if n == 2 then (Byte(bytes, 0) - 0xc0) * 64 + (Byte(bytes, 1) - 0x80)
    else if n == 3 then (Byte(bytes, 0) - 0xe0) * 4096 + (Byte(bytes, 1) - 0x80) * 64 + (Byte(bytes, 2) - 0x80)
    else (Byte(bytes, 0) - 0xf0) * 262144 + (Byte(bytes, 1) - 0x80) * 4096 + (Byte(bytes, 2) - 0x80) * 64 + (Byte(bytes, 3) - 0x80)
  }

  /** How many bytes the lead byte announces; 1 for a byte that is no lead byte. */
  function LeadLength(b: u8): nat {
    if 0xc0 <= b < 0xe0 then 2 else if 0xe0 <= b < 0xf0 then 3 else if 0xf0 <= b < 0xf8 then 4 else 1
  }

  /** The smallest scalar that needs n bytes. */
  function Smallest(n: nat): nat {
    if n == 2 then 0x80 else if n == 3 then 0x800 else if n == 4 then 0x1_0000 else 0
  }

  /** The bytes start with the shortest form of a scalar; everything else is an error. */
  predicate WellFormed(bytes: seq<u8>) {
    && |bytes| > 0
    && (bytes[0] < 0x80
        || var n := LeadLength(bytes[0]);
           n > 1 && Trailing(bytes, n) && Joined(bytes, n) >= Smallest(n) && Scalar(Joined(bytes, n)))
  }

  /** The scalar at the start of the bytes and the bytes it takes, or the replacement character. */
  function Decode(bytes: seq<u8>): (int, nat) {
    if |bytes| == 0 then (REPLACEMENT, 0)
    else
      var n := LeadLength(bytes[0]);
      if bytes[0] < 0x80 then (Byte(bytes, 0), 1)
      else if n == 1 || !Trailing(bytes, n) then (REPLACEMENT, 1)
      else
        var cp := Joined(bytes, n);
        if cp >= Smallest(n) && Scalar(cp) then (cp, n) else (REPLACEMENT, n)
  }

  function Encode(c: int): (r: seq<u8>)
    requires Scalar(c)
    ensures 1 <= |r| <= 4
  {
    if c < 0x80 then [c]
    else if c < 0x800 then [0xc0 + c / 64, 0x80 + c % 64]
    else if c < 0x1_0000 then [0xe0 + c / 4096, 0x80 + c / 64 % 64, 0x80 + c % 64]
    else [0xf0 + c / 262144, 0x80 + c / 4096 % 64, 0x80 + c / 64 % 64, 0x80 + c % 64]
  }

  // ----- the code

  method Trails(bytes: seq<u8>, n: nat) returns (r: bool)
    requires 2 <= n <= 4
    ensures r <==> Trailing(bytes, n)
  {
    if |bytes| < n {
      return false;
    }
    r := true;
    var i := 1;
    while i < n
      invariant 1 <= i <= n && (r <==> forall j :: 1 <= j < i ==> 0x80 <= bytes[j] < 0xc0)
    {
      var t := IsTrail(bytes[i]);
      r := r && t;
      i := i + 1;
    }
  }

  method DecodeTwo(bytes: seq<u8>) returns (c: int, n: nat)
    requires |bytes| > 0 && 0xc0 <= bytes[0] < 0xe0
    ensures (c, n) == Decode(bytes)
  {
    var t := Trails(bytes, 2);
    if !t {
      return REPLACEMENT, 1;
    }
    SmallPowers();
    var x := LowBits(bytes[0], 5);
    var y := LowBits(bytes[1], 6);
    var cp := ShiftOr(x, 6, y);
    assert cp == Joined(bytes, 2);
    if cp < 0x80 {
      return REPLACEMENT, 2;
    }
    return cp, 2;
  }

  method DecodeThree(bytes: seq<u8>) returns (c: int, n: nat)
    requires |bytes| > 0 && 0xe0 <= bytes[0] < 0xf0
    ensures (c, n) == Decode(bytes)
  {
    var t := Trails(bytes, 3);
    if !t {
      return REPLACEMENT, 1;
    }
    SmallPowers();
    var x := LowBits(bytes[0], 4);
    var y := LowBits(bytes[1], 6);
    var z := LowBits(bytes[2], 6);
    var yz := ShiftOr(y, 6, z);
    var cp := ShiftOr(x, 12, yz);
    assert cp == Joined(bytes, 3);
    if cp < 0x800 || 0xd800 <= cp <= 0xdfff {
      return REPLACEMENT, 3;
    }
    return cp, 3;
  }

  method DecodeFour(bytes: seq<u8>) returns (c: int, n: nat)
    requires |bytes| > 0 && 0xf0 <= bytes[0] < 0xf8
    ensures (c, n) == Decode(bytes)
  {
    var t := Trails(bytes, 4);
    if !t {
      return REPLACEMENT, 1;
    }
    SmallPowers();
    var w := LowBits(bytes[0], 3);
    var x := LowBits(bytes[1], 6);
    var y := LowBits(bytes[2], 6);
    var z := LowBits(bytes[3], 6);
    var yz := ShiftOr(y, 6, z);
    var xyz := ShiftOr(x, 12, yz);
    var cp := ShiftOr(w, 18, xyz);
    assert cp == Joined(bytes, 4);
    if cp < 0x1_0000 || cp > 0x10_ffff {
      return REPLACEMENT, 4;
    }
    return cp, 4;
  }

  method DecodeUtf8(bytes: seq<u8>) returns (c: int, n: nat)
    ensures (c, n) == Decode(bytes)
  {
    if |bytes| == 0 {
      return REPLACEMENT, 0;
    }
    var b0 := bytes[0];
    if b0 < 0x80 {
      return b0, 1;
    }
    var lead := IsLead2(b0);
    if lead {
      c, n := DecodeTwo(bytes);
      return;
    }
    lead := IsLead3(b0);
    if lead {
      c, n := DecodeThree(bytes);
      return;
    }
    lead := IsLead4(b0);
    if lead {
      c, n := DecodeFour(bytes);
      return;
    }
    return REPLACEMENT, 1;
  }

  /** utf8_char_len. */
  method CharLen(first: u8) returns (n: nat)
    ensures n == LeadLength(first)
  {
    if first < 0x80 {
      return 1;
    }
    var lead := IsLead2(first);
    if lead {
      return 2;
    }
    lead := IsLead3(first);
    if lead {
      return 3;
    }
    lead := IsLead4(first);
    return if lead then 4 else 1;
  }

  /** `mark | x` for a mark q * 2^k. */
  method Marked(q: nat, k: nat, x: nat) returns (b: u8)
    requires x < Pow(2, k) && (q + 1) * Pow(2, k) <= 256
    ensures b == q * Pow(2, k) + x
  {
    MulDist(Pow(2, k), q, 1);
    OrDisjoint(q, k, x);
    b := Or(q * Pow(2, k), x);
  }

  /** `0x80 | (x & 0x3f)`. */
  method TrailByte(x: nat) returns (b: u8)
    ensures b == 0x80 + x % 64
  {
    SmallPowers();
    var low := LowBits(x, 6);
    b := Marked(2, 6, low);
  }

  /** encode_utf8: writes the encoding if the buffer can hold it and otherwise nothing. */
  method EncodeInto(c: int, buf: array<u8>) returns (n: nat)
    requires Scalar(c)
    modifies buf
    ensures n == if buf.Length < |Encode(c)| then 0 else |Encode(c)|
    ensures buf[..n] == Encode(c)[..n] && buf[n..] == old(buf[n..])
  {
    SmallPowers();
    if c < 0x80 {
      if buf.Length == 0 {
        return 0;
      }
      buf[0] := c;
      return 1;
    }
    var t0 := TrailByte(c);
    if c < 0x800 {
      if buf.Length < 2 {
        return 0;
      }
      var lead := Marked(6, 5, c / 64);
      buf[0], buf[1] := lead, t0;
      return 2;
    }
    var t1 := TrailByte(c / 64);
    if c < 0x1_0000 {
      if buf.Length < 3 {
        return 0;
      }
      var lead := Marked(14, 4, c / 4096);
      buf[0], buf[1], buf[2] := lead, t1, t0;
      return 3;
    }
    if buf.Length < 4 {
      return 0;
    }
    var t2 := TrailByte(c / 4096);
    var lead := Marked(30, 3, c / 262144);
    buf[0], buf[1], buf[2], buf[3] := lead, t2, t1, t0;
    return 4;
  }

  // ----- the two directions

  /** Base-64 digits: they determine the number and the number determines them. */
  lemma Digits2(c: nat, x: int, y: int)
    requires 0 <= y < 64 && 0 <= x
    ensures c == x * 64 + y <==> c / 64 == x && c % 64 == y
  {
  }

  lemma Digits3(c: nat, x: int, y: int, z: int)
    requires 0 <= y < 64 && 0 <= z < 64 && 0 <= x
    ensures c == x * 4096 + y * 64 + z <==> c / 4096 == x && c / 64 % 64 == y && c % 64 == z
  {
    Digits2(c, c / 64, c % 64);
    Digits2(c / 64, x, y);
    Digits2(c, x * 64 + y, z);
    assert c / 4096 == c / 64 / 64;
  }

  lemma Digits4(c: nat, w: int, x: int, y: int, z: int)
    requires 0 <= x < 64 && 0 <= y < 64 && 0 <= z < 64 && 0 <= w
    ensures c == w * 262144 + x * 4096 + y * 64 + z
            <==> c / 262144 == w && c / 4096 % 64 == x && c / 64 % 64 == y && c % 64 == z
  {
    Digits3(c, c / 4096, y, z);
    Digits2(c / 4096, w, x);
    Digits3(c, w * 64 + x, y, z);
    assert c / 262144 == c / 4096 / 64;
  }

  /** A lead byte and continuation bytes that join to a scalar of that length are its encoding. */
  lemma JoinedIsEncoded(bytes: seq<u8>, n: nat, c: int)
    requires |bytes| == n && 2 <= n <= 4 && LeadLength(bytes[0]) == n && Trailing(bytes, n)
    requires Scalar(c) && |Encode(c)| == n
    ensures Joined(bytes, n) == c <==> bytes == Encode(c)
  {
    match n
    case 2 => JoinedTwo(bytes, c);
    case 3 => JoinedThree(bytes, c);
    case 4 => JoinedFour(bytes, c);
  }

  lemma JoinedTwo(bytes: seq<u8>, c: int)
    requires |bytes| == 2 && LeadLength(bytes[0]) == 2 && Trailing(bytes, 2)
    requires Scalar(c) && |Encode(c)| == 2
    ensures Joined(bytes, 2) == c <==> bytes == Encode(c)
  {
    Digits2(c, bytes[0] - 0xc0, bytes[1] - 0x80);
    assert bytes == [bytes[0], bytes[1]];
  }

  lemma JoinedThree(bytes: seq<u8>, c: int)
    requires |bytes| == 3 && LeadLength(bytes[0]) == 3 && Trailing(bytes, 3)
    requires Scalar(c) && |Encode(c)| == 3
    ensures Joined(bytes, 3) == c <==> bytes == Encode(c)
  {
    Digits3(c, bytes[0] - 0xe0, bytes[1] - 0x80, bytes[2] - 0x80);
    assert bytes == [bytes[0], bytes[1], bytes[2]];
  }

  lemma JoinedFour(bytes: seq<u8>, c: int)
    requires |bytes| == 4 && LeadLength(bytes[0]) == 4 && Trailing(bytes, 4)
    requires Scalar(c) && |Encode(c)| == 4
    ensures Joined(bytes, 4) == c <==> bytes == Encode(c)
  {
    Digits4(c, bytes[0] - 0xf0, bytes[1] - 0x80, bytes[2] - 0x80, bytes[3] - 0x80);
    assert bytes == [bytes[0], bytes[1], bytes[2], bytes[3]];
  }

  lemma EncodedShape(c: int)
    requires Scalar(c) && c >= 0x80
    ensures var n := |Encode(c)|; n >= 2 && LeadLength(Encode(c)[0]) == n && Trailing(Encode(c), n) && c >= Smallest(n)
  {
  }

  lemma LengthFromSize(c: int, n: nat)
    requires Scalar(c) && 2 <= n <= 4 && Smallest(n) <= c && (n < 4 ==> c < Smallest(n + 1))
    ensures |Encode(c)| == n
  {
  }

  lemma JoinedBound(bytes: seq<u8>, n: nat)
    requires |bytes| >= n && 2 <= n <= 4 && LeadLength(bytes[0]) == n && Trailing(bytes, n)
    ensures 0 <= Joined(bytes, n) && (n < 4 ==> Joined(bytes, n) < Smallest(n + 1))
    ensures Joined(bytes, n) == Joined(bytes[..n], n)
  {
  }

  /** Decoding what starts with an encoding is no error and returns the scalar and its length. */
  lemma DecodeEncode(c: int, rest: seq<u8>)
    requires Scalar(c)
    ensures WellFormed(Encode(c) + rest) && Decode(Encode(c) + rest) == (c, |Encode(c)|)
  {
    if c >= 0x80 {
      var e := Encode(c);
      var s, n := e + rest, |e|;
      EncodedShape(c);
      assert s[..n] == e && Trailing(s, n);
      JoinedBound(s, n);
      JoinedIsEncoded(e, n, c);
    }
  }

  /** Decoding consumes at least one byte and never more than there are. It is an error exactly when
      the result does not re-encode to the bytes consumed, and then the result is the replacement
      character: no overlong forms, no surrogates, nothing above U+10FFFF. */
  lemma EncodeDecode(bytes: seq<u8>)
    requires |bytes| > 0
    ensures var (c, n) := Decode(bytes);
            && Scalar(c) && 1 <= n <= |bytes| && n <= 4
            && (WellFormed(bytes) <==> bytes[..n] == Encode(c))
            && (!WellFormed(bytes) ==> c == REPLACEMENT)
  {
    var (c, n) := Decode(bytes);
    assert bytes == bytes[..n] + bytes[n..];
    if WellFormed(bytes) {
      if n > 1 {
        JoinedBound(bytes, n);
        LengthFromSize(c, n);
        JoinedIsEncoded(bytes[..n], n, c);
      }
    } else if bytes[..n] == Encode(c) {
      DecodeEncode(c, bytes[n..]);
    }
  }

  // ----- streams

  function EncodeAll(cs: seq<int>): seq<u8>
    requires forall i :: 0 <= i < |cs| ==> Scalar(cs[i])
  {
    if |cs| == 0 then [] else Encode(cs[0]) + EncodeAll(cs[1..])
  }

  /** Decoding from the front until nothing is left. */
  function DecodeAll(bytes: seq<u8>): seq<int>
    decreases |bytes|
  {
    if |bytes| == 0 then []
    else
      EncodeDecode(bytes);
      var (c, n) := Decode(bytes);
      [c] + DecodeAll(bytes[n..])
  }

  /** Any sequence of scalars survives encoding and decoding. */
  lemma {:induction false} StreamRoundTrip(cs: seq<int>)
    requires forall i :: 0 <= i < |cs| ==> Scalar(cs[i])
    ensures DecodeAll(EncodeAll(cs)) == cs
  {
    if |cs| > 0 {
      var rest := EncodeAll(cs[1..]);
      DecodeEncode(cs[0], rest);
      assert (Encode(cs[0]) + rest)[|Encode(cs[0])|..] == rest;
      StreamRoundTrip(cs[1..]);
    }
  }

  /** No step of decoding the whole string is an error. */
  predicate AllWellFormed(bytes: seq<u8>)
    decreases |bytes|
  {
    if |bytes| == 0 then true
    else
      EncodeDecode(bytes);
      WellFormed(bytes) && AllWellFormed(bytes[Decode(bytes).1..])
  }

  lemma {:induction false} DecodedScalars(bytes: seq<u8>)
    ensures forall i :: 0 <= i < |DecodeAll(bytes)| ==> Scalar(DecodeAll(bytes)[i])
    decreases |bytes|
  {
    if |bytes| > 0 {
      EncodeDecode(bytes);
      DecodedScalars(bytes[Decode(bytes).1..]);
    }
  }

  /** A string is the encoding of what it decodes to exactly when no step is an error. */
  lemma {:induction false} StreamExact(bytes: seq<u8>)
    ensures forall i :: 0 <= i < |DecodeAll(bytes)| ==> Scalar(DecodeAll(bytes)[i])
    ensures EncodeAll(DecodeAll(bytes)) == bytes <==> AllWellFormed(bytes)
    decreases |bytes|
  {
    DecodedScalars(bytes);
    if |bytes| > 0 {
      EncodeDecode(bytes);
      var (c, n) := Decode(bytes);
      var tail := bytes[n..];
      DecodedScalars(tail);
      StreamExact(tail);
      EncodeAllStep(c, DecodeAll(tail));
      FirstStep(bytes, EncodeAll(DecodeAll(tail)));
    }
  }

  /** Re-encoding starts with the bytes consumed exactly when the first step is no error. */
  lemma FirstStep(bytes: seq<u8>, again: seq<u8>)
    requires |bytes| > 0
    ensures var (c, n) := Decode(bytes);
            && Scalar(c) && n <= |bytes|
            && (Encode(c) + again == bytes <==> WellFormed(bytes) && again == bytes[n..])
  {
    EncodeDecode(bytes);
    var (c, n) := Decode(bytes);
    assert bytes == bytes[..n] + bytes[n..];
    if Encode(c) + again == bytes {
      DecodeEncode(c, again);
    }
  }

  lemma EncodeAllStep(c: int, cs: seq<int>)
    requires Scalar(c) && forall i :: 0 <= i < |cs| ==> Scalar(cs[i])
    ensures EncodeAll([c] + cs) == Encode(c) + EncodeAll(cs)
  {
    assert ([c] + cs)[1..] == cs;
  }

  // ----- the grammar

  predicate Tail(bytes: seq<u8>, i: nat) {
    i < |bytes| && 0x80 <= bytes[i] <= 0xbf
  }

  /** The bytes start with a sequence of n bytes of the grammar in section 4 of RFC 3629. */
  predicate Sequence(bytes: seq<u8>, n: nat) {
    |bytes| > 0 &&
    var b := bytes[0];
    match n
    case 1 => b <= 0x7f
    case 2 => 0xc2 <= b <= 0xdf && Tail(bytes, 1)
    case 3 =>
      && Tail(bytes, 1) && Tail(bytes, 2)
      && ((b == 0xe0 && bytes[1] >= 0xa0) || 0xe1 <= b <= 0xec || (b == 0xed && bytes[1] <= 0x9f) || 0xee <= b <= 0xef)
    case 4 =>
      && Tail(bytes, 1) && Tail(bytes, 2) && Tail(bytes, 3)
      && ((b == 0xf0 && bytes[1] >= 0x90) || 0xf1 <= b <= 0xf3 || (b == 0xf4 && bytes[1] <= 0x8f))
    case _ => false
  }

  lemma TrailingTails(bytes: seq<u8>)
    ensures Trailing(bytes, 2) <==> |bytes| > 0 && Tail(bytes, 1)
    ensures Trailing(bytes, 3) <==> |bytes| > 0 && Tail(bytes, 1) && Tail(bytes, 2)
    ensures Trailing(bytes, 4) <==> |bytes| > 0 && Tail(bytes, 1) && Tail(bytes, 2) && Tail(bytes, 3)
  {
  }

  lemma SequenceTwo(bytes: seq<u8>)
    requires |bytes| > 0 && LeadLength(bytes[0]) == 2
    ensures Sequence(bytes, 2) <==> Trailing(bytes, 2) && Joined(bytes, 2) >= 0x80 && Scalar(Joined(bytes, 2))
  {
    TrailingTails(bytes);
  }

  lemma SequenceThree(bytes: seq<u8>)
    requires |bytes| > 0 && LeadLength(bytes[0]) == 3
    ensures Sequence(bytes, 3) <==> Trailing(bytes, 3) && Joined(bytes, 3) >= 0x800 && Scalar(Joined(bytes, 3))
  {
    TrailingTails(bytes);
  }

  lemma SequenceFour(bytes: seq<u8>)
    requires |bytes| > 0 && LeadLength(bytes[0]) == 4
    ensures Sequence(bytes, 4) <==> Trailing(bytes, 4) && Joined(bytes, 4) >= 0x1_0000 && Scalar(Joined(bytes, 4))
  {
    TrailingTails(bytes);
  }

  /** What decodes without an error is exactly what the grammar allows, in that length. */
  lemma DecodeIsGrammar(bytes: seq<u8>)
    ensures WellFormed(bytes) <==> exists n :: Sequence(bytes, n)
    ensures WellFormed(bytes) ==> Sequence(bytes, Decode(bytes).1)
  {
    if |bytes| > 0 {
      var n := LeadLength(bytes[0]);
      if n == 2 {
        SequenceTwo(bytes);
      } else if n == 3 {
        SequenceThree(bytes);
      } else if n == 4 {
        SequenceFour(bytes);
      }
      if WellFormed(bytes) {
        assert Sequence(bytes, Decode(bytes).1);
      }
    }
  }

  /** What an error takes: nothing without input, all bytes of a complete sequence that is overlong, a
      surrogate or too large, and otherwise one byte. */
  lemma ErrorLength(bytes: seq<u8>)
    requires !WellFormed(bytes)
    ensures Decode(bytes) == (REPLACEMENT, if |bytes| == 0 then 0
                                           else if 0xc0 <= bytes[0] <= 0xdf && Tail(bytes, 1) then 2
                                           else if 0xe0 <= bytes[0] <= 0xef && Tail(bytes, 1) && Tail(bytes, 2) then 3
                                           else if 0xf0 <= bytes[0] <= 0xf7 && Tail(bytes, 1) && Tail(bytes, 2) && Tail(bytes, 3) then 4
                                           else 1)
  {
    TrailingTails(bytes);
  }

  // ----- order

  predicate Less(a: seq<u8>, b: seq<u8>) {
    |b| > 0 && (|a| == 0 || a[0] < b[0] || (a[0] == b[0] && Less(a[1..], b[1..])))
  }

  lemma {:induction false} LessStrict(a: seq<u8>, b: seq<u8>)
    requires Less(a, b)
    ensures a != b && !Less(b, a)
  {
    if |a| > 0 && a[0] == b[0] {
      LessStrict(a[1..], b[1..]);
    }
  }

  lemma {:induction false} NotLess(a: seq<u8>)
    ensures !Less(a, a)
  {
    if |a| > 0 {
      NotLess(a[1..]);
    }
  }

  /** The first difference decides. */
  lemma {:induction false} LessAt(a: seq<u8>, b: seq<u8>, i: nat)
    requires i < |a| && i < |b| && a[..i] == b[..i] && a[i] < b[i]
    ensures Less(a, b)
  {
    if i > 0 {
      assert a[0] == a[..i][0] == b[..i][0] == b[0];
      assert a[1..][..i - 1] == a[..i][1..] && b[1..][..i - 1] == b[..i][1..];
      LessAt(a[1..], b[1..], i - 1);
    }
  }

  /** Below each place of 64 the quotient decides, and with equal quotients the remainder. */
  lemma QuotientOrder(c: nat, d: nat)
    requires c < d
    ensures c / 64 < d / 64 || (c / 64 == d / 64 && c % 64 < d % 64)
  {
  }

  lemma EncodeUp(c: int, d: int)
    requires Scalar(c) && Scalar(d) && c < d
    ensures Less(Encode(c), Encode(d))
  {
    var a, b := Encode(c), Encode(d);
    if |a| < |b| {
      LessAt(a, b, 0);
    } else if |a| == 1 {
      LessAt(a, b, 0);
    } else {
      FirstDifference(c, d);
    }
  }

  lemma DigitsOrder(c: nat, d: nat)
    requires c < d
    ensures c / 4096 < d / 4096 || (c / 4096 == d / 4096 && c / 64 % 64 < d / 64 % 64)
            || (c / 4096 == d / 4096 && c / 64 % 64 == d / 64 % 64 && c % 64 < d % 64)
  {
    QuotientOrder(c, d);
    assert c / 4096 == c / 64 / 64 && d / 4096 == d / 64 / 64;
    if c / 64 < d / 64 {
      QuotientOrder(c / 64, d / 64);
    }
  }

  lemma FourDigitsOrder(c: nat, d: nat)
    requires c < d
    ensures c / 262144 < d / 262144 || (c / 262144 == d / 262144 &&
              (c / 4096 % 64 < d / 4096 % 64 || (c / 4096 % 64 == d / 4096 % 64 &&
                (c / 64 % 64 < d / 64 % 64 || (c / 64 % 64 == d / 64 % 64 && c % 64 < d % 64)))))
  {
    DigitsOrder(c, d);
    assert c / 262144 == c / 4096 / 64 && d / 262144 == d / 4096 / 64;
    if c / 4096 < d / 4096 {
      QuotientOrder(c / 4096, d / 4096);
    }
  }

  /** Strings of equal length whose bytes are ordered like digits. */
  lemma LessTwo(x: u8, y: u8, x': u8, y': u8)
    requires x < x' || (x == x' && y < y')
    ensures Less([x, y], [x', y'])
  {
    LessAt([x, y], [x', y'], if x < x' then 0 else 1);
  }

  lemma LessThree(x: u8, y: u8, z: u8, x': u8, y': u8, z': u8)
    requires x < x' || (x == x' && (y < y' || (y == y' && z < z')))
    ensures Less([x, y, z], [x', y', z'])
  {
    LessAt([x, y, z], [x', y', z'], if x < x' then 0 else if y < y' then 1 else 2);
  }

  lemma LessFour(w: u8, x: u8, y: u8, z: u8, w': u8, x': u8, y': u8, z': u8)
    requires w < w' || (w == w' && (x < x' || (x == x' && (y < y' || (y == y' && z < z')))))
    ensures Less([w, x, y, z], [w', x', y', z'])
  {
    LessAt([w, x, y, z], [w', x', y', z'], if w < w' then 0 else if x < x' then 1 else if y < y' then 2 else 3);
  }

  lemma FirstDifference(c: int, d: int)
    requires Scalar(c) && Scalar(d) && c < d && |Encode(c)| == |Encode(d)| > 1
    ensures Less(Encode(c), Encode(d))
  {
    var a, b := Encode(c), Encode(d);
    match |a|
    case 2 =>
      QuotientOrder(c, d);
      LessTwo(a[0], a[1], b[0], b[1]);
    case 3 =>
      DigitsOrder(c, d);
      LessThree(a[0], a[1], a[2], b[0], b[1], b[2]);
    case 4 =>
      FourDigitsOrder(c, d);
      LessFour(a[0], a[1], a[2], a[3], b[0], b[1], b[2], b[3]);
  }

  /** Encodings compare byte by byte as their scalars do (section 1 of RFC 3629). */
  lemma EncodeKeepsOrder(c: int, d: int)
    requires Scalar(c) && Scalar(d)
    ensures Less(Encode(c), Encode(d)) <==> c < d
  {
    if c < d {
      EncodeUp(c, d);
    } else if d < c {
      EncodeUp(d, c);
      LessStrict(Encode(d), Encode(c));
    } else {
      NotLess(Encode(c));
    }
  }
}
