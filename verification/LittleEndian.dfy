/** Little-endian byte strings and the 32-bit words read from and written to them. */
module LittleEndian {
  import opened NumberTheory
  import opened Bits
  import opened Limbs

  function Le(b: seq<u8>): nat {
    if |b| == 0 then 0 else b[0] + 256 * Le(b[1..])
  }

  lemma {:induction false} LeConcat(a: seq<u8>, b: seq<u8>)
    ensures Le(a + b) == Le(a) + ByteWeight(|a|) * Le(b)
  {
    if |a| == 0 {
      assert a + b == b;
    } else {
      assert (a + b)[1..] == a[1..] + b;
      LeConcat(a[1..], b);
      MulAssoc(256, ByteWeight(|a| - 1), Le(b));
    }
  }

  lemma {:induction false} LeBound(b: seq<u8>)
    ensures Le(b) < ByteWeight(|b|)
  {
    if |b| > 0 {
      LeBound(b[1..]);
    }
  }

  lemma {:induction false} LeInjective(a: seq<u8>, b: seq<u8>)
    requires |a| == |b| && Le(a) == Le(b)
    ensures a == b
  {
    if |a| > 0 {
      LeInjective(a[1..], b[1..]);
      assert a == [a[0]] + a[1..] && b == [b[0]] + b[1..];
    }
  }

  lemma {:induction false} LeZeros(n: nat)
    ensures Le(ZeroBytes(n)) == 0
  {
    if n > 0 {
      assert ZeroBytes(n)[1..] == ZeroBytes(n - 1);
      LeZeros(n - 1);
    }
  }

  lemma LeStep(b: seq<u8>, i: nat)
    requires i < |b|
    ensures Le(b[i..]) == b[i] + 256 * Le(b[i + 1..])
  {
    assert b[i..][1..] == b[i + 1..];
  }

  /** `u32::from_le_bytes` on the four bytes at an offset. */
  function Word(b: seq<u8>, i: nat): (w: u32)
    requires i + 4 <= |b|
  {
    var b0: int, b1: int, b2: int, b3: int := b[i], b[i + 1], b[i + 2], b[i + 3];
    b0 + 0x100 * b1 + 0x1_0000 * b2 + 0x100_0000 * b3
  }

  lemma LeWord(b: seq<u8>, i: nat)
    requires i + 4 <= |b|
    ensures Le(b[i..]) == Word(b, i) + 0x1_0000_0000 * Le(b[i + 4..])
  {
    LeStep(b, i);
    LeStep(b, i + 1);
    LeStep(b, i + 2);
    LeStep(b, i + 3);
  }

  lemma FourDigits(w: nat)
    requires w < 0x1_0000_0000
    ensures w == w % 0x100 + 0x100 * (w / 0x100 % 0x100) + 0x1_0000 * (w / 0x1_0000 % 0x100) + 0x100_0000 * (w / 0x100_0000)
    ensures w / 0x100_0000 < 0x100
  {
    Digit(w, 0x100);
    Digit(w, 0x1_0000);
  }

  lemma Digit(w: nat, k: nat)
    requires k == 0x100 || k == 0x1_0000
    ensures w / k == w / k % 0x100 + 0x100 * (w / (0x100 * k))
  {
    assert w / (0x100 * k) == w / k / 0x100;
  }

  /** `to_le_bytes` of a word. */
  function WordBytes(w: u32): (b: seq<u8>)
    ensures |b| == 4 && Word(b, 0) == w
  {
    FourDigits(w);
    [w % 0x100, w / 0x100 % 0x100, w / 0x1_0000 % 0x100, w / 0x100_0000]
  }

  lemma WordBytesOf(b: seq<u8>, i: nat)
    requires i + 4 <= |b|
    ensures WordBytes(Word(b, i)) == b[i..i + 4]
  {
    FourBytesUnique(WordBytes(Word(b, i)), b[i..i + 4]);
  }

  lemma FourBytesUnique(a: seq<u8>, b: seq<u8>)
    requires |a| == |b| == 4 && Word(a, 0) == Word(b, 0)
    ensures a == b
  {
    LeWord(a, 0);
    LeWord(b, 0);
    assert a[0..] == a && b[0..] == b;
    LeInjective(a, b);
  }
}
