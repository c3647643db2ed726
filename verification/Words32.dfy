/** Wrapping addition, exclusive or and rotation of 32-bit words. */
module Words32 {
  import opened NumberTheory
  import opened Bits

  function Plus(x: u32, y: u32): u32 {
    (x + y) % 0x1_0000_0000
  }

  function Xor32(x: u32, y: u32): u32 {
    Pow2Words();
    XorBound(x, y, 32);
    Xor(x, y)
  }

  /** `rotate_left`: the low 32 - k bits move up and the high k bits come in below. */
  function RotL(x: u32, k: nat): u32
    requires 0 < k < 32
  {
    RotBound(x, k);
    x % Pow(2, 32 - k) * Pow(2, k) + x / Pow(2, 32 - k)
  }

  lemma RotBound(x: u32, k: nat)
    requires 0 < k < 32
    ensures Pow(2, 32 - k) > 0 && Pow(2, k) > 0
    ensures 0 <= x / Pow(2, 32 - k) < Pow(2, k)
    ensures 0 <= x % Pow(2, 32 - k) * Pow(2, k) + x / Pow(2, 32 - k) < U32
  {
    PowPositive(2, 32 - k);
    PowPositive(2, k);
    Pow2Words();
    PowAdd(2, 32 - k, k);
    SplitBound(x, Pow(2, 32 - k), Pow(2, k));
  }

  lemma SplitBound(x: nat, m: nat, w: nat)
    requires m > 0 && w > 0 && x < m * w
    ensures 0 <= x / m < w && 0 <= x % m * w + x / m < m * w
  {
    var q, r := x / m, x % m;
    assert x == q * m + r;
    if q >= w {
      MulMono(w, q, m);
    }
    MulMono(r, m - 1, w);
    MulDist(w, m, 1);
    MulNonNeg(r, w);
  }

  /** Rotating by k and by 32 - k restores a word. */
  lemma RotUndo(x: u32, k: nat)
    requires 0 < k < 32
    ensures RotL(RotL(x, k), 32 - k) == x
  {
    RotBound(x, k);
    var m, w := Pow(2, 32 - k), Pow(2, k);
    var hi, lo := x / m, x % m;
    assert 32 - (32 - k) == k;
    DivModUnique(lo * w + hi, lo, hi, w);
    assert x == hi * m + lo;
  }
}
