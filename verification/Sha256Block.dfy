/** The SHA-256 compression function of crypto/sha256.rs (section 6.2 of FIPS 180-4). */
module Sha256Block {
  import opened NumberTheory
  import opened Bits
  import opened Words32

  /** The eight working variables, and the eight words of the hash state. */
  datatype Vars = Vars(a: u32, b: u32, c: u32, d: u32, e: u32, f: u32, g: u32, h: u32)

  function RotR(x: u32, k: nat): u32
    requires 0 < k < 32
  {
    RotL(x, 32 - k)
  }

  function Xor3(x: u32, y: u32, z: u32): u32 {
    Xor32(Xor32(x, y), z)
  }

  function And32(x: u32, y: u32): u32 {
    AndBound(x, y);
    And(x, y)
  }

  function Not32(x: u32): u32 {
    0xffff_ffff - x
  }

  function Plus3(x: u32, y: u32, z: u32): u32 {
    Plus(Plus(x, y), z)
  }

  /** The round constants, eight to a row. */
  const K0: seq<u32> := [0x428a_2f98, 0x7137_4491, 0xb5c0_fbcf, 0xe9b5_dba5, 0x3956_c25b, 0x59f1_11f1, 0x923f_82a4, 0xab1c_5ed5]
  const K1: seq<u32> := [0xd807_aa98, 0x1283_5b01, 0x2431_85be, 0x550c_7dc3, 0x72be_5d74, 0x80de_b1fe, 0x9bdc_06a7, 0xc19b_f174]
  const K2: seq<u32> := [0xe49b_69c1, 0xefbe_4786, 0x0fc1_9dc6, 0x240c_a1cc, 0x2de9_2c6f, 0x4a74_84aa, 0x5cb0_a9dc, 0x76f9_88da]
  const K3: seq<u32> := [0x983e_5152, 0xa831_c66d, 0xb003_27c8, 0xbf59_7fc7, 0xc6e0_0bf3, 0xd5a7_9147, 0x06ca_6351, 0x1429_2967]
  const K4: seq<u32> := [0x27b7_0a85, 0x2e1b_2138, 0x4d2c_6dfc, 0x5338_0d13, 0x650a_7354, 0x766a_0abb, 0x81c2_c92e, 0x9272_2c85]
  const K5: seq<u32> := [0xa2bf_e8a1, 0xa81a_664b, 0xc24b_8b70, 0xc76c_51a3, 0xd192_e819, 0xd699_0624, 0xf40e_3585, 0x106a_a070]
  const K6: seq<u32> := [0x19a4_c116, 0x1e37_6c08, 0x2748_774c, 0x34b0_bcb5, 0x391c_0cb3, 0x4ed8_aa4a, 0x5b9c_ca4f, 0x682e_6ff3]
  const K7: seq<u32> := [0x748f_82ee, 0x78a5_636f, 0x84c8_7814, 0x8cc7_0208, 0x90be_fffa, 0xa450_6ceb, 0xbef9_a3f7, 0xc671_78f2]

  const K: seq<u32> := K0 + K1 + K2 + K3 + K4 + K5 + K6 + K7

  const ROUNDS: nat := 64

  lemma TableSize()
    ensures |K| == ROUNDS
  {
  }

  /** `u32::from_be_bytes` of the i-th group of four. */
  function BeWord(block: seq<u8>, i: nat): u32
    requires 4 * i + 4 <= |block|
  {
    var b0: int, b1: int, b2: int, b3: int := block[4 * i], block[4 * i + 1], block[4 * i + 2], block[4 * i + 3];
    0x100_0000 * b0 + 0x1_0000 * b1 + 0x100 * b2 + b3
  }

  // The functions of section 4.1.2.

  function Ch(x: u32, y: u32, z: u32): u32 {
    Xor32(And32(x, y), And32(Not32(x), z))
  }

  function Maj(x: u32, y: u32, z: u32): u32 {
    Xor3(And32(x, y), And32(x, z), And32(y, z))
  }

  /** Three rotations added. */
  function Turn(x: u32, i: nat, j: nat, k: nat): u32
    requires 0 < i < 32 && 0 < j < 32 && 0 < k < 32
  {
    Xor3(RotR(x, i), RotR(x, j), RotR(x, k))
  }

  function ShR(x: u32, k: nat): u32 {
    PowPositive(2, k);
    ShRBound(x, Pow(2, k));
    x / Pow(2, k)
  }

  lemma ShRBound(x: nat, w: nat)
    requires w > 0
    ensures 0 <= x / w <= x
  {
    DivModSum(x, w);
    if x / w > x {
      MulMono(x + 1, x / w, w);
      MulMono(1, w, x + 1);
    }
  }

  function Extend(w16: u32, w15: u32, w7: u32, w2: u32): u32 {
    var s0 := Xor3(RotR(w15, 7), RotR(w15, 18), ShR(w15, 3));
    var s1 := Xor3(RotR(w2, 17), RotR(w2, 19), ShR(w2, 10));
    Plus(Plus3(w16, s0, w7), s1)
  }

  /** The message schedule as a recurrence. */
  function W(block: seq<u8>, t: nat): u32
    requires |block| == 64
  {
    if t < 16 then BeWord(block, t)
    else Extend(W(block, t - 16), W(block, t - 15), W(block, t - 7), W(block, t - 2))
  }

  function Round(v: Vars, k: u32, w: u32): Vars {
    var temp1 := Plus(Plus(Plus3(v.h, Turn(v.e, 6, 11, 25), Ch(v.e, v.f, v.g)), k), w);
    var temp2 := Plus(Turn(v.a, 2, 13, 22), Maj(v.a, v.b, v.c));
    Vars(Plus(temp1, temp2), v.a, v.b, v.c, Plus(v.d, temp1), v.e, v.f, v.g)
  }

  function Rounds(v: Vars, block: seq<u8>, n: nat): Vars
    requires |block| == 64 && n <= |K|
  {
    if n == 0 then v else Round(Rounds(v, block, n - 1), K[n - 1], W(block, n - 1))
  }

  lemma RoundsNext(h: Vars, block: seq<u8>, i: nat)
    requires |block| == 64 && i < 64
    ensures |K| == 64 && Rounds(h, block, i + 1) == Round(Rounds(h, block, i), K[i], W(block, i))
  {
    TableSize();
  }

  function AddVars(x: Vars, y: Vars): Vars {
    Vars(Plus(x.a, y.a), Plus(x.b, y.b), Plus(x.c, y.c), Plus(x.d, y.d),
         Plus(x.e, y.e), Plus(x.f, y.f), Plus(x.g, y.g), Plus(x.h, y.h))
  }

  function Compressed(h: Vars, block: seq<u8>): Vars
    requires |block| == 64
  {
    TableSize();
    AddVars(h, Rounds(h, block, ROUNDS))
  }

  ghost predicate Scheduled(w: array<u32>, block: seq<u8>, n: nat)
    requires |block| == 64 && n <= w.Length
    reads w
  {
    forall t :: 0 <= t < n ==> w[t] == W(block, t)
  }

  method ParseWords(block: seq<u8>, w: array<u32>)
    requires |block| == 64 && w.Length == 64
    modifies w
    ensures Scheduled(w, block, 16)
  {
    for i := 0 to 16
      invariant Scheduled(w, block, i)
    {
      w[i] := BeWord(block, i);
    }
  }

  method ExtendOne(block: seq<u8>, w: array<u32>, i: nat)
    requires |block| == 64 && w.Length == 64 && 16 <= i < 64 && Scheduled(w, block, i)
    modifies w
    ensures Scheduled(w, block, i + 1)
  {
    var x := Extend(w[i - 16], w[i - 15], w[i - 7], w[i - 2]);
    assert x == W(block, i);
    w[i] := x;
  }

  /** The schedule array: sixteen words parsed, the others computed from earlier entries. */
  method FillSchedule(block: seq<u8>, w: array<u32>)
    requires |block| == 64 && w.Length == 64
    modifies w
    ensures forall t :: 0 <= t < 64 ==> w[t] == W(block, t)
  {
    ParseWords(block, w);
    for i := 16 to 64
      invariant Scheduled(w, block, i)
    {
      ExtendOne(block, w, i);
    }
  }

  /** One round as the code assigns the eight variables one after the other. */
  method RoundInTurn(v: Vars, k: u32, w: u32) returns (r: Vars)
    ensures r == Round(v, k, w)
  {
    var a, b, c, d, e, f, g, h := v.a, v.b, v.c, v.d, v.e, v.f, v.g, v.h;
    var s1 := Turn(e, 6, 11, 25);
    var ch := Ch(e, f, g);
    var temp1 := Plus(Plus(Plus3(h, s1, ch), k), w);
    var s0 := Turn(a, 2, 13, 22);
    var maj := Maj(a, b, c);
    var temp2 := Plus(s0, maj);
    h := g;
    g := f;
    f := e;
    e := Plus(d, temp1);
    d := c;
    c := b;
    b := a;
    a := Plus(temp1, temp2);
    r := Vars(a, b, c, d, e, f, g, h);
  }

  method Compress(h: Vars, block: seq<u8>) returns (r: Vars)
    requires |block| == 64
    ensures r == Compressed(h, block)
  {
    var w := new u32[64];
    FillSchedule(block, w);
    TableSize();
    var v := h;
    for i := 0 to ROUNDS
      invariant v == Rounds(h, block, i) && Scheduled(w, block, 64)
    {
      RoundsNext(h, block, i);
      v := RoundInTurn(v, K[i], w[i]);
    }
    r := AddVars(h, v);
  }
}
