/** Arithmetic modulo 2^130 - 5 in five 26-bit limbs, as the Poly1305 code of
    crypto/chacha20.rs does it on 32-bit words with 64-bit products. */
module PolyLimbs {
  import opened NumberTheory
  import opened Bits

  const B26: nat := 0x400_0000
  const P: nat := 0x3_ffff_ffff_ffff_ffff_ffff_ffff_ffff_fffb

  /** The array [u32; 5]. */
  datatype Limbs5 = Limbs5(a0: u32, a1: u32, a2: u32, a3: u32, a4: u32)

  /** Little-endian digits in base 2^26. */
  function Horner(s: seq<nat>): nat {
    if |s| == 0 then 0 else s[0] + 0x400_0000 * Horner(s[1..])
  }

  /** The number that five limbs stand for. */
  function V(l: Limbs5): nat {
    Horner([l.a0, l.a1, l.a2, l.a3, l.a4])
  }

  lemma HornerStep(x: nat, s: seq<nat>)
    ensures Horner([x] + s) == x + 0x400_0000 * Horner(s)
  {
    assert ([x] + s)[1..] == s;
  }

  lemma Spread(l: Limbs5)
    ensures V(l) == l.a0 + 0x400_0000 * (l.a1 + 0x400_0000 * (l.a2 + 0x400_0000 * (l.a3 + 0x400_0000 * l.a4)))
  {
    assert [l.a0, l.a1, l.a2, l.a3, l.a4] == [l.a0] + ([l.a1] + ([l.a2] + ([l.a3] + ([l.a4] + []))));
    HornerStep(l.a0, [l.a1] + ([l.a2] + ([l.a3] + ([l.a4] + []))));
    HornerStep(l.a1, [l.a2] + ([l.a3] + ([l.a4] + [])));
    HornerStep(l.a2, [l.a3] + ([l.a4] + []));
    HornerStep(l.a3, [l.a4] + []);
    HornerStep(l.a4, []);
  }

  lemma Pow26()
    ensures Pow(2, 26) == B26
  {
    assert Pow(2, 13) == 0x2000;
    PowAdd(2, 13, 13);
  }

  /** `x & 0x3ffffff`. */
  function Mask26(x: nat): (r: u32)
    ensures r == x % 0x400_0000
  {
    Pow26();
    AndMask(x, 26);
    And(x, 0x3ff_ffff)
  }

  /** wrapping_add on u32. */
  method Add32(x: u32, y: u32) returns (z: u32)
    ensures z == if x + y < 0x1_0000_0000 then x + y else x + y - 0x1_0000_0000
  {
    z := (x + y) % 0x1_0000_0000;
  }

  // ----- bounds kept between blocks

  /** What every block leaves behind. */
  predicate Reduced(h: Limbs5) {
    h.a0 < B26 && h.a1 < B26 + 64 && h.a2 < B26 && h.a3 < B26 && h.a4 < B26
  }

  /** After a message block has been added. */
  predicate Loaded(h: Limbs5) {
    h.a0 < 2 * B26 && h.a1 < 2 * B26 + 64 && h.a2 < 2 * B26 && h.a3 < 2 * B26 && h.a4 < 2 * B26
  }

  /** The clamped multiplier. */
  predicate Clamped(r: Limbs5) {
    r.a0 <= 0x3ff_ffff && r.a1 <= 0x3ff_ff03 && r.a2 <= 0x3ff_c0ff && r.a3 <= 0x3f0_3fff && r.a4 <= 0xf_ffff
  }

  // ----- multiplication by r

  /** The five 64-bit column sums; columns of weight 2^130 and above wrap with a factor 5. */
  datatype Columns = Columns(d0: int, d1: int, d2: int, d3: int, d4: int)

  function MulColumns(h: Limbs5, r: Limbs5): Columns {
    var s1, s2, s3, s4 := r.a1 * 5, r.a2 * 5, r.a3 * 5, r.a4 * 5;
    Columns(
      h.a0 * r.a0 + h.a1 * s4 + h.a2 * s3 + h.a3 * s2 + h.a4 * s1,
      h.a0 * r.a1 + h.a1 * r.a0 + h.a2 * s4 + h.a3 * s3 + h.a4 * s2,
      h.a0 * r.a2 + h.a1 * r.a1 + h.a2 * r.a0 + h.a3 * s4 + h.a4 * s3,
      h.a0 * r.a3 + h.a1 * r.a2 + h.a2 * r.a1 + h.a3 * r.a0 + h.a4 * s4,
      h.a0 * r.a4 + h.a1 * r.a3 + h.a2 * r.a2 + h.a3 * r.a1 + h.a4 * r.a0)
  }

  function ColumnsValue(c: Columns): int {
    c.d0 + 0x400_0000 * (c.d1 + 0x400_0000 * (c.d2 + 0x400_0000 * (c.d3 + 0x400_0000 * c.d4)))
  }

  lemma MulBelow(x: nat, y: nat, a: nat, b: nat)
    requires x <= a && y <= b
    ensures 0 <= x * y <= a * b
  {
    MulNonNeg(x, y);
    MulMono(x, a, y);
    MulMono(y, b, a);
  }

  /** Column sums small enough that neither the 64-bit additions nor the casts of the carries
      lose bits, and that five times the last carry fits in 32 bits. */
  predicate InRange(c: Columns) {
    && 0 <= c.d0 < 0x3ff_0000_0000_0000 && 0 <= c.d1 < 0x3ff_0000_0000_0000 && 0 <= c.d2 < 0x3ff_0000_0000_0000
    && 0 <= c.d3 < 0x3ff_0000_0000_0000 && 0 <= c.d4 < 0x81_0000_0000_0000
  }

  lemma ColumnBounds(h: Limbs5, r: Limbs5)
    requires Loaded(h) && Clamped(r)
    ensures InRange(MulColumns(h, r))
  {
    ColumnBound0(h, r);
    ColumnBound1(h, r);
    ColumnBound2(h, r);
    ColumnBound3(h, r);
    ColumnBound4(h, r);
  }

  const TOP: nat := 2 * B26 + 64

  lemma ColumnBound0(h: Limbs5, r: Limbs5)
    requires Loaded(h) && Clamped(r)
    ensures 0 <= MulColumns(h, r).d0 < 0x3ff_0000_0000_0000
  {
    MulBelow(h.a0, r.a0, TOP, 0x3ff_ffff);
    MulBelow(h.a1, r.a4 * 5, TOP, 0x4f_fffb);
    MulBelow(h.a2, r.a3 * 5, TOP, 0x13b1_3ffb);
    MulBelow(h.a3, r.a2 * 5, TOP, 0x13fe_c4fb);
    MulBelow(h.a4, r.a1 * 5, TOP, 0x13ff_fb0f);
  }

  lemma ColumnBound1(h: Limbs5, r: Limbs5)
    requires Loaded(h) && Clamped(r)
    ensures 0 <= MulColumns(h, r).d1 < 0x3ff_0000_0000_0000
  {
    MulBelow(h.a0, r.a1, TOP, 0x3ff_ffff);
    MulBelow(h.a1, r.a0, TOP, 0x3ff_ffff);
    MulBelow(h.a2, r.a4 * 5, TOP, 0x4f_fffb);
    MulBelow(h.a3, r.a3 * 5, TOP, 0x13b1_3ffb);
    MulBelow(h.a4, r.a2 * 5, TOP, 0x13fe_c4fb);
  }

  lemma ColumnBound2(h: Limbs5, r: Limbs5)
    requires Loaded(h) && Clamped(r)
    ensures 0 <= MulColumns(h, r).d2 < 0x3ff_0000_0000_0000
  {
    MulBelow(h.a0, r.a2, TOP, 0x3ff_ffff);
    MulBelow(h.a1, r.a1, TOP, 0x3ff_ffff);
    MulBelow(h.a2, r.a0, TOP, 0x3ff_ffff);
    MulBelow(h.a3, r.a4 * 5, TOP, 0x4f_fffb);
    MulBelow(h.a4, r.a3 * 5, TOP, 0x13b1_3ffb);
  }

  lemma ColumnBound3(h: Limbs5, r: Limbs5)
    requires Loaded(h) && Clamped(r)
    ensures 0 <= MulColumns(h, r).d3 < 0x3ff_0000_0000_0000
  {
    MulBelow(h.a0, r.a3, TOP, 0x3ff_ffff);
    MulBelow(h.a1, r.a2, TOP, 0x3ff_ffff);
    MulBelow(h.a2, r.a1, TOP, 0x3ff_ffff);
    MulBelow(h.a3, r.a0, TOP, 0x3ff_ffff);
    MulBelow(h.a4, r.a4 * 5, TOP, 0x4f_fffb);
  }

  lemma ColumnBound4(h: Limbs5, r: Limbs5)
    requires Loaded(h) && Clamped(r)
    ensures 0 <= MulColumns(h, r).d4 < 0x81_0000_0000_0000
  {
    MulBelow(h.a0, r.a4, TOP, 0xf_ffff);
    MulBelow(h.a1, r.a3, TOP, 0x3f0_3fff);
    MulBelow(h.a2, r.a2, TOP, 0x3ff_ffff);
    MulBelow(h.a3, r.a1, TOP, 0x3ff_ffff);
    MulBelow(h.a4, r.a0, TOP, 0x3ff_ffff);
  }

  lemma MulFive(x: nat, y: nat)
    ensures x * (y * 5) == 5 * (x * y)
  {
  }

  /** x * (a + 2^26 b), for a product x * b already known. */
  lemma MulNext(x: int, a: int, b: int)
    ensures x * (a + 0x400_0000 * b) == x * a + 0x400_0000 * (x * b)
    ensures (a + 0x400_0000 * b) * x == a * x + 0x400_0000 * (b * x)
  {
    MulDist(x, a, 0x400_0000 * b);
    MulAssoc(x, 0x400_0000, b);
  }

  /** One limb times a five-limb number. */
  lemma MulOne(x: nat, r: Limbs5)
    ensures x * V(r) == x * r.a0 + 0x400_0000 * (x * r.a1
              + 0x400_0000 * (x * r.a2 + 0x400_0000 * (x * r.a3 + 0x400_0000 * (x * r.a4))))
  {
    Spread(r);
    MulDigits(r.a0, r.a1, r.a2, r.a3, r.a4, x);
  }

  lemma MulLimbwise(h: Limbs5, y: nat)
    ensures V(h) * y == h.a0 * y + 0x400_0000 * (h.a1 * y
              + 0x400_0000 * (h.a2 * y + 0x400_0000 * (h.a3 * y + 0x400_0000 * (h.a4 * y))))
  {
    Spread(h);
    MulDigits(h.a0, h.a1, h.a2, h.a3, h.a4, y);
  }

  lemma MulDigits(a0: int, a1: int, a2: int, a3: int, a4: int, y: int)
    ensures (a0 + 0x400_0000 * (a1 + 0x400_0000 * (a2 + 0x400_0000 * (a3 + 0x400_0000 * a4)))) * y
         == a0 * y + 0x400_0000 * (a1 * y + 0x400_0000 * (a2 * y + 0x400_0000 * (a3 * y + 0x400_0000 * (a4 * y))))
  {
    var t3 := a3 + 0x400_0000 * a4;
    var t2 := a2 + 0x400_0000 * t3;
    MulNext(y, a3, a4);
    MulNext(y, a2, t3);
    MulNext(y, a1, t2);
    MulNext(y, a0, a1 + 0x400_0000 * t2);
  }

  /** The nine columns of the schoolbook product. */
  datatype Product = Product(low: Columns, c5: int, c6: int, c7: int, c8: int)
  {
    /** The columns of weight 2^130 and above, divided by 2^130. */
    function Above(): int {
      c5 + 0x400_0000 * (c6 + 0x400_0000 * (c7 + 0x400_0000 * c8))
    }

    function Value(): int {
      ColumnsValue(low) + 0x4_0000_0000_0000_0000_0000_0000_0000_0000 * Above()
    }

    predicate FoldsTo(c: Columns) {
      && c.d0 == low.d0 + 5 * c5 && c.d1 == low.d1 + 5 * c6 && c.d2 == low.d2 + 5 * c7
      && c.d3 == low.d3 + 5 * c8 && c.d4 == low.d4
    }
  }

  function Schoolbook(h: Limbs5, r: Limbs5): Product {
    Product(
      Columns(
        h.a0 * r.a0,
        h.a0 * r.a1 + h.a1 * r.a0,
        h.a0 * r.a2 + h.a1 * r.a1 + h.a2 * r.a0,
        h.a0 * r.a3 + h.a1 * r.a2 + h.a2 * r.a1 + h.a3 * r.a0,
        h.a0 * r.a4 + h.a1 * r.a3 + h.a2 * r.a2 + h.a3 * r.a1 + h.a4 * r.a0),
      h.a1 * r.a4 + h.a2 * r.a3 + h.a3 * r.a2 + h.a4 * r.a1,
      h.a2 * r.a4 + h.a3 * r.a3 + h.a4 * r.a2,
      h.a3 * r.a4 + h.a4 * r.a3,
      h.a4 * r.a4)
  }

  lemma SchoolbookValue(h: Limbs5, r: Limbs5)
    ensures V(h) * V(r) == Schoolbook(h, r).Value()
  {
    MulLimbwise(h, V(r));
    MulOne(h.a0, r);
    MulOne(h.a1, r);
    MulOne(h.a2, r);
    MulOne(h.a3, r);
    MulOne(h.a4, r);
  }

  lemma SchoolbookFolds(h: Limbs5, r: Limbs5)
    ensures Schoolbook(h, r).FoldsTo(MulColumns(h, r))
  {
    MulFive(h.a1, r.a4);
    MulFive(h.a2, r.a4);
    MulFive(h.a3, r.a4);
    MulFive(h.a4, r.a4);
    MulFive(h.a2, r.a3);
    MulFive(h.a3, r.a3);
    MulFive(h.a4, r.a3);
    MulFive(h.a3, r.a2);
    MulFive(h.a4, r.a2);
    MulFive(h.a4, r.a1);
  }

  /** 2^130 == P + 5. */
  lemma FoldedValue(n: Product, c: Columns)
    requires n.FoldsTo(c)
    ensures n.Value() == ColumnsValue(c) + P * n.Above()
  {
    assert P * n.Above() == 0x3_ffff_ffff_ffff_ffff_ffff_ffff_ffff_fffb * n.Above();
  }

  /** The columns hold h * r up to a multiple of P. */
  lemma ColumnsAreProduct(h: Limbs5, r: Limbs5)
    ensures V(h) * V(r) == ColumnsValue(MulColumns(h, r)) + P * Schoolbook(h, r).Above()
  {
    SchoolbookValue(h, r);
    SchoolbookFolds(h, r);
    FoldedValue(Schoolbook(h, r), MulColumns(h, r));
  }

  // ----- partial reduction after a block

  lemma CarryFits(d: nat)
    requires d < 0x400_0000_0000_0000
    ensures (d / 0x400_0000) % 0x1_0000_0000 == d / 0x400_0000
  {
    ModSmall(d / 0x400_0000, 0x1_0000_0000);
  }

  lemma CastKeepsLow(d: nat)
    ensures (d % 0x1_0000_0000) % 0x400_0000 == d % 0x400_0000
  {
    var q, r := d / 0x1_0000_0000, d % 0x1_0000_0000;
    assert d == 0x400_0000 * (64 * q) + r;
  }

  /** One link of the chain on a 64-bit column: the low 26 bits and the carry, both cast to
      32 bits without loss. */
  method Carry64(d: u64) returns (low: u32, c: u32)
    requires d < 0x400_0000_0000_0000
    ensures d == low + 0x400_0000 * c && low < 0x400_0000
  {
    CastKeepsLow(d);
    low := Mask26(d % 0x1_0000_0000);
    c := (d / 0x400_0000) % 0x1_0000_0000;
    CarryFits(d);
  }

  /** `c = h >> 26; h &= 0x3ffffff`. */
  method Carry32(h: u32) returns (low: u32, c: u32)
    ensures h == low + 0x400_0000 * c && low < 0x400_0000
  {
    low, c := Mask26(h), h / 0x400_0000;
  }

  lemma ChainValue(d0: int, d1: int, d2: int, d3: int, d4: int, m0: int, m1: int, m2: int, m3: int, m4: int,
                   c0: int, c1: int, c2: int, c3: int, c4: int)
    requires d0 == m0 + 0x400_0000 * c0 && d1 + c0 == m1 + 0x400_0000 * c1 && d2 + c1 == m2 + 0x400_0000 * c2
    requires d3 + c2 == m3 + 0x400_0000 * c3 && d4 + c3 == m4 + 0x400_0000 * c4
    ensures d0 + 0x400_0000 * (d1 + 0x400_0000 * (d2 + 0x400_0000 * (d3 + 0x400_0000 * d4)))
         == m0 + 0x400_0000 * (m1 + 0x400_0000 * (m2 + 0x400_0000 * (m3 + 0x400_0000 * m4)))
            + 0x4_0000_0000_0000_0000_0000_0000_0000_0000 * c4
  {
  }

  /** The carry chain after a multiplication keeps the value modulo P and restores the bounds
      that the next block relies on. */
  method PartialReduce(d: Columns) returns (h: Limbs5)
    requires InRange(d)
    ensures Reduced(h)
    ensures V(h) % P == ColumnsValue(d) % P
  {
    var h0, c0 := Carry64(d.d0);
    var h1, c1 := Carry64(d.d1 + c0);
    var h2, c2 := Carry64(d.d2 + c1);
    var h3, c3 := Carry64(d.d3 + c2);
    var h4, c4 := Carry64(d.d4 + c3);
    ChainValue(d.d0, d.d1, d.d2, d.d3, d.d4, h0, h1, h2, h3, h4, c0, c1, c2, c3, c4);
    h0 := Add32(h0, c4 * 5);
    h0, c0 := Carry32(h0);
    h1 := Add32(h1, c0);
    h := Limbs5(h0, h1, h2, h3, h4);
    Spread(h);
    Reentered(ColumnsValue(d), V(h), c4);
  }

  lemma Reentered(d: int, v: int, c: int)
    requires v + 0x4_0000_0000_0000_0000_0000_0000_0000_0000 * c == d + 5 * c
    ensures v % P == d % P
  {
    assert d == v + c * P;
    ModShift(v, c, P);
  }

  /** h * r modulo P, for the bounds that hold after a message block was added. */
  method MultiplyByR(h: Limbs5, r: Limbs5) returns (n: Limbs5)
    requires Loaded(h) && Clamped(r)
    ensures Reduced(n)
    ensures V(n) % P == V(h) * V(r) % P
  {
    ColumnBounds(h, r);
    ProductModP(h, r);
    n := PartialReduce(MulColumns(h, r));
  }

  lemma ProductModP(h: Limbs5, r: Limbs5)
    ensures ColumnsValue(MulColumns(h, r)) % P == V(h) * V(r) % P
  {
    ColumnsAreProduct(h, r);
    ModShiftP(ColumnsValue(MulColumns(h, r)), Schoolbook(h, r).Above());
  }

  lemma ModShiftP(b: int, k: int)
    ensures (b + P * k) % P == b % P
  {
    ModShift(b, k, P);
  }

  // ----- adding a message block

  /** The number that four little-endian words stand for. */
  function Words(t0: nat, t1: nat, t2: nat, t3: nat): nat {
    t0 + 0x1_0000_0000 * (t1 + 0x1_0000_0000 * (t2 + 0x1_0000_0000 * t3))
  }

  lemma Pow2Table()
    ensures Pow(2, 6) == 0x40 && Pow(2, 8) == 0x100 && Pow(2, 12) == 0x1000 && Pow(2, 14) == 0x4000
    ensures Pow(2, 18) == 0x4_0000 && Pow(2, 20) == 0x10_0000 && Pow(2, 24) == 0x100_0000 && Pow(2, 26) == 0x400_0000
  {
    assert Pow(2, 6) == 0x40 && Pow(2, 8) == 0x100;
    PowAdd(2, 6, 6);
    PowAdd(2, 6, 8);
    PowAdd(2, 12, 6);
    PowAdd(2, 12, 8);
    PowAdd(2, 12, 12);
    PowAdd(2, 12, 14);
  }

  /** A word shifted left by w and filled from below, cut to w * v. */
  lemma ShiftedMod(a: nat, w: nat, l: nat, v: nat)
    requires l < w && v > 0
    ensures w * v > 0 && a * w >= 0
    ensures (a * w + l) % (w * v) == (a % v) * w + l
  {
    var q, r := a / v, a % v;
    assert a == q * v + r;
    MulNonNeg(a, w);
    MulMono(1, v, w);
    MulMono(r, v - 1, w);
    calc {
      a * w + l;
      { MulDist(w, q * v, r); }
      (q * v) * w + r * w + l;
      { MulAssoc(q, v, w); }
      q * (w * v) + (r * w + l);
    }
    MulDist(w, v, 1);
    MulNonNeg(r, w);
    DivModUnique(a * w + l, q, r * w + l, w * v);
  }

  /** `((hi << s) | lo) & 0x3ffffff` on 32-bit words. */
  method Splice(hi: u32, s: nat, lo: u32) returns (m: u32)
    requires 0 < s <= 26 && lo < Pow(2, s)
    ensures Pow(2, 26 - s) > 0 && m == (hi % Pow(2, 26 - s)) * Pow(2, s) + lo
  {
    Pow2Table();
    Pow2Words();
    PowAdd(2, s, 26 - s);
    MulNonNeg(hi, Pow(2, s));
    var shifted := (hi * Pow(2, s)) % U32;
    ShiftedWord(hi, s);
    OrDisjoint(hi % Pow(2, 32 - s), s, lo);
    m := Mask26(Or(shifted, lo));
    ModTwice(hi, s);
    ShiftedMod(hi % Pow(2, 32 - s), Pow(2, s), lo, Pow(2, 26 - s));
  }

  /** `x << s` on a 32-bit word drops the high s bits. */
  lemma ShiftedWord(x: nat, s: nat)
    requires s <= 32
    ensures Pow(2, 32 - s) > 0 && Pow(2, s) > 0
    ensures (x * Pow(2, s)) % U32 == (x % Pow(2, 32 - s)) * Pow(2, s)
  {
    Pow2Words();
    PowAdd(2, s, 32 - s);
    PowPositive(2, 32 - s);
    PowPositive(2, s);
    ShiftedMod(x, Pow(2, s), 0, Pow(2, 32 - s));
  }

  lemma ModTwice(hi: nat, s: nat)
    requires s <= 26
    ensures Pow(2, 32 - s) > 0 && Pow(2, 26 - s) > 0
    ensures (hi % Pow(2, 32 - s)) % Pow(2, 26 - s) == hi % Pow(2, 26 - s)
  {
    PowPositive(2, 32 - s);
    PowPositive(2, 26 - s);
    var m, d := Pow(2, 32 - s), Pow(2, 26 - s);
    PowAdd(2, 6, 26 - s);
    PowPositive(2, 6);
    DividesIntro(d, Pow(2, 6));
    ModMod(hi, m);
    CongDivisor(hi % m, hi, m, d);
  }

  lemma BlockValue(t0: int, t1: int, t2: int, t3: int, x0: int, x1: int, x2: int, x3: int,
                   y0: int, y1: int, y2: int, y3: int, b: int)
    requires t0 == x0 + 0x400_0000 * y0 && t1 == x1 + 0x10_0000 * y1
    requires t2 == x2 + 0x4000 * y2 && t3 == x3 + 0x100 * y3
    ensures x0 + 0x400_0000 * ((x1 * 0x40 + y0) + 0x400_0000 * ((x2 * 0x1000 + y1)
              + 0x400_0000 * ((x3 * 0x4_0000 + y2) + 0x400_0000 * (b * 0x100_0000 + y3))))
         == t0 + 0x1_0000_0000 * (t1 + 0x1_0000_0000 * (t2 + 0x1_0000_0000 * t3))
            + 0x1_0000_0000_0000_0000_0000_0000_0000_0000 * b
  {
  }

  /** Four words cut into five limbs of 26 bits, with the optional bit 128. */
  method Cut(t0: u32, t1: u32, t2: u32, t3: u32, hibit: u32) returns (m: Limbs5)
    requires hibit == 0 || hibit == 0x100_0000
    ensures m.a0 < 0x400_0000 && m.a1 < 0x400_0000 && m.a2 < 0x400_0000 && m.a3 < 0x400_0000 && m.a4 < 0x400_0000
    ensures V(m) == Words(t0, t1, t2, t3)
                    + (if hibit == 0 then 0 else 0x1_0000_0000_0000_0000_0000_0000_0000_0000)
  {
    Pow2Table();
    var m0 := Mask26(t0);
    var m1 := Splice(t1, 6, t0 / 0x400_0000);
    var m2 := Splice(t2, 12, t1 / 0x10_0000);
    var m3 := Splice(t3, 18, t2 / 0x4000);
    OrDisjoint(hibit / 0x100_0000, 24, t3 / 0x100);
    m := Limbs5(m0, m1, m2, m3, Or(t3 / 0x100, hibit));
    Spread(m);
    BlockValue(t0, t1, t2, t3, t0 % 0x400_0000, t1 % 0x10_0000, t2 % 0x4000, t3 % 0x100,
               t0 / 0x400_0000, t1 / 0x10_0000, t2 / 0x4000, t3 / 0x100, hibit / 0x100_0000);
  }

  /** Adding a block to the accumulator limb by limb; no addition wraps. */
  method AddLimbs(h: Limbs5, m: Limbs5) returns (n: Limbs5)
    requires Reduced(h)
    requires m.a0 < 0x400_0000 && m.a1 < 0x400_0000 && m.a2 < 0x400_0000 && m.a3 < 0x400_0000 && m.a4 < 0x400_0000
    ensures Loaded(n) && V(n) == V(h) + V(m)
  {
    var n0 := Add32(h.a0, m.a0);
    var n1 := Add32(h.a1, m.a1);
    var n2 := Add32(h.a2, m.a2);
    var n3 := Add32(h.a3, m.a3);
    var n4 := Add32(h.a4, m.a4);
    n := Limbs5(n0, n1, n2, n3, n4);
    Spread(h);
    Spread(m);
    Spread(n);
  }
}
