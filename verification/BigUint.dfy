/** The big integers of crypto/rsa.rs: normalized little-endian limb vectors.
    Every method is proved against the natural number its operands denote. */
module BigUints {
  import opened NumberTheory
  import opened Bits
  import opened Limbs

  datatype BigUint = BigUint(limbs: seq<u64>) {
    /** At least one limb, and no leading zero limb except for zero itself. */
    predicate Normal() {
      |limbs| > 0 && (|limbs| > 1 ==> limbs[|limbs| - 1] != 0)
    }
  }

  /** What every public constructor and operation of the source yields. */
  type Big = b: BigUint | b.Normal() witness BigUint([0])

  function Val(b: BigUint): nat {
    Value(b.limbs)
  }

  datatype Ordering = Less | Equal | Greater

  const ZERO: Big := BigUint([0])
  const ONE: Big := BigUint([1])

  function FromU64(v: u64): (r: Big)
    ensures Val(r) == v
  {
    assert Value([v]) == v + U64 * Value([v][1..]);
    BigUint([v])
  }

  lemma SmallValues()
    ensures Val(ZERO) == 0 && Val(ONE) == 1
  {
    assert FromU64(0) == ZERO && FromU64(1) == ONE;
  }

  // ----- predicates

  method IsZero(b: Big) returns (r: bool)
    ensures r <==> Val(b) == 0
  {
    ValueZeroIff(b.limbs);
    var i := 0;
    while i < |b.limbs|
      invariant 0 <= i <= |b.limbs|
      invariant forall j :: 0 <= j < i ==> b.limbs[j] == 0
    {
      if b.limbs[i] != 0 {
        return false;
      }
      i := i + 1;
    }
    return true;
  }

  method IsOne(b: Big) returns (r: bool)
    ensures r <==> Val(b) == 1
  {
    SmallValues();
    r := |b.limbs| == 1 && b.limbs[0] == 1;
    if r {
      assert b.limbs == [1];
    } else if |b.limbs| == 1 {
      assert b.limbs == [b.limbs[0]];
      assert FromU64(b.limbs[0]) == b;
    } else {
      assert Value([1]) == 1;
      ShorterLess([1], b.limbs);
    }
  }

  lemma LowBit(s: seq<u64>)
    requires |s| > 0
    ensures And(s[0], 1) == Value(s) % 2
  {
    assert And(s[0] / 2, 0) == 0 by {
      AndZero(s[0] / 2);
    }
    assert Value(s) == s[0] + 2 * (0x8000_0000_0000_0000 * Value(s[1..]));
  }

  method IsEven(b: Big) returns (r: bool)
    ensures r <==> Val(b) % 2 == 0
  {
    LowBit(b.limbs);
    r := And(b.limbs[0], 1) == 0;
  }

  /** Drops leading zero limbs; the value stays. */
  method Normalize(limbs: seq<u64>) returns (r: Big)
    requires |limbs| > 0
    ensures Val(r) == Value(limbs)
  {
    var s := limbs;
    while |s| > 1 && s[|s| - 1] == 0
      invariant |s| > 0 && Value(s) == Value(limbs)
    {
      ValueDropZero(s);
      s := s[..|s| - 1];
    }
    r := BigUint(s);
  }

  method Cmp(a: Big, b: Big) returns (r: Ordering)
    ensures r == if Val(a) < Val(b) then Less else if Val(a) == Val(b) then Equal else Greater
  {
    if |a.limbs| != |b.limbs| {
      if |a.limbs| < |b.limbs| {
        ShorterLess(a.limbs, b.limbs);
        return Less;
      } else {
        ShorterLess(b.limbs, a.limbs);
        return Greater;
      }
    }
    var i := |a.limbs|;
    while i > 0
      invariant 0 <= i <= |a.limbs|
      invariant a.limbs[i..] == b.limbs[i..]
    {
      i := i - 1;
      if a.limbs[i] != b.limbs[i] {
        if a.limbs[i] < b.limbs[i] {
          ValueLess(a.limbs, b.limbs, i);
          return Less;
        } else {
          ValueLess(b.limbs, a.limbs, i);
          return Greater;
        }
      }
      assert a.limbs[i..] == [a.limbs[i]] + a.limbs[i + 1..];
      assert b.limbs[i..] == [b.limbs[i]] + b.limbs[i + 1..];
    }
    assert a.limbs == b.limbs;
    return Equal;
  }

  // ----- addition and subtraction

  /** Writing position i moves one limb from what is to come to what is done. */
  lemma Written(s: seq<u64>, i: nat, x: u64, t: seq<u64>)
    requires i < |s|
    ensures s[i := x][..i + 1] + t == s[..i] + ([x] + t)
  {
    assert s[i := x][..i + 1] == s[..i] + [x];
  }

  /** The limbs of x + y + carry, one carry step per limb. */
  function AddSeq(x: seq<u64>, y: seq<u64>, carry: nat): (r: seq<u64>)
    ensures |r| == (if |x| >= |y| then |x| else |y|) + 1
    decreases |x| + |y|
  {
    if |x| == 0 && |y| == 0 then [Low(carry)]
    else
      var sum := Limb(x, 0) + Limb(y, 0) + carry;
      [Low(sum)] + AddSeq(Rest(x, 1), Rest(y, 1), High(sum))
  }

  lemma {:induction false} AddSeqValue(x: seq<u64>, y: seq<u64>, carry: nat)
    requires carry <= 1
    ensures Value(AddSeq(x, y, carry)) == Value(x) + Value(y) + carry
    decreases |x| + |y|
  {
    if |x| == 0 && |y| == 0 {
      LowHigh(carry);
    } else {
      var sum := Limb(x, 0) + Limb(y, 0) + carry;
      LowHigh(sum);
      AddSeqValue(Rest(x, 1), Rest(y, 1), High(sum));
      ValueCons(Low(sum), AddSeq(Rest(x, 1), Rest(y, 1), High(sum)));
      ValueStep(x);
      ValueStep(y);
    }
  }

  lemma AddSeqStep(x: seq<u64>, y: seq<u64>, i: nat, carry: nat)
    requires i < |x| || i < |y|
    ensures AddSeq(Rest(x, i), Rest(y, i), carry)
         == [Low(Limb(x, i) + Limb(y, i) + carry)]
            + AddSeq(Rest(x, i + 1), Rest(y, i + 1), High(Limb(x, i) + Limb(y, i) + carry))
  {
    RestRest(x, i);
    RestRest(y, i);
  }

  method AddLimbs(x: seq<u64>, y: seq<u64>) returns (result: seq<u64>)
    ensures result == AddSeq(x, y, 0)
  {
    var maxLen := if |x| >= |y| then |x| else |y|;
    result := Zeros(maxLen + 1);
    var carry: nat := 0;
    for i := 0 to maxLen
      invariant |result| == maxLen + 1
      invariant result[..i] + AddSeq(Rest(x, i), Rest(y, i), carry) == AddSeq(x, y, 0)
    {
      var sum := Limb(x, i) + Limb(y, i) + carry;
      AddSeqStep(x, y, i, carry);
      Written(result, i, Low(sum), AddSeq(Rest(x, i + 1), Rest(y, i + 1), High(sum)));
      result := result[i := Low(sum)];
      carry := High(sum);
    }
    Written(result, maxLen, Low(carry), []);
    result := result[maxLen := Low(carry)];
  }

  method Add(a: Big, b: Big) returns (r: Big)
    ensures Val(r) == Val(a) + Val(b)
  {
    var result := AddLimbs(a.limbs, b.limbs);
    AddSeqValue(a.limbs, b.limbs, 0);
    r := Normalize(result);
  }

  /** One limb of a difference and the borrow it leaves. */
  function SubDigit(x: u64, y: u64, borrow: u64): (u64, u64)
    requires borrow <= 1
  {
    var diff := x - y - borrow;
    if diff < 0 then (diff + U64, 1) else (diff, 0)
  }

  /** The limbs of x - y - borrow, one borrow step per limb of x. */
  function SubSeq(x: seq<u64>, y: seq<u64>, borrow: u64): (r: seq<u64>)
    requires borrow <= 1
    ensures |r| == |x|
    decreases |x|
  {
    if |x| == 0 then []
    else
      var (digit, borrow') := SubDigit(x[0], Limb(y, 0), borrow);
      [digit] + SubSeq(Rest(x, 1), Rest(y, 1), borrow')
  }

  lemma {:induction false} SubSeqValue(x: seq<u64>, y: seq<u64>, borrow: u64)
    requires borrow <= 1 && Value(y) + borrow <= Value(x)
    ensures Value(SubSeq(x, y, borrow)) == Value(x) - Value(y) - borrow
    decreases |x|
  {
    if |x| > 0 {
      var (digit, borrow') := SubDigit(x[0], Limb(y, 0), borrow);
      ValueStep(x);
      ValueStep(y);
      SubSeqValue(Rest(x, 1), Rest(y, 1), borrow');
      ValueCons(digit, SubSeq(Rest(x, 1), Rest(y, 1), borrow'));
    }
  }

  lemma SubSeqStep(x: seq<u64>, y: seq<u64>, i: nat, borrow: u64)
    requires borrow <= 1 && i < |x|
    ensures SubSeq(Rest(x, i), Rest(y, i), borrow)
         == [SubDigit(x[i], Limb(y, i), borrow).0]
            + SubSeq(Rest(x, i + 1), Rest(y, i + 1), SubDigit(x[i], Limb(y, i), borrow).1)
  {
    RestRest(x, i);
    RestRest(y, i);
  }

  method SubLimbs(x: seq<u64>, y: seq<u64>) returns (result: seq<u64>)
    ensures result == SubSeq(x, y, 0)
  {
    result := Zeros(|x|);
    var borrow: u64 := 0;
    for i := 0 to |x|
      invariant |result| == |x| && borrow <= 1
      invariant result[..i] + SubSeq(Rest(x, i), Rest(y, i), borrow) == SubSeq(x, y, 0)
    {
      var (digit, borrow') := SubDigit(x[i], Limb(y, i), borrow);
      SubSeqStep(x, y, i, borrow);
      Written(result, i, digit, SubSeq(Rest(x, i + 1), Rest(y, i + 1), borrow'));
      result := result[i := digit];
      borrow := borrow';
    }
  }

  /** Subtraction; the source assumes that self is at least other. */
  method Sub(a: Big, b: Big) returns (r: Big)
    requires Val(b) <= Val(a)
    ensures Val(r) == Val(a) - Val(b)
  {
    var result := SubLimbs(a.limbs, b.limbs);
    SubSeqValue(a.limbs, b.limbs, 0);
    r := Normalize(result);
  }

  // ----- multiplication

  lemma ProductBound(a: u64, b: u64, c: u64, d: nat)
    requires d < U64
    ensures 0 <= a * b + c + d < U64 * U64
  {
    MulNonNeg(a, b);
    MulMono(a, U64 - 1, b);
  }

  /** The accumulator of the inner product loop. */
  function Product(a: u64, b: u64, c: u64, carry: nat): nat {
    MulNonNeg(a, b);
    a * b + c + carry
  }

  /** One row of the schoolbook product: a * y + carry added into the limbs r. */
  function RowSeq(r: seq<u64>, a: u64, y: seq<u64>, carry: nat): (s: seq<u64>)
    requires |y| < |r|
    ensures |s| == |r|
    decreases |y|
  {
    if |y| == 0 then [Low(carry)] + r[1..]
    else
      var product := Product(a, y[0], r[0], carry);
      [Low(product)] + RowSeq(r[1..], a, y[1..], High(product))
  }

  lemma {:induction false} RowSeqValue(r: seq<u64>, a: u64, y: seq<u64>, carry: nat)
    requires |y| < |r| && r[|y|] == 0 && carry < U64
    ensures Value(RowSeq(r, a, y, carry)) == Value(r) + a * Value(y) + carry
    decreases |y|
  {
    if |y| == 0 {
      LowHigh(carry);
      ValueCons(carry, r[1..]);
    } else {
      ProductBound(a, y[0], r[0], carry);
      var product := Product(a, y[0], r[0], carry);
      LowHigh(product);
      RowSeqValue(r[1..], a, y[1..], High(product));
      ValueCons(Low(product), RowSeq(r[1..], a, y[1..], High(product)));
      RowArithmetic(a, y[0], Value(y[1..]), r[0], Value(r[1..]), carry, Low(product), High(product));
    }
  }

  lemma RowArithmetic(a: int, y: int, y': int, r: int, r': int, carry: int, lo: int, hi: int)
    requires a * y + r + carry == lo + U64 * hi
    ensures lo + U64 * (r' + a * y' + hi) == (r + U64 * r') + a * (y + U64 * y') + carry
  {
    MulDist(a, y, U64 * y');
    MulAssoc(a, U64, y');
  }

  /** The remaining rows: x * y added into the limbs r. */
  function MulSeq(r: seq<u64>, x: seq<u64>, y: seq<u64>): (s: seq<u64>)
    requires |r| == |x| + |y|
    ensures |s| == |r|
    decreases |x|
  {
    if |x| == 0 then r
    else
      var r' := RowSeq(r, x[0], y, 0);
      [r'[0]] + MulSeq(r'[1..], x[1..], y)
  }

  lemma {:induction false} RowSeqTail(r: seq<u64>, a: u64, y: seq<u64>, carry: nat)
    requires |y| < |r|
    ensures RowSeq(r, a, y, carry)[|y| + 1..] == r[|y| + 1..]
    decreases |y|
  {
    if |y| > 0 {
      var product := Product(a, y[0], r[0], carry);
      RowSeqTail(r[1..], a, y[1..], High(product));
      var t := RowSeq(r[1..], a, y[1..], High(product));
      assert RowSeq(r, a, y, carry)[|y| + 1..] == t[|y|..] == r[1..][|y|..] == r[|y| + 1..];
    }
  }

  lemma {:induction false} MulSeqValue(r: seq<u64>, x: seq<u64>, y: seq<u64>)
    requires |r| == |x| + |y|
    requires forall k :: |y| <= k < |r| ==> r[k] == 0
    ensures Value(MulSeq(r, x, y)) == Value(r) + Value(x) * Value(y)
    decreases |x|
  {
    if |x| > 0 {
      var r' := RowSeq(r, x[0], y, 0);
      RowSeqValue(r, x[0], y, 0);
      RowSeqTail(r, x[0], y, 0);
      assert forall k :: |y| < k < |r| ==> r'[k] == r'[|y| + 1..][k - |y| - 1] == r[|y| + 1..][k - |y| - 1];
      MulSeqValue(r'[1..], x[1..], y);
      ValueCons(r'[0], MulSeq(r'[1..], x[1..], y));
      MulDist(Value(y), x[0], U64 * Value(x[1..]));
      MulAssoc(U64, Value(x[1..]), Value(y));
    }
  }

  method MulRow(result: seq<u64>, a: u64, y: seq<u64>, i: nat) returns (r: seq<u64>)
    requires i + |y| < |result|
    ensures r == result[..i] + RowSeq(result[i..], a, y, 0)
  {
    r := result;
    var carry: nat := 0;
    for j := 0 to |y|
      invariant |r| == |result|
      invariant r[..i + j] + RowSeq(r[i + j..], a, y[j..], carry)
             == result[..i] + RowSeq(result[i..], a, y, 0)
    {
      var product := Product(a, y[j], r[i + j], carry);
      RowStep(r, i + j, a, y[j..], carry);
      assert y[j..][1..] == y[j + 1..];
      r := r[i + j := Low(product)];
      carry := High(product);
    }
    RowEnd(r, i + |y|, a, carry);
    r := r[i + |y| := Low(carry)];
  }

  /** Writing one limb of a row moves the boundary between what is done and what is left. */
  lemma RowStep(r: seq<u64>, at: nat, a: u64, y: seq<u64>, carry: nat)
    requires 0 < |y| && at + |y| < |r|
    ensures var product := Product(a, y[0], r[at], carry);
            var r' := r[at := Low(product)];
            r'[..at + 1] + RowSeq(r'[at + 1..], a, y[1..], High(product)) == r[..at] + RowSeq(r[at..], a, y, carry)
  {
    var product := Product(a, y[0], r[at], carry);
    assert r[at..][1..] == r[at + 1..];
    Written(r, at, Low(product), RowSeq(r[at + 1..], a, y[1..], High(product)));
    assert r[at := Low(product)][at + 1..] == r[at + 1..];
  }

  lemma RowEnd(r: seq<u64>, at: nat, a: u64, carry: nat)
    requires at < |r|
    ensures r[at := Low(carry)] == r[..at] + RowSeq(r[at..], a, [], carry)
  {
  }

  lemma RowWritten(low: seq<u64>, row: seq<u64>, rest: seq<u64>)
    requires |row| > 0
    ensures (low + row)[..|low| + 1] + rest == low + ([row[0]] + rest)
    ensures (low + row)[|low| + 1..] == row[1..]
  {
    assert (low + row)[..|low| + 1] == low + [row[0]];
  }

  lemma MulSeqStep(r: seq<u64>, x: seq<u64>, y: seq<u64>, i: nat, r': seq<u64>)
    requires i < |x| && |r| == |x| + |y|
    requires r' == r[..i] + RowSeq(r[i..], x[i], y, 0)
    ensures |r'| == |r|
    ensures r'[..i + 1] + MulSeq(r'[i + 1..], x[i + 1..], y) == r[..i] + MulSeq(r[i..], x[i..], y)
  {
    var row := RowSeq(r[i..], x[i], y, 0);
    assert x[i..][1..] == x[i + 1..];
    RowWritten(r[..i], row, MulSeq(row[1..], x[i + 1..], y));
  }

  method MulLimbs(x: seq<u64>, y: seq<u64>) returns (result: seq<u64>)
    ensures result == MulSeq(Zeros(|x| + |y|), x, y)
  {
    result := Zeros(|x| + |y|);
    for i := 0 to |x|
      invariant |result| == |x| + |y|
      invariant result[..i] + MulSeq(result[i..], x[i..], y) == MulSeq(Zeros(|x| + |y|), x, y)
    {
      var next := MulRow(result, x[i], y, i);
      MulSeqStep(result, x, y, i, next);
      result := next;
    }
  }

  method Mul(a: Big, b: Big) returns (r: Big)
    ensures Val(r) == Val(a) * Val(b)
  {
    var za := IsZero(a);
    var zb := IsZero(b);
    if za || zb {
      SmallValues();
      return ZERO;
    }
    var result := MulLimbs(a.limbs, b.limbs);
    ValueZeroIff(Zeros(|a.limbs| + |b.limbs|));
    MulSeqValue(Zeros(|a.limbs| + |b.limbs|), a.limbs, b.limbs);
    r := Normalize(result);
  }
}
