/** The ChaCha20 block function and stream cipher of crypto/chacha20.rs (sections 2.1 to 2.4
    of RFC 8439). */
module ChaCha {
  import opened NumberTheory
  import opened Bits
  import opened Limbs
  import opened LittleEndian
  import opened Words32

  // ----- the quarter round on four words

  datatype Quad = Quad(a: u32, b: u32, c: u32, d: u32)

  function Minus(x: u32, y: u32): u32 {
    (x - y) % 0x1_0000_0000
  }

  /** Two additions, each followed by an exclusive or and a rotation. */
  function Half(q: Quad, x: nat, y: nat): Quad
    requires 0 < x < 32 && 0 < y < 32
  {
    var a := Plus(q.a, q.b);
    var d := RotL(Xor32(q.d, a), x);
    var c := Plus(q.c, d);
    Quad(a, RotL(Xor32(q.b, c), y), c, d)
  }

  function Quarter(q: Quad): Quad {
    Half(Half(q, 16, 12), 8, 7)
  }

  function Unhalf(q: Quad, x: nat, y: nat): Quad
    requires 0 < x < 32 && 0 < y < 32
  {
    var b := Xor32(RotL(q.b, 32 - y), q.c);
    var d := Xor32(RotL(q.d, 32 - x), q.a);
    Quad(Minus(q.a, b), b, Minus(q.c, q.d), d)
  }

  /** The quarter round run backwards. */
  function Unquarter(q: Quad): Quad {
    Unhalf(Unhalf(q, 8, 7), 16, 12)
  }

  lemma RotXorUndo(x: u32, y: u32, k: nat)
    requires 0 < k < 32
    ensures Xor32(RotL(RotL(Xor32(x, y), k), 32 - k), y) == x
  {
    RotUndo(Xor32(x, y), k);
    XorCancel(x, y);
  }

  lemma MinusPlus(x: u32, y: u32)
    ensures Minus(Plus(x, y), y) == x
  {
  }

  lemma HalfUndo(q: Quad, x: nat, y: nat)
    requires 0 < x < 32 && 0 < y < 32
    ensures Unhalf(Half(q, x, y), x, y) == q
  {
    var a := Plus(q.a, q.b);
    var d := RotL(Xor32(q.d, a), x);
    var c := Plus(q.c, d);
    RotXorUndo(q.b, c, y);
    RotXorUndo(q.d, a, x);
    MinusPlus(q.c, d);
    MinusPlus(q.a, q.b);
  }

  lemma QuarterUndo(q: Quad)
    ensures Unquarter(Quarter(q)) == q
  {
    HalfUndo(q, 16, 12);
    HalfUndo(Half(q, 16, 12), 8, 7);
  }

  /** One line of section 2.1 of RFC 8439, on the words 0 to 3: `x += y; z ^= x; z <<<= k`. */
  datatype Line = Line(x: nat, y: nat, z: nat, k: nat)
  {
    predicate Valid() {
      x < 4 && y < 4 && z < 4 && 0 < k < 32
    }

    function Run(v: seq<u32>): (r: seq<u32>)
      requires Valid() && |v| == 4
      ensures |r| == 4
    {
      var w := v[x := Plus(v[x], v[y])];
      w[z := RotL(Xor32(w[z], w[x]), k)]
    }
  }

  /** The quarter round is the four lines of the RFC. */
  lemma QuarterIsLines(q: Quad)
    ensures var r := Quarter(q);
            Line(2, 3, 1, 7).Run(Line(0, 1, 3, 8).Run(Line(2, 3, 1, 12).Run(Line(0, 1, 3, 16).Run([q.a, q.b, q.c, q.d]))))
            == [r.a, r.b, r.c, r.d]
  {
    HalfIsLines(q, 16, 12);
    HalfIsLines(Half(q, 16, 12), 8, 7);
  }

  lemma HalfIsLines(q: Quad, x: nat, y: nat)
    requires 0 < x < 32 && 0 < y < 32
    ensures var r := Half(q, x, y);
            Line(2, 3, 1, y).Run(Line(0, 1, 3, x).Run([q.a, q.b, q.c, q.d])) == [r.a, r.b, r.c, r.d]
  {
  }

  // ----- the block function

  type State = s: seq<u32> | |s| == 16 witness seq(16, i => 0)

  /** The four positions a quarter round works on. */
  datatype Spot = Spot(i: nat, j: nat, k: nat, l: nat)
  {
    predicate Valid() {
      i < 16 && j < 16 && k < 16 && l < 16 && i != j && i != k && i != l && j != k && j != l && k != l
    }
  }

  function Get(s: State, p: Spot): Quad
    requires p.Valid()
  {
    Quad(s[p.i], s[p.j], s[p.k], s[p.l])
  }

  function Put(s: State, p: Spot, q: Quad): State
    requires p.Valid()
  {
    s[p.i := q.a][p.j := q.b][p.k := q.c][p.l := q.d]
  }

  lemma GetPut(s: State, p: Spot, q: Quad, r: Quad)
    requires p.Valid()
    ensures Get(Put(s, p, q), p) == q && Put(Put(s, p, q), p, r) == Put(s, p, r)
  {
  }

  function QuarterAt(s: State, p: Spot): State
    requires p.Valid()
  {
    Put(s, p, Quarter(Get(s, p)))
  }

  lemma QuarterAtInjective(s: State, t: State, p: Spot)
    requires p.Valid() && QuarterAt(s, p) == QuarterAt(t, p)
    ensures s == t
  {
    var x, y := Get(s, p), Get(t, p);
    GetPut(s, p, Quarter(x), x);
    GetPut(t, p, Quarter(y), y);
    QuarterUndo(x);
    QuarterUndo(y);
    assert Put(s, p, x) == s && Put(t, p, y) == t;
  }

  predicate AllValid(ps: seq<Spot>) {
    forall n :: 0 <= n < |ps| ==> ps[n].Valid()
  }

  /** Quarter rounds one after the other. */
  function ApplyAll(s: State, ps: seq<Spot>): State
    requires AllValid(ps)
    decreases |ps|
  {
    if |ps| == 0 then s else ApplyAll(QuarterAt(s, ps[0]), ps[1..])
  }

  lemma {:induction false} ApplyAllConcat(s: State, ps: seq<Spot>, qs: seq<Spot>)
    requires AllValid(ps) && AllValid(qs)
    ensures ApplyAll(s, ps + qs) == ApplyAll(ApplyAll(s, ps), qs)
    decreases |ps|
  {
    if |ps| == 0 {
      assert ps + qs == qs;
    } else {
      assert (ps + qs)[1..] == ps[1..] + qs;
      ApplyAllConcat(QuarterAt(s, ps[0]), ps[1..], qs);
    }
  }

  lemma {:induction false} ApplyAllInjective(s: State, t: State, ps: seq<Spot>)
    requires AllValid(ps) && ApplyAll(s, ps) == ApplyAll(t, ps)
    ensures s == t
    decreases |ps|
  {
    if |ps| > 0 {
      ApplyAllInjective(QuarterAt(s, ps[0]), QuarterAt(t, ps[0]), ps[1..]);
      QuarterAtInjective(s, t, ps[0]);
    }
  }

  /** n passes over the same positions. */
  function Repeat(s: State, ps: seq<Spot>, n: nat): State
    requires AllValid(ps)
  {
    if n == 0 then s else ApplyAll(Repeat(s, ps, n - 1), ps)
  }

  /** Any number of rounds, on any positions, permutes the states. */
  lemma {:induction false} RoundsInjective(s: State, t: State, ps: seq<Spot>, n: nat)
    requires AllValid(ps) && Repeat(s, ps, n) == Repeat(t, ps, n)
    ensures s == t
  {
    if n > 0 {
      ApplyAllInjective(Repeat(s, ps, n - 1), Repeat(t, ps, n - 1), ps);
      RoundsInjective(s, t, ps, n - 1);
    }
  }

  const COLUMNS: seq<Spot> := [Spot(0, 4, 8, 12), Spot(1, 5, 9, 13), Spot(2, 6, 10, 14), Spot(3, 7, 11, 15)]
  const DIAGONALS: seq<Spot> := [Spot(0, 5, 10, 15), Spot(1, 6, 11, 12), Spot(2, 7, 8, 13), Spot(3, 4, 9, 14)]
  const DOUBLE_ROUNDS: nat := 10

  predicate KeyNonce(key: seq<u8>, nonce: seq<u8>) {
    |key| == 32 && |nonce| == 12
  }

  function Initial(key: seq<u8>, counter: u32, nonce: seq<u8>): State
    requires KeyNonce(key, nonce)
  {
    [0x6170_7865, 0x3320_646e, 0x7962_2d32, 0x6b20_6574,
     Word(key, 0), Word(key, 4), Word(key, 8), Word(key, 12),
     Word(key, 16), Word(key, 20), Word(key, 24), Word(key, 28),
     counter, Word(nonce, 0), Word(nonce, 4), Word(nonce, 8)]
  }

  function Serialized(s: seq<u32>): (b: seq<u8>)
    ensures |b| == 4 * |s|
  {
    if |s| == 0 then [] else Serialized(s[..|s| - 1]) + WordBytes(s[|s| - 1])
  }

  function SumStates(s: State, t: State): State {
    seq(16, i requires 0 <= i < 16 => Plus(s[i], t[i]))
  }

  type Block64 = b: seq<u8> | |b| == 64 witness ZeroBytes(64)

  /** The 64 bytes of key stream for one counter value. */
  function KeyBlock(key: seq<u8>, counter: u32, nonce: seq<u8>): Block64
    requires KeyNonce(key, nonce)
  {
    var s := Initial(key, counter, nonce);
    Serialized(SumStates(Repeat(s, COLUMNS + DIAGONALS, DOUBLE_ROUNDS), s))
  }

  function Cipher(key: seq<u8>, nonce: seq<u8>): u32 -> Block64
    requires KeyNonce(key, nonce)
  {
    counter => KeyBlock(key, counter, nonce)
  }

  method HalfRound(state: array<u32>, p: Spot, x: nat, y: nat)
    requires state.Length == 16 && p.Valid() && 0 < x < 32 && 0 < y < 32
    modifies state
    ensures state[..] == Put(old(state[..]), p, Half(Get(old(state[..]), p), x, y))
  {
    var i, j, k, l := p.i, p.j, p.k, p.l;
    state[i] := Plus(state[i], state[j]);
    state[l] := Xor32(state[l], state[i]);
    state[l] := RotL(state[l], x);
    state[k] := Plus(state[k], state[l]);
    state[j] := Xor32(state[j], state[k]);
    state[j] := RotL(state[j], y);
  }

  method QuarterRound(state: array<u32>, p: Spot)
    requires state.Length == 16 && p.Valid()
    modifies state
    ensures state[..] == QuarterAt(old(state[..]), p)
  {
    ghost var s := state[..];
    ghost var q := Half(Get(s, p), 16, 12);
    HalfRound(state, p, 16, 12);
    HalfRound(state, p, 8, 7);
    GetPut(s, p, q, Half(q, 8, 7));
  }

  lemma ApplyStep(s: State, ps: seq<Spot>, n: nat)
    requires AllValid(ps) && n < |ps|
    ensures ApplyAll(s, ps[n..]) == ApplyAll(QuarterAt(s, ps[n]), ps[n + 1..])
  {
    assert ps[n..][1..] == ps[n + 1..];
  }

  method FourRounds(state: array<u32>, ps: seq<Spot>)
    requires state.Length == 16 && |ps| == 4 && AllValid(ps)
    modifies state
    ensures state[..] == ApplyAll(old(state[..]), ps)
  {
    assert ps[0..] == ps;
    ApplyStep(state[..], ps, 0);
    QuarterRound(state, ps[0]);
    ApplyStep(state[..], ps, 1);
    QuarterRound(state, ps[1]);
    ApplyStep(state[..], ps, 2);
    QuarterRound(state, ps[2]);
    ApplyStep(state[..], ps, 3);
    QuarterRound(state, ps[3]);
  }

  method Permute(state: array<u32>, columns: seq<Spot>, diagonals: seq<Spot>, rounds: nat)
    requires state.Length == 16 && |columns| == |diagonals| == 4 && AllValid(columns) && AllValid(diagonals)
    modifies state
    ensures state[..] == Repeat(old(state[..]), columns + diagonals, rounds)
  {
    for n := 0 to rounds
      invariant state[..] == Repeat(old(state[..]), columns + diagonals, n)
    {
      ApplyAllConcat(state[..], columns, diagonals);
      FourRounds(state, columns);
      FourRounds(state, diagonals);
    }
  }

  method AddInitial(state: array<u32>, initial: State)
    requires state.Length == 16
    modifies state
    ensures state[..] == SumStates(old(state[..]), initial)
  {
    for i := 0 to 16
      invariant forall n :: 0 <= n < i ==> state[n] == Plus(old(state[n]), initial[n])
      invariant forall n :: i <= n < 16 ==> state[n] == old(state[n])
    {
      state[i] := Plus(state[i], initial[i]);
    }
  }

  method SerializeState(state: array<u32>) returns (output: seq<u8>)
    ensures output == Serialized(state[..])
  {
    output := [];
    for i := 0 to state.Length
      invariant output == Serialized(state[..i])
    {
      assert state[..i + 1][..i] == state[..i];
      output := output + WordBytes(state[i]);
    }
    assert state[..state.Length] == state[..];
  }

  method Chacha20Block(key: seq<u8>, counter: u32, nonce: seq<u8>) returns (output: seq<u8>)
    requires KeyNonce(key, nonce)
    ensures output == Cipher(key, nonce)(counter)
    ensures var s := Words(Input(key, counter, nonce)); output == Serialized(SumStates(Rounds(s, 20), s))
  {
    var initial := Initial(key, counter, nonce);
    var state := new u32[16](i requires 0 <= i < 16 => initial[i]);
    assert state[..] == initial;
    Permute(state, COLUMNS, DIAGONALS, DOUBLE_ROUNDS);
    AddInitial(state, initial);
    output := SerializeState(state);
    BlockIsTwentyRounds(key, counter, nonce);
  }

  // ----- the block function as sections 2.3 and 2.3.1 of RFC 8439 give it

  /** The words of a byte string, and the characters of an ASCII string. */
  function Words(b: seq<u8>): (s: seq<u32>)
    ensures |s| == |b| / 4
  {
    seq(|b| / 4, i requires 0 <= i < |b| / 4 => Word(b, 4 * i))
  }

  function Ascii(s: string): (b: seq<u8>)
    requires forall i :: 0 <= i < |s| ==> s[i] as int < 128
    ensures |b| == |s|
  {
    seq(|s|, i requires 0 <= i < |s| => s[i] as int)
  }

  lemma SerializedPush(s: seq<u32>, w: u32)
    ensures Serialized(s + [w]) == Serialized(s) + WordBytes(w)
  {
    assert (s + [w])[..|s|] == s;
  }

  lemma WordsPush(b: seq<u8>)
    requires |b| % 4 == 0 && |b| > 0
    ensures Words(b) == Words(b[..|b| - 4]) + [Word(b, |b| - 4)]
  {
  }

  lemma {:induction false} SerializedWords(b: seq<u8>)
    requires |b| % 4 == 0
    ensures Serialized(Words(b)) == b
  {
    if |b| == 0 {
      assert Words(b) == [];
    } else {
      var front, w := b[..|b| - 4], Word(b, |b| - 4);
      SerializedWords(front);
      WordsPush(b);
      SerializedPush(Words(front), w);
      WordBytesOf(b, |b| - 4);
    }
  }

  /** The sixteen words in a row: the constant, the key, the counter and the nonce. */
  function Input(key: seq<u8>, counter: u32, nonce: seq<u8>): (b: seq<u8>)
    requires KeyNonce(key, nonce)
    ensures |b| == 64
  {
    Ascii("expand 32-byte k") + key + WordBytes(counter) + nonce
  }

  lemma WordAt(a: seq<u8>, b: seq<u8>, c: seq<u8>, i: nat)
    requires i + 4 <= |b|
    ensures Word(a + b + c, |a| + i) == Word(b, i)
  {
    var s := a + b + c;
    assert s[|a| + i] == b[i] && s[|a| + i + 1] == b[i + 1] && s[|a| + i + 2] == b[i + 2] && s[|a| + i + 3] == b[i + 3];
  }

  lemma ConstantWords()
    ensures var b := Ascii("expand 32-byte k");
            Word(b, 0) == 0x6170_7865 && Word(b, 4) == 0x3320_646e && Word(b, 8) == 0x7962_2d32 && Word(b, 12) == 0x6b20_6574
  {
  }

  /** Where word n of four parts in a row, of 16, 32, 4 and 12 bytes, comes from. */
  lemma PartsWord(a: seq<u8>, b: seq<u8>, c: seq<u8>, d: seq<u8>, n: nat)
    requires |a| == 16 && |b| == 32 && |c| == 4 && |d| == 12 && n < 16
    ensures Word(a + b + c + d, 4 * n) ==
            if n < 4 then Word(a, 4 * n) else if n < 12 then Word(b, 4 * n - 16)
            else if n == 12 then Word(c, 0) else Word(d, 4 * n - 52)
  {
    var s := a + b + c + d;
    if n < 4 {
      WordAt([], a, b + c + d, 4 * n);
      assert s == [] + a + (b + c + d);
    } else if n < 12 {
      WordAt(a, b, c + d, 4 * n - 16);
      assert s == a + b + (c + d);
    } else if n == 12 {
      WordAt(a + b, c, d, 0);
    } else {
      WordAt(a + b + c, d, [], 4 * n - 52);
      assert s == a + b + c + d + [];
    }
  }

  /** The bytes of the initial state are the constant, the key, the counter and the nonce. */
  lemma InitialIsInput(key: seq<u8>, counter: u32, nonce: seq<u8>)
    requires KeyNonce(key, nonce)
    ensures Initial(key, counter, nonce) == Words(Input(key, counter, nonce))
    ensures Serialized(Initial(key, counter, nonce)) == Input(key, counter, nonce)
  {
    var s, w := Initial(key, counter, nonce), Words(Input(key, counter, nonce));
    ConstantWords();
    forall n | 0 <= n < 16
      ensures s[n] == w[n]
    {
      PartsWord(Ascii("expand 32-byte k"), key, WordBytes(counter), nonce, n);
    }
    assert s == w;
    SerializedWords(Input(key, counter, nonce));
  }

  /** Column c of the 4 x 4 state, with row r taken d * r places further to the right, cyclically. */
  function Slanted(c: nat, d: nat): (p: Spot)
    requires c < 4
    ensures p.Valid()
  {
    Spot(c, 4 + (c + d) % 4, 8 + (c + 2 * d) % 4, 12 + (c + 3 * d) % 4)
  }

  function OneRound(s: State, d: nat): State {
    QuarterAt(QuarterAt(QuarterAt(QuarterAt(s, Slanted(0, d)), Slanted(1, d)), Slanted(2, d)), Slanted(3, d))
  }

  /** n rounds, which work on columns and on diagonals in turn. */
  function RoundsBy<T>(round: (T, nat) -> T, s: T, n: nat): T {
    if n == 0 then s else round(RoundsBy(round, s, n - 1), (n - 1) % 2)
  }

  function Rounds(s: State, n: nat): State {
    RoundsBy(OneRound, s, n)
  }

  lemma TwoRounds<T>(round: (T, nat) -> T, s: T, n: nat)
    requires n > 0
    ensures RoundsBy(round, s, 2 * n) == round(round(RoundsBy(round, s, 2 * n - 2), 0), 1)
  {
    assert RoundsBy(round, s, 2 * n - 1) == round(RoundsBy(round, s, 2 * n - 2), 0);
  }

  predicate Round(ps: seq<Spot>, d: nat) {
    |ps| == 4 && ps[0] == Slanted(0, d) && ps[1] == Slanted(1, d) && ps[2] == Slanted(2, d) && ps[3] == Slanted(3, d)
  }

  lemma FourAre(s: State, ps: seq<Spot>, d: nat)
    requires Round(ps, d)
    ensures AllValid(ps) && ApplyAll(s, ps) == OneRound(s, d)
  {
    var s1 := QuarterAt(s, ps[0]);
    var s2 := QuarterAt(s1, ps[1]);
    var s3 := QuarterAt(s2, ps[2]);
    assert ps[0..] == ps && ps[4..] == [];
    ApplyStep(s, ps, 0);
    ApplyStep(s1, ps, 1);
    ApplyStep(s2, ps, 2);
    ApplyStep(s3, ps, 3);
  }

  /** The code's positions are the columns, and the columns with row r moved by r. */
  lemma PositionsAreRounds()
    ensures Round(COLUMNS, 0) && Round(DIAGONALS, 1)
  {
  }

  lemma BothAre(s: State, ps: seq<Spot>, qs: seq<Spot>)
    requires Round(ps, 0) && Round(qs, 1)
    ensures AllValid(ps + qs) && ApplyAll(s, ps + qs) == OneRound(OneRound(s, 0), 1)
  {
    FourAre(s, ps, 0);
    var t := OneRound(s, 0);
    FourAre(t, qs, 1);
    BothInTurn(s, ps, qs, t);
  }

  lemma BothInTurn(s: State, ps: seq<Spot>, qs: seq<Spot>, t: State)
    requires AllValid(ps) && AllValid(qs) && ApplyAll(s, ps) == t
    ensures AllValid(ps + qs) && ApplyAll(s, ps + qs) == ApplyAll(t, qs)
  {
    ApplyAllConcat(s, ps, qs);
  }

  /** Passes over positions that amount to two rounds each. */
  lemma {:induction false} RepeatIsRounds(round: (State, nat) -> State, s: State, ps: seq<Spot>, n: nat)
    requires AllValid(ps) && forall t {:trigger round(t, 0)} :: ApplyAll(t, ps) == round(round(t, 0), 1)
    ensures Repeat(s, ps, n) == RoundsBy(round, s, 2 * n)
  {
    if n > 0 {
      RepeatIsRounds(round, s, ps, n - 1);
      TwoRounds(round, s, n);
    }
  }

  lemma DoubleRounds(s: State, n: nat)
    ensures Repeat(s, COLUMNS + DIAGONALS, n) == Rounds(s, 2 * n)
  {
    var ps := COLUMNS + DIAGONALS;
    PositionsAreRounds();
    forall t: State
      ensures AllValid(ps) && ApplyAll(t, ps) == OneRound(OneRound(t, 0), 1)
    {
      BothAre(t, COLUMNS, DIAGONALS);
    }
    RepeatIsRounds(OneRound, s, ps, n);
  }

  /** The block: twenty rounds on the words of the input, added to these words. */
  lemma BlockIsTwentyRounds(key: seq<u8>, counter: u32, nonce: seq<u8>)
    requires KeyNonce(key, nonce)
    ensures var s := Words(Input(key, counter, nonce)); Cipher(key, nonce)(counter) == Serialized(SumStates(Rounds(s, 20), s))
  {
    InitialIsInput(key, counter, nonce);
    DoubleRounds(Initial(key, counter, nonce), 10);
  }

  // ----- the stream cipher, for any block function

  function Advance(counter: u32, blocks: nat): u32 {
    (counter + blocks) % 0x1_0000_0000
  }

  /** Byte i of the key stream that starts at a counter. */
  function KeyByte(f: u32 -> Block64, counter: u32, i: nat): u8 {
    f(Advance(counter, i / 64))[i % 64]
  }

  function XorByte(x: u8, y: u8): u8 {
    Pow2Words();
    XorBound(x, y, 8);
    Xor(x, y)
  }

  function Crypt(f: u32 -> Block64, counter: u32, text: seq<u8>): (r: seq<u8>)
    ensures |r| == |text|
    ensures forall i :: 0 <= i < |text| ==> r[i] == XorByte(text[i], KeyByte(f, counter, i))
  {
    seq(|text|, i requires 0 <= i < |text| => XorByte(text[i], KeyByte(f, counter, i)))
  }

  /** Encrypting twice from the same counter is the identity. */
  lemma CryptTwice(f: u32 -> Block64, counter: u32, text: seq<u8>)
    ensures Crypt(f, counter, Crypt(f, counter, text)) == text
  {
    var once := Crypt(f, counter, text);
    forall i | 0 <= i < |text|
      ensures Crypt(f, counter, once)[i] == text[i]
    {
      XorCancel(text[i], KeyByte(f, counter, i));
    }
  }

  lemma AdvanceTwice(counter: u32, a: nat, b: nat)
    ensures Advance(Advance(counter, a), b) == Advance(counter, a + b)
  {
  }

  lemma KeyByteShift(f: u32 -> Block64, counter: u32, n: nat, i: nat)
    ensures KeyByte(f, counter, 64 * n + i) == KeyByte(f, Advance(counter, n), i)
  {
    assert (64 * n + i) / 64 == n + i / 64 && (64 * n + i) % 64 == i % 64;
    AdvanceTwice(counter, n, i / 64);
  }

  /** A message may be cut at any multiple of 64 bytes if the counter is advanced, wrapping, by the
      blocks already used. */
  lemma CryptSplit(f: u32 -> Block64, counter: u32, a: seq<u8>, b: seq<u8>)
    requires |a| % 64 == 0
    ensures Crypt(f, counter, a + b) == Crypt(f, counter, a) + Crypt(f, Advance(counter, |a| / 64), b)
  {
    var whole := Crypt(f, counter, a + b);
    CryptHead(f, counter, a, b);
    CryptTail(f, counter, a, b);
    assert whole == whole[..|a|] + whole[|a|..];
  }

  lemma CryptHead(f: u32 -> Block64, counter: u32, a: seq<u8>, b: seq<u8>)
    ensures Crypt(f, counter, a + b)[..|a|] == Crypt(f, counter, a)
  {
    var whole := Crypt(f, counter, a + b);
    forall i | 0 <= i < |a|
      ensures whole[..|a|][i] == Crypt(f, counter, a)[i]
    {
      assert (a + b)[i] == a[i];
    }
  }

  lemma CryptTail(f: u32 -> Block64, counter: u32, a: seq<u8>, b: seq<u8>)
    requires |a| % 64 == 0
    ensures Crypt(f, counter, a + b)[|a|..] == Crypt(f, Advance(counter, |a| / 64), b)
  {
    var n := |a| / 64;
    var whole := Crypt(f, counter, a + b);
    forall i | 0 <= i < |b|
      ensures whole[|a|..][i] == Crypt(f, Advance(counter, n), b)[i]
    {
      assert |a| + i == 64 * n + i && (a + b)[|a| + i] == b[i];
      KeyByteShift(f, counter, n, i);
    }
  }

  /** One chunk of at most 64 bytes against one block of key stream. */
  method XorChunk(chunk: seq<u8>, keystream: seq<u8>) returns (out: seq<u8>)
    requires |chunk| <= 64 == |keystream|
    ensures |out| == |chunk| && forall i :: 0 <= i < |chunk| ==> out[i] == XorByte(chunk[i], keystream[i])
  {
    out := [];
    for i := 0 to |chunk|
      invariant |out| == i && forall n :: 0 <= n < i ==> out[n] == XorByte(chunk[n], keystream[n])
    {
      out := out + [XorByte(chunk[i], keystream[i])];
    }
  }

  lemma OneChunk(f: u32 -> Block64, counter: u32, chunk: seq<u8>, out: seq<u8>)
    requires |chunk| <= 64 && |out| == |chunk|
    requires forall i :: 0 <= i < |chunk| ==> out[i] == XorByte(chunk[i], f(counter)[i])
    ensures out == Crypt(f, counter, chunk)
  {
    forall i | 0 <= i < |chunk|
      ensures KeyByte(f, counter, i) == f(counter)[i]
    {
      assert Advance(counter, 0) == counter;
    }
  }

  method CryptChunk(key: seq<u8>, nonce: seq<u8>, counter: u32, chunk: seq<u8>) returns (out: seq<u8>)
    requires KeyNonce(key, nonce) && |chunk| <= 64
    ensures out == Crypt(Cipher(key, nonce), counter, chunk)
  {
    var keystream := Chacha20Block(key, counter, nonce);
    out := XorChunk(chunk, keystream);
    OneChunk(Cipher(key, nonce), counter, chunk, out);
  }

  lemma ChunkStep(f: u32 -> Block64, counter: u32, text: seq<u8>, n: nat, end: nat, out: seq<u8>)
    requires 64 * n <= end <= |text|
    requires out == Crypt(f, Advance(counter, n), text[64 * n..end])
    ensures Crypt(f, counter, text[..end]) == Crypt(f, counter, text[..64 * n]) + out
  {
    var a, b := text[..64 * n], text[64 * n..end];
    assert text[..end] == a + b;
    assert |a| % 64 == 0 && |a| / 64 == n;
    CryptSplit(f, counter, a, b);
  }

  lemma NextCounter(counter: u32, n: nat)
    ensures Plus(Advance(counter, n), 1) == Advance(counter, n + 1)
  {
  }

  method Chacha20Encrypt(key: seq<u8>, nonce: seq<u8>, counter: u32, plaintext: seq<u8>) returns (ciphertext: seq<u8>)
    requires KeyNonce(key, nonce)
    ensures ciphertext == Crypt(Cipher(key, nonce), counter, plaintext)
  {
    ghost var f, n := Cipher(key, nonce), 0;
    ciphertext := [];
    var blockCounter := counter;
    var offset := 0;
    while offset < |plaintext|
      invariant offset == (if 64 * n <= |plaintext| then 64 * n else |plaintext|)
      invariant blockCounter == Advance(counter, n)
      invariant ciphertext == Crypt(f, counter, plaintext[..offset])
    {
      var end := if offset + 64 <= |plaintext| then offset + 64 else |plaintext|;
      var out := CryptChunk(key, nonce, blockCounter, plaintext[offset..end]);
      ChunkStep(f, counter, plaintext, n, end, out);
      NextCounter(counter, n);
      ciphertext := ciphertext + out;
      blockCounter := Plus(blockCounter, 1);
      offset, n := end, n + 1;
    }
    assert plaintext[..offset] == plaintext;
  }
}
