/** The AES block transformations of crypto/aes.rs and their inverses (sections 5.1 and 5.3 of
    FIPS 197), for any number of round keys. */
module AesBlock {
  import opened AesField
  import C = Circulant

  type Block = s: seq<bv8> | |s| == 16 witness ZeroBytes16()

  function ZeroBytes16(): (s: seq<bv8>)
    ensures |s| == 16
  {
    seq(16, i => 0)
  }

  function ZeroBlock(): Block {
    ZeroBytes16()
  }

  // ----- the layers

  function SubBytes(s: Block): Block {
    seq(16, i requires 0 <= i < 16 => Sub(s[i]))
  }

  function InvSubBytes(s: Block): Block {
    seq(16, i requires 0 <= i < 16 => InvSub(s[i]))
  }

  /** The state is stored by columns; row r is rotated left, or right, by r places. */
  function RowsLeft<T>(s: seq<T>): (r: seq<T>)
    requires |s| == 16
  {
    [s[0], s[5], s[10], s[15], s[4], s[9], s[14], s[3], s[8], s[13], s[2], s[7], s[12], s[1], s[6], s[11]]
  }

  function RowsRight<T>(s: seq<T>): (r: seq<T>)
    requires |s| == 16
  {
    [s[0], s[13], s[10], s[7], s[4], s[1], s[14], s[11], s[8], s[5], s[2], s[15], s[12], s[9], s[6], s[3]]
  }

  function ShiftRows(s: Block): Block {
    RowsLeft(s)
  }

  function InvShiftRows(s: Block): Block {
    RowsRight(s)
  }

  function ColumnOf(s: Block, c: nat): C.Col<bv8>
    requires c < 4
  {
    C.Col(s[4 * c], s[4 * c + 1], s[4 * c + 2], s[4 * c + 3])
  }

  function FromColumns(c0: C.Col<bv8>, c1: C.Col<bv8>, c2: C.Col<bv8>, c3: C.Col<bv8>): Block {
    [c0.a, c0.b, c0.c, c0.d, c1.a, c1.b, c1.c, c1.d, c2.a, c2.b, c2.c, c2.d, c3.a, c3.b, c3.c, c3.d]
  }

  function MapColumns(f: C.Col<bv8> -> C.Col<bv8>, s: Block): Block {
    FromColumns(f(ColumnOf(s, 0)), f(ColumnOf(s, 1)), f(ColumnOf(s, 2)), f(ColumnOf(s, 3)))
  }

  function MixColumns(s: Block): Block {
    MapColumns(MixColumn, s)
  }

  function InvMixColumns(s: Block): Block {
    MapColumns(UnmixColumn, s)
  }

  function AddKey(s: Block, k: Block): Block {
    seq(16, i requires 0 <= i < 16 => s[i] ^ k[i])
  }

  // ----- each layer is undone

  lemma SubBytesUndo(s: Block)
    ensures InvSubBytes(SubBytes(s)) == s
  {
    forall i | 0 <= i < 16
      ensures InvSubBytes(SubBytes(s))[i] == s[i]
    {
      SubUndo(s[i]);
    }
  }

  lemma ShiftRowsUndo(s: Block)
    ensures InvShiftRows(ShiftRows(s)) == s
  {
    RowsUndo(s);
  }

  lemma RowsUndo<T>(s: seq<T>)
    requires |s| == 16
    ensures RowsRight(RowsLeft(s)) == s
  {
  }

  /** Entry (r, c) of the shifted state is entry (r, c + r) of the state, columns counted modulo 4. */
  lemma RowsRotate<T>(s: seq<T>, r: nat, c: nat)
    requires |s| == 16 && r < 4 && c < 4
    ensures RowsLeft(s)[4 * c + r] == s[4 * (if c + r < 4 then c + r else c + r - 4) + r]
  {
  }

  lemma MapColumnsUndo(f: C.Col<bv8> -> C.Col<bv8>, g: C.Col<bv8> -> C.Col<bv8>, s: Block)
    requires forall c :: g(f(c)) == c
    ensures MapColumns(g, MapColumns(f, s)) == s
  {
    var t := MapColumns(f, s);
    assert ColumnOf(t, 0) == f(ColumnOf(s, 0)) && ColumnOf(t, 1) == f(ColumnOf(s, 1));
    assert ColumnOf(t, 2) == f(ColumnOf(s, 2)) && ColumnOf(t, 3) == f(ColumnOf(s, 3));
    SplitColumns(s);
  }

  lemma MixColumnsUndo(s: Block)
    ensures InvMixColumns(MixColumns(s)) == s
  {
    forall c
      ensures UnmixColumn(MixColumn(c)) == c
    {
      MixColumnUndo(c);
    }
    MapColumnsUndo(MixColumn, UnmixColumn, s);
  }

  lemma SplitColumns(s: Block)
    ensures FromColumns(ColumnOf(s, 0), ColumnOf(s, 1), ColumnOf(s, 2), ColumnOf(s, 3)) == s
  {
  }

  lemma AddKeyUndo(s: Block, k: Block)
    ensures AddKey(AddKey(s, k), k) == s
  {
    forall i | 0 <= i < 16
      ensures AddKey(AddKey(s, k), k)[i] == s[i]
    {
      XorTwice(s[i], k[i]);
    }
  }

  lemma XorTwice(a: bv8, b: bv8)
    ensures (a ^ b) ^ b == a
  {
  }

  // ----- whole blocks, for layers given as functions

  /** A substitution layer and a mixing layer with their inverses. */
  datatype Layers = Layers(sub: Block -> Block, mix: Block -> Block, unsub: Block -> Block, unmix: Block -> Block)
  {
    ghost predicate Undone() {
      (forall s :: unsub(sub(s)) == s) && (forall s :: unmix(mix(s)) == s)
    }

    /** The state after the first key addition and r full rounds. */
    function Rounds(s: Block, keys: seq<Block>, r: nat): Block
      requires r < |keys|
    {
      if r == 0 then AddKey(s, keys[0]) else AddKey(mix(sub(Rounds(s, keys, r - 1))), keys[r])
    }

    lemma OneRound(s: Block, keys: seq<Block>, r: nat)
      requires 0 < r < |keys|
      ensures Rounds(s, keys, r) == AddKey(mix(sub(Rounds(s, keys, r - 1))), keys[r])
    {
    }

    function Encrypt(s: Block, keys: seq<Block>): Block
      requires |keys| >= 2
    {
      AddKey(sub(Rounds(s, keys, |keys| - 2)), keys[|keys| - 1])
    }

    /** The rounds from r down to 1, and the last one without mixing. */
    function Unwind(s: Block, keys: seq<Block>, r: nat): Block
      requires r < |keys|
      decreases r
    {
      if r == 0 then AddKey(unsub(s), keys[0]) else Unwind(unmix(AddKey(unsub(s), keys[r])), keys, r - 1)
    }

    function Decrypt(s: Block, keys: seq<Block>): Block
      requires |keys| >= 2
    {
      Unwind(AddKey(s, keys[|keys| - 1]), keys, |keys| - 2)
    }

    lemma {:induction false} UnwindRounds(s: Block, keys: seq<Block>, r: nat)
      requires Undone() && r < |keys|
      ensures Unwind(sub(Rounds(s, keys, r)), keys, r) == s
      decreases r
    {
      if r == 0 {
        AddKeyUndo(s, keys[0]);
      } else {
        var before := mix(sub(Rounds(s, keys, r - 1)));
        AddKeyUndo(before, keys[r]);
        UnwindRounds(s, keys, r - 1);
      }
    }

    /** Decryption inverts encryption, for arbitrary round keys. */
    lemma DecryptEncrypt(s: Block, keys: seq<Block>)
      requires Undone() && |keys| >= 2
      ensures Decrypt(Encrypt(s, keys), keys) == s
    {
      AddKeyUndo(sub(Rounds(s, keys, |keys| - 2)), keys[|keys| - 1]);
      UnwindRounds(s, keys, |keys| - 2);
    }
  }

  function Substitute(s: Block): Block {
    ShiftRows(SubBytes(s))
  }

  function Unsubstitute(s: Block): Block {
    InvSubBytes(InvShiftRows(s))
  }

  function Aes(): Layers {
    Layers(Substitute, MixColumns, Unsubstitute, InvMixColumns)
  }

  lemma AesUndone()
    ensures Aes().Undone()
  {
    forall s: Block
      ensures Unsubstitute(Substitute(s)) == s
    {
      ShiftRowsUndo(SubBytes(s));
      SubBytesUndo(s);
    }
    forall s: Block
      ensures InvMixColumns(MixColumns(s)) == s
    {
      MixColumnsUndo(s);
    }
  }

  /** The block ciphers with 11 and with 15 round keys, and any other number. */
  lemma BlockRoundTrip(s: Block, keys: seq<Block>)
    requires |keys| >= 2
    ensures Aes().Decrypt(Aes().Encrypt(s, keys), keys) == s
  {
    AesUndone();
    Aes().DecryptEncrypt(s, keys);
  }

  // ----- the code, in place on a 16-byte state

  method MapInPlace(state: array<bv8>, f: bv8 -> bv8)
    requires state.Length == 16
    modifies state
    ensures forall j :: 0 <= j < 16 ==> state[j] == f(old(state[j]))
  {
    for i := 0 to 16
      invariant forall j :: 0 <= j < i ==> state[j] == f(old(state[j]))
      invariant forall j :: i <= j < 16 ==> state[j] == old(state[j])
    {
      state[i] := f(state[i]);
    }
  }

  method SubBytesInPlace(state: array<bv8>)
    requires state.Length == 16
    modifies state
    ensures state[..] == SubBytes(old(state[..]))
  {
    MapInPlace(state, Sub);
  }

  method InvSubBytesInPlace(state: array<bv8>)
    requires state.Length == 16
    modifies state
    ensures state[..] == InvSubBytes(old(state[..]))
  {
    MapInPlace(state, InvSub);
  }

  function Cycled<T>(s: seq<T>, i: nat, j: nat, k: nat, l: nat): seq<T>
    requires |s| == 16 && i < 16 && j < 16 && k < 16 && l < 16
  {
    s[i := s[j]][j := s[k]][k := s[l]][l := s[i]]
  }

  method Cycle<T>(state: array<T>, i: nat, j: nat, k: nat, l: nat)
    requires state.Length == 16 && i < 16 && j < 16 && k < 16 && l < 16
    requires i != j && i != k && i != l && j != k && j != l && k != l
    modifies state
    ensures state[..] == Cycled(old(state[..]), i, j, k, l)
  {
    var tmp := state[i];
    state[i] := state[j];
    state[j] := state[k];
    state[k] := state[l];
    state[l] := tmp;
  }

  function Crossed<T>(s: seq<T>): seq<T>
    requires |s| == 16
  {
    s[2 := s[10]][6 := s[14]][10 := s[2]][14 := s[6]]
  }

  method Cross<T>(state: array<T>)
    requires state.Length == 16
    modifies state
    ensures state[..] == Crossed(old(state[..]))
  {
    var tmp1, tmp2 := state[2], state[6];
    state[2] := state[10];
    state[6] := state[14];
    state[10] := tmp1;
    state[14] := tmp2;
  }

  method ShiftRowsInPlace<T>(state: array<T>)
    requires state.Length == 16
    modifies state
    ensures state[..] == RowsLeft(old(state[..]))
  {
    Cycle(state, 1, 5, 9, 13);
    Cross(state);
    Cycle(state, 15, 11, 7, 3);
  }

  method InvShiftRowsInPlace<T>(state: array<T>)
    requires state.Length == 16
    modifies state
    ensures state[..] == RowsRight(old(state[..]))
  {
    Cycle(state, 13, 9, 5, 1);
    Cross(state);
    Cycle(state, 3, 7, 11, 15);
  }

  method AddKeyInPlace(state: array<bv8>, key: Block)
    requires state.Length == 16
    modifies state
    ensures state[..] == AddKey(old(state[..]), key)
  {
    for i := 0 to 16
      invariant forall j :: 0 <= j < i ==> state[j] == old(state[j]) ^ key[j]
      invariant forall j :: i <= j < 16 ==> state[j] == old(state[j])
    {
      state[i] := state[i] ^ key[i];
    }
  }

  /** One column rewritten in place. */
  method ColumnInPlace(state: array<bv8>, c: nat, f: C.Col<bv8> -> C.Col<bv8>)
    requires state.Length == 16 && c < 4
    modifies state
    ensures ColumnOf(state[..], c) == f(ColumnOf(old(state[..]), c))
    ensures forall x :: 0 <= x < 4 && x != c ==> ColumnOf(state[..], x) == ColumnOf(old(state[..]), x)
  {
    var i := 4 * c;
    var m := f(C.Col(state[i], state[i + 1], state[i + 2], state[i + 3]));
    state[i], state[i + 1], state[i + 2], state[i + 3] := m.a, m.b, m.c, m.d;
  }

  method ColumnsInPlace(state: array<bv8>, f: C.Col<bv8> -> C.Col<bv8>)
    requires state.Length == 16
    modifies state
    ensures state[..] == MapColumns(f, old(state[..]))
  {
    for c := 0 to 4
      invariant forall x :: 0 <= x < c ==> ColumnOf(state[..], x) == f(ColumnOf(old(state[..]), x))
      invariant forall x :: c <= x < 4 ==> ColumnOf(state[..], x) == ColumnOf(old(state[..]), x)
    {
      ColumnInPlace(state, c, f);
    }
    SplitColumns(state[..]);
  }

  method MixColumnsInPlace(state: array<bv8>)
    requires state.Length == 16
    modifies state
    ensures state[..] == MixColumns(old(state[..]))
  {
    ColumnsInPlace(state, MixColumn);
  }

  method InvMixColumnsInPlace(state: array<bv8>)
    requires state.Length == 16
    modifies state
    ensures state[..] == InvMixColumns(old(state[..]))
  {
    ColumnsInPlace(state, UnmixColumn);
  }

  function Each(f: bv8 -> bv8, s: Block): Block {
    seq(16, i requires 0 <= i < 16 => f(s[i]))
  }

  lemma OneRound(f: bv8 -> bv8, s: Block, k0: Block, k1: Block, r: nat, c: nat)
    requires r < 4 && c < 4
    ensures var i, j := 4 * c + r, 4 * (if c + r < 4 then c + r else c + r - 4) + r;
            AddKey(RowsLeft(Each(f, AddKey(s, k0))), k1)[i] == XorByte(f(XorByte(s[j], k0[j])), k1[i])
  {
    var i, j := 4 * c + r, 4 * (if c + r < 4 then c + r else c + r - 4) + r;
    var t := Each(f, AddKey(s, k0));
    RowsRotate(t, r, c);
    AddedAt(s, k0, j, s[j]);
    AddedAt(RowsLeft(t), k1, i, t[j]);
  }

  lemma AddedAt(s: Block, k: Block, i: nat, x: bv8)
    requires i < 16 && s[i] == x
    ensures AddKey(s, k)[i] == XorByte(x, k[i])
  {
  }

  /** The last round does not mix: with two round keys, entry (r, c) of the result depends on entry
      (r, c + r) of the block alone, columns counted modulo 4. */
  lemma LastRoundBytewise(s: Block, k0: Block, k1: Block, r: nat, c: nat)
    requires r < 4 && c < 4
    ensures var i, j := 4 * c + r, 4 * (if c + r < 4 then c + r else c + r - 4) + r;
            Aes().Encrypt(s, [k0, k1])[i] == XorByte(Sub(XorByte(s[j], k0[j])), k1[i])
  {
    OneRound(Sub, s, k0, k1, r, c);
    LastRound(s, k0, k1);
  }

  lemma LastRound(s: Block, k0: Block, k1: Block)
    ensures Aes().Encrypt(s, [k0, k1]) == AddKey(RowsLeft(Each(Sub, AddKey(s, k0))), k1)
  {
    assert Aes().Rounds(s, [k0, k1], 0) == AddKey(s, k0);
    SubBytesEach(AddKey(s, k0));
  }

  lemma SubBytesEach(s: Block)
    ensures SubBytes(s) == Each(Sub, s)
  {
  }

  // ----- blocks of one byte value

  function Uniform(x: bv8): Block {
    seq(16, i requires 0 <= i < 16 => x)
  }

  function UniformKeys(ks: seq<bv8>): (keys: seq<Block>)
    ensures |keys| == |ks|
  {
    seq(|ks|, i requires 0 <= i < |ks| => Uniform(ks[i]))
  }

  /** The key byte before the first round and after each of the r rounds, with the substitution f between. */
  function ByteRounds(f: bv8 -> bv8, x: bv8, ks: seq<bv8>, r: nat): bv8
    requires r < |ks|
  {
    if r == 0 then XorByte(x, ks[0]) else XorByte(f(ByteRounds(f, x, ks, r - 1)), ks[r])
  }

  /** On blocks of one byte value a layer acts as f does on that byte. */
  ghost predicate ActsAs(layer: Block -> Block, f: bv8 -> bv8, x: bv8) {
    layer(Uniform(x)) == Uniform(f(x))
  }

  lemma AddUniform(x: bv8, k: bv8)
    ensures AddKey(Uniform(x), Uniform(k)) == Uniform(XorByte(x, k))
  {
  }

  lemma {:induction false} UniformRounds(a: Layers, f: bv8 -> bv8, x: bv8, ks: seq<bv8>, r: nat)
    requires r < |ks| && forall y {:trigger ActsAs(a.sub, f, y)} :: ActsAs(a.sub, f, y)
    requires forall y {:trigger ActsAs(a.mix, Id, y)} :: ActsAs(a.mix, Id, y)
    ensures a.Rounds(Uniform(x), UniformKeys(ks), r) == Uniform(ByteRounds(f, x, ks, r))
  {
    if r == 0 {
      AddUniform(x, ks[0]);
    } else {
      UniformRounds(a, f, x, ks, r - 1);
      var y := ByteRounds(f, x, ks, r - 1);
      assert ActsAs(a.sub, f, y) && ActsAs(a.mix, Id, f(y));
      AddUniform(f(y), ks[r]);
    }
  }

  lemma UniformLast(a: Layers, f: bv8 -> bv8, x: bv8, ks: seq<bv8>)
    requires |ks| >= 2 && forall y {:trigger ActsAs(a.sub, f, y)} :: ActsAs(a.sub, f, y)
    requires forall y {:trigger ActsAs(a.mix, Id, y)} :: ActsAs(a.mix, Id, y)
    ensures a.Encrypt(Uniform(x), UniformKeys(ks)) == Uniform(ByteRounds(f, x, ks, |ks| - 1))
  {
    UniformRounds(a, f, x, ks, |ks| - 2);
    var y := ByteRounds(f, x, ks, |ks| - 2);
    assert ActsAs(a.sub, f, y);
    AddUniform(f(y), ks[|ks| - 1]);
  }

  lemma MixUniform(x: bv8)
    ensures MixColumn(C.Col(x, x, x, x)) == C.Col(x, x, x, x)
  {
  }

  /** With n round keys a block of one byte value goes through n - 1 substitutions, with a key added before
      the first and after each: neither moving nor mixing bytes changes it. */
  lemma UniformEncrypt(x: bv8, ks: seq<bv8>)
    requires |ks| >= 2
    ensures Aes().Encrypt(Uniform(x), UniformKeys(ks)) == Uniform(ByteRounds(Sub, x, ks, |ks| - 1))
  {
    forall y
      ensures ActsAs(Substitute, Sub, y) && ActsAs(MixColumns, Id, y)
    {
      MixUniform(y);
      MapUniform(MixColumn, y);
      SubUniform(y);
    }
    UniformLast(Aes(), Sub, x, ks);
  }

  lemma MapUniform(f: C.Col<bv8> -> C.Col<bv8>, y: bv8)
    requires f(C.Col(y, y, y, y)) == C.Col(y, y, y, y)
    ensures MapColumns(f, Uniform(y)) == Uniform(y)
  {
    var s := Uniform(y);
    assert ColumnOf(s, 0) == ColumnOf(s, 1) == ColumnOf(s, 2) == ColumnOf(s, 3) == C.Col(y, y, y, y);
  }

  lemma SubUniform(y: bv8)
    ensures Substitute(Uniform(y)) == Uniform(Sub(y))
  {
    assert SubBytes(Uniform(y)) == Uniform(Sub(y));
  }

  /** What the layer functions passed along with the in-place code do to one state. */
  ghost predicate AesOn(a: Layers, s: Block) {
    a.sub(s) == Substitute(s) && a.mix(s) == MixColumns(s) && a.unsub(s) == Unsubstitute(s) && a.unmix(s) == InvMixColumns(s)
  }

  ghost predicate IsAes(a: Layers) {
    forall s {:trigger AesOn(a, s)} :: AesOn(a, s)
  }

  method SubstituteInPlace(state: array<bv8>, ghost a: Layers)
    requires state.Length == 16 && IsAes(a)
    modifies state
    ensures state[..] == a.sub(old(state[..]))
  {
    assert AesOn(a, state[..]);
    SubBytesInPlace(state);
    ShiftRowsInPlace(state);
  }

  method UnsubstituteInPlace(state: array<bv8>, ghost a: Layers)
    requires state.Length == 16 && IsAes(a)
    modifies state
    ensures state[..] == a.unsub(old(state[..]))
  {
    assert AesOn(a, state[..]);
    InvShiftRowsInPlace(state);
    InvSubBytesInPlace(state);
  }

  method MixInPlace(state: array<bv8>, ghost a: Layers)
    requires state.Length == 16 && IsAes(a)
    modifies state
    ensures state[..] == a.mix(old(state[..]))
  {
    assert AesOn(a, state[..]);
    MixColumnsInPlace(state);
  }

  method UnmixInPlace(state: array<bv8>, ghost a: Layers)
    requires state.Length == 16 && IsAes(a)
    modifies state
    ensures state[..] == a.unmix(old(state[..]))
  {
    assert AesOn(a, state[..]);
    InvMixColumnsInPlace(state);
  }

  method Load(block: Block) returns (state: array<bv8>)
    ensures fresh(state) && state.Length == 16 && state[..] == block
  {
    state := new bv8[16](i requires 0 <= i < 16 => block[i]);
  }

  method RoundInPlace(state: array<bv8>, key: Block, ghost a: Layers)
    requires state.Length == 16 && IsAes(a)
    modifies state
    ensures state[..] == AddKey(a.mix(a.sub(old(state[..]))), key)
  {
    SubstituteInPlace(state, a);
    MixInPlace(state, a);
    AddKeyInPlace(state, key);
  }

  /** The first key addition and all rounds with mixing. */
  method RoundsInPlace(state: array<bv8>, keys: seq<Block>, ghost a: Layers)
    requires state.Length == 16 && |keys| >= 2 && IsAes(a)
    modifies state
    ensures state[..] == a.Rounds(old(state[..]), keys, |keys| - 2)
  {
    ghost var block := state[..];
    AddKeyInPlace(state, keys[0]);
    for round := 1 to |keys| - 1
      invariant state[..] == a.Rounds(block, keys, round - 1)
    {
      RoundInPlace(state, keys[round], a);
      a.OneRound(block, keys, round);
    }
  }

  method EncryptState(block: Block, keys: seq<Block>, ghost a: Layers) returns (r: Block)
    requires |keys| >= 2 && IsAes(a)
    ensures r == a.Encrypt(block, keys)
  {
    var state := Load(block);
    RoundsInPlace(state, keys, a);
    SubstituteInPlace(state, a);
    AddKeyInPlace(state, keys[|keys| - 1]);
    r := state[..];
  }

  method InvRoundInPlace(state: array<bv8>, key: Block, ghost a: Layers)
    requires state.Length == 16 && IsAes(a)
    modifies state
    ensures state[..] == a.unmix(AddKey(a.unsub(old(state[..])), key))
  {
    UnsubstituteInPlace(state, a);
    AddKeyInPlace(state, key);
    UnmixInPlace(state, a);
  }

  method DecryptState(block: Block, keys: seq<Block>, ghost a: Layers) returns (r: Block)
    requires |keys| >= 2 && IsAes(a)
    ensures r == a.Decrypt(block, keys)
  {
    var n := |keys| - 1;
    var state := Load(block);
    AddKeyInPlace(state, keys[n]);
    for round := n downto 1
      invariant a.Unwind(state[..], keys, round - 1) == a.Decrypt(block, keys)
    {
      InvRoundInPlace(state, keys[round], a);
    }
    UnsubstituteInPlace(state, a);
    AddKeyInPlace(state, keys[0]);
    r := state[..];
  }

  lemma AesIsAes()
    ensures IsAes(Aes())
  {
    forall s: Block
      ensures AesOn(Aes(), s)
    {
    }
  }

  method EncryptBlock(block: Block, keys: seq<Block>) returns (r: Block)
    requires |keys| >= 2
    ensures r == Aes().Encrypt(block, keys)
  {
    AesIsAes();
    r := EncryptState(block, keys, Aes());
  }

  method DecryptBlock(block: Block, keys: seq<Block>) returns (r: Block)
    requires |keys| >= 2
    ensures r == Aes().Decrypt(block, keys)
  {
    AesIsAes();
    r := DecryptState(block, keys, Aes());
  }
}
