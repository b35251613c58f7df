/**
 The cipher of FIPS 197 on bytes, by the index formulas of sections 3.4 and 5.1 to 5.2, and that the cipher
 of src/rijndael.c computes it.
 */
module Fips197 {
  import opened GfColumns
  import opened AesTables
  import opened SourceTables
  import opened ByteField
  import C = AesCipher
  import L = KeyAlternating
  import R = Rijndael
  import T = RijndaelTheorems

  // ----- The standard -----

  type State = s: seq<bv8> | |s| == 16 witness seq(16, _ => 0)

  /** Byte r of column c is byte r + 4 c, section 3.4. */
  function SubBytes(t: Tables, s: State): State {
    seq(16, i requires 0 <= i < 16 => t.sub(s[i]))
  }

  /** Row r is shifted by r columns, section 5.1.2. */
  function ShiftRows(s: State): State {
    seq(16, i requires 0 <= i < 16 => s[i % 4 + 4 * ((i / 4 + i % 4) % 4)])
  }

  /** The products by {01}, {02} and {03}. */
  function Small(o: Ops<bv8>, n: nat, x: bv8): bv8
    requires n in {1, 2, 3}
  {
    if n == 1 then x else if n == 2 then o.dbl(x) else o.plus(x, o.dbl(x))
  }

  /** The first row of the matrix (5.6); each row is that above it, moved to the right. */
  const ROW: seq<nat> := [2, 3, 1, 1]

  function Term(o: Ops<bv8>, s: State, r: nat, c: nat, j: nat): bv8
    requires r < 4 && c < 4 && j < 4
  {
    Small(o, ROW[(j + 4 - r) % 4], s[j + 4 * c])
  }

  function Mixed(o: Ops<bv8>, s: State, r: nat, c: nat): bv8
    requires r < 4 && c < 4
  {
    o.plus(o.plus(o.plus(Term(o, s, r, c, 0), Term(o, s, r, c, 1)), Term(o, s, r, c, 2)), Term(o, s, r, c, 3))
  }

  function MixColumns(o: Ops<bv8>, s: State): State {
    seq(16, i requires 0 <= i < 16 => Mixed(o, s, i % 4, i / 4))
  }

  /** The words of the expanded key. */
  function KeySchedule(t: Tables, key: seq<bv8>): nat -> Word<bv8>
    requires |key| in {16, 24, 32}
  {
    (i: nat) => C.ExpandedWord(t, R.KeyWords(key), i)
  }

  function ByteOf(w: Word<bv8>, j: nat): bv8
    requires j < 4
  {
    [w.b0, w.b1, w.b2, w.b3][j]
  }

  function AddRoundKey(o: Ops<bv8>, w: nat -> Word<bv8>, s: State, round: nat): State {
    seq(16, i requires 0 <= i < 16 => o.plus(s[i], ByteOf(w(4 * round + i / 4), i % 4)))
  }

  /** SubBytes with ShiftRows, MixColumns, and AddRoundKey with the key of a round. */
  datatype Steps<!S(!new)> = Steps(sub: S -> S, mix: S -> S, add: (S, nat) -> S)

  function Rounds<S(!new)>(f: Steps<S>, s: S, round: nat): S {
    if round == 0 then f.add(s, 0) else f.add(f.mix(f.sub(Rounds(f, s, round - 1))), round)
  }

  /** Figure 5: the last of nr rounds does not mix. */
  function AllRounds<S(!new)>(f: Steps<S>, s: S, nr: nat): S
    requires nr > 0
  {
    f.add(f.sub(Rounds(f, s, nr - 1)), nr)
  }

  function StepsOf(t: Tables, w: nat -> Word<bv8>): Steps<State> {
    Steps((s: State) => ShiftRows(SubBytes(t, s)), (s: State) => MixColumns(t.ops, s),
      (s: State, r: nat) => AddRoundKey(t.ops, w, s, r))
  }

  /** The steps under a key. */
  function Standard(t: Tables, key: seq<bv8>): Steps<State>
    requires |key| in {16, 24, 32}
  {
    StepsOf(t, KeySchedule(t, key))
  }

  // Trigger of `EncryptedBy`.
  ghost predicate Ask(n: nat) { true }

  /** The first n blocks of c are those of s after nr rounds; used where a proof asks. */
  ghost predicate EncryptedBy(f: Steps<State>, nr: nat, s: seq<bv8>, c: seq<bv8>, n: nat)
    requires nr > 0 && 16 * n <= |s| && 16 * n <= |c|
  {
    forall m: nat {:trigger Ask(m)} :: Ask(m) && m == n ==>
      forall k: nat {:trigger R.Piece(c, k)} :: k < n ==> R.Piece(c, k) == AllRounds(f, R.Piece(s, k), nr)
  }

  // ----- The layers -----

  lemma SubShiftIs(t: Tables, s: State)
    ensures R.BlockAt(ShiftRows(SubBytes(t, s)), 0) == C.SubShift(t, R.BlockAt(s, 0))
  {
  }

  lemma SmallIs(o: Ops<bv8>, x: bv8)
    requires Laws(o)
    ensures Mul(o, P1, x) == Small(o, 1, x) && Mul(o, P2, x) == Small(o, 2, x) && Mul(o, P3, x) == Small(o, 3, x)
  {
    MulSmall(o, P1, x);
  }

  lemma ColumnIs(o: Ops<bv8>, s: State, c: nat)
    requires Laws(o) && c < 4
    ensures Word(Mixed(o, s, 0, c), Mixed(o, s, 1, c), Mixed(o, s, 2, c), Mixed(o, s, 3, c)) ==
      MixWord(o, MIX, Word(s[4 * c], s[1 + 4 * c], s[2 + 4 * c], s[3 + 4 * c]))
  {
    SmallIs(o, s[4 * c]);
    SmallIs(o, s[1 + 4 * c]);
    SmallIs(o, s[2 + 4 * c]);
    SmallIs(o, s[3 + 4 * c]);
  }

  lemma MixColumnsIs(t: Tables, s: State)
    requires Laws(t.ops)
    ensures R.BlockAt(MixColumns(t.ops, s), 0) == C.MixColumns(t, MIX, R.BlockAt(s, 0))
  {
    ColumnIs(t.ops, s, 0);
    ColumnIs(t.ops, s, 1);
    ColumnIs(t.ops, s, 2);
    ColumnIs(t.ops, s, 3);
  }

  lemma AddedBlock(t: Tables, w: nat -> Word<bv8>, s: State, r: nat)
    ensures R.BlockAt(AddRoundKey(t.ops, w, s, r), 0) ==
      C.AddRoundKey(t, R.BlockAt(s, 0), C.Block(w(4 * r), w(4 * r + 1), w(4 * r + 2), w(4 * r + 3)))
  {
  }

  /** Round key r, as four words of the schedule. */
  lemma RoundKeyWords(t: Tables, key: seq<bv8>, r: nat)
    requires |key| in {16, 24, 32} && r < |key| / 4 + 7
    ensures var w := KeySchedule(t, key);
      R.RoundKeys(t, R.KeyWords(key))[r] == C.Block(w(4 * r), w(4 * r + 1), w(4 * r + 2), w(4 * r + 3))
  {
    RoundKeyIs(t, R.KeyWords(key), r);
  }

  lemma RoundKeyIs(t: Tables, kw: seq<Word<bv8>>, r: nat)
    requires |kw| in {4, 6, 8} && r < |kw| + 7
    ensures R.RoundKeys(t, kw)[r] == C.Block(C.ExpandedWord(t, kw, 4 * r), C.ExpandedWord(t, kw, 4 * r + 1),
                                             C.ExpandedWord(t, kw, 4 * r + 2), C.ExpandedWord(t, kw, 4 * r + 3))
  {
    var w := R.AllWords(t, kw);
    FourOf(w, |kw| + 7, r);
    WordAt(t, kw, 4 * r);
    WordAt(t, kw, 4 * r + 1);
    WordAt(t, kw, 4 * r + 2);
    WordAt(t, kw, 4 * r + 3);
  }

  lemma FourOf(w: seq<Word<bv8>>, n: nat, r: nat)
    requires r < n && 4 * n <= |w|
    ensures R.BlocksOf(w, n)[r] == C.Block(w[4 * r], w[4 * r + 1], w[4 * r + 2], w[4 * r + 3])
  {
  }

  lemma WordAt(t: Tables, kw: seq<Word<bv8>>, i: nat)
    requires |kw| > 0 && i < 6 * |kw| + 28
    ensures R.AllWords(t, kw)[i] == C.ExpandedWord(t, kw, i)
  {
  }

  // ----- The key -----

  /** What is added to word i - nk, of which temp is word i - 1. */
  function Added(t: Tables, nk: nat, i: nat, temp: Word<bv8>): Word<bv8>
    requires nk in {4, 6, 8} && i >= nk
  {
    if i % nk == 0 then XorWord(t.ops, C.SubWord(t, C.RotWord(temp)), C.Rcon(t, i / nk))
    else if nk > 6 && i % nk == 4 then C.SubWord(t, temp)
    else temp
  }

  lemma ScheduleNext(t: Tables, kw: seq<Word<bv8>>, i: nat)
    requires |kw| in {4, 6, 8} && i >= |kw|
    ensures C.ExpandedWord(t, kw, i) ==
      XorWord(t.ops, C.ExpandedWord(t, kw, i - |kw|), Added(t, |kw|, i, C.ExpandedWord(t, kw, i - 1)))
  {
  }

  /** Figure 11, byte by byte: b is byte j of word i - 1, and next the one after it, around the word. */
  function AddedByte(t: Tables, nk: nat, i: nat, j: nat, b: bv8, next: bv8): bv8
    requires nk in {4, 6, 8} && i >= nk
  {
    if i % nk == 0 then (if j == 0 then t.ops.plus(t.sub(next), PowerOfTwo(t.ops, i / nk - 1)) else t.sub(next))
    else if nk > 6 && i % nk == 4 then t.sub(b)
    else b
  }

  lemma AddedBytes(t: Tables, nk: nat, i: nat, j: nat, temp: Word<bv8>)
    requires nk in {4, 6, 8} && i >= nk && j < 4 && Laws(t.ops)
    ensures ByteOf(Added(t, nk, i, temp), j) == AddedByte(t, nk, i, j, ByteOf(temp, j), ByteOf(temp, (j + 1) % 4))
  {
    Unit(t.ops, t.sub(temp.b2));
    Unit(t.ops, t.sub(temp.b3));
    Unit(t.ops, t.sub(temp.b0));
  }

  /** The words of the expanded key, byte by byte: the key first, and then by Figure 11. */
  lemma KeyExpansionBytes(t: Tables, key: seq<bv8>, nk: nat, i: nat, j: nat)
    requires nk in {4, 6, 8} && |key| == 4 * nk && j < 4 && Laws(t.ops)
    ensures var w := KeySchedule(t, key);
      if i < nk then ByteOf(w(i), j) == key[4 * i + j]
      else ByteOf(w(i), j) == t.ops.plus(ByteOf(w(i - nk), j),
        AddedByte(t, nk, i, j, ByteOf(w(i - 1), j), ByteOf(w(i - 1), (j + 1) % 4)))
  {
    var kw := R.KeyWords(key);
    if i >= nk {
      ScheduleNext(t, kw, i);
      XorBytes(t.ops, C.ExpandedWord(t, kw, i - nk), Added(t, nk, i, C.ExpandedWord(t, kw, i - 1)), j);
      AddedBytes(t, nk, i, j, C.ExpandedWord(t, kw, i - 1));
    }
  }

  lemma XorBytes(o: Ops<bv8>, a: Word<bv8>, b: Word<bv8>, j: nat)
    requires j < 4
    ensures ByteOf(XorWord(o, a, b), j) == o.plus(ByteOf(a, j), ByteOf(b, j))
  {
  }

  // ----- The cipher -----

  /** The state and the block hold the same bytes in the same order. */
  ghost predicate Same(s: State, b: C.Block) {
    R.BlockAt(s, 0) == b
  }

  ghost predicate Pair(s: State, b: C.Block) { true }
  ghost predicate Triple(s: State, b: C.Block, r: nat) { true }

  /** Two ways to make the steps of a cipher go together in `Same`; used where a proof asks. */
  ghost predicate Agree(f: Steps<State>, l: L.Layers<C.Block>, keys: seq<C.Block>) {
    && (forall s: State, b: C.Block {:trigger Pair(s, b)} :: Pair(s, b) && Same(s, b) ==>
          Same(f.sub(s), l.sub(b)) && Same(f.mix(s), l.mix(b)))
    && (forall s: State, b: C.Block, r: nat {:trigger Triple(s, b, r)} ::
          Triple(s, b, r) && Same(s, b) && r < |keys| ==>
          Same(f.add(s, r), l.add(b, keys[r])))
  }

  lemma {:induction false} RoundsAgree(f: Steps<State>, l: L.Layers<C.Block>, keys: seq<C.Block>,
                                                         s: State, b: C.Block, r: nat)
    requires Agree(f, l, keys) && Same(s, b) && r < |keys|
    ensures Same(Rounds(f, s, r), L.Rounds(l, keys, r, b))
  {
    if r == 0 {
      assert Triple(s, b, 0);
    } else {
      RoundsAgree(f, l, keys, s, b, r - 1);
      var s', b' := Rounds(f, s, r - 1), L.Rounds(l, keys, r - 1, b);
      assert Pair(s', b') && Pair(f.sub(s'), l.sub(b')) && Triple(f.mix(f.sub(s')), l.mix(l.sub(b')), r);
    }
  }

  lemma AllRoundsAgree(f: Steps<State>, l: L.Layers<C.Block>, keys: seq<C.Block>, s: State, b: C.Block)
    requires Agree(f, l, keys) && Same(s, b) && |keys| >= 2
    ensures Same(AllRounds(f, s, |keys| - 1), L.Cipher(l, keys, b))
  {
    var nr := |keys| - 1;
    RoundsAgree(f, l, keys, s, b, nr - 1);
    var s', b' := Rounds(f, s, nr - 1), L.Rounds(l, keys, nr - 1, b);
    assert Pair(s', b') && Triple(f.sub(s'), l.sub(b'), nr);
  }

  lemma SubAndMixSame(t: Tables, s: State, b: C.Block)
    requires Same(s, b) && Laws(t.ops)
    ensures Same(ShiftRows(SubBytes(t, s)), C.AesLayers(t).sub(b)) && Same(MixColumns(t.ops, s), C.AesLayers(t).mix(b))
  {
    SubShiftIs(t, s);
    MixColumnsIs(t, s);
  }

  lemma AddSame(t: Tables, key: seq<bv8>, s: State, b: C.Block, r: nat)
    requires Same(s, b) && |key| in {16, 24, 32} && r < |key| / 4 + 7
    ensures Same(AddRoundKey(t.ops, KeySchedule(t, key), s, r),
                 C.AesLayers(t).add(b, R.RoundKeys(t, R.KeyWords(key))[r]))
  {
    AddedBlock(t, KeySchedule(t, key), s, r);
    RoundKeyWords(t, key, r);
  }

  lemma AesAgrees(t: Tables, key: seq<bv8>)
    requires |key| in {16, 24, 32} && Laws(t.ops)
    ensures Agree(Standard(t, key), C.AesLayers(t), R.RoundKeys(t, R.KeyWords(key)))
  {
    var l, keys, f := C.AesLayers(t), R.RoundKeys(t, R.KeyWords(key)), Standard(t, key);
    forall s: State, b {:trigger Pair(s, b)} | Same(s, b) ensures Same(f.sub(s), l.sub(b)) && Same(f.mix(s), l.mix(b)) {
      SubAndMixSame(t, s, b);
    }
    forall s: State, b, r: nat {:trigger Triple(s, b, r)} | Same(s, b) && r < |keys|
      ensures Same(f.add(s, r), l.add(b, keys[r]))
    {
      AddSame(t, key, s, b, r);
    }
  }

  lemma EncryptorAgrees(f: Steps<State>, l: L.Layers<C.Block>, keys: seq<C.Block>, s: State)
    requires Agree(f, l, keys) && |keys| >= 2
    ensures R.Encryptor(l, keys)(s) == AllRounds(f, s, |keys| - 1)
  {
    var b := R.BlockAt(s, 0);
    AllRoundsAgree(f, l, keys, s, b);
    R.BytesOfBlock(AllRounds(f, s, |keys| - 1), b);
  }

  ghost predicate AskEcb(n: nat) { true }

  /** c is the ECB encryption of n blocks of s; used where a proof asks. */
  ghost predicate Ecb(l: L.Layers<C.Block>, keys: seq<C.Block>, s: seq<bv8>, c: seq<bv8>, n: nat)
    requires |keys| >= 2 && 16 * n <= |s| && 16 * n <= |c|
  {
    forall m: nat {:trigger AskEcb(m)} :: AskEcb(m) && m == n ==> R.IsEcb(R.Encryptor(l, keys), s, c, n)
  }

  lemma EcbAgrees(f: Steps<State>, l: L.Layers<C.Block>, keys: seq<C.Block>, nr: nat,
                  s: seq<bv8>, c: seq<bv8>, n: nat)
    requires |keys| == nr + 1 >= 2 && 16 * n <= |s| && 16 * n <= |c|
    requires Agree(f, l, keys) && Ecb(l, keys, s, c, n)
    ensures EncryptedBy(f, nr, s, c, n)
  {
    assert AskEcb(n) && R.Blocks(n);
    forall k: nat {:trigger R.Piece(c, k)} | k < n ensures R.Piece(c, k) == AllRounds(f, R.Piece(s, k), nr) {
      EncryptorAgrees(f, l, keys, R.Piece(s, k));
    }
  }

  lemma EcbByStandard(t: Tables, key: seq<bv8>, nr: nat, s: seq<bv8>, c: seq<bv8>, n: nat)
    requires |key| in {16, 24, 32} && nr == |key| / 4 + 6 && Laws(t.ops) && 16 * n <= |s| && 16 * n <= |c|
    requires Ecb(C.AesLayers(t), R.RoundKeys(t, R.KeyWords(key)), s, c, n)
    ensures EncryptedBy(Standard(t, key), nr, s, c, n)
  {
    AesAgrees(t, key);
    EcbAgrees(Standard(t, key), C.AesLayers(t), R.RoundKeys(t, R.KeyWords(key)), nr, s, c, n);
  }

  lemma EncryptsMeans(key: seq<bv8>, s: seq<bv8>, c: seq<bv8>, n: nat)
    requires |key| in {16, 24, 32} && T.Encrypts(R.KeyWords(key), s, c, n)
    ensures Ecb(C.AesLayers(SOURCE_TABLES), R.RoundKeys(SOURCE_TABLES, R.KeyWords(key)), s, c, n)
  {
    assert T.Ask(n);
  }

  /** Whatever the cipher objects encrypt is encrypted as the standard does, block by block: with the steps of
      the standard, and 10, 12 or 14 rounds. */
  lemma EncryptsByStandard(key: seq<bv8>, nr: nat, s: seq<bv8>, c: seq<bv8>, n: nat)
    requires |key| in {16, 24, 32} && nr == |key| / 4 + 6 && T.Encrypts(R.KeyWords(key), s, c, n)
    ensures EncryptedBy(Standard(SOURCE_TABLES, key), nr, s, c, n)
  {
    SourceTablesSound();
    EncryptsMeans(key, s, c, n);
    EcbByStandard(SOURCE_TABLES, key, nr, s, c, n);
  }
}
