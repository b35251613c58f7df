/**
 The cipher object of src/rijndael.c: key schedule, table-driven encryption and decryption of
 a block, and the ECB branches of the block interface.
 */
module Rijndael {
  import opened GfColumns
  import opened AesTables
  import opened AesCipher
  import L = KeyAlternating

  // Return codes (src/rijndael.h).
  const RIJNDAEL_SUCCESS := 0
  const RIJNDAEL_UNSUPPORTED_MODE := -1
  const RIJNDAEL_UNSUPPORTED_DIRECTION := -2
  const RIJNDAEL_UNSUPPORTED_KEY_LENGTH := -3
  const RIJNDAEL_BAD_KEY := -4
  const RIJNDAEL_NOT_INITIALIZED := -5
  const RIJNDAEL_BAD_DIRECTION := -6

  const MAX_IV_SIZE: nat := 16

  // Enumerators (src/rijndael.h).
  const ENCRYPT := 0
  const DECRYPT := 1
  const ECB := 0
  const CBC := 1
  const CFB1 := 2
  const KEY_16_BYTES := 0
  const KEY_24_BYTES := 1
  const KEY_32_BYTES := 2

  // ----- Specification -----

  /** The words of KeyExpansion for a key of Nk words: those of the Nr + 1 round keys,
      Nr = Nk + 6 (Figure 4 of FIPS 197), and a few more. */
  function AllWords(t: Tables, key: seq<Word<bv8>>): (w: seq<Word<bv8>>)
    requires |key| > 0
    ensures |w| == 6 * |key| + 28
  {
    seq(6 * |key| + 28, i requires 0 <= i => ExpandedWord(t, key, i))
  }

  /** Words taken four at a time. */
  function BlocksOf(w: seq<Word<bv8>>, n: nat): (keys: seq<Block>)
    requires 4 * n <= |w|
    ensures |keys| == n
  {
    seq(n, r requires 0 <= r < n => Block(w[4 * r], w[4 * r + 1], w[4 * r + 2], w[4 * r + 3]))
  }

  function RoundKeys(t: Tables, key: seq<Word<bv8>>): (keys: seq<Block>)
    requires |key| > 0
    ensures |keys| == |key| + 7
  {
    BlocksOf(AllWords(t, key), |key| + 7)
  }

  function KeyWords(key: seq<bv8>): seq<Word<bv8>> {
    seq(|key| / 4, j requires 0 <= j < |key| / 4 => Word(key[4 * j], key[4 * j + 1], key[4 * j + 2], key[4 * j + 3]))
  }

  function BlockAt(s: seq<bv8>, i: nat): Block
    requires i + 16 <= |s|
  {
    Block(Word(s[i], s[i + 1], s[i + 2], s[i + 3]), Word(s[i + 4], s[i + 5], s[i + 6], s[i + 7]),
          Word(s[i + 8], s[i + 9], s[i + 10], s[i + 11]), Word(s[i + 12], s[i + 13], s[i + 14], s[i + 15]))
  }

  function BlockBytes(b: Block): (s: seq<bv8>)
    ensures |s| == 16
  {
    [b.w0.b0, b.w0.b1, b.w0.b2, b.w0.b3, b.w1.b0, b.w1.b1, b.w1.b2, b.w1.b3,
     b.w2.b0, b.w2.b1, b.w2.b2, b.w2.b3, b.w3.b0, b.w3.b1, b.w3.b2, b.w3.b3]
  }

  /** Cipher under the given round keys, on sixteen bytes. */
  function Encryptor(l: L.Layers<Block>, keys: seq<Block>): seq<bv8> -> seq<bv8>
    requires |keys| >= 2
  {
    (s: seq<bv8>) => if |s| == 16 then BlockBytes(L.Cipher(l, keys, BlockAt(s, 0))) else s
  }

  /** EqInvCipher under the given round keys, on sixteen bytes. */
  function Decryptor(l: L.Layers<Block>, keys: seq<Block>): seq<bv8> -> seq<bv8>
    requires |keys| >= 2
  {
    (s: seq<bv8>) => if |s| == 16 then BlockBytes(L.EqInvCipher(l, keys, BlockAt(s, 0))) else s
  }

  /** Sixteen bytes of a message: its block k. */
  function Piece(s: seq<bv8>, k: nat): (p: seq<bv8>)
    requires 16 * k + 16 <= |s|
    ensures |p| == 16
  {
    s[16 * k..16 * k + 16]
  }

  // Trigger of `IsEcb`, so that it unfolds only where a proof asks.
  ghost predicate Blocks(n: nat) { true }

  /** ECB: the first n blocks of r are the images under f of those of s. */
  ghost predicate IsEcb(f: seq<bv8> -> seq<bv8>, s: seq<bv8>, r: seq<bv8>, n: nat)
    requires 16 * n <= |s| && 16 * n <= |r|
  {
    forall m: nat {:trigger Blocks(m)} :: Blocks(m) && m == n ==>
      forall k: nat {:trigger Piece(r, k)} :: k < n ==> Piece(r, k) == f(Piece(s, k))
  }

  lemma BlocksFit(inputLen: nat)
    ensures 16 * (inputLen / 128) <= inputLen / 8
  {
  }

  lemma SamePiece(s: seq<bv8>, s': seq<bv8>, k: nat)
    requires 16 * k + 16 <= |s| && 16 * k + 16 <= |s'|
    requires forall j :: 16 * k <= j < 16 * k + 16 ==> s[j] == s'[j]
    ensures Piece(s, k) == Piece(s', k)
  {
  }

  lemma PieceAt(s: seq<bv8>, s': seq<bv8>, k: nat, j: nat)
    requires 16 * k + 16 <= |s| && 16 * k + 16 <= |s'| && 16 * k <= j < 16 * k + 16
    requires Piece(s, k) == Piece(s', k)
    ensures s[j] == s'[j]
  {
    assert s[j] == Piece(s, k)[j - 16 * k];
    assert s'[j] == Piece(s', k)[j - 16 * k];
  }

  /** One more block, written after the first n. */
  lemma IsEcbExtend(f: seq<bv8> -> seq<bv8>, s: seq<bv8>, r: seq<bv8>, r': seq<bv8>, n: nat)
    requires 16 * n + 16 <= |s| && 16 * n + 16 <= |r| == |r'|
    requires IsEcb(f, s, r, n) && Piece(r', n) == f(Piece(s, n))
    requires forall j :: 0 <= j < 16 * n ==> r'[j] == r[j]
    ensures IsEcb(f, s, r', n + 1)
  {
    assert Blocks(n);
    forall k: nat {:trigger Piece(r', k)} | k < n + 1 ensures Piece(r', k) == f(Piece(s, k)) {
      if k < n {
        SamePiece(r', r, k);
      }
    }
  }

  lemma BytesOfBlock(s: seq<bv8>, b: Block)
    ensures |s| == 16 ==> BlockBytes(BlockAt(s, 0)) == s
    ensures BlockAt(BlockBytes(b), 0) == b
  {
  }

  /** ECB decryption under the transformed key schedule gives back the message: if c encrypts
      the n blocks of s, and d decrypts those of c, then d starts with those of s. */
  lemma EcbInverts(l: L.Layers<Block>, keys: seq<Block>, s: seq<bv8>, c: seq<bv8>, d: seq<bv8>, n: nat)
    requires L.Laws(l) && |keys| >= 2 && 16 * n <= |s| && 16 * n <= |c| && 16 * n <= |d|
    requires IsEcb(Encryptor(l, keys), s, c, n)
    requires IsEcb(Decryptor(l, L.DecryptionKeys(l, keys)), c, d, n)
    ensures d[..16 * n] == s[..16 * n]
  {
    assert Blocks(n);
    forall j | 0 <= j < 16 * n ensures d[j] == s[j] {
      var k := j / 16;
      DecryptorInverts(l, keys, Piece(s, k));
      assert Piece(c, k) == Encryptor(l, keys)(Piece(s, k));
      assert Piece(d, k) == Decryptor(l, L.DecryptionKeys(l, keys))(Piece(c, k));
      PieceAt(d, s, k, j);
    }
  }

  lemma DecryptorInverts(l: L.Layers<Block>, keys: seq<Block>, p: seq<bv8>)
    requires L.Laws(l) && |keys| >= 2 && |p| == 16
    ensures Decryptor(l, L.DecryptionKeys(l, keys))(Encryptor(l, keys)(p)) == p
  {
    var a := BlockAt(p, 0);
    BytesOfBlock(p, L.Cipher(l, keys, a));
    L.EqInvCipherInverts(l, keys, a);
  }

  // ----- Table form of a round -----

  // The rows of the tables built from S; the rows of T5..T8 are those of U1..U4 at S5.
  function T1(t: Tables, x: bv8): Word<bv8> { Col0(t.ops, MIX, t.sub(x)) }
  function T2(t: Tables, x: bv8): Word<bv8> { Col1(t.ops, MIX, t.sub(x)) }
  function T3(t: Tables, x: bv8): Word<bv8> { Col2(t.ops, MIX, t.sub(x)) }
  function T4(t: Tables, x: bv8): Word<bv8> { Col3(t.ops, MIX, t.sub(x)) }
  function U1(t: Tables, x: bv8): Word<bv8> { Col0(t.ops, INV_MIX, x) }
  function U2(t: Tables, x: bv8): Word<bv8> { Col1(t.ops, INV_MIX, x) }
  function U3(t: Tables, x: bv8): Word<bv8> { Col2(t.ops, INV_MIX, x) }
  function U4(t: Tables, x: bv8): Word<bv8> { Col3(t.ops, INV_MIX, x) }

  /** `l` gives the round operations of Rijndael, used only where a proof asks for them. */
  ghost predicate Implements(l: L.Layers<Block>, t: Tables) {
    && (forall s {:trigger L.Use1(s)} :: L.Use1(s) ==>
          && l.sub(s) == SubShift(t, s) && l.mix(l.sub(s)) == MixColumns(t, MIX, SubShift(t, s))
          && l.inv(s) == InvSubShift(t, s) && l.unmix(l.inv(s)) == MixColumns(t, INV_MIX, InvSubShift(t, s))
          && l.unmix(s) == MixColumns(t, INV_MIX, s))
    && (forall s, k {:trigger L.Use2(s, k)} :: L.Use2(s, k) ==> l.add(s, k) == AddRoundKey(t, s, k))
  }

  ghost predicate Ask(n: int) { true }

  /** `Sound` and `Implements`, used only where a proof asks for them. */
  ghost predicate Ready(l: L.Layers<Block>, t: Tables) {
    forall n: int {:trigger Ask(n)} :: Ask(n) ==> Sound(t) && Implements(l, t)
  }

  lemma IsReady(l: L.Layers<Block>, t: Tables)
    requires Ready(l, t)
    ensures Sound(t) && Implements(l, t)
  {
    assert Ask(0);
  }

  lemma AesLayersImplement(t: Tables)
    ensures Implements(AesLayers(t), t)
  {
  }

  method AddKey(t: Tables, ghost l: L.Layers<Block>, s: Block, k: Block) returns (r: Block)
    requires Ready(l, t)
    ensures r == l.add(s, k)
  {
    IsReady(l, t);
    assert L.Use2(s, k);
    r := AddRoundKey(t, s, k);
  }

  function Xor4(t: Tables, a: Word<bv8>, b: Word<bv8>, c: Word<bv8>, d: Word<bv8>): Word<bv8> {
    XorWord(t.ops, XorWord(t.ops, XorWord(t.ops, a, b), c), d)
  }

  /** `encrypt_b_from_T`. */
  function EncryptWord(t: Tables, x0: bv8, x1: bv8, x2: bv8, x3: bv8): Word<bv8> {
    Xor4(t, T1(t, x0), T2(t, x1), T3(t, x2), T4(t, x3))
  }

  /** `decrypt_b_from_T`: the tables T5..T8. */
  function DecryptWord(t: Tables, x0: bv8, x1: bv8, x2: bv8, x3: bv8): Word<bv8> {
    Xor4(t, U1(t, t.inv(x0)), U2(t, t.inv(x1)), U3(t, t.inv(x2)), U4(t, t.inv(x3)))
  }

  /** The four lookups of a column in `r_encrypt` make one column of SubBytes, ShiftRows and
      MixColumns. */
  method TableRound(t: Tables, ghost l: L.Layers<Block>, s: Block) returns (r: Block)
    requires Ready(l, t)
    ensures r == l.mix(l.sub(s))
  {
    IsReady(l, t);
    assert L.Use1(s);
    r := Block(EncryptWord(t, s.w0.b0, s.w1.b1, s.w2.b2, s.w3.b3),
               EncryptWord(t, s.w1.b0, s.w2.b1, s.w3.b2, s.w0.b3),
               EncryptWord(t, s.w2.b0, s.w3.b1, s.w0.b2, s.w1.b3),
               EncryptWord(t, s.w3.b0, s.w0.b1, s.w1.b2, s.w2.b3));
  }

  /** Likewise in `r_decrypt`, for the inverse operations. */
  method InvTableRound(t: Tables, ghost l: L.Layers<Block>, s: Block) returns (r: Block)
    requires Ready(l, t)
    ensures r == l.unmix(l.inv(s))
  {
    IsReady(l, t);
    assert L.Use1(s);
    r := Block(DecryptWord(t, s.w0.b0, s.w3.b1, s.w2.b2, s.w1.b3),
               DecryptWord(t, s.w1.b0, s.w0.b1, s.w3.b2, s.w2.b3),
               DecryptWord(t, s.w2.b0, s.w1.b1, s.w0.b2, s.w3.b3),
               DecryptWord(t, s.w3.b0, s.w2.b1, s.w1.b2, s.w0.b3));
  }

  /** The second byte of a T1 row is the plain S-box entry, which the last round uses. */
  lemma T1SecondByte(t: Tables, x: bv8)
    requires Sound(t)
    ensures T1(t, x).b1 == t.sub(x)
  {
    MulSmall(t.ops, P1, t.sub(x));
  }

  /** The last round of `r_encrypt`. */
  method LastRound(t: Tables, ghost l: L.Layers<Block>, s: Block) returns (r: Block)
    requires Ready(l, t)
    ensures r == l.sub(s)
  {
    IsReady(l, t);
    assert L.Use1(s);
    T1SecondByteOfWord(t, s.w0);
    T1SecondByteOfWord(t, s.w1);
    T1SecondByteOfWord(t, s.w2);
    T1SecondByteOfWord(t, s.w3);
    r := Block(Word(T1(t, s.w0.b0).b1, T1(t, s.w1.b1).b1, T1(t, s.w2.b2).b1, T1(t, s.w3.b3).b1),
               Word(T1(t, s.w1.b0).b1, T1(t, s.w2.b1).b1, T1(t, s.w3.b2).b1, T1(t, s.w0.b3).b1),
               Word(T1(t, s.w2.b0).b1, T1(t, s.w3.b1).b1, T1(t, s.w0.b2).b1, T1(t, s.w1.b3).b1),
               Word(T1(t, s.w3.b0).b1, T1(t, s.w0.b1).b1, T1(t, s.w1.b2).b1, T1(t, s.w2.b3).b1));
  }

  lemma T1SecondByteOfWord(t: Tables, w: Word<bv8>)
    requires Sound(t)
    ensures T1(t, w.b0).b1 == t.sub(w.b0) && T1(t, w.b1).b1 == t.sub(w.b1)
    ensures T1(t, w.b2).b1 == t.sub(w.b2) && T1(t, w.b3).b1 == t.sub(w.b3)
  {
    T1SecondByte(t, w.b0);
    T1SecondByte(t, w.b1);
    T1SecondByte(t, w.b2);
    T1SecondByte(t, w.b3);
  }

  /** The last round of `r_decrypt`. */
  method InvLastRound(t: Tables, ghost l: L.Layers<Block>, s: Block) returns (r: Block)
    requires Ready(l, t)
    ensures r == l.inv(s)
  {
    IsReady(l, t);
    assert L.Use1(s);
    r := Block(Word(t.inv(s.w0.b0), t.inv(s.w3.b1), t.inv(s.w2.b2), t.inv(s.w1.b3)),
               Word(t.inv(s.w1.b0), t.inv(s.w0.b1), t.inv(s.w3.b2), t.inv(s.w2.b3)),
               Word(t.inv(s.w2.b0), t.inv(s.w1.b1), t.inv(s.w0.b2), t.inv(s.w3.b3)),
               Word(t.inv(s.w3.b0), t.inv(s.w2.b1), t.inv(s.w1.b2), t.inv(s.w0.b3)));
  }

  /** The result code of `rijndael_init`. */
  function InitCode(mode: int, dir: int, hasKey: bool, keyLen: int): int {
    if mode !in {CBC, ECB, CFB1} then RIJNDAEL_UNSUPPORTED_MODE
    else if dir !in {ENCRYPT, DECRYPT} then RIJNDAEL_UNSUPPORTED_DIRECTION
    else if keyLen !in {KEY_16_BYTES, KEY_24_BYTES, KEY_32_BYTES} then RIJNDAEL_UNSUPPORTED_KEY_LENGTH
    else if !hasKey then RIJNDAEL_BAD_KEY
    else RIJNDAEL_SUCCESS
  }

  /** The codes of `rijndael_init` as numbers: the mode is looked at first, then the direction, the length of the
      key and whether there is one. */
  lemma InitCodes(mode: int, dir: int, hasKey: bool, keyLen: int)
    ensures var code := InitCode(mode, dir, hasKey, keyLen);
      && (code == -1 <==> !(0 <= mode <= 2))
      && (code == -2 <==> 0 <= mode <= 2 && !(0 <= dir <= 1))
      && (code == -3 <==> 0 <= mode <= 2 && 0 <= dir <= 1 && !(0 <= keyLen <= 2))
      && (code == -4 <==> 0 <= mode <= 2 && 0 <= dir <= 1 && 0 <= keyLen <= 2 && !hasKey)
      && (code == 0 <==> 0 <= mode <= 2 && 0 <= dir <= 1 && 0 <= keyLen <= 2 && hasKey)
  {
  }

  /** The initialisation vector after initialisation. */
  function VectorInUse(vector: Option<seq<bv8>>): (v: seq<bv8>)
    requires vector.Some? ==> |vector.value| >= MAX_IV_SIZE
    ensures |v| == MAX_IV_SIZE
  {
    if vector.Some? then vector.value[..MAX_IV_SIZE] else seq(MAX_IV_SIZE, _ => 0)
  }

  /** The round keys after initialisation with a direction and a key. */
  function KeysInUse(t: Tables, l: L.Layers<Block>, dir: int, key: seq<bv8>): seq<Block>
    requires |key| >= 4
  {
    var keys := RoundKeys(t, KeyWords(key));
    if dir == DECRYPT then L.DecryptionKeys(l, keys) else keys
  }

  /** The result code of `blockEncrypt` and `blockDecrypt`: an error, or the bits processed. */
  function BlockCode(state: State, rightDirection: bool, hasInput: bool, inputLen: int): int {
    if state != State.Valid then RIJNDAEL_NOT_INITIALIZED
    else if !rightDirection then RIJNDAEL_BAD_DIRECTION
    else if !hasInput || inputLen <= 0 then 0
    else 128 * (inputLen / 128)
  }

  /** The codes of `blockEncrypt` and `blockDecrypt` as numbers: an object that is not initialised first, then the
      direction; otherwise the bits of the whole blocks. */
  lemma BlockCodes(state: State, rightDirection: bool, hasInput: bool, inputLen: int)
    ensures var code := BlockCode(state, rightDirection, hasInput, inputLen);
      && (code == -5 <==> state == Invalid) && (code == -6 <==> state == Valid && !rightDirection)
      && (code >= 0 ==> code % 128 == 0)
      && (code >= 0 && hasInput && inputLen > 0 ==> code <= inputLen < code + 128)
      && (code >= 0 && !(hasInput && inputLen > 0) ==> code == 0)
  {
  }

  // ----- The cipher object -----

  datatype Option<T> = None | Some(value: T)

  datatype State = Valid | Invalid

  class Cipher {
    const tables: Tables
    var state: State
    var mode: int
    var direction: int
    var rounds: nat
    var initVector: seq<bv8>
    const expandedKey: array2<Word<bv8>>
    ghost const layers: L.Layers<Block>

    ghost predicate Shape() {
      Ready(layers, tables) && expandedKey.Length0 == 15 && expandedKey.Length1 == 4
    }

    /** Round key r. */
    ghost function KeyAt(r: nat): Block
      requires Shape() && r < 15
      reads expandedKey
    {
      Block(expandedKey[r, 0], expandedKey[r, 1], expandedKey[r, 2], expandedKey[r, 3])
    }

    /** The round keys in use. */
    ghost function Keys(): seq<Block>
      requires Shape() && rounds < 15
      reads this`rounds, expandedKey
    {
      var n := rounds;
      seq(n + 1, r requires 0 <= r <= n < 15 && Shape() reads expandedKey => KeyAt(r))
    }

    /** `init_rijndael_OP` on a zeroed object. */
    constructor (t: Tables, ghost l: L.Layers<Block>)
      requires Ready(l, t)
      ensures Shape() && fresh(expandedKey) && tables == t && layers == l
    {
      tables, layers := t, l;
      initVector := seq(MAX_IV_SIZE, _ => 0);
      expandedKey := new Word<bv8>[15, 4]((i, j) => Word(0, 0, 0, 0));
      state, mode, direction, rounds := State.Valid, ECB, ENCRYPT, 0;
    }

    // ----- Key schedule -----

    /** The first p words of the round keys are those of w. */
    ghost predicate KeyFilled(w: seq<Word<bv8>>, p: nat)
      requires Shape() && rounds < 15 && p <= |w|
      reads this, expandedKey
    {
      forall r, c :: 0 <= r <= rounds && 0 <= c < 4 && 4 * r + c < p ==> expandedKey[r, c] == w[4 * r + c]
    }

    /** The copy loops of `keySched`: nk words of tempKey go to the next free slots of the
        round keys, from round r0, column c0; the words that no longer fit are dropped. */
    method SpillKey(tempKey: array<Word<bv8>>, nk: nat, r0: nat, c0: nat, ghost w: seq<Word<bv8>>)
      returns (r: nat, c: nat)
      requires Shape() && rounds < 15
      requires 0 < nk <= tempKey.Length && r0 <= rounds && c0 < 4
      requires 4 * r0 + c0 + nk <= |w| && 4 * rounds + 4 <= |w|
      requires KeyFilled(w, 4 * r0 + c0)
      requires forall j :: 0 <= j < nk ==> tempKey[j] == w[4 * r0 + c0 + j]
      modifies expandedKey
      ensures c < 4 && r <= rounds + 1 && (r == rounds + 1 ==> c == 0)
      ensures 4 * r + c == if 4 * r0 + c0 + nk <= 4 * rounds + 4 then 4 * r0 + c0 + nk else 4 * rounds + 4
      ensures KeyFilled(w, 4 * r + c)
    {
      var j := 0;
      r, c := r0, c0;
      while j < nk && r <= rounds
        invariant j <= nk && c < 4 && r <= rounds + 1 && (r == rounds + 1 ==> c == 0)
        invariant 4 * r + c == 4 * r0 + c0 + j
        invariant KeyFilled(w, 4 * r + c)
      {
        ghost var j0 := j;
        while j < nk && c < 4
          invariant j0 <= j <= nk && c <= 4 && r <= rounds
          invariant j == j0 ==> c < 4
          invariant 4 * r + c == 4 * r0 + c0 + j
          invariant KeyFilled(w, 4 * r + c)
        {
          expandedKey[r, c] := tempKey[j];
          j, c := j + 1, c + 1;
        }
        if c == 4 {
          r, c := r + 1, 0;
        }
      }
    }

    /** The first word of a pass of `keySched`. */
    method AdvanceFirst(tempKey: array<Word<bv8>>, nk: nat, n: nat)
      requires Shape() && n < 30 && 2 <= nk <= 8 && tempKey.Length == 8
      modifies tempKey
      ensures tempKey[0] == FirstWord(tables, n, old(tempKey[0]), old(tempKey[nk - 1]))
      ensures forall j :: 1 <= j < 8 ==> tempKey[j] == old(tempKey[j])
    {
      IsReady(layers, tables);
      var o := tables.ops;
      tempKey[0] := tempKey[0].(b0 := o.plus(tempKey[0].b0, tables.sub(tempKey[nk - 1].b1)));
      tempKey[0] := tempKey[0].(b1 := o.plus(tempKey[0].b1, tables.sub(tempKey[nk - 1].b2)));
      tempKey[0] := tempKey[0].(b2 := o.plus(tempKey[0].b2, tables.sub(tempKey[nk - 1].b3)));
      tempKey[0] := tempKey[0].(b3 := o.plus(tempKey[0].b3, tables.sub(tempKey[nk - 1].b0)));
      tempKey[0] := tempKey[0].(b0 := o.plus(tempKey[0].b0, tables.rcon[n]));
    }

    /** The middle word of a pass of `keySched` with eight columns. */
    method AdvanceMiddle(tempKey: array<Word<bv8>>, h: nat)
      requires 1 <= h < 8 && tempKey.Length == 8
      modifies tempKey
      ensures tempKey[h] == XorWord(tables.ops, old(tempKey[h]), SubWord(tables, old(tempKey[h - 1])))
      ensures forall j :: 0 <= j < 8 && j != h ==> tempKey[j] == old(tempKey[j])
    {
      var o := tables.ops;
      tempKey[h] := tempKey[h].(b0 := o.plus(tempKey[h].b0, tables.sub(tempKey[h - 1].b0)));
      tempKey[h] := tempKey[h].(b1 := o.plus(tempKey[h].b1, tables.sub(tempKey[h - 1].b1)));
      tempKey[h] := tempKey[h].(b2 := o.plus(tempKey[h].b2, tables.sub(tempKey[h - 1].b2)));
      tempKey[h] := tempKey[h].(b3 := o.plus(tempKey[h].b3, tables.sub(tempKey[h - 1].b3)));
    }

    /** The loops `tempKey[j] ^= tempKey[j - 1]` for j from lo to hi. */
    method ChainWords(tempKey: array<Word<bv8>>, lo: nat, hi: nat)
      requires 1 <= lo <= hi <= 8 && tempKey.Length == 8
      modifies tempKey
      ensures forall j :: lo <= j < hi ==> tempKey[j] == XorWord(tables.ops, old(tempKey[j]), tempKey[j - 1])
      ensures forall j :: 0 <= j < 8 && !(lo <= j < hi) ==> tempKey[j] == old(tempKey[j])
    {
      var j := lo;
      while j < hi
        invariant lo <= j <= hi
        invariant forall i :: lo <= i < j ==> tempKey[i] == XorWord(tables.ops, old(tempKey[i]), tempKey[i - 1])
        invariant forall i :: 0 <= i < 8 && !(lo <= i < j) ==> tempKey[i] == old(tempKey[i])
      {
        tempKey[j] := XorWord(tables.ops, tempKey[j], tempKey[j - 1]);
        j := j + 1;
      }
    }

    /** The body of the `while` loop of `keySched` up to the copy. */
    method AdvanceKey(tempKey: array<Word<bv8>>, nk: nat, n: nat)
      requires Shape() && n < 30
      requires nk in {4, 6, 8} && tempKey.Length == 8
      modifies tempKey
      ensures NextWords(tables, n, old(tempKey[..nk]), tempKey[..nk])
    {
      IsReady(layers, tables);
      AdvanceFirst(tempKey, nk, n);
      if nk != 8 {
        ChainWords(tempKey, 1, nk);
      } else {
        ChainWords(tempKey, 1, nk / 2);
        AdvanceMiddle(tempKey, nk / 2);
        ChainWords(tempKey, nk / 2 + 1, nk);
      }
    }

    /** The body of the `while` loop of `keySched`: advance tempKey, then copy it. */
    method OnePass(tempKey: array<Word<bv8>>, nk: nat, n: nat, ghost base: nat, r0: nat, c0: nat,
                   ghost w: seq<Word<bv8>>)
      returns (r: nat, c: nat)
      requires Shape() && rounds < 15 && nk in {4, 6, 8} && tempKey.Length == 8 && n < 30
      requires Recurs(tables, nk, w) && base == n * nk
      requires base + 2 * nk <= |w| && 4 * rounds + 4 <= |w|
      requires tempKey[..nk] == w[base..base + nk]
      requires r0 <= rounds && c0 < 4 && 4 * r0 + c0 == base + nk
      requires KeyFilled(w, 4 * r0 + c0)
      modifies tempKey, expandedKey
      ensures c < 4 && r <= rounds + 1 && (r == rounds + 1 ==> c == 0)
      ensures 4 * r + c == if base + 2 * nk <= 4 * rounds + 4 then base + 2 * nk else 4 * rounds + 4
      ensures tempKey[..nk] == w[base + nk..base + 2 * nk]
      ensures KeyFilled(w, 4 * r + c)
    {
      AdvanceKey(tempKey, nk, n);
      NextPass(tables, nk, w, n, base, tempKey[..nk]);
      forall j | 0 <= j < nk ensures tempKey[j] == w[4 * r0 + c0 + j] {
        assert tempKey[..nk][j] == w[base + nk..base + 2 * nk][j];
      }
      r, c := SpillKey(tempKey, nk, r0, c0, w);
    }

    /** The working copy of the key words. */
    method CopyKey(key: array<Word<bv8>>, nk: nat) returns (tempKey: array<Word<bv8>>)
      requires key.Length == 8 && nk <= 8
      ensures fresh(tempKey) && tempKey.Length == 8 && tempKey[..nk] == key[..nk]
    {
      tempKey := new Word<bv8>[8](i => Word(0, 0, 0, 0));
      var j := 0;
      while j < nk
        invariant j <= nk
        invariant forall i :: 0 <= i < j ==> tempKey[i] == key[i]
      {
        tempKey[j] := key[j];
        j := j + 1;
      }
    }

    /** `keySched` against any word sequence that starts with the key and follows the recurrence. */
    method FillKeys(key: array<Word<bv8>>, ghost w: seq<Word<bv8>>)
      requires Shape() && rounds in {10, 12, 14} && key.Length == 8
      requires |w| == 6 * (rounds - 6) + 28 && w[..rounds - 6] == key[..rounds - 6]
      requires Recurs(tables, rounds - 6, w)
      modifies expandedKey
      ensures KeyFilled(w, 4 * rounds + 4)
    {
      var nk := rounds - 6;
      var tempKey := CopyKey(key, nk);
      var rconpointer := 0;
      ghost var base := 0;
      var r, c := SpillKey(tempKey, nk, 0, 0, w);
      while r <= rounds
        invariant c < 4 && r <= rounds + 1 && (r == rounds + 1 ==> c == 0)
        invariant base == rconpointer * nk && base < 4 * rounds + 4
        invariant 4 * r + c == if base + nk <= 4 * rounds + 4 then base + nk else 4 * rounds + 4
        invariant tempKey[..nk] == w[base..base + nk]
        invariant KeyFilled(w, 4 * r + c)
        decreases rounds + 1 - r, 4 - c
      {
        PassBound(nk, rconpointer, base);
        r, c := OnePass(tempKey, nk, rconpointer, base, r, c, w);
        rconpointer := rconpointer + 1;
        base := base + nk;
      }
    }

    lemma FilledKeys(w: seq<Word<bv8>>)
      requires Shape() && rounds < 15 && 4 * rounds + 4 <= |w|
      requires KeyFilled(w, 4 * rounds + 4)
      ensures Keys() == BlocksOf(w, rounds + 1)
    {
    }

    /** `keySched`: the round keys are the words of KeyExpansion, rounds 0 to m_uRounds. */
    method KeySched(key: array<Word<bv8>>)
      requires Shape() && rounds in {10, 12, 14} && key.Length == 8
      modifies expandedKey
      ensures Keys() == RoundKeys(tables, key[..rounds - 6])
    {
      ghost var k := key[..rounds - 6];
      IsReady(layers, tables);
      AllWordsRecurs(tables, k);
      FillKeys(key, AllWords(tables, k));
      FilledKeys(AllWords(tables, k));
    }

    /** One of the four assignments of the loop of `keyEncToDec`. */
    method UnmixWord(r: nat, c: nat)
      requires Shape() && r < 15 && c < 4
      modifies expandedKey
      ensures expandedKey[r, c] == MixWord(tables.ops, INV_MIX, old(expandedKey[r, c]))
      ensures forall r', c' :: 0 <= r' < 15 && 0 <= c' < 4 && (r' != r || c' != c) ==>
        expandedKey[r', c'] == old(expandedKey[r', c'])
    {
      var w := expandedKey[r, c];
      expandedKey[r, c] := Xor4(tables, U1(tables, w.b0), U2(tables, w.b1), U3(tables, w.b2), U4(tables, w.b3));
    }

    /** The body of the loop of `keyEncToDec`. */
    method UnmixKey(r: nat)
      requires Shape() && r <= rounds < 15
      modifies expandedKey
      ensures KeyAt(r) == layers.unmix(old(KeyAt(r)))
      ensures forall i :: 0 <= i <= rounds && i != r ==> KeyAt(i) == old(KeyAt(i))
    {
      IsReady(layers, tables);
      assert L.Use1(KeyAt(r));
      UnmixWord(r, 0);
      UnmixWord(r, 1);
      UnmixWord(r, 2);
      UnmixWord(r, 3);
    }

    /** `keyEncToDec`: the round keys of the equivalent inverse cipher. */
    method KeyEncToDec()
      requires Shape() && 2 <= rounds < 15
      modifies expandedKey
      ensures Keys() == L.DecryptionKeys(layers, old(Keys()))
    {
      ghost var ks := Keys();
      var r := 1;
      while r < rounds
        invariant 1 <= r <= rounds
        invariant forall i :: 0 <= i <= rounds ==> KeyAt(i) == if 0 < i < r then layers.unmix(ks[i]) else ks[i]
      {
        UnmixKey(r);
        r := r + 1;
      }
    }

    /** The round key r, read word by word. */
    method ReadKey(r: nat) returns (k: Block)
      requires Shape() && r <= rounds < 15
      ensures k == Keys()[r]
    {
      k := Block(expandedKey[r, 0], expandedKey[r, 1], expandedKey[r, 2], expandedKey[r, 3]);
    }

    /** Add round key r and look up the four tables. */
    method FullRound(s: Block, r: nat) returns (b: Block)
      requires Shape() && r <= rounds < 15
      ensures b == layers.mix(layers.sub(layers.add(s, Keys()[r])))
    {
      var k := ReadKey(r);
      var temp := AddKey(tables, layers, s, k);
      b := TableRound(tables, layers, temp);
    }

    method FullInvRound(s: Block, r: nat) returns (b: Block)
      requires Shape() && r <= rounds < 15
      ensures b == layers.unmix(layers.inv(layers.add(s, Keys()[r])))
    {
      var k := ReadKey(r);
      var temp := AddKey(tables, layers, s, k);
      b := InvTableRound(tables, layers, temp);
    }

    /** The last two key additions, around the unmixed round. */
    method FinalRound(s: Block) returns (b: Block)
      requires Shape() && 2 <= rounds < 15
      ensures b == layers.add(layers.sub(layers.add(s, Keys()[rounds - 1])), Keys()[rounds])
    {
      var k := ReadKey(rounds - 1);
      var temp := AddKey(tables, layers, s, k);
      b := LastRound(tables, layers, temp);
      k := ReadKey(rounds);
      b := AddKey(tables, layers, b, k);
    }

    method FinalInvRound(s: Block) returns (b: Block)
      requires Shape() && 2 <= rounds < 15
      ensures b == layers.add(layers.inv(layers.add(s, Keys()[1])), Keys()[0])
    {
      var k := ReadKey(1);
      var temp := AddKey(tables, layers, s, k);
      b := InvLastRound(tables, layers, temp);
      k := ReadKey(0);
      b := AddKey(tables, layers, b, k);
    }

    /** The rounds of `r_encrypt` up to the one before the last two key additions. */
    method InnerRounds(a: Block, ghost ks: seq<Block>) returns (b: Block)
      requires Shape() && 2 <= rounds < 15 && ks == Keys()
      ensures b == layers.mix(layers.sub(L.Rounds(layers, ks, rounds - 2, a)))
    {
      b := FullRound(a, 0);
      var r := 1;
      while r < rounds - 1
        invariant 1 <= r <= rounds - 1
        invariant b == layers.mix(layers.sub(L.Rounds(layers, ks, r - 1, a)))
      {
        b := FullRound(b, r);
        r := r + 1;
      }
    }

    /** `r_encrypt` computes Cipher of FIPS 197 under the round keys in use. */
    method REncrypt(a: Block) returns (b: Block)
      requires Shape() && 2 <= rounds < 15
      ensures b == L.Cipher(layers, Keys(), a)
    {
      b := InnerRounds(a, Keys());
      b := FinalRound(b);
    }

    /** The rounds of `r_decrypt` down to round 2. */
    method InnerInvRounds(a: Block, ghost ks: seq<Block>) returns (b: Block)
      requires Shape() && 2 <= rounds < 15 && ks == Keys()
      ensures b == layers.unmix(layers.inv(L.InvRounds(layers, ks, rounds - 2, a)))
    {
      ghost var j := 0;
      b := FullInvRound(a, rounds);
      var r := rounds - 1;
      while r > 1
        invariant 1 <= r && j + r == rounds - 1
        invariant b == layers.unmix(layers.inv(L.InvRounds(layers, ks, j, a)))
      {
        b := FullInvRound(b, r);
        r := r - 1;
        j := j + 1;
      }
    }

    /** `r_decrypt` computes EqInvCipher of FIPS 197 under the round keys in use. */
    method RDecrypt(a: Block) returns (b: Block)
      requires Shape() && 2 <= rounds < 15
      ensures b == L.EqInvCipher(layers, Keys(), a)
    {
      b := InnerInvRounds(a, Keys());
      b := FinalInvRound(b);
    }

    /** `keyMatrix`, filled from the key bytes. */
    method LoadKey(key: seq<bv8>) returns (keyMatrix: array<Word<bv8>>)
      requires |key| in {16, 24, 32}
      ensures fresh(keyMatrix) && keyMatrix.Length == 8 && keyMatrix[..|key| / 4] == KeyWords(key)
    {
      keyMatrix := new Word<bv8>[8](i => Word(0, 0, 0, 0));
      var j := 0;
      while j < |key| / 4
        invariant j <= |key| / 4
        invariant forall i :: 0 <= i < j ==> keyMatrix[i] == KeyWords(key)[i]
      {
        keyMatrix[j] := Word(key[4 * j], key[4 * j + 1], key[4 * j + 2], key[4 * j + 3]);
        j := j + 1;
      }
    }

    /** The key schedule part of `rijndael_init`. */
    method Schedule(key: seq<bv8>)
      requires Shape() && rounds in {10, 12, 14} && |key| == 4 * (rounds - 6)
      modifies expandedKey
      ensures Keys() == KeysInUse(tables, layers, direction, key)
    {
      var keyMatrix := LoadKey(key);
      KeySched(keyMatrix);
      if direction == DECRYPT {
        KeyEncToDec();
      }
    }

    /** What `rijndael_init` sets before it looks at the key. */
    method Configure(mode: int, dir: int, keyLen: int, vector: Option<seq<bv8>>) returns (code: int)
      requires vector.Some? ==> |vector.value| >= MAX_IV_SIZE
      modifies this`mode, this`direction, this`initVector, this`rounds
      ensures code == InitCode(mode, dir, true, keyLen)
      ensures initVector ==
        if code in {RIJNDAEL_UNSUPPORTED_MODE, RIJNDAEL_UNSUPPORTED_DIRECTION} then old(initVector)
        else VectorInUse(vector)
      ensures code == RIJNDAEL_SUCCESS ==> this.mode == mode && direction == dir && rounds == 10 + 2 * keyLen
    {
      if mode != CBC && mode != ECB && mode != CFB1 {
        return RIJNDAEL_UNSUPPORTED_MODE;
      }
      this.mode := mode;
      if dir != ENCRYPT && dir != DECRYPT {
        return RIJNDAEL_UNSUPPORTED_DIRECTION;
      }
      direction := dir;
      initVector := VectorInUse(vector);
      if keyLen == KEY_16_BYTES {
        rounds := 10;
      } else if keyLen == KEY_24_BYTES {
        rounds := 12;
      } else if keyLen == KEY_32_BYTES {
        rounds := 14;
      } else {
        return RIJNDAEL_UNSUPPORTED_KEY_LENGTH;
      }
      return RIJNDAEL_SUCCESS;
    }

    /** `rijndael_init`. An absent key or vector is a null pointer in the source. */
    method Init(mode: int, dir: int, key: Option<seq<bv8>>, keyLen: int, vector: Option<seq<bv8>>) returns (code: int)
      requires Shape() && (vector.Some? ==> |vector.value| >= MAX_IV_SIZE)
      requires key.Some? && keyLen in {KEY_16_BYTES, KEY_24_BYTES, KEY_32_BYTES} ==> |key.value| >= 8 * (keyLen + 2)
      modifies this, expandedKey
      ensures code == InitCode(mode, dir, key.Some?, keyLen)
      ensures initVector ==
        if code in {RIJNDAEL_UNSUPPORTED_MODE, RIJNDAEL_UNSUPPORTED_DIRECTION} then old(initVector)
        else VectorInUse(vector)
      ensures state == (if code == RIJNDAEL_SUCCESS then State.Valid else State.Invalid)
      ensures code == RIJNDAEL_SUCCESS ==>
        && this.mode == mode && direction == dir && rounds == 10 + 2 * keyLen
        && Keys() == KeysInUse(tables, layers, dir, key.value[..8 * (keyLen + 2)])
    {
      state := State.Invalid;
      code := Configure(mode, dir, keyLen, vector);
      if code == RIJNDAEL_SUCCESS {
        if key.None? {
          return RIJNDAEL_BAD_KEY;
        }
        Schedule(key.value[..8 * (keyLen + 2)]);
        state := State.Valid;
      }
    }

    /** One turn of the ECB loop of `blockEncrypt`. */
    method EncryptOne(input: array<bv8>, k: nat, outBuffer: array<bv8>)
      requires Shape() && 2 <= rounds < 15
      requires 16 * k + 16 <= input.Length && 16 * k + 16 <= outBuffer.Length
      modifies outBuffer
      ensures Piece(outBuffer[..], k) == Encryptor(layers, Keys())(old(Piece(input[..], k)))
      ensures forall j :: 0 <= j < outBuffer.Length && !(16 * k <= j < 16 * k + 16) ==>
        outBuffer[j] == old(outBuffer[j])
    {
      var a := ReadBlock(input, k);
      var b := REncrypt(a);
      WriteBlock(outBuffer, k, b);
    }

    /** The ECB loop of `blockEncrypt`; the input may be the output buffer. */
    method EcbEncrypt(input: array<bv8>, n: nat, outBuffer: array<bv8>, ghost f: seq<bv8> -> seq<bv8>)
      requires Shape() && 2 <= rounds < 15
      requires 16 * n <= input.Length && 16 * n <= outBuffer.Length
      requires Sealed(f, Encryptor(layers, Keys()))
      modifies outBuffer
      ensures IsEcb(f, old(input[..]), outBuffer[..], n)
      ensures forall j :: 16 * n <= j < outBuffer.Length ==> outBuffer[j] == old(outBuffer[j])
    {
      ghost var was := input[..];
      var i := 0;
      while i < n
        invariant i <= n
        invariant IsEcb(f, was, outBuffer[..], i)
        invariant forall j :: 16 * i <= j < outBuffer.Length ==> outBuffer[j] == old(outBuffer[j])
        invariant forall j :: 16 * i <= j < input.Length ==> input[j] == was[j]
      {
        ghost var r := outBuffer[..];
        SamePiece(input[..], was, i);
        EncryptOne(input, i, outBuffer);
        Unseal(f, Encryptor(layers, Keys()));
        IsEcbExtend(f, was, r, outBuffer[..], i);
        i := i + 1;
      }
    }

    method EcbEncryptBuffer(input: array<bv8>, n: nat, outBuffer: array<bv8>)
      requires Shape() && 2 <= rounds < 15
      requires 16 * n <= input.Length && 16 * n <= outBuffer.Length
      modifies outBuffer
      ensures IsEcb(Encryptor(layers, Keys()), old(input[..]), outBuffer[..], n)
      ensures forall j :: 16 * n <= j < outBuffer.Length ==> outBuffer[j] == old(outBuffer[j])
    {
      EcbEncrypt(input, n, outBuffer, Encryptor(layers, Keys()));
    }

    /** `blockEncrypt` in ECB mode. The length is in bits; a null input is an absent array. */
    method BlockEncrypt(input: array?<bv8>, inputLen: int, outBuffer: array<bv8>) returns (code: int)
      requires Shape() && 2 <= rounds < 15 && mode == ECB
      requires input != null && inputLen > 0 ==> inputLen / 8 <= input.Length && inputLen / 8 <= outBuffer.Length
      modifies outBuffer
      ensures code == BlockCode(state, direction == ENCRYPT, input != null, inputLen)
      ensures 0 < code ==> IsEcb(Encryptor(layers, Keys()), old(input[..]), outBuffer[..], inputLen / 128)
      ensures forall j :: 0 <= j < outBuffer.Length && (code <= 0 || 16 * (inputLen / 128) <= j) ==>
        outBuffer[j] == old(outBuffer[j])
    {
      if state != State.Valid {
        return RIJNDAEL_NOT_INITIALIZED;
      }
      if !(direction == ENCRYPT) {
        return RIJNDAEL_BAD_DIRECTION;
      }
      if input == null || inputLen <= 0 {
        return 0;
      }
      var numBlocks := inputLen / 128;
      BlocksFit(inputLen);
      EcbEncryptBuffer(input, numBlocks, outBuffer);
      return 128 * numBlocks;
    }

    /** One turn of the ECB loop of `blockDecrypt`. */
    method DecryptOne(input: array<bv8>, k: nat, outBuffer: array<bv8>)
      requires Shape() && 2 <= rounds < 15
      requires 16 * k + 16 <= input.Length && 16 * k + 16 <= outBuffer.Length
      modifies outBuffer
      ensures Piece(outBuffer[..], k) == Decryptor(layers, Keys())(old(Piece(input[..], k)))
      ensures forall j :: 0 <= j < outBuffer.Length && !(16 * k <= j < 16 * k + 16) ==>
        outBuffer[j] == old(outBuffer[j])
    {
      var a := ReadBlock(input, k);
      var b := RDecrypt(a);
      WriteBlock(outBuffer, k, b);
    }

    /** The ECB loop of `blockDecrypt`; the input may be the output buffer. */
    method EcbDecrypt(input: array<bv8>, n: nat, outBuffer: array<bv8>, ghost f: seq<bv8> -> seq<bv8>)
      requires Shape() && 2 <= rounds < 15
      requires 16 * n <= input.Length && 16 * n <= outBuffer.Length
      requires Sealed(f, Decryptor(layers, Keys()))
      modifies outBuffer
      ensures IsEcb(f, old(input[..]), outBuffer[..], n)
      ensures forall j :: 16 * n <= j < outBuffer.Length ==> outBuffer[j] == old(outBuffer[j])
    {
      ghost var was := input[..];
      var i := 0;
      while i < n
        invariant i <= n
        invariant IsEcb(f, was, outBuffer[..], i)
        invariant forall j :: 16 * i <= j < outBuffer.Length ==> outBuffer[j] == old(outBuffer[j])
        invariant forall j :: 16 * i <= j < input.Length ==> input[j] == was[j]
      {
        ghost var r := outBuffer[..];
        SamePiece(input[..], was, i);
        DecryptOne(input, i, outBuffer);
        Unseal(f, Decryptor(layers, Keys()));
        IsEcbExtend(f, was, r, outBuffer[..], i);
        i := i + 1;
      }
    }

    method EcbDecryptBuffer(input: array<bv8>, n: nat, outBuffer: array<bv8>)
      requires Shape() && 2 <= rounds < 15
      requires 16 * n <= input.Length && 16 * n <= outBuffer.Length
      modifies outBuffer
      ensures IsEcb(Decryptor(layers, Keys()), old(input[..]), outBuffer[..], n)
      ensures forall j :: 16 * n <= j < outBuffer.Length ==> outBuffer[j] == old(outBuffer[j])
    {
      EcbDecrypt(input, n, outBuffer, Decryptor(layers, Keys()));
    }

    /** `blockDecrypt` in ECB mode. The length is in bits; a null input is an absent array. */
    method BlockDecrypt(input: array?<bv8>, inputLen: int, outBuffer: array<bv8>) returns (code: int)
      requires Shape() && 2 <= rounds < 15 && mode == ECB
      requires input != null && inputLen > 0 ==> inputLen / 8 <= input.Length && inputLen / 8 <= outBuffer.Length
      modifies outBuffer
      ensures code == BlockCode(state, direction != ENCRYPT, input != null, inputLen)
      ensures 0 < code ==> IsEcb(Decryptor(layers, Keys()), old(input[..]), outBuffer[..], inputLen / 128)
      ensures forall j :: 0 <= j < outBuffer.Length && (code <= 0 || 16 * (inputLen / 128) <= j) ==>
        outBuffer[j] == old(outBuffer[j])
    {
      if state != State.Valid {
        return RIJNDAEL_NOT_INITIALIZED;
      }
      if !(direction != ENCRYPT) {
        return RIJNDAEL_BAD_DIRECTION;
      }
      if input == null || inputLen <= 0 {
        return 0;
      }
      var numBlocks := inputLen / 128;
      BlocksFit(inputLen);
      EcbDecryptBuffer(input, numBlocks, outBuffer);
      return 128 * numBlocks;
    }
  }

  // ----- Block input and output -----

  ghost predicate Point(f: seq<bv8> -> seq<bv8>) { true }

  /** f is g, a fact used only where a proof asks for it. */
  ghost predicate Sealed(f: seq<bv8> -> seq<bv8>, g: seq<bv8> -> seq<bv8>) {
    forall h {:trigger Point(h)} :: Point(h) && h == g ==> f == h
  }

  lemma Unseal(f: seq<bv8> -> seq<bv8>, g: seq<bv8> -> seq<bv8>)
    requires Sealed(f, g)
    ensures f == g
  {
    assert Point(g);
  }

  method ReadBlock(input: array<bv8>, k: nat) returns (b: Block)
    requires 16 * k + 16 <= input.Length
    ensures b == BlockAt(Piece(input[..], k), 0)
  {
    var at := 16 * k;
    b := Block(Word(input[at], input[at + 1], input[at + 2], input[at + 3]),
               Word(input[at + 4], input[at + 5], input[at + 6], input[at + 7]),
               Word(input[at + 8], input[at + 9], input[at + 10], input[at + 11]),
               Word(input[at + 12], input[at + 13], input[at + 14], input[at + 15]));
  }

  method WriteBlock(output: array<bv8>, k: nat, b: Block)
    requires 16 * k + 16 <= output.Length
    modifies output
    ensures Piece(output[..], k) == BlockBytes(b)
    ensures forall j :: 0 <= j < output.Length && !(16 * k <= j < 16 * k + 16) ==> output[j] == old(output[j])
  {
    var bytes, at := BlockBytes(b), 16 * k;
    var i := 0;
    while i < 16
      invariant i <= 16
      invariant forall j :: 0 <= j < output.Length ==>
        output[j] == if at <= j < at + i then bytes[j - at] else old(output[j])
    {
      output[at + i] := bytes[i];
      i := i + 1;
    }
  }

  // ----- Passes of the key schedule -----

  function FirstWord(t: Tables, n: nat, w: Word<bv8>, last: Word<bv8>): Word<bv8> {
    Word(t.ops.plus(t.ops.plus(w.b0, t.sub(last.b1)), if n < |t.rcon| then t.rcon[n] else t.ops.zero),
      t.ops.plus(w.b1, t.sub(last.b2)),
         t.ops.plus(w.b2, t.sub(last.b3)), t.ops.plus(w.b3, t.sub(last.b0)))
  }

  /** One pass of `keySched` takes the nk words `cur` to the nk words `next`. */
  ghost predicate NextWords(t: Tables, n: nat, cur: seq<Word<bv8>>, next: seq<Word<bv8>>)
    requires |cur| == |next| > 0
  {
    && next[0] == FirstWord(t, n, cur[0], cur[|cur| - 1])
    && forall j :: 1 <= j < |cur| ==>
         next[j] == XorWord(t.ops, cur[j], if |cur| == 8 && j == 4 then SubWord(t, next[j - 1]) else next[j - 1])
  }

  lemma IndexFacts(nk: nat, n: nat, j: nat)
    requires nk in {4, 6, 8} && j < nk
    ensures (n * nk + nk + j) / nk == n + 1 && (n * nk + nk + j) % nk == j
  {
    if nk == 4 {
    } else if nk == 6 {
    } else {
    }
  }

  lemma FirstWordIs(t: Tables, n: nat, w: Word<bv8>, last: Word<bv8>)
    requires Sound(t) && n < 30
    ensures FirstWord(t, n, w, last) == XorWord(t.ops, w, XorWord(t.ops, SubWord(t, RotWord(last)), Rcon(t, n + 1)))
  {
    Assoc(t.ops, w.b0, t.sub(last.b1), t.rcon[n]);
    Unit(t.ops, t.sub(last.b2));
    Unit(t.ops, t.sub(last.b3));
    Unit(t.ops, t.sub(last.b0));
  }

  lemma ExpandFirst(t: Tables, key: seq<Word<bv8>>, n: nat, base: nat)
    requires Sound(t) && |key| in {4, 6, 8} && n < 30 && base == n * |key|
    ensures ExpandedWord(t, key, base + |key|)
         == FirstWord(t, n, ExpandedWord(t, key, base), ExpandedWord(t, key, base + |key| - 1))
  {
    IndexFacts(|key|, n, 0);
    FirstWordIs(t, n, ExpandedWord(t, key, base), ExpandedWord(t, key, base + |key| - 1));
  }

  lemma ExpandRest(t: Tables, key: seq<Word<bv8>>, n: nat, base: nat, j: nat)
    requires |key| in {4, 6, 8} && 1 <= j < |key| && base == n * |key|
    ensures var last := ExpandedWord(t, key, base + |key| + j - 1);
            ExpandedWord(t, key, base + |key| + j) ==
              XorWord(t.ops, ExpandedWord(t, key, base + j), if |key| == 8 && j == 4 then SubWord(t, last) else last)
  {
    IndexFacts(|key|, n, j);
  }

  ghost predicate Pass(n: nat) { true }

  /** Every pass of nk words of w follows from the pass before it. */
  ghost predicate Recurs(t: Tables, nk: nat, w: seq<Word<bv8>>)
    requires nk > 0
  {
    forall n: nat {:trigger Pass(n)} :: Pass(n) && n < 30 && n * nk + 2 * nk <= |w| ==>
      NextWords(t, n, w[n * nk..n * nk + nk], w[n * nk + nk..n * nk + 2 * nk])
  }

  lemma PassBound(nk: nat, n: nat, base: nat)
    requires nk in {4, 6, 8} && base == n * nk && base < 4 * nk + 28
    ensures n < 30 && (n + 1) * nk == base + nk
  {
  }

  lemma {:induction false} NextWordsUnique(t: Tables, n: nat, cur: seq<Word<bv8>>, a: seq<Word<bv8>>,
                                           b: seq<Word<bv8>>, j: nat)
    requires |cur| == |a| == |b| > 0 && j < |cur|
    requires NextWords(t, n, cur, a) && NextWords(t, n, cur, b)
    ensures a[j] == b[j]
  {
    if j > 0 {
      NextWordsUnique(t, n, cur, a, b, j - 1);
    }
  }

  lemma NextPass(t: Tables, nk: nat, w: seq<Word<bv8>>, n: nat, base: nat, next: seq<Word<bv8>>)
    requires nk > 0 && Recurs(t, nk, w)
    requires n < 30 && base == n * nk && base + 2 * nk <= |w| && |next| == nk
    requires NextWords(t, n, w[base..base + nk], next)
    ensures next == w[base + nk..base + 2 * nk]
  {
    assert Pass(n);
    var b := w[base + nk..base + 2 * nk];
    forall j | 0 <= j < nk ensures next[j] == b[j] {
      NextWordsUnique(t, n, w[base..base + nk], next, b, j);
    }
  }

  lemma AllWordsAt(t: Tables, key: seq<Word<bv8>>, i: nat)
    requires |key| > 0 && i < 6 * |key| + 28
    ensures AllWords(t, key)[i] == ExpandedWord(t, key, i)
  {
  }

  /** The words of KeyExpansion follow from each other as the passes of `keySched` do. */
  lemma AllWordsRecurs(t: Tables, key: seq<Word<bv8>>)
    requires Sound(t) && |key| in {4, 6, 8}
    ensures AllWords(t, key)[..|key|] == key
    ensures Recurs(t, |key|, AllWords(t, key))
  {
    var nk, w := |key|, AllWords(t, key);
    forall n: nat {:trigger Pass(n)} | Pass(n) && n < 30 && n * nk + 2 * nk <= |w|
      ensures NextWords(t, n, w[n * nk..n * nk + nk], w[n * nk + nk..n * nk + 2 * nk])
    {
      AllWordsPass(t, key, n, n * nk);
    }
  }

  lemma AllWordsPass(t: Tables, key: seq<Word<bv8>>, n: nat, base: nat)
    requires Sound(t) && |key| in {4, 6, 8} && n < 30
    requires base == n * |key| && base + 2 * |key| <= 6 * |key| + 28
    ensures NextWords(t, n, AllWords(t, key)[base..base + |key|], AllWords(t, key)[base + |key|..base + 2 * |key|])
  {
    var nk := |key|;
    AllWordsFirst(t, key, n, base);
    forall j | 1 <= j < nk
      ensures RestHolds(t, AllWords(t, key), nk, base, j)
    {
      AllWordsRest(t, key, n, base, j);
    }
    SlicesSatisfy(t, AllWords(t, key), nk, n, base);
  }

  /** Word j of the pass after base follows from the words before it. */
  ghost predicate RestHolds(t: Tables, w: seq<Word<bv8>>, nk: nat, base: nat, j: nat)
    requires 1 <= j < nk && base + 2 * nk <= |w|
  {
    var last := w[base + nk + j - 1];
    w[base + nk + j] == XorWord(t.ops, w[base + j], if nk == 8 && j == 4 then SubWord(t, last) else last)
  }

  lemma SlicesSatisfy(t: Tables, w: seq<Word<bv8>>, nk: nat, n: nat, base: nat)
    requires nk > 0 && base + 2 * nk <= |w|
    requires w[base + nk] == FirstWord(t, n, w[base], w[base + nk - 1])
    requires forall j :: 1 <= j < nk ==> RestHolds(t, w, nk, base, j)
    ensures NextWords(t, n, w[base..base + nk], w[base + nk..base + 2 * nk])
  {
    var cur, next := w[base..base + nk], w[base + nk..base + 2 * nk];
    forall j | 1 <= j < nk
      ensures next[j] == XorWord(t.ops, cur[j], if nk == 8 && j == 4 then SubWord(t, next[j - 1]) else next[j - 1])
    {
      assert RestHolds(t, w, nk, base, j);
    }
  }

  lemma AllWordsFirst(t: Tables, key: seq<Word<bv8>>, n: nat, base: nat)
    requires Sound(t) && |key| in {4, 6, 8} && n < 30
    requires base == n * |key| && base + 2 * |key| <= 6 * |key| + 28
    ensures var w := AllWords(t, key); w[base + |key|] == FirstWord(t, n, w[base], w[base + |key| - 1])
  {
    ExpandFirst(t, key, n, base);
    AllWordsAt(t, key, base);
    AllWordsAt(t, key, base + |key|);
    AllWordsAt(t, key, base + |key| - 1);
  }

  lemma AllWordsRest(t: Tables, key: seq<Word<bv8>>, n: nat, base: nat, j: nat)
    requires |key| in {4, 6, 8} && 1 <= j < |key|
    requires base == n * |key| && base + 2 * |key| <= 6 * |key| + 28
    ensures RestHolds(t, AllWords(t, key), |key|, base, j)
  {
    ExpandRest(t, key, n, base, j);
    AllWordsAt(t, key, base + j);
    AllWordsAt(t, key, base + |key| + j);
    AllWordsAt(t, key, base + |key| + j - 1);
  }
}
