/**
 The round operations of FIPS 197 (sections 5.1.1 to 5.1.4 and 5.3.1 to 5.3.3), the word
 recurrence of KeyExpansion (section 5.2) and the table form of a round. They are the
 reference that the methods of Rijndael.dfy are proved against.
 */
module AesCipher {
  import opened GfColumns
  import opened AesTables
  import L = KeyAlternating

  /** The state, column by column: byte r of wc is s[r, c] in FIPS 197. */
  datatype Block = Block(w0: Word<bv8>, w1: Word<bv8>, w2: Word<bv8>, w3: Word<bv8>)

  function AddRoundKey(t: Tables, s: Block, k: Block): Block {
    Block(XorWord(t.ops, s.w0, k.w0), XorWord(t.ops, s.w1, k.w1), XorWord(t.ops, s.w2, k.w2),
      XorWord(t.ops, s.w3, k.w3))
  }

  function MapWord(f: bv8 -> bv8, w: Word<bv8>): Word<bv8> {
    Word(f(w.b0), f(w.b1), f(w.b2), f(w.b3))
  }

  function MapBytes(f: bv8 -> bv8, s: Block): Block {
    Block(MapWord(f, s.w0), MapWord(f, s.w1), MapWord(f, s.w2), MapWord(f, s.w3))
  }

  /** Row r moves r places to the left, section 5.1.2. */
  function ShiftRows(s: Block): Block {
    Block(Word(s.w0.b0, s.w1.b1, s.w2.b2, s.w3.b3),
          Word(s.w1.b0, s.w2.b1, s.w3.b2, s.w0.b3),
          Word(s.w2.b0, s.w3.b1, s.w0.b2, s.w1.b3),
          Word(s.w3.b0, s.w0.b1, s.w1.b2, s.w2.b3))
  }

  /** Row r moves r places to the right, section 5.3.1. */
  function InvShiftRows(s: Block): Block {
    Block(Word(s.w0.b0, s.w3.b1, s.w2.b2, s.w1.b3),
          Word(s.w1.b0, s.w0.b1, s.w3.b2, s.w2.b3),
          Word(s.w2.b0, s.w1.b1, s.w0.b2, s.w3.b3),
          Word(s.w3.b0, s.w2.b1, s.w1.b2, s.w0.b3))
  }

  function MixColumns(t: Tables, m: Row, s: Block): Block {
    Block(MixWord(t.ops, m, s.w0), MixWord(t.ops, m, s.w1), MixWord(t.ops, m, s.w2), MixWord(t.ops, m, s.w3))
  }

  /** SubBytes then ShiftRows. */
  function SubShift(t: Tables, s: Block): Block {
    ShiftRows(MapBytes(t.sub, s))
  }

  /** InvShiftRows then InvSubBytes. */
  function InvSubShift(t: Tables, s: Block): Block {
    MapBytes(t.inv, InvShiftRows(s))
  }

  /** The round operations of Rijndael. */
  function AesLayers(t: Tables): L.Layers<Block> {
    L.Layers((s, k) => AddRoundKey(t, s, k),
             s => SubShift(t, s), s => InvSubShift(t, s),
             s => MixColumns(t, MIX, s), s => MixColumns(t, INV_MIX, s))
  }

  // ----- Laws of the round operations -----

  lemma InverseOfMapWord(t: Tables, w: Word<bv8>)
    requires Sound(t)
    ensures MapWord(t.inv, MapWord(t.sub, w)) == w
  {
    assert Use1(w.b0) && Use1(w.b1) && Use1(w.b2) && Use1(w.b3);
  }

  lemma InvSubShiftOfSubShift(t: Tables, s: Block)
    requires Sound(t)
    ensures InvSubShift(t, SubShift(t, s)) == s
  {
    InverseOfMapWord(t, s.w0);
    InverseOfMapWord(t, s.w1);
    InverseOfMapWord(t, s.w2);
    InverseOfMapWord(t, s.w3);
  }

  lemma XorWordTwice(o: Ops<bv8>, a: Word<bv8>, k: Word<bv8>)
    requires Laws(o)
    ensures XorWord(o, XorWord(o, a, k), k) == a
  {
    Cancel(o, a.b0, k.b0);
    Cancel(o, a.b1, k.b1);
    Cancel(o, a.b2, k.b2);
    Cancel(o, a.b3, k.b3);
  }

  lemma AddRoundKeyTwice(t: Tables, s: Block, k: Block)
    requires Sound(t)
    ensures AddRoundKey(t, AddRoundKey(t, s, k), k) == s
  {
    XorWordTwice(t.ops, s.w0, k.w0);
    XorWordTwice(t.ops, s.w1, k.w1);
    XorWordTwice(t.ops, s.w2, k.w2);
    XorWordTwice(t.ops, s.w3, k.w3);
  }

  lemma MixColumnsAdditive(t: Tables, m: Row, s: Block, k: Block)
    requires Sound(t)
    ensures MixColumns(t, m, AddRoundKey(t, s, k)) == AddRoundKey(t, MixColumns(t, m, s), MixColumns(t, m, k))
  {
    MixWordAdditive(t.ops, m, s.w0, k.w0);
    MixWordAdditive(t.ops, m, s.w1, k.w1);
    MixWordAdditive(t.ops, m, s.w2, k.w2);
    MixWordAdditive(t.ops, m, s.w3, k.w3);
  }

  lemma InvMixColumnsOfMixColumns(t: Tables, s: Block)
    requires Sound(t)
    ensures MixColumns(t, INV_MIX, MixColumns(t, MIX, s)) == s
  {
    InvMixOfMix(t.ops, s.w0);
    InvMixOfMix(t.ops, s.w1);
    InvMixOfMix(t.ops, s.w2);
    InvMixOfMix(t.ops, s.w3);
  }

  /** SubBytes, ShiftRows, MixColumns and AddRoundKey have the inverses and the linearity on
      which the equivalent inverse cipher rests. */
  lemma AesLayersLaws(t: Tables)
    requires Sound(t)
    ensures L.Laws(AesLayers(t))
  {
    var l := AesLayers(t);
    forall s {:trigger L.Use1(s)} ensures l.inv(l.sub(s)) == s && l.unmix(l.mix(s)) == s {
      InvSubShiftOfSubShift(t, s);
      InvMixColumnsOfMixColumns(t, s);
    }
    forall s, k {:trigger L.Use2(s, k)}
      ensures l.add(l.add(s, k), k) == s && l.unmix(l.add(s, k)) == l.add(l.unmix(s), l.unmix(k))
    {
      AddRoundKeyTwice(t, s, k);
      MixColumnsAdditive(t, INV_MIX, s, k);
    }
  }

  // ----- Table form -----

  /** Columns of a circulant matrix times a byte: the rows of T1..T4 (with MIX) and of
      U1..U4 (with INV_MIX). */
  function Col0(o: Ops<bv8>, m: Row, x: bv8): Word<bv8> {
    Word(Mul(o, m.r0, x), Mul(o, m.r3, x), Mul(o, m.r2, x), Mul(o, m.r1, x))
  }

  function Col1(o: Ops<bv8>, m: Row, x: bv8): Word<bv8> {
    Word(Mul(o, m.r1, x), Mul(o, m.r0, x), Mul(o, m.r3, x), Mul(o, m.r2, x))
  }

  function Col2(o: Ops<bv8>, m: Row, x: bv8): Word<bv8> {
    Word(Mul(o, m.r2, x), Mul(o, m.r1, x), Mul(o, m.r0, x), Mul(o, m.r3, x))
  }

  function Col3(o: Ops<bv8>, m: Row, x: bv8): Word<bv8> {
    Word(Mul(o, m.r3, x), Mul(o, m.r2, x), Mul(o, m.r1, x), Mul(o, m.r0, x))
  }

  // ----- Key expansion -----

  function SubWord(t: Tables, w: Word<bv8>): Word<bv8> { MapWord(t.sub, w) }

  function RotWord(w: Word<bv8>): Word<bv8> { Word(w.b1, w.b2, w.b3, w.b0) }

  /** Rcon[i] of section 5.2: {02} to the power i - 1 in the first byte. */
  function Rcon(t: Tables, i: nat): Word<bv8>
    requires i >= 1
  {
    Word(PowerOfTwo(t.ops, i - 1), t.ops.zero, t.ops.zero, t.ops.zero)
  }

  /** Word i of the expanded key, Figure 11 of FIPS 197, with Nk = |key|. */
  function ExpandedWord(t: Tables, key: seq<Word<bv8>>, i: nat): Word<bv8>
    requires |key| > 0
  {
    var nk := |key|;
    if i < nk then key[i]
    else
      var temp := ExpandedWord(t, key, i - 1);
      var temp' :=
        if i % nk == 0 then XorWord(t.ops, SubWord(t, RotWord(temp)), Rcon(t, i / nk))
        else if nk > 6 && i % nk == 4 then SubWord(t, temp)
        else temp;
      XorWord(t.ops, ExpandedWord(t, key, i - nk), temp')
  }
}
