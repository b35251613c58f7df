/**
 Subnet lists (src/ip_utils.c): the masks of parsed entries, and what the anonymisation does to a
 block of addresses.
 */
module Subnets {
  import opened CryptoPan
  import opened CryptoPan6

  // ----- IPv4 entries -----

  function And(x: bv32, y: bv32): bv32 { x & y }

  /** 0xffffffff << (32 - m). */
  function HighBits(m: bv32): bv32
    requires 0 < m <= 32
  {
    0xffff_ffff << (32 - m)
  }

  lemma HtonlAnd(x: bv32, y: bv32)
    ensures Htonl(And(x, y)) == And(Htonl(x), Htonl(y))
  {
  }

  function Back(x: bv32, m: bv32): bv32
    requires m <= 32
  {
    x << (32 - m)
  }

  lemma MaskIsTop(a: bv32, m: bv32)
    requires 0 < m <= 32
    ensures And(a, HighBits(m)) == Back(Top(a, m), m)
  {
  }

  lemma TopOfBack(a: bv32, m: bv32)
    requires 0 < m <= 32
    ensures Top(Back(Top(a, m), m), m) == Top(a, m)
  {
  }

  /** Two addresses in host order agree under the mask of m bits when they share their first m bits. */
  lemma MaskedAlike(a: bv32, b: bv32, m: bv32)
    requires 0 < m <= 32
    ensures And(a, HighBits(m)) == And(b, HighBits(m)) <==> SharePrefix(a, b, m)
  {
    MaskIsTop(a, m);
    MaskIsTop(b, m);
    TopOfBack(a, m);
    TopOfBack(b, m);
  }

  /** An address and a mask, both in network byte order. */
  datatype Entry4 = Entry4(net: bv32, mask: bv32)

  /** The mask arithmetic of `ParseNetFile` for an address with a number of mask bits. */
  function Entry(addr: bv32, bits: nat): Entry4
    requires bits <= 32
  {
    PosIsInt(bits);
    var net := if bits == 0 then 0 else addr;
    var fullLocalMask := if net == 0 then 0 else HighBits(Pos(bits));
    var mask := Htonl(fullLocalMask);
    Entry4(And(net, mask), mask)
  }

  predicate Covers(e: Entry4, adx: bv32) {
    And(adx, e.mask) == e.net
  }

  lemma HtonlOfZero()
    ensures Htonl(0) == 0
  {
  }

  lemma AndZero(x: bv32)
    ensures And(x, 0) == 0
  {
  }

  lemma HtonlInjective(x: bv32, y: bv32)
    requires Htonl(x) == Htonl(y)
    ensures x == y
  {
    HtonlTwice(x);
    HtonlTwice(y);
  }

  lemma ShareNothing(a: bv32, b: bv32)
    ensures ShareAt(a, b, 0)
  {
    PosIsInt(0);
    TopEnds(a);
    TopEnds(b);
  }

  /** The byte order does not matter to masking. */
  lemma MaskedThrough(x: bv32, y: bv32, m: bv32)
    ensures And(x, Htonl(m)) == And(y, Htonl(m)) <==> And(Htonl(x), m) == And(Htonl(y), m)
  {
    MaskedAt(x, m);
    MaskedAt(y, m);
    if And(Htonl(x), m) == And(Htonl(y), m) {
      HtonlInjective(And(x, Htonl(m)), And(y, Htonl(m)));
    }
  }

  lemma MaskedAt(x: bv32, m: bv32)
    ensures Htonl(And(x, Htonl(m))) == And(Htonl(x), m)
  {
    HtonlAnd(x, Htonl(m));
    HtonlTwice(m);
  }

  /** An entry of a non-zero address covers exactly the addresses with the same first bits. */
  lemma CoversPrefix(addr: bv32, bits: nat, adx: bv32)
    requires bits <= 32 && (addr != 0 || bits == 0)
    ensures Covers(Entry(addr, bits), adx) <==> ShareWord(adx, addr, bits)
  {
    PosIsInt(bits);
    if bits == 0 {
      HtonlOfZero();
      AndZero(adx);
      AndZero(0);
      ShareNothing(Htonl(adx), Htonl(addr));
    } else {
      MaskedThrough(adx, addr, HighBits(Pos(bits)));
      MaskedAlike(Htonl(adx), Htonl(addr), Pos(bits));
    }
  }

  /** The entry of 0.0.0.0 covers every address, whatever its number of bits. */
  lemma ZeroCoversAll(bits: nat, adx: bv32)
    requires bits <= 32
    ensures Covers(Entry(0, bits), adx)
  {
    HtonlOfZero();
    AndZero(adx);
    AndZero(0);
  }

  /** An address whose first bit is set shares no prefix with 0.0.0.0. */
  lemma FirstBitSet(bits: nat)
    requires 0 < bits <= 32
    ensures !ShareWord(0x80, 0, bits)
  {
    PosIsInt(bits);
    HtonlOfZero();
    assert Htonl(0x80) == 0x8000_0000;
    TopOfFirst(Pos(bits));
  }

  lemma TopOfFirst(m: bv32)
    requires 0 < m <= 32
    ensures !SharePrefix(0x8000_0000, 0, m)
  {
  }

  /** A parsed entry means its first bits exactly when it was not written as 0.0.0.0 with bits. */
  lemma EntryExact(addr: bv32, bits: nat)
    requires bits <= 32
    ensures (forall adx {:trigger Covers(Entry(addr, bits), adx)} ::
               Covers(Entry(addr, bits), adx) <==> ShareWord(adx, addr, bits))
      <==> (addr != 0 || bits == 0)
  {
    if addr != 0 || bits == 0 {
      forall adx ensures Covers(Entry(addr, bits), adx) <==> ShareWord(adx, addr, bits) {
        CoversPrefix(addr, bits, adx);
      }
    } else {
      ZeroCoversAll(bits, 0x80);
      FirstBitSet(bits);
    }
  }

  // ----- Blocks under anonymisation -----

  function Preimage(k: ValidKey, addr: bv32): bv32 {
    Htonl(CryptoPan.Recover(k, Htonl(addr), 32))
  }

  lemma PreimageInverts(k: ValidKey, y: bv32)
    ensures Image(k, Preimage(k, y)) == y && Preimage(k, Image(k, y)) == y
  {
    var h := Htonl(y);
    Permutation(k, h);
    HtonlTwice(CryptoPan.Recover(k, h, 32));
    HtonlTwice(Anonymize(k, h));
    HtonlTwice(y);
  }

  /** The addresses with a given prefix are mapped onto exactly the addresses with the prefix of the
      image: into them, and each of them is the image of one of the block. */
  lemma BlockOntoBlock(k: ValidKey, addr: bv32, bits: nat, y: bv32)
    requires bits <= 32
    ensures ShareWord(y, Image(k, addr), bits) <==> ShareWord(Preimage(k, y), addr, bits)
    ensures Image(k, Preimage(k, y)) == y
  {
    var x := Preimage(k, y);
    PreimageInverts(k, y);
    PosIsInt(bits);
    HtonlTwice(Anonymize(k, Htonl(x)));
    HtonlTwice(Anonymize(k, Htonl(addr)));
    PrefixPreserving(k, Htonl(x), Htonl(addr), bits);
  }
}
