/**
 Prefix-preserving anonymisation of 32-bit addresses (src/crypto_ip.c). The cipher is any
 function from sixteen bytes to the first byte of their encryption.
 */
module CryptoPan {
  import P = PrefixCode

  /** `first`: the first output byte of the cipher; `pad`: the sixteen bytes of m_pad. */
  datatype Key = Key(first: seq<bv8> -> bv8, pad: seq<bv8>)

  type ValidKey = k: Key | |k.pad| == 16 witness Key(_ => 0, seq(16, _ => 0))

  /** The first n bits of an address, moved to the right. */
  function Top(a: bv32, n: bv32): bv32
    requires n <= 32
  {
    a >> (32 - n)
  }

  /** Two addresses share their first n bits. */
  predicate SharePrefix(a: bv32, b: bv32, n: bv32)
    requires n <= 32
  {
    Top(a, n) == Top(b, n)
  }

  /** The first four bytes of the pad, as a number. */
  function First4(pad: seq<bv8>): bv32
    requires |pad| == 16
  {
    ((pad[0] as bv32) << 24) + ((pad[1] as bv32) << 16) + ((pad[2] as bv32) << 8) + (pad[3] as bv32)
  }

  /** The first pos bits of an address, given by `top`, completed from the pad. */
  function Input(k: ValidKey, top: bv32, pos: bv32): bv32
    requires pos < 32
  {
    if pos == 0 then First4(k.pad) else (top << (32 - pos)) | ((First4(k.pad) << pos) >> pos)
  }

  function CipherInput(k: ValidKey, x: bv32): seq<bv8> {
    [(x >> 24) as bv8, ((x << 8) >> 24) as bv8, ((x << 16) >> 24) as bv8, ((x << 24) >> 24) as bv8] + k.pad[4..]
  }

  /** The bit of the one-time pad that follows the address bits `top`. */
  function PadBit(k: ValidKey, top: bv32, pos: bv32): (bit: bv32)
    requires pos < 32
    ensures bit <= 1
  {
    (k.first(CipherInput(k, Input(k, top, pos))) >> 7) as bv32
  }

  function OrBit(r: bv32, bit: bv32, pos: bv32): bv32
    requires pos < 32
  {
    r | (bit << (31 - pos))
  }

  /** The first n bits of the one-time pad of an address. */
  function Pad(k: ValidKey, addr: bv32, n: bv32): bv32
    requires n <= 32
    decreases n
  {
    if n == 0 then 0 else OrBit(Pad(k, addr, n - 1), PadBit(k, Top(addr, n - 1), n - 1), n - 1)
  }

  function Xor(a: bv32, b: bv32): bv32 { a ^ b }

  /** `pp_anonymize`, as a function. */
  function Anonymize(k: ValidKey, addr: bv32): bv32 {
    Xor(Pad(k, addr, 32), addr)
  }

  /** The first n bits of an address, in place. */
  function Keep(a: bv32, n: bv32): bv32
    requires n <= 32
  {
    Top(a, n) << (32 - n)
  }

  // ----- Shifts -----

  function Half(x: bv32): bv32 { x >> 1 }

  lemma TopStep(a: bv32, n: bv32)
    requires n < 32
    ensures Top(a, n) == Half(Top(a, n + 1))
  {
  }

  lemma TopOrBit(r: bv32, bit: bv32, n: bv32)
    requires n < 32 && bit <= 1
    ensures Top(OrBit(r, bit, n), n) == Top(r, n)
  {
  }

  lemma TopKeep(x: bv32, n: bv32)
    requires n <= 32
    ensures Top(Keep(x, n), n) == Top(x, n)
  {
  }

  lemma TopEnds(a: bv32)
    ensures Top(a, 0) == 0 && Top(a, 32) == a
  {
  }

  lemma HalfXor(x: bv32, y: bv32)
    ensures Half(Xor(x, y)) == Xor(Half(x), Half(y))
  {
  }

  lemma {:induction false} TopXor(a: bv32, c: bv32, n: bv32)
    requires n <= 32
    ensures Top(Xor(a, c), n) == Xor(Top(a, n), Top(c, n))
    decreases 32 - n
  {
    if n == 32 {
      TopEnds(a);
      TopEnds(c);
      TopEnds(Xor(a, c));
    } else {
      TopXor(a, c, n + 1);
      TopStep(a, n);
      TopStep(c, n);
      TopStep(Xor(a, c), n);
      HalfXor(Top(a, n + 1), Top(c, n + 1));
    }
  }

  lemma XorTwice(a: bv32, b: bv32)
    ensures Xor(Xor(a, b), a) == b && Xor(a, Xor(b, a)) == b
  {
  }

  lemma ShorterPrefix(a: bv32, b: bv32, n: bv32)
    requires n < 32 && SharePrefix(a, b, n + 1)
    ensures SharePrefix(a, b, n)
  {
    TopStep(a, n);
    TopStep(b, n);
  }

  lemma XorPrefix(a: bv32, b: bv32, c: bv32, d: bv32, n: bv32)
    requires n <= 32 && SharePrefix(a, b, n) && SharePrefix(c, d, n)
    ensures SharePrefix(Xor(a, c), Xor(b, d), n)
  {
    TopXor(a, c, n);
    TopXor(b, d, n);
  }

  /** The first n + 1 bits of the pad depend on the first n bits of the address only. */
  lemma {:induction false} PadOfPrefix(k: ValidKey, a: bv32, b: bv32, n: bv32)
    requires n < 32 && SharePrefix(a, b, n)
    ensures Pad(k, a, n + 1) == Pad(k, b, n + 1)
    decreases n
  {
    if n > 0 {
      ShorterPrefix(a, b, n - 1);
      PadOfPrefix(k, a, b, n - 1);
    }
  }

  // ----- Positions as numbers -----

  function Pos(n: nat): bv32 {
    if n == 0 then 0 else Pos(n - 1) + 1
  }

  lemma {:induction false} PosIsInt(n: nat)
    requires n <= 32
    ensures Pos(n) as int == n && Pos(n) <= 32 && (n < 32 ==> Pos(n) < 32)
  {
    if n > 0 {
      PosIsInt(n - 1);
    }
  }

  function ShareAt(a: bv32, b: bv32, n: nat): bool {
    n <= 32 && Pos(n) <= 32 && SharePrefix(a, b, Pos(n))
  }

  function PadAt(k: ValidKey, a: bv32, n: nat): bv32 {
    if Pos(n) <= 32 then Pad(k, a, Pos(n)) else 0
  }

  function KeepAt(a: bv32, n: nat): bv32 {
    if Pos(n) <= 32 then Keep(a, Pos(n)) else 0
  }

  /** Addresses as values with prefixes. */
  function CodeOf(k: ValidKey): P.Code<bv32> {
    P.Code(32, 0, ShareAt, Xor, (a, n: nat) => PadAt(k, a, n), KeepAt)
  }

  lemma PadStep(k: ValidKey, a: bv32, n: bv32)
    requires n < 32
    ensures SharePrefix(Pad(k, a, n + 1), Pad(k, a, n), n)
  {
    TopOrBit(Pad(k, a, n), PadBit(k, Top(a, n), n), n);
  }

  lemma ShareEnds(k: ValidKey, a: bv32, b: bv32)
    ensures CodeOf(k).share(a, b, 0) && (CodeOf(k).share(a, b, 32) <==> a == b)
  {
    PosIsInt(0);
    PosIsInt(32);
    TopEnds(a);
    TopEnds(b);
  }

  lemma ShorterAt(a: bv32, b: bv32, n: nat)
    requires n < 32 && ShareAt(a, b, n + 1)
    ensures ShareAt(a, b, n)
  {
    PosIsInt(n);
    PosIsInt(n + 1);
    assert Pos(n + 1) == Pos(n) + 1;
    ShorterPrefix(a, b, Pos(n));
  }

  lemma SamePadAt(k: ValidKey, a: bv32, b: bv32, n: nat)
    requires n < 32 && ShareAt(a, b, n)
    ensures PadAt(k, a, n + 1) == PadAt(k, b, n + 1)
  {
    PosIsInt(n);
    PosIsInt(n + 1);
    assert Pos(n + 1) == Pos(n) + 1;
    PadOfPrefix(k, a, b, Pos(n));
  }

  lemma XorAt(a: bv32, b: bv32, c: bv32, d: bv32, n: nat)
    requires ShareAt(a, b, n) && ShareAt(c, d, n)
    ensures ShareAt(Xor(a, c), Xor(b, d), n)
  {
    XorPrefix(a, b, c, d, Pos(n));
  }

  lemma PairLaws(k: ValidKey, a: bv32, b: bv32, n: nat)
    ensures var p := CodeOf(k);
      && (p.share(a, b, n) ==> p.share(b, a, n))
      && (n < p.size && p.share(a, b, n + 1) ==> p.share(a, b, n))
      && (n < p.size && p.share(a, b, n) ==> p.pad(a, n + 1) == p.pad(b, n + 1))
      && (p.share(a, b, p.size) <==> a == b)
      && p.share(a, b, 0)
      && p.xor(p.xor(a, b), a) == b && p.xor(a, p.xor(b, a)) == b
  {
    ShareEnds(k, a, b);
    XorTwice(a, b);
    if n < 32 && ShareAt(a, b, n + 1) {
      ShorterAt(a, b, n);
    }
    if n < 32 && ShareAt(a, b, n) {
      SamePadAt(k, a, b, n);
    }
  }

  lemma KeepLaw(a: bv32, n: nat)
    requires n <= 32
    ensures ShareAt(KeepAt(a, n), a, n)
  {
    PosIsInt(n);
    TopKeep(a, Pos(n));
  }

  lemma PadLaw(k: ValidKey, a: bv32, n: nat)
    requires n < 32
    ensures ShareAt(PadAt(k, a, n + 1), PadAt(k, a, n), n)
  {
    PosIsInt(n);
    PosIsInt(n + 1);
    PadStep(k, a, Pos(n));
  }

  lemma SingleLaws(k: ValidKey, a: bv32, n: nat)
    ensures var p := CodeOf(k);
      && (n <= p.size ==> p.share(a, a, n))
      && (n < p.size ==> p.share(p.pad(a, n + 1), p.pad(a, n), n))
      && (n <= p.size ==> p.share(p.keep(a, n), a, n))
  {
    if n <= 32 {
      PosIsInt(n);
      KeepLaw(a, n);
      if n < 32 {
        PadLaw(k, a, n);
      }
    }
  }

  lemma QuadLaws(k: ValidKey, a: bv32, b: bv32, c: bv32, d: bv32, n: nat)
    ensures var p := CodeOf(k);
      && (p.share(a, b, n) && p.share(b, c, n) ==> p.share(a, c, n))
      && (n <= p.size && p.share(a, b, n) && p.share(c, d, n) ==> p.share(p.xor(a, c), p.xor(b, d), n))
  {
    if ShareAt(a, b, n) && ShareAt(c, d, n) {
      XorAt(a, b, c, d, n);
    }
  }

  lemma CodeLaws(k: ValidKey)
    ensures P.Laws(CodeOf(k))
  {
    var p := CodeOf(k);
    forall a, b, n: nat {:trigger P.At2(a, b, n)} ensures
      && (p.share(a, b, n) ==> p.share(b, a, n))
      && (n < p.size && p.share(a, b, n + 1) ==> p.share(a, b, n))
      && (n < p.size && p.share(a, b, n) ==> p.pad(a, n + 1) == p.pad(b, n + 1))
      && (p.share(a, b, p.size) <==> a == b)
      && p.share(a, b, 0)
      && p.xor(p.xor(a, b), a) == b && p.xor(a, p.xor(b, a)) == b
    {
      PairLaws(k, a, b, n);
    }
    forall a, n: nat {:trigger P.At(a, n)} ensures
      && (n <= p.size ==> p.share(a, a, n))
      && (n < p.size ==> p.share(p.pad(a, n + 1), p.pad(a, n), n))
      && (n <= p.size ==> p.share(p.keep(a, n), a, n))
    {
      SingleLaws(k, a, n);
    }
    forall a, b, c, d, n: nat {:trigger P.At4(a, b, c, d, n)} ensures
      && (p.share(a, b, n) && p.share(b, c, n) ==> p.share(a, c, n))
      && (n <= p.size && p.share(a, b, n) && p.share(c, d, n) ==> p.share(p.xor(a, c), p.xor(b, d), n))
    {
      QuadLaws(k, a, b, c, d, n);
    }
  }

  // ----- The scheme -----

  lemma ImageIsAnonymize(k: ValidKey, a: bv32)
    ensures P.Image(CodeOf(k), a) == Anonymize(k, a)
  {
    PosIsInt(32);
  }

  /** Exact prefix preservation: two addresses share their first n bits if and only if their
      images do, for every n from 0 to 32, every pad and every cipher. */
  lemma PrefixPreserving(k: ValidKey, a: bv32, b: bv32, n: nat)
    requires n <= 32
    ensures Pos(n) <= 32
    ensures SharePrefix(a, b, Pos(n)) <==> SharePrefix(Anonymize(k, a), Anonymize(k, b), Pos(n))
  {
    PosIsInt(n);
    CodeLaws(k);
    P.PrefixPreserving(CodeOf(k), a, b, n);
    ImageIsAnonymize(k, a);
    ImageIsAnonymize(k, b);
  }

  /** The first n bits of the address behind an image, recovered bit by bit: bit i needs the
      pad bit i, which needs the i bits recovered before it. */
  function Recover(k: ValidKey, image: bv32, n: nat): bv32 {
    P.Recover(CodeOf(k), image, n)
  }

  /** `pp_anonymize` is a permutation of the 32-bit addresses, with inverse `Recover`. */
  lemma Permutation(k: ValidKey, x: bv32)
    ensures Recover(k, Anonymize(k, x), 32) == x
    ensures Anonymize(k, Recover(k, x, 32)) == x
  {
    CodeLaws(k);
    P.Permutation(CodeOf(k), x);
    ImageIsAnonymize(k, x);
    ImageIsAnonymize(k, Recover(k, x, 32));
  }
}
