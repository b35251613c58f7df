/**
 IPv6 addresses (`encrypt_ipv6`, src/crypto_ip.c): the IPv4 scheme on each of four words, each
 behind its own exclusive-or mask and with its bytes swapped between network and host order.
 */
module CryptoPan6 {
  import opened CryptoPan
  import opened PadBits
  import opened PrefixCache
  import P = PrefixCode

  /** The four words s6_addr32 of an address, as the host loads them. */
  datatype In6 = In6(w0: bv32, w1: bv32, w2: bv32, w3: bv32)

  /** `htonl` on a little-endian host. */
  function Htonl(x: bv32): bv32 {
    (x << 24) | ((x & 0xff00) << 8) | ((x >> 8) & 0xff00) | (x >> 24)
  }

  /** The anonymised form of an address in network byte order. */
  function Image(k: ValidKey, addr: bv32): bv32 {
    Htonl(Anonymize(k, Htonl(addr)))
  }

  const MASK_0: bv32 := 0xffff_ffff
  const MASK_1: bv32 := 0xf0f0_f0f0
  const MASK_2: bv32 := 0x0f0f_0f0f
  const MASK_3: bv32 := 0

  function EncryptWord(k: ValidKey, w: bv32, mask: bv32): bv32 {
    Htonl(Anonymize(k, Htonl(w ^ mask)))
  }

  /** `encrypt_ipv6`, as a function. */
  function Encrypt6(k: ValidKey, a: In6): In6 {
    In6(EncryptWord(k, a.w0, MASK_0), EncryptWord(k, a.w1, MASK_1),
        EncryptWord(k, a.w2, MASK_2), EncryptWord(k, a.w3, MASK_3))
  }

  /** How many of the first n bits of an address lie in word i. */
  function BitsIn(n: nat, i: nat): (p: nat)
    ensures p <= 32
  {
    if n <= 32 * i then 0 else if n >= 32 * i + 32 then 32 else n - 32 * i
  }

  /** The first n bits are spread over the words, of which a later one has some only if the one before has all. */
  lemma BitsInWords(n: nat, i: nat)
    requires n <= 128 && i < 3
    ensures BitsIn(n, 0) + BitsIn(n, 1) + BitsIn(n, 2) + BitsIn(n, 3) == n
    ensures BitsIn(n, i + 1) > 0 ==> BitsIn(n, i) == 32
  {
  }

  /** Two words, taken in network byte order, share their first p bits. */
  predicate ShareWord(x: bv32, y: bv32, p: nat) {
    ShareAt(Htonl(x), Htonl(y), p)
  }

  /** Two addresses share their first n bits. */
  predicate Share6(a: In6, b: In6, n: nat) {
    && ShareWord(a.w0, b.w0, BitsIn(n, 0)) && ShareWord(a.w1, b.w1, BitsIn(n, 1))
    && ShareWord(a.w2, b.w2, BitsIn(n, 2)) && ShareWord(a.w3, b.w3, BitsIn(n, 3))
  }

  lemma HtonlTwice(x: bv32)
    ensures Htonl(Htonl(x)) == x
  {
  }

  lemma HtonlXor(x: bv32, y: bv32)
    ensures Htonl(x ^ y) == Xor(Htonl(x), Htonl(y))
  {
  }

  /** A mask common to both sides changes no shared prefix. */
  lemma MaskPrefix(a: bv32, b: bv32, m: bv32, p: nat)
    ensures ShareAt(Xor(a, m), Xor(b, m), p) <==> ShareAt(a, b, p)
  {
    if p <= 32 {
      PosIsInt(p);
      if ShareAt(a, b, p) {
        XorAt(a, b, m, m, p);
      }
      if ShareAt(Xor(a, m), Xor(b, m), p) {
        XorAt(Xor(a, m), Xor(b, m), m, m, p);
        XorOff(a, m);
        XorOff(b, m);
      }
    }
  }

  lemma XorOff(a: bv32, m: bv32)
    ensures Xor(Xor(a, m), m) == a
  {
  }

  lemma WordPreserving(k: ValidKey, x: bv32, y: bv32, mask: bv32, p: nat)
    requires p <= 32
    ensures ShareWord(x, y, p) <==> ShareWord(EncryptWord(k, x, mask), EncryptWord(k, y, mask), p)
  {
    var u, v := Htonl(x ^ mask), Htonl(y ^ mask);
    HtonlXor(x, mask);
    HtonlXor(y, mask);
    MaskPrefix(Htonl(x), Htonl(y), Htonl(mask), p);
    PrefixPreserving(k, u, v, p);
    HtonlTwice(Anonymize(k, u));
    HtonlTwice(Anonymize(k, v));
  }

  /** `encrypt_ipv6` preserves shared prefixes exactly, over all 128 bits. */
  lemma PrefixPreserving6(k: ValidKey, a: In6, b: In6, n: nat)
    requires n <= 128
    ensures Share6(a, b, n) <==> Share6(Encrypt6(k, a), Encrypt6(k, b), n)
  {
    WordPreserving(k, a.w0, b.w0, MASK_0, BitsIn(n, 0));
    WordPreserving(k, a.w1, b.w1, MASK_1, BitsIn(n, 1));
    WordPreserving(k, a.w2, b.w2, MASK_2, BitsIn(n, 2));
    WordPreserving(k, a.w3, b.w3, MASK_3, BitsIn(n, 3));
  }

  lemma FullWord(x: bv32, y: bv32)
    ensures ShareWord(x, y, 32) <==> x == y
  {
    PosIsInt(32);
    TopEnds(Htonl(x));
    TopEnds(Htonl(y));
    HtonlTwice(x);
    HtonlTwice(y);
  }

  lemma FullShare(a: In6, b: In6)
    ensures Share6(a, b, 128) <==> a == b
  {
    FullWord(a.w0, b.w0);
    FullWord(a.w1, b.w1);
    FullWord(a.w2, b.w2);
    FullWord(a.w3, b.w3);
  }

  /** `encrypt_ipv6` is injective. */
  lemma Injective6(k: ValidKey, a: In6, b: In6)
    ensures Encrypt6(k, a) == Encrypt6(k, b) <==> a == b
  {
    PrefixPreserving6(k, a, b, 128);
    FullShare(a, b);
    FullShare(Encrypt6(k, a), Encrypt6(k, b));
  }

  // ----- The masks -----

  /** The bytes of a word in memory, on a little-endian host: in network order. */
  function NetworkBytes(w: bv32): (s: seq<bv8>)
    ensures |s| == 4
  {
    [(w & 0xff) as bv8, ((w >> 8) & 0xff) as bv8, ((w >> 16) & 0xff) as bv8, (w >> 24) as bv8]
  }

  function WordAt(a: In6, i: nat): bv32
    requires i < 4
  {
    if i == 0 then a.w0 else if i == 1 then a.w1 else if i == 2 then a.w2 else a.w3
  }

  /** The byte that the bytes of a word are masked with. */
  function MaskByte(i: nat): bv8
    requires i < 4
  {
    if i == 0 then 0xff else if i == 1 then 0xf0 else if i == 2 then 0x0f else 0x00
  }

  /** The bytes of x, the highest one first, are those of w in network order, each masked with m. */
  predicate Masked(w: bv32, x: bv32, m: bv8) {
    && Bytes(x)[0] == NetworkBytes(w)[0] ^ m && Bytes(x)[1] == NetworkBytes(w)[1] ^ m
    && Bytes(x)[2] == NetworkBytes(w)[2] ^ m && Bytes(x)[3] == NetworkBytes(w)[3] ^ m
  }

  lemma NetworkOfHtonl(y: bv32)
    ensures NetworkBytes(Htonl(y)) == Bytes(y)
  {
  }

  // What is anonymised at each place.
  lemma MaskedWord0(w: bv32, x: bv32)
    requires Masked(w, x, 0xff)
    ensures Htonl(w ^ MASK_0) == x
  {
  }

  lemma MaskedWord1(w: bv32, x: bv32)
    requires Masked(w, x, 0xf0)
    ensures Htonl(w ^ MASK_1) == x
  {
  }

  lemma MaskedWord2(w: bv32, x: bv32)
    requires Masked(w, x, 0x0f)
    ensures Htonl(w ^ MASK_2) == x
  {
  }

  lemma MaskedWord3(w: bv32, x: bv32)
    requires Masked(w, x, 0x00)
    ensures Htonl(w ^ MASK_3) == x
  {
  }

  function MaskWord(i: nat): bv32
    requires i < 4
  {
    if i == 0 then MASK_0 else if i == 1 then MASK_1 else if i == 2 then MASK_2 else MASK_3
  }

  lemma MaskedWord(w: bv32, x: bv32, i: nat)
    requires i < 4 && Masked(w, x, MaskByte(i))
    ensures Htonl(w ^ MaskWord(i)) == x
  {
    if
    case i == 0 => MaskedWord0(w, x);
    case i == 1 => MaskedWord1(w, x);
    case i == 2 => MaskedWord2(w, x);
    case i == 3 => MaskedWord3(w, x);
  }

  lemma ImageWord(k: ValidKey, a: In6, i: nat)
    requires i < 4
    ensures WordAt(Encrypt6(k, a), i) == EncryptWord(k, WordAt(a, i), MaskWord(i))
  {
  }

  lemma EncryptedBytes(k: ValidKey, w: bv32, m: bv32, x: bv32)
    requires Htonl(w ^ m) == x
    ensures NetworkBytes(EncryptWord(k, w, m)) == Bytes(Anonymize(k, x))
  {
    NetworkOfHtonl(Anonymize(k, x));
  }

  lemma MaskedBytes(k: ValidKey, w: bv32, i: nat, x: bv32, y: bv32)
    requires i < 4 && Masked(w, x, MaskByte(i)) && y == EncryptWord(k, w, MaskWord(i))
    ensures NetworkBytes(y) == Bytes(Anonymize(k, x))
  {
    MaskedWord(w, x, i);
    EncryptedBytes(k, w, MaskWord(i), x);
  }

  /** Word i of the image is, in network order, the image of the address made of the masked bytes of word i. */
  lemma MaskedImage(k: ValidKey, a: In6, i: nat, x: bv32)
    requires i < 4 && Masked(WordAt(a, i), x, MaskByte(i))
    ensures NetworkBytes(WordAt(Encrypt6(k, a), i)) == Bytes(Anonymize(k, x))
  {
    ImageWord(k, a, i);
    MaskedBytes(k, WordAt(a, i), i, x, WordAt(Encrypt6(k, a), i));
  }

  /** The image of an IPv4 address in memory: that of the address made of its bytes in network order. */
  lemma NetworkImage(k: ValidKey, w: bv32, x: bv32)
    requires Bytes(x) == NetworkBytes(w)
    ensures NetworkBytes(Image(k, w)) == Bytes(Anonymize(k, x))
  {
    HtonlOfBytes(w, x);
    NetworkOfHtonl(Anonymize(k, x));
  }

  lemma HtonlOfBytes(w: bv32, x: bv32)
    requires Bytes(x) == NetworkBytes(w)
    ensures Htonl(w) == x
  {
    BytesAre(x);
    NetworkBytesAre(w);
    SameBytes(w, x);
  }

  lemma BytesAre(x: bv32)
    ensures Bytes(x)[0] == Byte0(x) && Bytes(x)[1] == Byte1(x) && Bytes(x)[2] == Byte2(x) && Bytes(x)[3] == Byte3(x)
  {
  }

  lemma NetworkBytesAre(w: bv32)
    ensures NetworkBytes(w)[0] == Byte3(w) && NetworkBytes(w)[1] == Byte2(w)
    ensures NetworkBytes(w)[2] == Byte1(w) && NetworkBytes(w)[3] == Byte0(w)
  {
  }

  lemma SameBytes(w: bv32, x: bv32)
    requires Byte0(x) == Byte3(w) && Byte1(x) == Byte2(w) && Byte2(x) == Byte1(w) && Byte3(x) == Byte0(w)
    ensures Htonl(w) == x
  {
  }

  lemma DifferentMasks(w: bv32, m: bv32, m': bv32)
    requires m != m'
    ensures Htonl(w ^ m) != Htonl(w ^ m')
  {
  }

  lemma WordsDiffer(k: ValidKey, w: bv32, m: bv32, m': bv32)
    requires m != m'
    ensures EncryptWord(k, w, m) != EncryptWord(k, w, m')
  {
    var x, x' := Htonl(w ^ m), Htonl(w ^ m');
    DifferentMasks(w, m, m');
    Permutation(k, x);
    Permutation(k, x');
    HtonlTwice(Anonymize(k, x));
    HtonlTwice(Anonymize(k, x'));
  }

  /** Equal words at different places of an address get different images. */
  lemma EqualWordsDiffer(k: ValidKey, a: In6, i: nat, j: nat)
    requires i < 4 && j < 4 && i != j && WordAt(a, i) == WordAt(a, j)
    ensures WordAt(Encrypt6(k, a), i) != WordAt(Encrypt6(k, a), j)
  {
    WordsDiffer(k, WordAt(a, i), MaskWord(i), MaskWord(j));
    ImageWord(k, a, i);
    ImageWord(k, a, j);
  }

  /** `encrypt_ipv6`, through the caches. */
  method EncryptIpv6(self: Anonymizer, orig: In6) returns (enc: In6)
    requires self.Warm()
    modifies self.encCache, self.fullcache
    ensures self.Warm()
    ensures enc == Encrypt6(self.key, orig)
  {
    var x0 := self.EncryptIp(Htonl(orig.w0 ^ MASK_0));
    var x1 := self.EncryptIp(Htonl(orig.w1 ^ MASK_1));
    var x2 := self.EncryptIp(Htonl(orig.w2 ^ MASK_2));
    var x3 := self.EncryptIp(Htonl(orig.w3 ^ MASK_3));
    enc := In6(Htonl(x0), Htonl(x1), Htonl(x2), Htonl(x3));
  }
}
