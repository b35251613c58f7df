/**
 Base64 (src/base64.h; section 4 of RFC 4648): the two conversions over buffers, and their
 round trip.
 */
module Base64 {
  import opened SourceTables
  import opened SextetCode

  // ----- The tables -----

  /** b64, a row of sixteen entries a line; the index is below 64. */
  function Encode6(x: bv8): bv8 {
    Pick16(x >> 4,
      Pick16(x, 65, 66, 67, 68, 69, 70, 71, 72, 73, 74, 75, 76, 77, 78, 79, 80),
      Pick16(x, 81, 82, 83, 84, 85, 86, 87, 88, 89, 90, 97, 98, 99, 100, 101, 102),
      Pick16(x, 103, 104, 105, 106, 107, 108, 109, 110, 111, 112, 113, 114, 115, 116, 117, 118),
      Pick16(x, 119, 120, 121, 122, 48, 49, 50, 51, 52, 53, 54, 55, 56, 57, 43, 47),
      0,
      0,
      0,
      0,
      0,
      0,
      0,
      0,
      0,
      0,
      0,
      0)
  }

  /** unb64, a row of sixteen entries a line. */
  function Decode6(x: bv8): bv8 {
    Pick16(x >> 4,
      0,
      0,
      Pick16(x, 0, 0, 0, 0, 0, 0, 0, 0, 0, 0, 0, 62, 0, 0, 0, 63),
      Pick16(x, 52, 53, 54, 55, 56, 57, 58, 59, 60, 61, 0, 0, 0, 0, 0, 0),
      Pick16(x, 0, 0, 1, 2, 3, 4, 5, 6, 7, 8, 9, 10, 11, 12, 13, 14),
      Pick16(x, 15, 16, 17, 18, 19, 20, 21, 22, 23, 24, 25, 0, 0, 0, 0, 0),
      Pick16(x, 0, 26, 27, 28, 29, 30, 31, 32, 33, 34, 35, 36, 37, 38, 39, 40),
      Pick16(x, 41, 42, 43, 44, 45, 46, 47, 48, 49, 50, 51, 0, 0, 0, 0, 0),
      0,
      0,
      0,
      0,
      0,
      0,
      0,
      0)
  }

  const EQUALS: bv8 := 61

  lemma DecodeOfEncode(x: bv8)
    requires x < 64
    ensures Decode6(Encode6(x)) == x && Encode6(x) != EQUALS && Encode6(x) != 0
  {
  }

  // ----- Three bytes as four characters -----

  function Hi(b0: bv8): bv8 { b0 >> 2 }

  function Mid1(b0: bv8, b1: bv8): bv8 { ((0x3 & b0) << 4) + (b1 >> 4) }

  function Mid2(b1: bv8, b2: bv8): bv8 { ((0x0f & b1) << 2) + (b2 >> 6) }

  function Lo(b2: bv8): bv8 { 0x3f & b2 }

  function Join0(a: bv8, b: bv8): bv8 { (a << 2) | (b >> 4) }

  function Join1(b: bv8, c: bv8): bv8 { (b << 4) | (c >> 2) }

  function Join2(c: bv8, d: bv8): bv8 { (c << 6) | d }

  lemma SixBits(b0: bv8, b1: bv8, b2: bv8)
    ensures Hi(b0) < 64 && Mid1(b0, b1) < 64 && Mid2(b1, b2) < 64 && Lo(b2) < 64
  {
  }

  lemma Joined(b0: bv8, b1: bv8, b2: bv8)
    ensures Join0(Hi(b0), Mid1(b0, b1)) == b0
    ensures Join1(Mid1(b0, b1), Mid2(b1, b2)) == b1
    ensures Join2(Mid2(b1, b2), Lo(b2)) == b2
  {
  }

  const B64: Code<bv8> := Code(
    b0 => Encode6(Hi(b0)),
    (b0, b1) => Encode6(Mid1(b0, b1)),
    (b1, b2) => Encode6(Mid2(b1, b2)),
    b2 => Encode6(Lo(b2)),
    (a, b) => Join0(Decode6(a), Decode6(b)),
    (b, c) => Join1(Decode6(b), Decode6(c)),
    (c, d) => Join2(Decode6(c), Decode6(d)),
    0, EQUALS)

  /** Decoding inverts encoding on one group, and no character is a padding sign or a null. */
  lemma GroupLaw(b0: bv8, b1: bv8, b2: bv8)
    ensures Join0(Decode6(Encode6(Hi(b0))), Decode6(Encode6(Mid1(b0, b1)))) == b0
    ensures Join1(Decode6(Encode6(Mid1(b0, b1))), Decode6(Encode6(Mid2(b1, b2)))) == b1
    ensures Join2(Decode6(Encode6(Mid2(b1, b2))), Decode6(Encode6(Lo(b2)))) == b2
    ensures Encode6(Hi(b0)) !in {0, EQUALS} && Encode6(Mid1(b0, b1)) !in {0, EQUALS}
    ensures Encode6(Mid2(b1, b2)) !in {0, EQUALS} && Encode6(Lo(b2)) !in {0, EQUALS}
  {
    SixBits(b0, b1, b2);
    DecodeOfEncode(Hi(b0));
    DecodeOfEncode(Mid1(b0, b1));
    DecodeOfEncode(Mid2(b1, b2));
    DecodeOfEncode(Lo(b2));
    Joined(b0, b1, b2);
  }

  lemma B64Laws()
    ensures Laws(B64) && NeverZero(B64, 0)
  {
    forall x, y, z {:trigger Use(x, y, z)} | Use(x, y, z)
      ensures B64.d0(B64.e0(x), B64.e1(x, y)) == x && B64.d1(B64.e1(x, y), B64.e2(y, z)) == y
        && B64.d2(B64.e2(y, z), B64.e3(z)) == z
      ensures B64.e0(x) !in {0, B64.pad} && B64.e1(x, y) !in {0, B64.pad} && B64.e2(y, z) !in {0, B64.pad}
        && B64.e3(z) !in {0, B64.pad}
    {
      GroupLaw(x, y, z);
    }
  }

  /** For every non-empty x, decoding its base64 form gives x; the lengths are those of RFC 4648. */
  lemma Base64RoundTrip(x: seq<bv8>)
    requires x != []
    ensures Decode(B64, Encode(B64, x)) == x && |Encode(B64, x)| == 4 * ((|x| + 2) / 3)
  {
    B64Laws();
    RoundTrip(B64, x);
    EncodeLength(B64, x);
  }

  // ----- Section 4 of RFC 4648 -----

  /** Table 1: the capital letters, the small letters, the digits, the plus sign and the slash. */
  function Alphabet(v: bv8): bv8 {
    if v < 26 then 65 + v
    else if v < 52 then 97 + (v - 26)
    else if v < 62 then 48 + (v - 52)
    else if v == 62 then 43
    else 47
  }

  lemma AlphabetIs(v: bv8)
    requires v < 64
    ensures Encode6(v) == Alphabet(v)
  {
  }

  /** Byte n of the input, with zero bits added behind its end. */
  function ByteAt(x: seq<bv8>, n: nat): bv8 {
    if n < |x| then x[n] else 0
  }

  /** Three bytes as 24 bits, the first byte first. */
  function Group24(b0: bv8, b1: bv8, b2: bv8): bv24 {
    ((b0 as bv24) << 16) | ((b1 as bv24) << 8) | (b2 as bv24)
  }

  /** Six of these bits, the first ones first. */
  function Sextet(g: bv24, k: nat): bv8
    requires k < 4
  {
    if k == 0 then (g >> 18) as bv8
    else if k == 1 then ((g >> 12) & 63) as bv8
    else if k == 2 then ((g >> 6) & 63) as bv8
    else (g & 63) as bv8
  }

  lemma SextetIs(b0: bv8, b1: bv8, b2: bv8)
    ensures var g := Group24(b0, b1, b2);
      Hi(b0) == Sextet(g, 0) && Mid1(b0, b1) == Sextet(g, 1) && Mid2(b1, b2) == Sextet(g, 2) && Lo(b2) == Sextet(g, 3)
  {
  }

  lemma CharactersAre(b0: bv8, b1: bv8, b2: bv8)
    ensures var g := Group24(b0, b1, b2);
      && B64.e0(b0) == Alphabet(Sextet(g, 0)) && B64.e1(b0, b1) == Alphabet(Sextet(g, 1))
      && B64.e2(b1, b2) == Alphabet(Sextet(g, 2)) && B64.e3(b2) == Alphabet(Sextet(g, 3))
  {
    SixBits(b0, b1, b2);
    SextetIs(b0, b1, b2);
    AlphabetIs(Hi(b0));
    AlphabetIs(Mid1(b0, b1));
    AlphabetIs(Mid2(b1, b2));
    AlphabetIs(Lo(b2));
  }

  /** Character i of an encoding: a padding sign where the byte is missing of which it would hold the first bits,
      and else the sign in the alphabet of its six bits of the group. */
  function CharacterAt(x: seq<bv8>, i: nat): bv8 {
    var n, k := 3 * (i / 4), i % 4;
    if k >= 2 && n + k - 1 >= |x| then 61
    else Alphabet(Sextet(Group24(ByteAt(x, n), ByteAt(x, n + 1), ByteAt(x, n + 2)), k))
  }

  lemma FirstCharacters(x: seq<bv8>, i: nat)
    requires x != [] && i < 4
    ensures |Encode(B64, x)| >= 4 && Encode(B64, x)[i] == CharacterAt(x, i)
  {
    EncodeFirst(B64, x);
    CharactersAre(ByteAt(x, 0), ByteAt(x, 1), ByteAt(x, 2));
    if
    case i == 0 =>
    case i == 1 =>
    case i == 2 =>
    case i == 3 =>
  }

  lemma {:induction false} EncodedCharacter(x: seq<bv8>, i: nat)
    requires i < |Encode(B64, x)|
    ensures Encode(B64, x)[i] == CharacterAt(x, i)
    decreases |x|
  {
    NotEmpty(B64, x, i);
    if i < 4 {
      FirstCharacters(x, i);
    } else {
      EncodeLater(B64, x, i);
      EncodedCharacter(x[3..], i - 4);
      LaterCharacter(x, i);
    }
  }

  lemma LaterCharacter(x: seq<bv8>, i: nat)
    requires |x| > 3 && i >= 4
    ensures CharacterAt(x[3..], i - 4) == CharacterAt(x, i)
  {
    var n := 3 * (i / 4);
    assert (i - 4) / 4 == i / 4 - 1;
    assert ByteAt(x[3..], n - 3) == ByteAt(x, n) && ByteAt(x[3..], n - 2) == ByteAt(x, n + 1);
    assert ByteAt(x[3..], n - 1) == ByteAt(x, n + 2);
  }
}
