/**
 The one-time pad of `pp_anonymize` (src/crypto_ip.c), bit by bit: each bit is the first output bit of the
 cipher on the address bits before it, completed with the bits of m_pad.
 */
module PadBits {
  import opened CryptoPan

  // ----- Bits -----

  /** The bits of a byte, the first one being the highest. */
  const MASKS: seq<bv8> := [0x80, 0x40, 0x20, 0x10, 0x08, 0x04, 0x02, 0x01]

  /** The indices of the bits in the first four bytes of a string. */
  const INDEX: seq<seq<bv32>> := [
    [0, 1, 2, 3, 4, 5, 6, 7], [8, 9, 10, 11, 12, 13, 14, 15],
    [16, 17, 18, 19, 20, 21, 22, 23], [24, 25, 26, 27, 28, 29, 30, 31]
  ]

  function IsSet(b: bv8, mask: bv8): bool { b & mask != 0 }

  /** Bit n of a word, the first one being the highest. */
  function BitAt(x: bv32, n: bv32): bool
    requires n < 32
  {
    (x >> (31 - n)) & 1 == 1
  }

  // The four bytes of an address, the highest one first.
  function Byte0(a: bv32): bv8 { (a >> 24) as bv8 }
  function Byte1(a: bv32): bv8 { ((a >> 16) & 0xff) as bv8 }
  function Byte2(a: bv32): bv8 { ((a >> 8) & 0xff) as bv8 }
  function Byte3(a: bv32): bv8 { (a & 0xff) as bv8 }

  function Bytes(a: bv32): (s: seq<bv8>)
    ensures |s| == 4
  {
    [Byte0(a), Byte1(a), Byte2(a), Byte3(a)]
  }

  /** Bit m of byte j is that of the address if it is among the first n bits, and else that of the pad. */
  ghost predicate BitCompleted(s: seq<bv8>, a: bv32, pad: seq<bv8>, n: bv32, j: nat, m: nat)
    requires |s| == |pad| == 16 && j < 4 && m < 8
  {
    IsSet(s[j], MASKS[m]) == IsSet(if INDEX[j][m] < n then Bytes(a)[j] else pad[j], MASKS[m])
  }

  /** The first n bits of s are those of the address, and the other 128 - n bits are those of the pad. */
  ghost predicate Completed(s: seq<bv8>, a: bv32, pad: seq<bv8>, n: bv32) {
    && |s| == |pad| == 16 && n <= 32 && s[4..] == pad[4..]
    && forall j: nat, m: nat :: j < 4 && m < 8 ==> BitCompleted(s, a, pad, n, j, m)
  }

  // ----- The inputs of the cipher -----

  ghost predicate Ask(x: bv32) { true }

  /** x has the first n bits of a, and behind them those of f; used where a proof asks. */
  ghost predicate Joined(x: bv32, f: bv32, a: bv32, n: bv32)
    requires n < 32
  {
    forall y {:trigger Ask(y)} :: Ask(y) && y == x ==>
      y == if n == 0 then f else ((a >> (32 - n)) << (32 - n)) | ((f << n) >> n)
  }

  lemma InputJoined(k: ValidKey, a: bv32, n: bv32)
    requires n < 32
    ensures Joined(Input(k, Top(a, n), n), First4(k.pad), a, n)
  {
  }

  lemma JoinedBitOf(x: bv32, f: bv32, a: bv32, n: bv32, q: bv32)
    requires n < 32 && q < 32 && x == if n == 0 then f else ((a >> (32 - n)) << (32 - n)) | ((f << n) >> n)
    ensures BitAt(x, q) == if q < n then BitAt(a, q) else BitAt(f, q)
  {
  }

  lemma JoinedBit(x: bv32, f: bv32, a: bv32, n: bv32, q: bv32)
    requires n < 32 && q < 32 && Joined(x, f, a, n)
    ensures BitAt(x, q) == if q < n then BitAt(a, q) else BitAt(f, q)
  {
    assert Ask(x);
    JoinedBitOf(x, f, a, n, q);
  }

  lemma BitOfByte0(x: bv32, m: nat)
    requires m < 8
    ensures INDEX[0][m] < 32 && IsSet(Byte0(x), MASKS[m]) == BitAt(x, INDEX[0][m])
  {
    if
    case m == 0 => assert IsSet(Byte0(x), 0x80) == BitAt(x, 0);
    case m == 1 => assert IsSet(Byte0(x), 0x40) == BitAt(x, 1);
    case m == 2 => assert IsSet(Byte0(x), 0x20) == BitAt(x, 2);
    case m == 3 => assert IsSet(Byte0(x), 0x10) == BitAt(x, 3);
    case m == 4 => assert IsSet(Byte0(x), 0x08) == BitAt(x, 4);
    case m == 5 => assert IsSet(Byte0(x), 0x04) == BitAt(x, 5);
    case m == 6 => assert IsSet(Byte0(x), 0x02) == BitAt(x, 6);
    case m == 7 => assert IsSet(Byte0(x), 0x01) == BitAt(x, 7);
  }

  lemma BitOfByte1(x: bv32, m: nat)
    requires m < 8
    ensures INDEX[1][m] < 32 && IsSet(Byte1(x), MASKS[m]) == BitAt(x, INDEX[1][m])
  {
    if
    case m == 0 => assert IsSet(Byte1(x), 0x80) == BitAt(x, 8);
    case m == 1 => assert IsSet(Byte1(x), 0x40) == BitAt(x, 9);
    case m == 2 => assert IsSet(Byte1(x), 0x20) == BitAt(x, 10);
    case m == 3 => assert IsSet(Byte1(x), 0x10) == BitAt(x, 11);
    case m == 4 => assert IsSet(Byte1(x), 0x08) == BitAt(x, 12);
    case m == 5 => assert IsSet(Byte1(x), 0x04) == BitAt(x, 13);
    case m == 6 => assert IsSet(Byte1(x), 0x02) == BitAt(x, 14);
    case m == 7 => assert IsSet(Byte1(x), 0x01) == BitAt(x, 15);
  }

  lemma BitOfByte2(x: bv32, m: nat)
    requires m < 8
    ensures INDEX[2][m] < 32 && IsSet(Byte2(x), MASKS[m]) == BitAt(x, INDEX[2][m])
  {
    if
    case m == 0 => assert IsSet(Byte2(x), 0x80) == BitAt(x, 16);
    case m == 1 => assert IsSet(Byte2(x), 0x40) == BitAt(x, 17);
    case m == 2 => assert IsSet(Byte2(x), 0x20) == BitAt(x, 18);
    case m == 3 => assert IsSet(Byte2(x), 0x10) == BitAt(x, 19);
    case m == 4 => assert IsSet(Byte2(x), 0x08) == BitAt(x, 20);
    case m == 5 => assert IsSet(Byte2(x), 0x04) == BitAt(x, 21);
    case m == 6 => assert IsSet(Byte2(x), 0x02) == BitAt(x, 22);
    case m == 7 => assert IsSet(Byte2(x), 0x01) == BitAt(x, 23);
  }

  lemma BitOfByte3(x: bv32, m: nat)
    requires m < 8
    ensures INDEX[3][m] < 32 && IsSet(Byte3(x), MASKS[m]) == BitAt(x, INDEX[3][m])
  {
    if
    case m == 0 => assert IsSet(Byte3(x), 0x80) == BitAt(x, 24);
    case m == 1 => assert IsSet(Byte3(x), 0x40) == BitAt(x, 25);
    case m == 2 => assert IsSet(Byte3(x), 0x20) == BitAt(x, 26);
    case m == 3 => assert IsSet(Byte3(x), 0x10) == BitAt(x, 27);
    case m == 4 => assert IsSet(Byte3(x), 0x08) == BitAt(x, 28);
    case m == 5 => assert IsSet(Byte3(x), 0x04) == BitAt(x, 29);
    case m == 6 => assert IsSet(Byte3(x), 0x02) == BitAt(x, 30);
    case m == 7 => assert IsSet(Byte3(x), 0x01) == BitAt(x, 31);
  }

  lemma BitOfByte(x: bv32, j: nat, m: nat)
    requires j < 4 && m < 8
    ensures INDEX[j][m] < 32 && IsSet(Bytes(x)[j], MASKS[m]) == BitAt(x, INDEX[j][m])
  {
    if
    case j == 0 => BitOfByte0(x, m);
    case j == 1 => BitOfByte1(x, m);
    case j == 2 => BitOfByte2(x, m);
    case j == 3 => BitOfByte3(x, m);
  }

  lemma JoinedBitOfByte(x: bv32, f: bv32, a: bv32, n: bv32, j: nat, m: nat)
    requires n < 32 && Joined(x, f, a, n) && j < 4 && m < 8
    ensures IsSet(Bytes(x)[j], MASKS[m]) == IsSet(if INDEX[j][m] < n then Bytes(a)[j] else Bytes(f)[j], MASKS[m])
  {
    BitOfByte(x, j, m);
    BitOfByte(a, j, m);
    BitOfByte(f, j, m);
    JoinedBit(x, f, a, n, INDEX[j][m]);
  }

  lemma SameBits(b: bv8, c: bv8)
    requires forall m :: 0 <= m < 8 ==> IsSet(b, MASKS[m]) == IsSet(c, MASKS[m])
    ensures b == c
  {
    assert IsSet(b, MASKS[0]) == IsSet(c, MASKS[0]);
    assert IsSet(b, MASKS[1]) == IsSet(c, MASKS[1]);
    assert IsSet(b, MASKS[2]) == IsSet(c, MASKS[2]);
    assert IsSet(b, MASKS[3]) == IsSet(c, MASKS[3]);
    assert IsSet(b, MASKS[4]) == IsSet(c, MASKS[4]);
    assert IsSet(b, MASKS[5]) == IsSet(c, MASKS[5]);
    assert IsSet(b, MASKS[6]) == IsSet(c, MASKS[6]);
    assert IsSet(b, MASKS[7]) == IsSet(c, MASKS[7]);
  }

  /** The first four bytes of the pad, put together and taken apart. */
  lemma BytesOfPad(pad: seq<bv8>)
    requires |pad| == 16
    ensures Bytes(First4(pad)) == pad[..4]
  {
    BytesOfFour(pad[0], pad[1], pad[2], pad[3]);
  }

  lemma BytesOfFour(b0: bv8, b1: bv8, b2: bv8, b3: bv8)
    ensures var f := ((b0 as bv32) << 24) + ((b1 as bv32) << 16) + ((b2 as bv32) << 8) + (b3 as bv32);
      Byte0(f) == b0 && Byte1(f) == b1 && Byte2(f) == b2 && Byte3(f) == b3
  {
  }

  lemma InputBytes(k: ValidKey, x: bv32)
    ensures CipherInput(k, x) == Bytes(x) + k.pad[4..]
  {
  }

  /** The string completed from the pad is the one input of the cipher with these bits. */
  lemma CompletedIsInput(k: ValidKey, a: bv32, n: bv32, s: seq<bv8>)
    requires n < 32 && Completed(s, a, k.pad, n)
    ensures s == CipherInput(k, Input(k, Top(a, n), n))
  {
    var x, f := Input(k, Top(a, n), n), First4(k.pad);
    InputJoined(k, a, n);
    BytesOfPad(k.pad);
    forall j: nat | j < 4 ensures s[j] == Bytes(x)[j] {
      forall m: nat | m < 8 ensures IsSet(s[j], MASKS[m]) == IsSet(Bytes(x)[j], MASKS[m]) {
        assert BitCompleted(s, a, k.pad, n, j, m);
        JoinedBitOfByte(x, f, a, n, j, m);
      }
      SameBits(s[j], Bytes(x)[j]);
    }
    InputBytes(k, x);
    assert s == s[..4] + s[4..] && s[..4] == Bytes(x);
  }

  lemma InputIsCompleted(k: ValidKey, a: bv32, n: bv32)
    requires n < 32
    ensures Completed(CipherInput(k, Input(k, Top(a, n), n)), a, k.pad, n)
  {
    var x, f := Input(k, Top(a, n), n), First4(k.pad);
    InputJoined(k, a, n);
    BytesOfPad(k.pad);
    InputBytes(k, x);
    forall j: nat, m: nat | j < 4 && m < 8 ensures BitCompleted(Bytes(x) + k.pad[4..], a, k.pad, n, j, m) {
      JoinedBitOfByte(x, f, a, n, j, m);
    }
  }

  // ----- The bits of the pad -----

  lemma OrBitHere(r: bv32, bit: bv32, n: bv32)
    requires n < 32 && bit <= 1 && r << n == 0
    ensures BitAt(OrBit(r, bit, n), n) <==> bit == 1
    ensures OrBit(r, bit, n) << (n + 1) == 0
  {
  }

  lemma OrBitElsewhere(r: bv32, bit: bv32, n: bv32, q: bv32)
    requires n < 32 && q < n && bit <= 1
    ensures BitAt(OrBit(r, bit, n), q) == BitAt(r, q)
  {
  }

  lemma XorBit(x: bv32, y: bv32, q: bv32)
    requires q < 32
    ensures BitAt(Xor(x, y), q) != BitAt(y, q) <==> BitAt(x, q)
  {
  }

  /** The pad is zero behind its first n bits. */
  lemma {:induction false} PadEnds(k: ValidKey, a: bv32, n: bv32)
    requires n < 32
    ensures Pad(k, a, n) << n == 0
    decreases n
  {
    if n > 0 {
      PadEnds(k, a, n - 1);
      OrBitHere(Pad(k, a, n - 1), PadBit(k, Top(a, n - 1), n - 1), n - 1);
    }
  }

  lemma PadNext(k: ValidKey, a: bv32, n: bv32)
    requires n < 32
    ensures Pad(k, a, n + 1) == OrBit(Pad(k, a, n), PadBit(k, Top(a, n), n), n)
  {
  }

  lemma BitAdded(k: ValidKey, a: bv32, n: bv32)
    requires n < 32
    ensures BitAt(Pad(k, a, n + 1), n) <==> PadBit(k, Top(a, n), n) == 1
  {
    PadNext(k, a, n);
    PadEnds(k, a, n);
    OrBitHere(Pad(k, a, n), PadBit(k, Top(a, n), n), n);
  }

  lemma BitStays(k: ValidKey, a: bv32, n: bv32, m: bv32)
    requires n < m < 32
    ensures BitAt(Pad(k, a, m + 1), n) == BitAt(Pad(k, a, m), n)
  {
    PadNext(k, a, m);
    OrBitElsewhere(Pad(k, a, m), PadBit(k, Top(a, m), m), m, n);
  }

  lemma {:induction false} BitOfPad(k: ValidKey, a: bv32, n: bv32, m: bv32)
    requires n < m <= 32
    ensures BitAt(Pad(k, a, m), n) <==> PadBit(k, Top(a, n), n) == 1
    decreases m
  {
    if n == m - 1 {
      BitAdded(k, a, n);
    } else {
      BitOfPad(k, a, n, m - 1);
      BitStays(k, a, n, m - 1);
    }
  }

  lemma FirstBit(b: bv8)
    ensures (b >> 7) as bv32 == 1 <==> IsSet(b, 0x80)
  {
  }

  lemma ImageBit(k: ValidKey, a: bv32, n: bv32)
    requires n < 32
    ensures BitAt(Anonymize(k, a), n) != BitAt(a, n) <==> BitAt(Pad(k, a, 32), n)
  {
    XorBit(Pad(k, a, 32), a, n);
  }

  lemma PadBitIs(k: ValidKey, a: bv32, n: bv32, s: seq<bv8>)
    requires n < 32 && Completed(s, a, k.pad, n)
    ensures PadBit(k, Top(a, n), n) == 1 <==> IsSet(k.first(s), 0x80)
  {
    CompletedIsInput(k, a, n, s);
    FirstBit(k.first(s));
  }

  /** Bit n of the image of an address differs from bit n of the address exactly when the cipher's output
      begins with a set bit, on the one string whose first n bits are those of the address and whose other
      bits are those of m_pad. */
  lemma ImageBits(k: ValidKey, a: bv32, n: bv32)
    requires n < 32
    ensures exists s :: Completed(s, a, k.pad, n)
    ensures forall s :: Completed(s, a, k.pad, n) ==>
      (BitAt(Anonymize(k, a), n) != BitAt(a, n) <==> IsSet(k.first(s), 0x80))
  {
    InputIsCompleted(k, a, n);
    forall s | Completed(s, a, k.pad, n)
      ensures BitAt(Anonymize(k, a), n) != BitAt(a, n) <==> IsSet(k.first(s), 0x80)
    {
      ImageBit(k, a, n);
      BitOfPad(k, a, n, 32);
      PadBitIs(k, a, n, s);
    }
  }
}
