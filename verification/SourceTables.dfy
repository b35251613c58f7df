/**
 The literal tables of `init_rijndael_OP` (src/rijndael.c): S, S5 and rcon as they stand in
 the source, and the doubling of GF(2^8) from which T1..T8 and U1..U4 are built.
 */
module SourceTables {
  import opened GfColumns
  import opened AesTables

  /** The entry of a sixteen-entry row selected by the low four bits of `n`. */
  function Pick16(n: bv8, v0: bv8, v1: bv8, v2: bv8, v3: bv8, v4: bv8, v5: bv8, v6: bv8, v7: bv8,
                  v8: bv8, v9: bv8, v10: bv8, v11: bv8, v12: bv8, v13: bv8, v14: bv8, v15: bv8): bv8 {
    if n & 8 == 0 then
      if n & 4 == 0 then
        if n & 2 == 0 then (if n & 1 == 0 then v0 else v1) else (if n & 1 == 0 then v2 else v3)
      else
        if n & 2 == 0 then (if n & 1 == 0 then v4 else v5) else (if n & 1 == 0 then v6 else v7)
    else
      if n & 4 == 0 then
        if n & 2 == 0 then (if n & 1 == 0 then v8 else v9) else (if n & 1 == 0 then v10 else v11)
      else
        if n & 2 == 0 then (if n & 1 == 0 then v12 else v13) else (if n & 1 == 0 then v14 else v15)
  }

  // The table S, a row of sixteen entries a function.
  function Row0(x: bv8): bv8 { Pick16(x, 99, 124, 119, 123, 242, 107, 111, 197, 48, 1, 103, 43, 254, 215, 171, 118) }
  function Row1(x: bv8): bv8 { Pick16(x, 202, 130, 201, 125, 250, 89, 71, 240, 173, 212, 162, 175, 156, 164, 114, 192) }
  function Row2(x: bv8): bv8 { Pick16(x, 183, 253, 147, 38, 54, 63, 247, 204, 52, 165, 229, 241, 113, 216, 49, 21) }
  function Row3(x: bv8): bv8 { Pick16(x, 4, 199, 35, 195, 24, 150, 5, 154, 7, 18, 128, 226, 235, 39, 178, 117) }
  function Row4(x: bv8): bv8 { Pick16(x, 9, 131, 44, 26, 27, 110, 90, 160, 82, 59, 214, 179, 41, 227, 47, 132) }
  function Row5(x: bv8): bv8 { Pick16(x, 83, 209, 0, 237, 32, 252, 177, 91, 106, 203, 190, 57, 74, 76, 88, 207) }
  function Row6(x: bv8): bv8 { Pick16(x, 208, 239, 170, 251, 67, 77, 51, 133, 69, 249, 2, 127, 80, 60, 159, 168) }
  function Row7(x: bv8): bv8 { Pick16(x, 81, 163, 64, 143, 146, 157, 56, 245, 188, 182, 218, 33, 16, 255, 243, 210) }
  function Row8(x: bv8): bv8 { Pick16(x, 205, 12, 19, 236, 95, 151, 68, 23, 196, 167, 126, 61, 100, 93, 25, 115) }
  function Row9(x: bv8): bv8 { Pick16(x, 96, 129, 79, 220, 34, 42, 144, 136, 70, 238, 184, 20, 222, 94, 11, 219) }
  function Row10(x: bv8): bv8 { Pick16(x, 224, 50, 58, 10, 73, 6, 36, 92, 194, 211, 172, 98, 145, 149, 228, 121) }
  function Row11(x: bv8): bv8 { Pick16(x, 231, 200, 55, 109, 141, 213, 78, 169, 108, 86, 244, 234, 101, 122, 174, 8) }
  function Row12(x: bv8): bv8 { Pick16(x, 186, 120, 37, 46, 28, 166, 180, 198, 232, 221, 116, 31, 75, 189, 139, 138) }
  function Row13(x: bv8): bv8 { Pick16(x, 112, 62, 181, 102, 72, 3, 246, 14, 97, 53, 87, 185, 134, 193, 29, 158) }
  function Row14(x: bv8): bv8 { Pick16(x, 225, 248, 152, 17, 105, 217, 142, 148, 155, 30, 135, 233, 206, 85, 40, 223) }
  function Row15(x: bv8): bv8 { Pick16(x, 140, 161, 137, 13, 191, 230, 66, 104, 65, 153, 45, 15, 176, 84, 187, 22) }

  /** The table S. */
  function SubByte(x: bv8): bv8 {
    Pick16(x >> 4, Row0(x), Row1(x), Row2(x), Row3(x), Row4(x), Row5(x), Row6(x), Row7(x),
      Row8(x), Row9(x), Row10(x), Row11(x), Row12(x), Row13(x), Row14(x), Row15(x))
  }

  /** The table S5, a row of sixteen entries a line. */
  function InvSubByte(x: bv8): bv8 {
    Pick16(x >> 4,
      Pick16(x, 82, 9, 106, 213, 48, 54, 165, 56, 191, 64, 163, 158, 129, 243, 215, 251),
      Pick16(x, 124, 227, 57, 130, 155, 47, 255, 135, 52, 142, 67, 68, 196, 222, 233, 203),
      Pick16(x, 84, 123, 148, 50, 166, 194, 35, 61, 238, 76, 149, 11, 66, 250, 195, 78),
      Pick16(x, 8, 46, 161, 102, 40, 217, 36, 178, 118, 91, 162, 73, 109, 139, 209, 37),
      Pick16(x, 114, 248, 246, 100, 134, 104, 152, 22, 212, 164, 92, 204, 93, 101, 182, 146),
      Pick16(x, 108, 112, 72, 80, 253, 237, 185, 218, 94, 21, 70, 87, 167, 141, 157, 132),
      Pick16(x, 144, 216, 171, 0, 140, 188, 211, 10, 247, 228, 88, 5, 184, 179, 69, 6),
      Pick16(x, 208, 44, 30, 143, 202, 63, 15, 2, 193, 175, 189, 3, 1, 19, 138, 107),
      Pick16(x, 58, 145, 17, 65, 79, 103, 220, 234, 151, 242, 207, 206, 240, 180, 230, 115),
      Pick16(x, 150, 172, 116, 34, 231, 173, 53, 133, 226, 249, 55, 232, 28, 117, 223, 110),
      Pick16(x, 71, 241, 26, 113, 29, 41, 197, 137, 111, 183, 98, 14, 170, 24, 190, 27),
      Pick16(x, 252, 86, 62, 75, 198, 210, 121, 32, 154, 219, 192, 254, 120, 205, 90, 244),
      Pick16(x, 31, 221, 168, 51, 136, 7, 199, 49, 177, 18, 16, 89, 39, 128, 236, 95),
      Pick16(x, 96, 81, 127, 169, 25, 181, 74, 13, 45, 229, 122, 159, 147, 201, 156, 239),
      Pick16(x, 160, 224, 59, 77, 174, 42, 245, 176, 200, 235, 187, 60, 131, 83, 153, 97),
      Pick16(x, 23, 43, 4, 126, 186, 119, 214, 38, 225, 105, 20, 99, 85, 33, 12, 125))
  }

  /** Multiplication by {02}, section 4.2.1 of FIPS 197. */
  function Double(x: bv8): bv8 {
    (x << 1) ^ (if x & 0x80 != 0 then 0x1b else 0)
  }

  /** The table rcon. */
  const RCON: seq<bv8> := [
    0x01, 0x02, 0x04, 0x08, 0x10, 0x20, 0x40, 0x80, 0x1b, 0x36, 0x6c, 0xd8, 0xab, 0x4d, 0x9a,
    0x2f, 0x5e, 0xbc, 0x63, 0xc6, 0x97, 0x35, 0x6a, 0xd4, 0xb3, 0x7d, 0xfa, 0xef, 0xc5, 0x91
  ]

  const BYTE_OPS: Ops<bv8> := Ops(0, (x, y) => x ^ y, Double)

  const SOURCE_TABLES := Tables(BYTE_OPS, SubByte, InvSubByte, RCON)

  // The eight parts of the S-box, two rows each.
  lemma InverseRows0(x: bv8)
    requires x < 0x20
    ensures InvSubByte(SubByte(x)) == x
  {
  }

  lemma InverseRows1(x: bv8)
    requires 0x20 <= x < 0x40
    ensures InvSubByte(SubByte(x)) == x
  {
  }

  lemma InverseRows2(x: bv8)
    requires 0x40 <= x < 0x60
    ensures InvSubByte(SubByte(x)) == x
  {
  }

  lemma InverseRows3(x: bv8)
    requires 0x60 <= x < 0x80
    ensures InvSubByte(SubByte(x)) == x
  {
  }

  lemma InverseRows4(x: bv8)
    requires 0x80 <= x < 0xa0
    ensures InvSubByte(SubByte(x)) == x
  {
  }

  lemma InverseRows5(x: bv8)
    requires 0xa0 <= x < 0xc0
    ensures InvSubByte(SubByte(x)) == x
  {
  }

  lemma InverseRows6(x: bv8)
    requires 0xc0 <= x < 0xe0
    ensures InvSubByte(SubByte(x)) == x
  {
  }

  lemma InverseRows7(x: bv8)
    requires 0xe0 <= x
    ensures InvSubByte(SubByte(x)) == x
  {
  }

  lemma InverseSBox(x: bv8)
    ensures InvSubByte(SubByte(x)) == x
  {
    if x < 0x20 {
      InverseRows0(x);
    } else if x < 0x40 {
      InverseRows1(x);
    } else if x < 0x60 {
      InverseRows2(x);
    } else if x < 0x80 {
      InverseRows3(x);
    } else if x < 0xa0 {
      InverseRows4(x);
    } else if x < 0xc0 {
      InverseRows5(x);
    } else if x < 0xe0 {
      InverseRows6(x);
    } else {
      InverseRows7(x);
    }
  }

  lemma ShiftXor(x: bv8, y: bv8)
    ensures (x ^ y) << 1 == (x << 1) ^ (y << 1)
  {
  }

  lemma TopBitXor(x: bv8, y: bv8)
    ensures ((x ^ y) & 0x80 != 0) == ((x & 0x80 != 0) != (y & 0x80 != 0))
  {
  }

  lemma RegroupXor(a: bv8, b: bv8, c: bv8, d: bv8)
    ensures (a ^ b) ^ (c ^ d) == (a ^ c) ^ (b ^ d)
  {
  }

  lemma DoubleAdditive(x: bv8, y: bv8)
    ensures Double(x ^ y) == Double(x) ^ Double(y)
  {
    ShiftXor(x, y);
    TopBitXor(x, y);
    var rx: bv8, ry: bv8 := if x & 0x80 != 0 then 0x1b else 0, if y & 0x80 != 0 then 0x1b else 0;
    RegroupXor(x << 1, rx, y << 1, ry);
  }

  // The operations have the laws of a group of order two, one after the other.
  lemma XorUnit(x: bv8)
    ensures BYTE_OPS.plus(x, BYTE_OPS.zero) == x && BYTE_OPS.plus(x, x) == BYTE_OPS.zero
  {
  }

  lemma XorCommutes(x: bv8, y: bv8)
    ensures BYTE_OPS.plus(x, y) == BYTE_OPS.plus(y, x)
  {
  }

  lemma DoubleOfXor(x: bv8, y: bv8)
    ensures BYTE_OPS.dbl(BYTE_OPS.plus(x, y)) == BYTE_OPS.plus(BYTE_OPS.dbl(x), BYTE_OPS.dbl(y))
  {
    calc {
      BYTE_OPS.dbl(BYTE_OPS.plus(x, y));
      Double(x ^ y);
      { DoubleAdditive(x, y); }
      Double(x) ^ Double(y);
      BYTE_OPS.plus(BYTE_OPS.dbl(x), BYTE_OPS.dbl(y));
    }
  }

  lemma XorAssociates(x: bv8, y: bv8, z: bv8)
    ensures BYTE_OPS.plus(BYTE_OPS.plus(x, y), z) == BYTE_OPS.plus(x, BYTE_OPS.plus(y, z))
  {
  }

  lemma ByteLaws()
    ensures Laws(BYTE_OPS)
  {
    var o := BYTE_OPS;
    forall x {:trigger Use1(x)} ensures o.plus(x, o.zero) == x && o.plus(x, x) == o.zero {
      XorUnit(x);
    }
    forall x, y {:trigger Use2(x, y)}
      ensures o.plus(x, y) == o.plus(y, x) && o.dbl(o.plus(x, y)) == o.plus(o.dbl(x), o.dbl(y))
    {
      XorCommutes(x, y);
      DoubleOfXor(x, y);
    }
    forall x, y, z {:trigger Use3(x, y, z)} ensures o.plus(o.plus(x, y), z) == o.plus(x, o.plus(y, z)) {
      XorAssociates(x, y, z);
    }
  }

  lemma RconStep(n: nat)
    requires n < 29
    ensures RCON[n + 1] == Double(RCON[n])
  {
    if
    case n < 10 =>
    case 10 <= n < 20 =>
    case 20 <= n =>
  }

  /** A sequence of successive doublings of one holds the powers of two. */
  lemma {:induction false} DoublingsArePowers(o: Ops<bv8>, r: seq<bv8>, n: nat)
    requires n < |r| && r[0] == 1 && forall k: nat :: k + 1 < |r| ==> r[k + 1] == o.dbl(r[k])
    ensures r[n] == PowerOfTwo(o, n)
  {
    if n > 0 {
      DoublingsArePowers(o, r, n - 1);
      var k: nat := n - 1;
      assert r[k + 1] == o.dbl(r[k]);
    }
  }

  lemma RconLiterals(n: nat)
    requires n < 30
    ensures RCON[n] == PowerOfTwo(BYTE_OPS, n)
  {
    forall k: nat | k + 1 < 30 ensures RCON[k + 1] == BYTE_OPS.dbl(RCON[k]) {
      RconStep(k);
    }
    DoublingsArePowers(BYTE_OPS, RCON, n);
  }

  /** The tables of the source have the properties the cipher needs. */
  lemma SourceTablesSound()
    ensures Sound(SOURCE_TABLES)
  {
    ByteLaws();
    forall x: bv8 {:trigger Use1(x)} ensures InvSubByte(SubByte(x)) == x {
      InverseSBox(x);
    }
    forall n: nat | n < 30 ensures RCON[n] == PowerOfTwo(BYTE_OPS, n) {
      RconLiterals(n);
    }
  }
}
