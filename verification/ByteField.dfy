/**
 The S-box as section 5.1.1 of FIPS 197 defines it: the inverse in GF(2^8), then an affine map of its bits.
 The literal table S of src/rijndael.c is that function.
 */
module ByteField {
  import opened GfColumns
  import opened SourceTables

  // ----- Products -----

  function Plus(x: bv8, y: bv8): bv8 { x ^ y }

  /** r, and x if the coefficient is set. */
  function Step(c: bool, x: bv8, r: bv8): bv8 {
    if c then x ^ r else r
  }

  function Step2(a: bool, b: bool, x: bv8, r: bv8): bv8 {
    Step(a, x, Step(b, Double(x), r))
  }

  function Step4(a: bool, b: bool, c: bool, d: bool, x: bv8, r: bv8): bv8 {
    Step2(a, b, x, Step2(c, d, Double(Double(x)), r))
  }

  /** The product of x and the polynomial with the given coefficients, the lowest one first. */
  function Product(a: bool, b: bool, c: bool, d: bool, e: bool, f: bool, g: bool, h: bool, x: bv8): bv8 {
    Step4(a, b, c, d, x, Step4(e, f, g, h, Double(Double(Double(Double(x)))), 0))
  }

  function IsSet(y: bv8, mask: bv8): bool { y & mask != 0 }

  /** Multiplication of bytes, section 4.2. */
  function Times(x: bv8, y: bv8): bv8 {
    Product(IsSet(y, 0x01), IsSet(y, 0x02), IsSet(y, 0x04), IsSet(y, 0x08),
            IsSet(y, 0x10), IsSet(y, 0x20), IsSet(y, 0x40), IsSet(y, 0x80), x)
  }

  /** y is the inverse of x, or both are zero. */
  predicate Inverse(x: bv8, y: bv8) {
    if x == 0 then y == 0 else Times(x, y) == 1
  }

  /** The bits moved k places to the left, around the byte. */
  function RotateBits(y: bv8, k: bv4): bv8
    requires k <= 8
  {
    (y << k) | (y >> (8 - k))
  }

  /** The affine map (5.1): bit i is the sum of bits i, i + 4, i + 5, i + 6, i + 7 and bit i of {63}. */
  function Affine(y: bv8): bv8 {
    y ^ RotateBits(y, 1) ^ RotateBits(y, 2) ^ RotateBits(y, 3) ^ RotateBits(y, 4) ^ 0x63
  }

  // ----- Products are additive, in any group of exponent two -----

  function StepOf<B(!new)>(o: Ops<B>, c: bool, x: B, r: B): B {
    o.plus(Pick(o, c, x), r)
  }

  lemma StepSum<B(!new)>(o: Ops<B>, c: bool, c': bool, x: B, r: B, r': B)
    requires Laws(o)
    ensures StepOf(o, c != c', x, o.plus(r, r')) == o.plus(StepOf(o, c, x, r), StepOf(o, c', x, r'))
  {
    PickSum(o, c, c', x);
    Interchange(o, Pick(o, c, x), r, Pick(o, c', x), r');
  }

  lemma StepIs(c: bool, x: bv8, r: bv8)
    ensures StepOf(BYTE_OPS, c, x, r) == Step(c, x, r)
  {
  }

  lemma PlusIs(x: bv8, y: bv8)
    ensures BYTE_OPS.plus(x, y) == Plus(x, y)
  {
  }

  lemma StepAdditive(c: bool, c': bool, x: bv8, r: bv8, r': bv8)
    ensures Step(c != c', x, Plus(r, r')) == Plus(Step(c, x, r), Step(c', x, r'))
  {
    ByteLaws();
    StepSum(BYTE_OPS, c, c', x, r, r');
    PlusIs(r, r');
    StepIs(c, x, r);
    StepIs(c', x, r');
    StepIs(c != c', x, Plus(r, r'));
    PlusIs(Step(c, x, r), Step(c', x, r'));
  }

  lemma Step2Additive(a: bool, b: bool, a': bool, b': bool, x: bv8, r: bv8, r': bv8)
    ensures Step2(a != a', b != b', x, Plus(r, r')) == Plus(Step2(a, b, x, r), Step2(a', b', x, r'))
  {
    var z := Double(x);
    StepAdditive(b, b', z, r, r');
    StepAdditive(a, a', x, Step(b, z, r), Step(b', z, r'));
  }

  lemma Step4Additive(a: bool, b: bool, c: bool, d: bool, a': bool, b': bool, c': bool, d': bool,
                      x: bv8, r: bv8, r': bv8)
    ensures Step4(a != a', b != b', c != c', d != d', x, Plus(r, r')) ==
      Plus(Step4(a, b, c, d, x, r), Step4(a', b', c', d', x, r'))
  {
    var z := Double(Double(x));
    Step2Additive(c, d, c', d', z, r, r');
    Step2Additive(a, b, a', b', x, Step2(c, d, z, r), Step2(c', d', z, r'));
  }

  lemma ProductAdditive(a: bool, b: bool, c: bool, d: bool, e: bool, f: bool, g: bool, h: bool,
                        a': bool, b': bool, c': bool, d': bool, e': bool, f': bool, g': bool, h': bool, x: bv8)
    ensures Product(a != a', b != b', c != c', d != d', e != e', f != f', g != g', h != h', x) ==
      Plus(Product(a, b, c, d, e, f, g, h, x), Product(a', b', c', d', e', f', g', h', x))
  {
    var z := Double(Double(Double(Double(x))));
    assert Plus(0, 0) == 0;
    Step4Additive(e, f, g, h, e', f', g', h', z, 0, 0);
    Step4Additive(a, b, c, d, a', b', c', d', x, Step4(e, f, g, h, z, 0), Step4(e', f', g', h', z, 0));
  }

  lemma IsSetXor(y: bv8, z: bv8, mask: bv8)
    requires mask in {0x01, 0x02, 0x04, 0x08, 0x10, 0x20, 0x40, 0x80}
    ensures IsSet(Plus(y, z), mask) == (IsSet(y, mask) != IsSet(z, mask))
  {
  }

  predicate HasBits(y: bv8, a: bool, b: bool, c: bool, d: bool, e: bool, f: bool, g: bool, h: bool) {
    && a == IsSet(y, 0x01) && b == IsSet(y, 0x02) && c == IsSet(y, 0x04) && d == IsSet(y, 0x08)
    && e == IsSet(y, 0x10) && f == IsSet(y, 0x20) && g == IsSet(y, 0x40) && h == IsSet(y, 0x80)
  }

  lemma XorHasBits(y: bv8, z: bv8, a: bool, b: bool, c: bool, d: bool, e: bool, f: bool, g: bool, h: bool,
                   a': bool, b': bool, c': bool, d': bool, e': bool, f': bool, g': bool, h': bool)
    requires HasBits(y, a, b, c, d, e, f, g, h) && HasBits(z, a', b', c', d', e', f', g', h')
    ensures HasBits(Plus(y, z), a != a', b != b', c != c', d != d', e != e', f != f', g != g', h != h')
  {
    IsSetXor(y, z, 0x01);
    IsSetXor(y, z, 0x02);
    IsSetXor(y, z, 0x04);
    IsSetXor(y, z, 0x08);
    IsSetXor(y, z, 0x10);
    IsSetXor(y, z, 0x20);
    IsSetXor(y, z, 0x40);
    IsSetXor(y, z, 0x80);
  }

  lemma TimesIs(x: bv8, y: bv8, a: bool, b: bool, c: bool, d: bool, e: bool, f: bool, g: bool, h: bool)
    requires HasBits(y, a, b, c, d, e, f, g, h)
    ensures Times(x, y) == Product(a, b, c, d, e, f, g, h, x)
  {
  }

  lemma TimesXor(x: bv8, y: bv8, z: bv8)
    ensures Times(x, Plus(y, z)) == Plus(Times(x, y), Times(x, z))
  {
    var a, b, c, d := IsSet(y, 0x01), IsSet(y, 0x02), IsSet(y, 0x04), IsSet(y, 0x08);
    var e, f, g, h := IsSet(y, 0x10), IsSet(y, 0x20), IsSet(y, 0x40), IsSet(y, 0x80);
    var a', b', c', d' := IsSet(z, 0x01), IsSet(z, 0x02), IsSet(z, 0x04), IsSet(z, 0x08);
    var e', f', g', h' := IsSet(z, 0x10), IsSet(z, 0x20), IsSet(z, 0x40), IsSet(z, 0x80);
    XorHasBits(y, z, a, b, c, d, e, f, g, h, a', b', c', d', e', f', g', h');
    TimesIs(x, y, a, b, c, d, e, f, g, h);
    TimesIs(x, z, a', b', c', d', e', f', g', h');
    TimesIs(x, Plus(y, z), a != a', b != b', c != c', d != d', e != e', f != f', g != g', h != h');
    ProductAdditive(a, b, c, d, e, f, g, h, a', b', c', d', e', f', g', h', x);
  }

  // ----- Inverses -----

  /** The inverse of the affine map. */
  function InvAffine(z: bv8): bv8 {
    RotateBits(z, 1) ^ RotateBits(z, 3) ^ RotateBits(z, 6) ^ 0x05
  }

  lemma AffineOfInvAffine(z: bv8)
    ensures Affine(InvAffine(z)) == z
  {
  }

  // The rows of the table: what the affine map was applied to is an inverse.
  lemma UndoneRow0(x: bv8)
    requires x >> 4 == 0 && x != 0
    ensures Times(x, InvAffine(Row0(x))) == 1
  {
  }

  lemma UndoneRow1(x: bv8)
    requires x >> 4 == 1
    ensures Times(x, InvAffine(Row1(x))) == 1
  {
  }

  lemma UndoneRow2(x: bv8)
    requires x >> 4 == 2
    ensures Times(x, InvAffine(Row2(x))) == 1
  {
  }

  lemma UndoneRow3(x: bv8)
    requires x >> 4 == 3
    ensures Times(x, InvAffine(Row3(x))) == 1
  {
  }

  lemma UndoneRow4(x: bv8)
    requires x >> 4 == 4
    ensures Times(x, InvAffine(Row4(x))) == 1
  {
  }

  lemma UndoneRow5(x: bv8)
    requires x >> 4 == 5
    ensures Times(x, InvAffine(Row5(x))) == 1
  {
  }

  lemma UndoneRow6(x: bv8)
    requires x >> 4 == 6
    ensures Times(x, InvAffine(Row6(x))) == 1
  {
  }

  lemma UndoneRow7(x: bv8)
    requires x >> 4 == 7
    ensures Times(x, InvAffine(Row7(x))) == 1
  {
  }

  lemma UndoneRow8(x: bv8)
    requires x >> 4 == 8
    ensures Times(x, InvAffine(Row8(x))) == 1
  {
  }

  lemma UndoneRow9(x: bv8)
    requires x >> 4 == 9
    ensures Times(x, InvAffine(Row9(x))) == 1
  {
  }

  lemma UndoneRow10(x: bv8)
    requires x >> 4 == 10
    ensures Times(x, InvAffine(Row10(x))) == 1
  {
  }

  lemma UndoneRow11(x: bv8)
    requires x >> 4 == 11
    ensures Times(x, InvAffine(Row11(x))) == 1
  {
  }

  lemma UndoneRow12(x: bv8)
    requires x >> 4 == 12
    ensures Times(x, InvAffine(Row12(x))) == 1
  {
  }

  lemma UndoneRow13(x: bv8)
    requires x >> 4 == 13
    ensures Times(x, InvAffine(Row13(x))) == 1
  {
  }

  lemma UndoneRow14(x: bv8)
    requires x >> 4 == 14
    ensures Times(x, InvAffine(Row14(x))) == 1
  {
  }

  lemma UndoneRow15(x: bv8)
    requires x >> 4 == 15
    ensures Times(x, InvAffine(Row15(x))) == 1
  {
  }

  // No product of a byte of two rows with another one is zero.
  lemma NonZeroRows0(x: bv8, y: bv8)
    requires x < 0x20 && x != 0 && y != 0
    ensures Times(x, y) != 0
  {
  }

  lemma NonZeroRows1(x: bv8, y: bv8)
    requires 0x20 <= x < 0x40 && y != 0
    ensures Times(x, y) != 0
  {
  }

  lemma NonZeroRows2(x: bv8, y: bv8)
    requires 0x40 <= x < 0x60 && y != 0
    ensures Times(x, y) != 0
  {
  }

  lemma NonZeroRows3(x: bv8, y: bv8)
    requires 0x60 <= x < 0x80 && y != 0
    ensures Times(x, y) != 0
  {
  }

  lemma NonZeroRows4(x: bv8, y: bv8)
    requires 0x80 <= x < 0xa0 && y != 0
    ensures Times(x, y) != 0
  {
  }

  lemma NonZeroRows5(x: bv8, y: bv8)
    requires 0xa0 <= x < 0xc0 && y != 0
    ensures Times(x, y) != 0
  {
  }

  lemma NonZeroRows6(x: bv8, y: bv8)
    requires 0xc0 <= x < 0xe0 && y != 0
    ensures Times(x, y) != 0
  {
  }

  lemma NonZeroRows7(x: bv8, y: bv8)
    requires 0xe0 <= x && y != 0
    ensures Times(x, y) != 0
  {
  }

  /** The inverse of a byte: what the affine map was applied to. */
  lemma InverseExists(x: bv8) returns (y: bv8)
    ensures Inverse(x, y) && SubByte(x) == Affine(y)
  {
    y := InvAffine(SubByte(x));
    AffineOfInvAffine(SubByte(x));
    if x == 0 {
    } else if x >> 4 == 0 {
      UndoneRow0(x);
    } else if x >> 4 == 1 {
      UndoneRow1(x);
    } else if x >> 4 == 2 {
      UndoneRow2(x);
    } else if x >> 4 == 3 {
      UndoneRow3(x);
    } else if x >> 4 == 4 {
      UndoneRow4(x);
    } else if x >> 4 == 5 {
      UndoneRow5(x);
    } else if x >> 4 == 6 {
      UndoneRow6(x);
    } else if x >> 4 == 7 {
      UndoneRow7(x);
    } else if x >> 4 == 8 {
      UndoneRow8(x);
    } else if x >> 4 == 9 {
      UndoneRow9(x);
    } else if x >> 4 == 10 {
      UndoneRow10(x);
    } else if x >> 4 == 11 {
      UndoneRow11(x);
    } else if x >> 4 == 12 {
      UndoneRow12(x);
    } else if x >> 4 == 13 {
      UndoneRow13(x);
    } else if x >> 4 == 14 {
      UndoneRow14(x);
    } else {
      UndoneRow15(x);
    }
  }

  lemma NoZeroDivisors(x: bv8, y: bv8)
    requires x != 0 && y != 0
    ensures Times(x, y) != 0
  {
    if x < 0x20 {
      NonZeroRows0(x, y);
    } else if x < 0x40 {
      NonZeroRows1(x, y);
    } else if x < 0x60 {
      NonZeroRows2(x, y);
    } else if x < 0x80 {
      NonZeroRows3(x, y);
    } else if x < 0xa0 {
      NonZeroRows4(x, y);
    } else if x < 0xc0 {
      NonZeroRows5(x, y);
    } else if x < 0xe0 {
      NonZeroRows6(x, y);
    } else {
      NonZeroRows7(x, y);
    }
  }

  lemma SameIfXorZero(y: bv8, z: bv8)
    ensures Plus(y, z) == 0 ==> y == z
    ensures Plus(y, y) == 0
  {
  }

  lemma OneInverse(x: bv8, y: bv8, z: bv8)
    requires Inverse(x, y) && Inverse(x, z)
    ensures y == z
  {
    SameIfXorZero(y, z);
    if x != 0 && Plus(y, z) != 0 {
      TimesXor(x, y, z);
      NoZeroDivisors(x, Plus(y, z));
      SameIfXorZero(Times(x, y), Times(x, z));
    }
  }

  /** Every byte has one inverse (of zero, zero), and S is the affine map of it. */
  lemma SBoxIsAffineOfInverse(x: bv8)
    ensures exists y :: Inverse(x, y)
    ensures forall y :: Inverse(x, y) ==> SubByte(x) == Affine(y)
  {
    var y := InverseExists(x);
    forall z | Inverse(x, z) ensures SubByte(x) == Affine(z) {
      OneInverse(x, z, y);
    }
  }
}
