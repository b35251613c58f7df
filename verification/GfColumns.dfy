/**
 Mixing a column of four bytes (sections 4.2, 5.1.3 and 5.3.3 of FIPS 197), over any
 commutative group of exponent two with an additive doubling. The source tabulates these
 products in T1..T8 and U1..U4 (src/rijndael.c).
 */
module GfColumns {

  /** Addition and multiplication by {02}. */
  datatype Ops<!B(!new)> = Ops(zero: B, plus: (B, B) -> B, dbl: B -> B)

  datatype Word<B> = Word(b0: B, b1: B, b2: B, b3: B)

  /** A polynomial in {02}: the sum of the powers whose coefficient is set. */
  datatype Poly = Poly(c0: bool, c1: bool, c2: bool, c3: bool, c4: bool)

  const P0 := Poly(false, false, false, false, false)
  const P1 := Poly(true, false, false, false, false)
  const P2 := Poly(false, true, false, false, false)
  const P3 := Poly(true, true, false, false, false)
  const P9 := Poly(true, false, false, true, false)
  const P11 := Poly(true, true, false, true, false)
  const P13 := Poly(true, false, true, true, false)
  const P14 := Poly(false, true, true, true, false)

  /** The first row of a circulant matrix; the other rows are its rotations. */
  datatype Row = Row(r0: Poly, r1: Poly, r2: Poly, r3: Poly)

  const MIX := Row(P2, P3, P1, P1)
  const INV_MIX := Row(P14, P11, P13, P9)

  function Pick<B(!new)>(o: Ops<B>, c: bool, x: B): B {
    if c then x else o.zero
  }

  function Mul<B(!new)>(o: Ops<B>, p: Poly, x: B): B {
    var x1 := o.dbl(x);
    var x2 := o.dbl(x1);
    var x3 := o.dbl(x2);
    o.plus(Pick(o, p.c0, x), o.plus(Pick(o, p.c1, x1), o.plus(Pick(o, p.c2, x2),
      o.plus(Pick(o, p.c3, x3), Pick(o, p.c4, o.dbl(x3))))))
  }

  function Sum4<B(!new)>(o: Ops<B>, a: B, b: B, c: B, d: B): B {
    o.plus(o.plus(o.plus(a, b), c), d)
  }

  function XorWord<B(!new)>(o: Ops<B>, a: Word<B>, b: Word<B>): Word<B> {
    Word(o.plus(a.b0, b.b0), o.plus(a.b1, b.b1), o.plus(a.b2, b.b2), o.plus(a.b3, b.b3))
  }

  /** The product of the circulant matrix of `m` with the column `w`. */
  function MixWord<B(!new)>(o: Ops<B>, m: Row, w: Word<B>): Word<B> {
    Word(Sum4(o, Mul(o, m.r0, w.b0), Mul(o, m.r1, w.b1), Mul(o, m.r2, w.b2), Mul(o, m.r3, w.b3)),
         Sum4(o, Mul(o, m.r3, w.b0), Mul(o, m.r0, w.b1), Mul(o, m.r1, w.b2), Mul(o, m.r2, w.b3)),
         Sum4(o, Mul(o, m.r2, w.b0), Mul(o, m.r3, w.b1), Mul(o, m.r0, w.b2), Mul(o, m.r1, w.b3)),
         Sum4(o, Mul(o, m.r1, w.b0), Mul(o, m.r2, w.b1), Mul(o, m.r3, w.b2), Mul(o, m.r0, w.b3)))
  }

  // ----- Laws -----

  // Triggers of the laws, so that they are used only where a lemma asks for them.
  ghost predicate Use1<B(!new)>(x: B) { true }
  ghost predicate Use2<B(!new)>(x: B, y: B) { true }
  ghost predicate Use3<B(!new)>(x: B, y: B, z: B) { true }

  ghost predicate Laws<B(!new)>(o: Ops<B>) {
    && (forall x {:trigger Use1(x)} :: Use1(x) ==> o.plus(x, o.zero) == x && o.plus(x, x) == o.zero)
    && (forall x, y {:trigger Use2(x, y)} :: Use2(x, y) ==>
          o.plus(x, y) == o.plus(y, x) && o.dbl(o.plus(x, y)) == o.plus(o.dbl(x), o.dbl(y)))
    && (forall x, y, z {:trigger Use3(x, y, z)} :: Use3(x, y, z) ==>
          o.plus(o.plus(x, y), z) == o.plus(x, o.plus(y, z)))
  }

  lemma Unit<B(!new)>(o: Ops<B>, x: B)
    requires Laws(o)
    ensures o.plus(x, o.zero) == x && o.plus(o.zero, x) == x && o.plus(x, x) == o.zero
  {
    assert Use1(x) && Use2(x, o.zero);
  }

  lemma Comm<B(!new)>(o: Ops<B>, x: B, y: B)
    requires Laws(o)
    ensures o.plus(x, y) == o.plus(y, x)
  {
    assert Use2(x, y);
  }

  lemma Assoc<B(!new)>(o: Ops<B>, x: B, y: B, z: B)
    requires Laws(o)
    ensures o.plus(o.plus(x, y), z) == o.plus(x, o.plus(y, z))
  {
    assert Use3(x, y, z);
  }

  lemma DblPlus<B(!new)>(o: Ops<B>, x: B, y: B)
    requires Laws(o)
    ensures o.dbl(o.plus(x, y)) == o.plus(o.dbl(x), o.dbl(y))
  {
    assert Use2(x, y);
  }

  lemma DblZero<B(!new)>(o: Ops<B>)
    requires Laws(o)
    ensures o.dbl(o.zero) == o.zero
  {
    Unit(o, o.zero);
    Unit(o, o.dbl(o.zero));
    DblPlus(o, o.zero, o.zero);
  }

  /** Adding the same value twice is no change. */
  lemma Cancel<B(!new)>(o: Ops<B>, x: B, y: B)
    requires Laws(o)
    ensures o.plus(o.plus(x, y), y) == x
  {
    Assoc(o, x, y, y);
    Unit(o, y);
    Unit(o, x);
  }

  /** (a + b) + (c + d) = (a + c) + (b + d). */
  lemma Interchange<B(!new)>(o: Ops<B>, a: B, b: B, c: B, d: B)
    requires Laws(o)
    ensures o.plus(o.plus(a, b), o.plus(c, d)) == o.plus(o.plus(a, c), o.plus(b, d))
  {
    Assoc(o, a, b, o.plus(c, d));
    Assoc(o, b, c, d);
    Comm(o, b, c);
    Assoc(o, c, b, d);
    Assoc(o, a, c, o.plus(b, d));
  }

  // ----- Products -----

  function AddPoly(p: Poly, q: Poly): Poly {
    Poly(p.c0 != q.c0, p.c1 != q.c1, p.c2 != q.c2, p.c3 != q.c3, p.c4 != q.c4)
  }

  function Shift(p: Poly): Poly {
    Poly(false, p.c0, p.c1, p.c2, p.c3)
  }

  lemma PickSum<B(!new)>(o: Ops<B>, c: bool, d: bool, x: B)
    requires Laws(o)
    ensures o.plus(Pick(o, c, x), Pick(o, d, x)) == Pick(o, c != d, x)
  {
    Unit(o, x);
    Unit(o, o.zero);
  }

  lemma PickPlus<B(!new)>(o: Ops<B>, c: bool, x: B, y: B)
    requires Laws(o)
    ensures o.plus(Pick(o, c, x), Pick(o, c, y)) == Pick(o, c, o.plus(x, y))
  {
    Unit(o, o.zero);
  }

  /** (p + q) x = p x + q x. */
  lemma MulAddPoly<B(!new)>(o: Ops<B>, p: Poly, q: Poly, x: B)
    requires Laws(o)
    ensures o.plus(Mul(o, p, x), Mul(o, q, x)) == Mul(o, AddPoly(p, q), x)
  {
    var x1 := o.dbl(x);
    var x2 := o.dbl(x1);
    var x3 := o.dbl(x2);
    var x4 := o.dbl(x3);
    PickSum(o, p.c0, q.c0, x);
    PickSum(o, p.c1, q.c1, x1);
    PickSum(o, p.c2, q.c2, x2);
    PickSum(o, p.c3, q.c3, x3);
    PickSum(o, p.c4, q.c4, x4);
    MulInterchange(o, Pick(o, p.c0, x), Pick(o, p.c1, x1), Pick(o, p.c2, x2), Pick(o, p.c3, x3), Pick(o, p.c4, x4),
                   Pick(o, q.c0, x), Pick(o, q.c1, x1), Pick(o, q.c2, x2), Pick(o, q.c3, x3), Pick(o, q.c4, x4));
  }

  lemma MulInterchange<B(!new)>(o: Ops<B>, a0: B, a1: B, a2: B, a3: B, a4: B, b0: B, b1: B, b2: B, b3: B, b4: B)
    requires Laws(o)
    ensures o.plus(o.plus(a0, o.plus(a1, o.plus(a2, o.plus(a3, a4)))),
                   o.plus(b0, o.plus(b1, o.plus(b2, o.plus(b3, b4)))))
         == o.plus(o.plus(a0, b0), o.plus(o.plus(a1, b1), o.plus(o.plus(a2, b2),
              o.plus(o.plus(a3, b3), o.plus(a4, b4)))))
  {
    Interchange(o, a0, o.plus(a1, o.plus(a2, o.plus(a3, a4))), b0, o.plus(b1, o.plus(b2, o.plus(b3, b4))));
    Interchange(o, a1, o.plus(a2, o.plus(a3, a4)), b1, o.plus(b2, o.plus(b3, b4)));
    Interchange(o, a2, o.plus(a3, a4), b2, o.plus(b3, b4));
    Interchange(o, a3, a4, b3, b4);
  }

  /** p (x + y) = p x + p y. */
  lemma MulPlus<B(!new)>(o: Ops<B>, p: Poly, x: B, y: B)
    requires Laws(o)
    ensures Mul(o, p, o.plus(x, y)) == o.plus(Mul(o, p, x), Mul(o, p, y))
  {
    var x1, y1 := o.dbl(x), o.dbl(y);
    var x2, y2 := o.dbl(x1), o.dbl(y1);
    var x3, y3 := o.dbl(x2), o.dbl(y2);
    var x4, y4 := o.dbl(x3), o.dbl(y3);
    DblPlus(o, x, y);
    DblPlus(o, x1, y1);
    DblPlus(o, x2, y2);
    DblPlus(o, x3, y3);
    PickPlus(o, p.c0, x, y);
    PickPlus(o, p.c1, x1, y1);
    PickPlus(o, p.c2, x2, y2);
    PickPlus(o, p.c3, x3, y3);
    PickPlus(o, p.c4, x4, y4);
    MulInterchange(o, Pick(o, p.c0, x), Pick(o, p.c1, x1), Pick(o, p.c2, x2), Pick(o, p.c3, x3), Pick(o, p.c4, x4),
                   Pick(o, p.c0, y), Pick(o, p.c1, y1), Pick(o, p.c2, y2), Pick(o, p.c3, y3), Pick(o, p.c4, y4));
  }

  /** The small multipliers: {00}, {01}, {02} and {03}, and the product by {02}. */
  lemma MulSmall<B(!new)>(o: Ops<B>, p: Poly, x: B)
    requires Laws(o)
    ensures Mul(o, P0, x) == o.zero
    ensures Mul(o, P1, x) == x
    ensures Mul(o, P2, x) == o.dbl(x)
    ensures Mul(o, P3, x) == o.plus(x, o.dbl(x))
    ensures Mul(o, p, o.zero) == o.zero
    ensures !p.c4 ==> Mul(o, p, o.dbl(x)) == Mul(o, Shift(p), x)
  {
    Unit(o, o.zero);
    Unit(o, x);
    Unit(o, o.dbl(x));
    DblZero(o);
    if !p.c4 {
      var x1 := o.dbl(x);
      var x2 := o.dbl(x1);
      var x3 := o.dbl(x2);
      var x4 := o.dbl(x3);
      Unit(o, Pick(o, p.c3, x4));
      Unit(o, o.plus(Pick(o, p.c0, x1), o.plus(Pick(o, p.c1, x2), o.plus(Pick(o, p.c2, x3), Pick(o, p.c3, x4)))));
    }
  }

  // ----- Columns -----

  lemma Sum4Plus<B(!new)>(o: Ops<B>, a: B, b: B, c: B, d: B, a': B, b': B, c': B, d': B)
    requires Laws(o)
    ensures Sum4(o, o.plus(a, a'), o.plus(b, b'), o.plus(c, c'), o.plus(d, d'))
         == o.plus(Sum4(o, a, b, c, d), Sum4(o, a', b', c', d'))
  {
    Interchange(o, a, a', b, b');
    Interchange(o, o.plus(a, b), o.plus(a', b'), c, c');
    Interchange(o, o.plus(o.plus(a, b), c), o.plus(o.plus(a', b'), c'), d, d');
  }

  lemma RowPlus<B(!new)>(o: Ops<B>, p: Poly, q: Poly, r: Poly, s: Poly, a: Word<B>, b: Word<B>)
    requires Laws(o)
    ensures var c := XorWord(o, a, b);
            Sum4(o, Mul(o, p, c.b0), Mul(o, q, c.b1), Mul(o, r, c.b2), Mul(o, s, c.b3))
            == o.plus(Sum4(o, Mul(o, p, a.b0), Mul(o, q, a.b1), Mul(o, r, a.b2), Mul(o, s, a.b3)),
                      Sum4(o, Mul(o, p, b.b0), Mul(o, q, b.b1), Mul(o, r, b.b2), Mul(o, s, b.b3)))
  {
    MulPlus(o, p, a.b0, b.b0);
    MulPlus(o, q, a.b1, b.b1);
    MulPlus(o, r, a.b2, b.b2);
    MulPlus(o, s, a.b3, b.b3);
    Sum4Plus(o, Mul(o, p, a.b0), Mul(o, q, a.b1), Mul(o, r, a.b2), Mul(o, s, a.b3),
             Mul(o, p, b.b0), Mul(o, q, b.b1), Mul(o, r, b.b2), Mul(o, s, b.b3));
  }

  /** Column mixing distributes over AddRoundKey. */
  lemma MixWordAdditive<B(!new)>(o: Ops<B>, m: Row, a: Word<B>, b: Word<B>)
    requires Laws(o)
    ensures MixWord(o, m, XorWord(o, a, b)) == XorWord(o, MixWord(o, m, a), MixWord(o, m, b))
  {
    RowPlus(o, m.r0, m.r1, m.r2, m.r3, a, b);
    RowPlus(o, m.r3, m.r0, m.r1, m.r2, a, b);
    RowPlus(o, m.r2, m.r3, m.r0, m.r1, a, b);
    RowPlus(o, m.r1, m.r2, m.r3, m.r0, a, b);
  }

  /** p (2 x) + q x + r x + s (3 x), collected into one product. */
  lemma Collect<B(!new)>(o: Ops<B>, p: Poly, q: Poly, r: Poly, s: Poly, x: B)
    requires Laws(o)
    requires !p.c4 && !s.c4
    ensures Sum4(o, Mul(o, p, Mul(o, P2, x)), Mul(o, q, Mul(o, P1, x)),
                 Mul(o, r, Mul(o, P1, x)), Mul(o, s, Mul(o, P3, x)))
         == Mul(o, AddPoly(AddPoly(AddPoly(Shift(p), q), r), AddPoly(s, Shift(s))), x)
  {
    MulSmall(o, p, x);
    MulSmall(o, s, x);
    MulPlus(o, s, x, o.dbl(x));
    MulAddPoly(o, s, Shift(s), x);
    MulAddPoly(o, Shift(p), q, x);
    MulAddPoly(o, AddPoly(Shift(p), q), r, x);
    MulAddPoly(o, AddPoly(AddPoly(Shift(p), q), r), AddPoly(s, Shift(s)), x);
  }

  function Unit0<B(!new)>(o: Ops<B>, x: B): Word<B> { Word(x, o.zero, o.zero, o.zero) }

  function Rotate<B>(w: Word<B>): Word<B> { Word(w.b3, w.b0, w.b1, w.b2) }

  lemma MixUnit<B(!new)>(o: Ops<B>, m: Row, x: B)
    requires Laws(o)
    ensures MixWord(o, m, Unit0(o, x)) == Word(Mul(o, m.r0, x), Mul(o, m.r3, x), Mul(o, m.r2, x), Mul(o, m.r1, x))
  {
    MulSmall(o, m.r0, x);
    MulSmall(o, m.r1, x);
    MulSmall(o, m.r2, x);
    MulSmall(o, m.r3, x);
    Unit(o, Mul(o, m.r0, x));
    Unit(o, Mul(o, m.r1, x));
    Unit(o, Mul(o, m.r2, x));
    Unit(o, Mul(o, m.r3, x));
  }

  /** The inverse property on a column with one non-zero byte: the four polynomial identities
      of the matrix product. */
  lemma InvMixOfMixUnit<B(!new)>(o: Ops<B>, x: B)
    requires Laws(o)
    ensures MixWord(o, INV_MIX, MixWord(o, MIX, Unit0(o, x))) == Unit0(o, x)
  {
    MixUnit(o, MIX, x);
    Collect(o, P14, P11, P13, P9, x);
    Collect(o, P9, P14, P11, P13, x);
    Collect(o, P13, P9, P14, P11, x);
    Collect(o, P11, P13, P9, P14, x);
    MulSmall(o, P0, x);
  }

  lemma Sum4Rotate<B(!new)>(o: Ops<B>, a: B, b: B, c: B, d: B)
    requires Laws(o)
    ensures Sum4(o, a, b, c, d) == Sum4(o, d, a, b, c)
  {
    Comm(o, o.plus(o.plus(a, b), c), d);
    Assoc(o, d, o.plus(a, b), c);
    Assoc(o, d, a, b);
  }

  /** A circulant matrix commutes with rotation of the column. */
  lemma MixRotate<B(!new)>(o: Ops<B>, m: Row, w: Word<B>)
    requires Laws(o)
    ensures MixWord(o, m, Rotate(w)) == Rotate(MixWord(o, m, w))
  {
    Sum4Rotate(o, Mul(o, m.r0, w.b0), Mul(o, m.r1, w.b1), Mul(o, m.r2, w.b2), Mul(o, m.r3, w.b3));
    Sum4Rotate(o, Mul(o, m.r3, w.b0), Mul(o, m.r0, w.b1), Mul(o, m.r1, w.b2), Mul(o, m.r2, w.b3));
    Sum4Rotate(o, Mul(o, m.r2, w.b0), Mul(o, m.r3, w.b1), Mul(o, m.r0, w.b2), Mul(o, m.r1, w.b3));
    Sum4Rotate(o, Mul(o, m.r1, w.b0), Mul(o, m.r2, w.b1), Mul(o, m.r3, w.b2), Mul(o, m.r0, w.b3));
  }

  lemma InvMixOfMixRotate<B(!new)>(o: Ops<B>, w: Word<B>)
    requires Laws(o)
    requires MixWord(o, INV_MIX, MixWord(o, MIX, w)) == w
    ensures MixWord(o, INV_MIX, MixWord(o, MIX, Rotate(w))) == Rotate(w)
  {
    MixRotate(o, MIX, w);
    MixRotate(o, INV_MIX, MixWord(o, MIX, w));
  }

  lemma InvMixOfMixSum<B(!new)>(o: Ops<B>, a: Word<B>, b: Word<B>)
    requires Laws(o)
    requires MixWord(o, INV_MIX, MixWord(o, MIX, a)) == a
    requires MixWord(o, INV_MIX, MixWord(o, MIX, b)) == b
    ensures MixWord(o, INV_MIX, MixWord(o, MIX, XorWord(o, a, b))) == XorWord(o, a, b)
  {
    MixWordAdditive(o, MIX, a, b);
    MixWordAdditive(o, INV_MIX, MixWord(o, MIX, a), MixWord(o, MIX, b));
  }

  /** InvMixColumns undoes MixColumns, on every column. */
  lemma InvMixOfMix<B(!new)>(o: Ops<B>, w: Word<B>)
    requires Laws(o)
    ensures MixWord(o, INV_MIX, MixWord(o, MIX, w)) == w
  {
    var e0 := Unit0(o, w.b0);
    var e1 := Rotate(Unit0(o, w.b1));
    var e2 := Rotate(Rotate(Unit0(o, w.b2)));
    var e3 := Rotate(Rotate(Rotate(Unit0(o, w.b3))));
    InvMixOfMixUnit(o, w.b0);
    InvMixOfMixUnit(o, w.b1);
    InvMixOfMixUnit(o, w.b2);
    InvMixOfMixUnit(o, w.b3);
    InvMixOfMixRotate(o, Unit0(o, w.b1));
    InvMixOfMixRotate(o, Unit0(o, w.b2));
    InvMixOfMixRotate(o, Rotate(Unit0(o, w.b2)));
    InvMixOfMixRotate(o, Unit0(o, w.b3));
    InvMixOfMixRotate(o, Rotate(Unit0(o, w.b3)));
    InvMixOfMixRotate(o, Rotate(Rotate(Unit0(o, w.b3))));
    InvMixOfMixSum(o, e0, e1);
    InvMixOfMixSum(o, e2, e3);
    InvMixOfMixSum(o, XorWord(o, e0, e1), XorWord(o, e2, e3));
    ColumnIsSum(o, w);
  }

  lemma ColumnIsSum<B(!new)>(o: Ops<B>, w: Word<B>)
    requires Laws(o)
    ensures w == XorWord(o, XorWord(o, Unit0(o, w.b0), Rotate(Unit0(o, w.b1))),
                            XorWord(o, Rotate(Rotate(Unit0(o, w.b2))), Rotate(Rotate(Rotate(Unit0(o, w.b3))))))
  {
    Unit(o, o.zero);
    Unit(o, w.b0);
    Unit(o, w.b1);
    Unit(o, w.b2);
    Unit(o, w.b3);
  }
}
