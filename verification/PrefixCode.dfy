/**
 Why a one-time pad whose bit n depends on the first n bits of its argument preserves
 prefixes exactly and is a permutation: over any type with a notion of shared prefix.
 CryptoPan.dfy supplies 32-bit addresses.
 */
module PrefixCode {

  /** `share(a, b, n)`: a and b have the same first n bits; `pad(a, n)`: the first n bits of the
      pad of a; `keep(a, n)`: the first n bits of a, the others clear. */
  datatype Code<!A(!new)> = Code(
    size: nat, zero: A,
    share: (A, A, nat) -> bool, xor: (A, A) -> A, pad: (A, nat) -> A, keep: (A, nat) -> A)

  // Triggers of the laws.
  ghost predicate At<A(!new)>(a: A, n: nat) { true }
  ghost predicate At2<A(!new)>(a: A, b: A, n: nat) { true }
  ghost predicate At4<A(!new)>(a: A, b: A, c: A, d: A, n: nat) { true }

  ghost predicate Laws<A(!new)>(p: Code<A>) {
    && (forall a, b, n: nat {:trigger At2(a, b, n)} :: At2(a, b, n) ==>
          && (p.share(a, b, n) ==> p.share(b, a, n))
          && (n < p.size && p.share(a, b, n + 1) ==> p.share(a, b, n))
          && (n < p.size && p.share(a, b, n) ==> p.pad(a, n + 1) == p.pad(b, n + 1))
          && (p.share(a, b, p.size) <==> a == b)
          && p.share(a, b, 0)
          && p.xor(p.xor(a, b), a) == b && p.xor(a, p.xor(b, a)) == b)
    && (forall a, n: nat {:trigger At(a, n)} :: At(a, n) ==>
          && (n <= p.size ==> p.share(a, a, n))
          && (n < p.size ==> p.share(p.pad(a, n + 1), p.pad(a, n), n))
          && (n <= p.size ==> p.share(p.keep(a, n), a, n)))
    && (forall a, b, c, d, n: nat {:trigger At4(a, b, c, d, n)} :: At4(a, b, c, d, n) ==>
          && (p.share(a, b, n) && p.share(b, c, n) ==> p.share(a, c, n))
          && (n <= p.size && p.share(a, b, n) && p.share(c, d, n) ==> p.share(p.xor(a, c), p.xor(b, d), n)))
  }

  lemma Sym<A(!new)>(p: Code<A>, a: A, b: A, n: nat)
    requires Laws(p) && p.share(a, b, n)
    ensures p.share(b, a, n)
  {
    assert At2(a, b, n);
  }

  lemma Trans<A(!new)>(p: Code<A>, a: A, b: A, c: A, n: nat)
    requires Laws(p) && p.share(a, b, n) && p.share(b, c, n)
    ensures p.share(a, c, n)
  {
    assert At4(a, b, c, c, n);
  }

  lemma Shorter<A(!new)>(p: Code<A>, a: A, b: A, n: nat)
    requires Laws(p) && n < p.size && p.share(a, b, n + 1)
    ensures p.share(a, b, n)
  {
    assert At2(a, b, n);
  }

  lemma SamePad<A(!new)>(p: Code<A>, a: A, b: A, n: nat)
    requires Laws(p) && n < p.size && p.share(a, b, n)
    ensures p.pad(a, n + 1) == p.pad(b, n + 1)
  {
    assert At2(a, b, n);
  }

  lemma Refl<A(!new)>(p: Code<A>, a: A, n: nat)
    requires Laws(p) && n <= p.size
    ensures p.share(a, a, n)
  {
    assert At(a, n);
  }

  lemma XorShare<A(!new)>(p: Code<A>, a: A, b: A, c: A, d: A, n: nat)
    requires Laws(p) && n <= p.size && p.share(a, b, n) && p.share(c, d, n)
    ensures p.share(p.xor(a, c), p.xor(b, d), n)
  {
    assert At4(a, b, c, d, n);
  }

  lemma XorTwice<A(!new)>(p: Code<A>, a: A, b: A)
    requires Laws(p)
    ensures p.xor(p.xor(a, b), a) == b && p.xor(a, p.xor(b, a)) == b
  {
    assert At2(a, b, 0);
  }

  /** The image of a: its pad, exclusive or, a. */
  function Image<A(!new)>(p: Code<A>, a: A): A { p.xor(p.pad(a, p.size), a) }

  /** The first n pad bits do not change as the pad grows. */
  lemma {:induction false} PadPrefix<A(!new)>(p: Code<A>, a: A, n: nat, m: nat)
    requires Laws(p) && n <= m <= p.size
    ensures p.share(p.pad(a, m), p.pad(a, n), n)
  {
    if n == m {
      Refl(p, p.pad(a, n), n);
    } else {
      PadPrefix(p, a, n, m - 1);
      assert At(a, m - 1);
      DropTo(p, p.pad(a, m), p.pad(a, m - 1), n, m - 1);
      Trans(p, p.pad(a, m), p.pad(a, m - 1), p.pad(a, n), n);
    }
  }

  lemma {:induction false} DropTo<A(!new)>(p: Code<A>, a: A, b: A, n: nat, m: nat)
    requires Laws(p) && n <= m <= p.size && p.share(a, b, m)
    ensures p.share(a, b, n)
    decreases m - n
  {
    if n < m {
      Shorter(p, a, b, m - 1);
      DropTo(p, a, b, n, m - 1);
    }
  }

  lemma ImagePrefix<A(!new)>(p: Code<A>, a: A, n: nat)
    requires Laws(p) && n <= p.size
    ensures p.share(Image(p, a), p.xor(p.pad(a, n), a), n)
  {
    PadPrefix(p, a, n, p.size);
    Refl(p, a, n);
    XorShare(p, p.pad(a, p.size), p.pad(a, n), a, a, n);
  }

  /** Two values share their first n bits if and only if their images do. */
  lemma {:induction false} PrefixPreserving<A(!new)>(p: Code<A>, a: A, b: A, n: nat)
    requires Laws(p) && n <= p.size
    ensures p.share(a, b, n) <==> p.share(Image(p, a), Image(p, b), n)
  {
    if n == 0 {
      assert At2(a, b, 0);
      assert At2(Image(p, a), Image(p, b), 0);
    } else {
      PrefixPreserving(p, a, b, n - 1);
      ImagePrefix(p, a, n);
      ImagePrefix(p, b, n);
      if p.share(a, b, n) {
        Shorter(p, a, b, n - 1);
        Forward(p, a, b, n);
      }
      if p.share(Image(p, a), Image(p, b), n) {
        Shorter(p, Image(p, a), Image(p, b), n - 1);
        Backward(p, a, b, n);
      }
    }
  }

  lemma Forward<A(!new)>(p: Code<A>, a: A, b: A, n: nat)
    requires Laws(p) && 0 < n <= p.size && p.share(a, b, n - 1) && p.share(a, b, n)
    ensures p.share(Image(p, a), Image(p, b), n)
  {
    var c := p.pad(a, n);
    SamePad(p, a, b, n - 1);
    ImagePrefix(p, a, n);
    ImagePrefix(p, b, n);
    Refl(p, c, n);
    XorShare(p, c, c, a, b, n);
    Trans(p, Image(p, a), p.xor(c, a), p.xor(c, b), n);
    Sym(p, Image(p, b), p.xor(c, b), n);
    Trans(p, Image(p, a), p.xor(c, b), Image(p, b), n);
  }

  lemma Backward<A(!new)>(p: Code<A>, a: A, b: A, n: nat)
    requires Laws(p) && 0 < n <= p.size && p.share(a, b, n - 1) && p.share(Image(p, a), Image(p, b), n)
    ensures p.share(a, b, n)
  {
    var c := p.pad(a, n);
    SamePad(p, a, b, n - 1);
    ImagePrefix(p, a, n);
    ImagePrefix(p, b, n);
    Sym(p, Image(p, a), p.xor(c, a), n);
    Trans(p, p.xor(c, a), Image(p, a), Image(p, b), n);
    Trans(p, p.xor(c, a), Image(p, b), p.xor(c, b), n);
    Refl(p, c, n);
    XorShare(p, p.xor(c, a), p.xor(c, b), c, c, n);
    XorTwice(p, c, a);
    XorTwice(p, c, b);
  }

  // ----- The inverse -----

  /** The first n bits of the value behind an image: bit i needs the pad bit i, which needs the
      i bits recovered before it. */
  function Recover<A(!new)>(p: Code<A>, image: A, n: nat): A {
    if n == 0 then p.zero
    else p.keep(p.xor(image, p.pad(Recover(p, image, n - 1), n)), n)
  }

  lemma KeepShare<A(!new)>(p: Code<A>, a: A, n: nat)
    requires Laws(p) && n <= p.size
    ensures p.share(p.keep(a, n), a, n)
  {
    assert At(a, n);
  }

  lemma {:induction false} RecoverPrefix<A(!new)>(p: Code<A>, a: A, n: nat)
    requires Laws(p) && n <= p.size
    ensures p.share(Recover(p, Image(p, a), n), a, n)
  {
    var y := Image(p, a);
    if n == 0 {
      assert At2(p.zero, a, 0);
    } else {
      RecoverPrefix(p, a, n - 1);
      SamePad(p, Recover(p, y, n - 1), a, n - 1);
      var c := p.pad(a, n);
      ImagePrefix(p, a, n);
      Refl(p, c, n);
      XorShare(p, y, p.xor(c, a), c, c, n);
      XorTwice(p, c, a);
      KeepShare(p, p.xor(y, c), n);
      Trans(p, Recover(p, y, n), p.xor(y, c), a, n);
    }
  }

  /** Later steps of the recovery keep the bits recovered before. */
  lemma {:induction false} RecoverStable<A(!new)>(p: Code<A>, y: A, n: nat)
    requires Laws(p) && n < p.size
    ensures p.share(Recover(p, y, n + 1), Recover(p, y, n), n)
  {
    if n == 0 {
      assert At2(Recover(p, y, 1), Recover(p, y, 0), 0);
    } else {
      var r, q := Recover(p, y, n), Recover(p, y, n - 1);
      var u, v := p.xor(y, p.pad(r, n + 1)), p.xor(y, p.pad(q, n));
      RecoverStable(p, y, n - 1);
      SamePad(p, r, q, n - 1);
      PadPrefix(p, r, n, n + 1);
      Refl(p, y, n);
      XorShare(p, y, y, p.pad(r, n + 1), p.pad(q, n), n);
      KeepShare(p, u, n + 1);
      Shorter(p, Recover(p, y, n + 1), u, n);
      Trans(p, Recover(p, y, n + 1), u, v, n);
      KeepShare(p, v, n);
      Sym(p, r, v, n);
      Trans(p, Recover(p, y, n + 1), v, r, n);
    }
  }

  /** The map to images is a permutation, and `Recover` is its inverse. */
  lemma Permutation<A(!new)>(p: Code<A>, x: A)
    requires Laws(p) && p.size > 0
    ensures Recover(p, Image(p, x), p.size) == x
    ensures Image(p, Recover(p, x, p.size)) == x
  {
    RecoverPrefix(p, x, p.size);
    assert At2(Recover(p, Image(p, x), p.size), x, p.size);
    var a, r := Recover(p, x, p.size), Recover(p, x, p.size - 1);
    var c := p.pad(r, p.size);
    RecoverStable(p, x, p.size - 1);
    SamePad(p, a, r, p.size - 1);
    KeepShare(p, p.xor(x, c), p.size);
    assert At2(a, p.xor(x, c), p.size);
    XorTwice(p, c, x);
  }
}
