/**
 The two-entry cache in front of `cpp_anonymize` (src/crypto_ip.c), over any addresses, any
 image function and any table behind it. Both entries start as (zero, zero).
 */
module TwoEntryCache {

  /** `image`: the function being cached; on a miss the table `t` becomes `fill(t, a)`, from
      which `answer` computes the image of a; `good`: what the table keeps true of itself. */
  datatype Scheme<!A(!new), !T(!new)> = Scheme(image: A -> A, fill: (T, A) -> T, answer: (T, A) -> A, good: T -> bool)

  /** Entry 0 maps k0 to v0 and is the more recent one; entry 1 maps k1 to v1. */
  datatype Cache<A, T> = Cache(k0: A, v0: A, k1: A, v1: A, table: T)

  ghost predicate At<A(!new), T(!new)>(t: T, a: A) { true }

  ghost predicate Laws<A(!new), T(!new)>(s: Scheme<A, T>) {
    forall t, a {:trigger At(t, a)} :: At(t, a) && s.good(t) ==>
      s.good(s.fill(t, a)) && s.answer(s.fill(t, a), a) == s.image(a)
  }

  /** One call of `cpp_anonymize`: the new cache and the answer. */
  function Step<A(==, !new), T(!new)>(s: Scheme<A, T>, c: Cache<A, T>, a: A): (Cache<A, T>, A) {
    if c.k0 == a then (c, c.v0)
    else if c.k1 == a then (Cache(a, c.v1, c.k0, c.v0, c.table), c.v1)
    else
      var t := s.fill(c.table, a);
      var v := s.answer(t, a);
      (Cache(a, v, c.k0, c.v0, t), v)
  }

  /** Everything the cache holds is true. */
  ghost predicate Coherent<A(!new), T(!new)>(s: Scheme<A, T>, c: Cache<A, T>) {
    s.good(c.table) && c.v0 == s.image(c.k0) && c.v1 == s.image(c.k1)
  }

  // ----- Runs -----

  /** The answers of `cpp_anonymize` to a run of addresses. */
  function Answers<A(==, !new), T(!new)>(s: Scheme<A, T>, c: Cache<A, T>, addrs: seq<A>): (r: seq<A>)
    ensures |r| == |addrs|
    decreases |addrs|
  {
    if addrs == [] then [] else [Step(s, c, addrs[0]).1] + Answers(s, Step(s, c, addrs[0]).0, addrs[1..])
  }

  /** Every answer is that of `pp_anonymize`. */
  ghost predicate AllRight<A(!new), T(!new)>(s: Scheme<A, T>, c: Cache<A, T>, addrs: seq<A>)
  {
    forall i :: 0 <= i < |addrs| ==> Answers(s, c, addrs)[i] == s.image(addrs[i])
  }

  /** On a miss the answer is right, and the table stays true, whatever the two entries hold. */
  lemma MissStep<A(!new), T(!new)>(s: Scheme<A, T>, c: Cache<A, T>, addr: A)
    requires Laws(s) && s.good(c.table)
    requires addr != c.k0 && addr != c.k1
    ensures Step(s, c, addr).1 == s.image(addr)
    ensures Step(s, c, addr).0 == Cache(addr, s.image(addr), c.k0, c.v0, s.fill(c.table, addr))
    ensures s.good(s.fill(c.table, addr))
  {
    assert At(c.table, addr);
  }

  /** Coherence is kept, and from a coherent cache the answer is right. */
  lemma CoherentStep<A(!new), T(!new)>(s: Scheme<A, T>, c: Cache<A, T>, addr: A)
    requires Laws(s) && Coherent(s, c)
    ensures Coherent(s, Step(s, c, addr).0)
    ensures Step(s, c, addr).1 == s.image(addr)
  {
    if addr != c.k0 && addr != c.k1 {
      MissStep(s, c, addr);
    }
  }

  lemma AllRightStep<A(!new), T(!new)>(s: Scheme<A, T>, c: Cache<A, T>, addrs: seq<A>)
    requires addrs != []
    ensures AllRight(s, c, addrs) <==>
      Step(s, c, addrs[0]).1 == s.image(addrs[0]) && AllRight(s, Step(s, c, addrs[0]).0, addrs[1..])
  {
    var c' := Step(s, c, addrs[0]).0;
    var r, r' := Answers(s, c, addrs), Answers(s, c', addrs[1..]);
    assert r == [Step(s, c, addrs[0]).1] + r';
    if AllRight(s, c, addrs) {
      assert r[0] == s.image(addrs[0]);
      forall i | 0 <= i < |addrs[1..]| ensures r'[i] == s.image(addrs[1..][i]) {
        assert r[i + 1] == s.image(addrs[i + 1]);
      }
    }
    if Step(s, c, addrs[0]).1 == s.image(addrs[0]) && AllRight(s, c', addrs[1..]) {
      forall i | 0 <= i < |addrs| ensures r[i] == s.image(addrs[i]) {
        if i > 0 {
          assert r'[i - 1] == s.image(addrs[1..][i - 1]);
        }
      }
    }
  }

  /** Over any run from a coherent cache, `cpp_anonymize` answers as `pp_anonymize`. */
  lemma {:induction false} CoherentRun<A(!new), T(!new)>(s: Scheme<A, T>, c: Cache<A, T>, addrs: seq<A>)
    requires Laws(s) && Coherent(s, c)
    ensures AllRight(s, c, addrs)
    decreases |addrs|
  {
    if addrs != [] {
      CoherentStep(s, c, addrs[0]);
      CoherentRun(s, Step(s, c, addrs[0]).0, addrs[1..]);
      AllRightStep(s, c, addrs);
    }
  }

  // ----- Why there are warm-up calls -----

  /** At index i, two different non-zero addresses have been asked for before. */
  ghost predicate TwoBefore<A>(zero: A, addrs: seq<A>, i: nat)
    requires i <= |addrs|
  {
    exists p, q :: 0 <= p < q < i && addrs[p] != zero && addrs[q] != zero && addrs[p] != addrs[q]
  }

  /** A non-zero address other than x has been asked for before index i. */
  ghost predicate OtherBefore<A>(zero: A, addrs: seq<A>, x: A, i: nat)
    requires i <= |addrs|
  {
    exists p :: 0 <= p < i && addrs[p] != zero && addrs[p] != x
  }

  /** With one false entry left, behind a true one for x. */
  lemma {:induction false} OneFalseEntry<A(!new), T(!new)>(s: Scheme<A, T>, zero: A, c: Cache<A, T>, x: A,
                                                           addrs: seq<A>)
    requires Laws(s) && s.good(c.table) && x != zero
    requires c.k0 == x && c.v0 == s.image(x) && c.k1 == zero && c.v1 == zero
    ensures AllRight(s, c, addrs) <==>
      s.image(zero) == zero || forall i :: 0 <= i < |addrs| && addrs[i] == zero ==> OtherBefore(zero, addrs, x, i)
    decreases |addrs|
  {
    if s.image(zero) == zero {
      CoherentRun(s, c, addrs);
    } else if addrs != [] {
      var rest := addrs[1..];
      AllRightStep(s, c, addrs);
      if addrs[0] == zero {
        assert !OtherBefore(zero, addrs, x, 0);
      } else if addrs[0] == x {
        OneFalseEntry(s, zero, c, x, rest);
        forall i | 0 <= i < |rest| ensures OtherBefore(zero, rest, x, i) <==> OtherBefore(zero, addrs, x, i + 1) {
          OtherBeforeShift(zero, addrs, x, i);
        }
        ShiftZeros(zero, addrs, i => 0 <= i < |addrs| && OtherBefore(zero, addrs, x, i),
          i => 0 <= i < |rest| && OtherBefore(zero, rest, x, i));
      } else {
        MissStep(s, c, addrs[0]);
        CoherentRun(s, Step(s, c, addrs[0]).0, rest);
        forall i | 0 <= i < |addrs| && addrs[i] == zero ensures OtherBefore(zero, addrs, x, i) {
          assert addrs[0] != x;
        }
      }
    }
  }

  lemma OtherBeforeShift<A>(zero: A, addrs: seq<A>, x: A, i: nat)
    requires 0 < |addrs| && i < |addrs[1..]| && addrs[0] == x
    ensures OtherBefore(zero, addrs[1..], x, i) <==> OtherBefore(zero, addrs, x, i + 1)
  {
    var rest := addrs[1..];
    if OtherBefore(zero, rest, x, i) {
      var p :| 0 <= p < i && rest[p] != zero && rest[p] != x;
      assert addrs[p + 1] == rest[p];
    }
    if OtherBefore(zero, addrs, x, i + 1) {
      var p :| 0 <= p < i + 1 && addrs[p] != zero && addrs[p] != x;
      assert rest[p - 1] == addrs[p];
    }
  }

  lemma ShiftZeros<A>(zero: A, addrs: seq<A>, f: int -> bool, g: int -> bool)
    requires 0 < |addrs| && addrs[0] != zero
    requires forall i :: 0 <= i < |addrs[1..]| ==> g(i) == f(i + 1)
    ensures (forall i :: 0 <= i < |addrs| && addrs[i] == zero ==> f(i))
       <==> (forall i :: 0 <= i < |addrs[1..]| && addrs[1..][i] == zero ==> g(i))
  {
    if forall i :: 0 <= i < |addrs[1..]| && addrs[1..][i] == zero ==> g(i) {
      forall i | 0 <= i < |addrs| && addrs[i] == zero ensures f(i) {
        assert addrs[1..][i - 1] == addrs[i];
        assert g(i - 1) == f(i - 1 + 1);
      }
    }
    if forall i :: 0 <= i < |addrs| && addrs[i] == zero ==> f(i) {
      forall i | 0 <= i < |addrs[1..]| && addrs[1..][i] == zero ensures g(i) {
        assert addrs[i + 1] == zero;
      }
    }
  }

  /** Exactly when a run from the raw cache is answered as `pp_anonymize` answers it: when 0 is
      its own image, or every query for 0 comes after queries for two different non-zero
      addresses. The warm-up calls of `initialize_crypto` ask for 1 and 2. */
  lemma RawRun<A(!new), T(!new)>(s: Scheme<A, T>, zero: A, t: T, addrs: seq<A>)
    requires Laws(s) && s.good(t)
    ensures AllRight(s, Cache(zero, zero, zero, zero, t), addrs) <==>
      s.image(zero) == zero || forall i :: 0 <= i < |addrs| && addrs[i] == zero ==> TwoBefore(zero, addrs, i)
  {
    var raw := Cache(zero, zero, zero, zero, t);
    if s.image(zero) == zero {
      CoherentRun(s, raw, addrs);
    } else if addrs != [] {
      var x, rest := addrs[0], addrs[1..];
      AllRightStep(s, raw, addrs);
      if x == zero {
        assert !TwoBefore(zero, addrs, 0);
      } else {
        MissStep(s, raw, x);
        OneFalseEntry(s, zero, Step(s, raw, x).0, x, rest);
        forall i | 0 <= i < |rest| ensures OtherBefore(zero, rest, x, i) <==> TwoBefore(zero, addrs, i + 1) {
          TwoBeforeShift(zero, addrs, i);
        }
        ShiftZeros(zero, addrs, i => 0 <= i < |addrs| && TwoBefore(zero, addrs, i),
          i => 0 <= i < |rest| && OtherBefore(zero, rest, x, i));
      }
    }
  }

  lemma TwoBeforeShift<A>(zero: A, addrs: seq<A>, i: nat)
    requires 0 < |addrs| && i < |addrs[1..]| && addrs[0] != zero
    ensures OtherBefore(zero, addrs[1..], addrs[0], i) <==> TwoBefore(zero, addrs, i + 1)
  {
    var x, rest := addrs[0], addrs[1..];
    if OtherBefore(zero, rest, x, i) {
      var p :| 0 <= p < i && rest[p] != zero && rest[p] != x;
      assert addrs[p + 1] == rest[p] && addrs[0] != addrs[p + 1];
    }
    if TwoBefore(zero, addrs, i + 1) {
      var p, q :| 0 <= p < q < i + 1 && addrs[p] != zero && addrs[q] != zero && addrs[p] != addrs[q];
      if addrs[q] != x {
        assert rest[q - 1] == addrs[q];
      } else {
        assert rest[p - 1] == addrs[p];
      }
    }
  }

  // ----- A table whose entries start empty -----

  ghost predicate Injective<X(!new)>(index: X -> nat, size: nat) {
    forall x, y {:trigger index(x), index(y)} :: index(x) < size && (index(x) == index(y) ==> x == y)
  }

  /** The table after the entry of x has been computed if it was empty. */
  function Filled<X, V(==)>(index: X -> nat, truth: X -> V, empty: V, t: seq<V>, x: X): (r: seq<V>)
    requires index(x) < |t|
    ensures |r| == |t|
  {
    if t[index(x)] == empty then t[index(x) := truth(x)] else t
  }

  /** Every entry is empty or true. */
  ghost predicate TableTrue<X(!new), V>(index: X -> nat, truth: X -> V, empty: V, t: seq<V>, size: nat)
    requires Injective(index, size)
  {
    |t| == size && forall x {:trigger truth(x)} :: index(x) < size && (t[index(x)] == empty || t[index(x)] == truth(x))
  }

  lemma FilledTrue<X(!new), V>(index: X -> nat, truth: X -> V, empty: V, t: seq<V>, size: nat, x: X)
    requires Injective(index, size) && TableTrue(index, truth, empty, t, size) && index(x) < size
    ensures TableTrue(index, truth, empty, Filled(index, truth, empty, t, x), size)
    ensures Filled(index, truth, empty, t, x)[index(x)] == truth(x)
  {
    var r := Filled(index, truth, empty, t, x);
    assert truth(x) == truth(x);
    forall y {:trigger truth(y)} ensures index(y) < size && (r[index(y)] == empty || r[index(y)] == truth(y)) {
      assert truth(y) == truth(y);
      assert index(y) == index(x) ==> y == x;
    }
  }
}
