/**
 The order of most recent use, and the bounded cache that follows it.
 */
module Recency {
  import opened Sequences

  /** s without x. */
  function Without<T(==)>(s: seq<T>, x: T): seq<T> {
    if s == [] then [] else if s[0] == x then Without(s[1..], x) else [s[0]] + Without(s[1..], x)
  }

  /** The distinct values of a history, least recently used first. */
  function Recent<T(==)>(h: seq<T>): seq<T> {
    if h == [] then [] else Without(Recent(h[..|h| - 1]), h[|h| - 1]) + [h[|h| - 1]]
  }

  function LastN<T>(s: seq<T>, n: nat): seq<T> {
    if |s| <= n then s else s[|s| - n..]
  }

  /** One use of x: it moves to the end, or enters there and the first one leaves if the cache
      is over its maximum. */
  function Touch<T(==)>(s: seq<T>, x: T, max: nat): seq<T> {
    if x in s then Without(s, x) + [x] else LastN(s + [x], max)
  }

  /** The cache after a history of uses. */
  function Cached<T(==)>(h: seq<T>, max: nat): seq<T> {
    if h == [] then [] else Touch(Cached(h[..|h| - 1], max), h[|h| - 1], max)
  }

  lemma {:induction false} WithoutAppend<T>(a: seq<T>, b: seq<T>, x: T)
    ensures Without(a + b, x) == Without(a, x) + Without(b, x)
  {
    if a == [] {
      assert a + b == b;
    } else {
      assert (a + b)[1..] == a[1..] + b;
      WithoutAppend(a[1..], b, x);
    }
  }

  lemma {:induction false} WithoutAbsent<T>(s: seq<T>, x: T)
    requires x !in s
    ensures Without(s, x) == s
  {
    if s != [] {
      WithoutAbsent(s[1..], x);
    }
  }

  lemma WithoutParts<T>(a: seq<T>, x: T, b: seq<T>)
    requires x !in a && x !in b
    ensures Without(a + ([x] + b), x) == a + b
  {
    WithoutAppend(a, [x] + b, x);
    WithoutAppend([x], b, x);
    WithoutAbsent(a, x);
    WithoutAbsent(b, x);
    assert Without([x], x) == [];
  }

  /** Removing the one occurrence of x. */
  lemma WithoutAt<T>(s: seq<T>, p: nat)
    requires Distinct(s) && p < |s|
    ensures Without(s, s[p]) == s[..p] + s[p + 1..]
  {
    SplitAt(s, p);
    OccursOnce(s, p);
    WithoutParts(s[..p], s[p], s[p + 1..]);
  }

  lemma SplitAt<T>(s: seq<T>, p: nat)
    requires p < |s|
    ensures s == s[..p] + ([s[p]] + s[p + 1..])
  {
  }

  lemma OccursOnce<T>(s: seq<T>, p: nat)
    requires Distinct(s) && p < |s|
    ensures s[p] !in s[..p] && s[p] !in s[p + 1..]
  {
  }

  lemma {:induction false} WithoutElems<T>(s: seq<T>, x: T)
    ensures forall y :: y in Without(s, x) <==> y in s && y != x
    ensures Distinct(s) ==> Distinct(Without(s, x))
  {
    if s != [] {
      WithoutElems(s[1..], x);
      assert s == [s[0]] + s[1..];
      if Distinct(s) {
        DistinctParts([s[0]], s[1..]);
        if s[0] != x {
          DistinctCons(s[0], Without(s[1..], x));
        }
      }
    }
  }

  lemma DistinctParts<T>(a: seq<T>, b: seq<T>)
    requires Distinct(a + b)
    ensures Distinct(a) && Distinct(b)
    ensures forall x :: x in a ==> x !in b
  {
    forall i, j | 0 <= i < |a| && 0 <= j < |b| ensures a[i] != b[j] {
      assert (a + b)[i] == a[i] && (a + b)[|a| + j] == b[j];
    }
    forall i, j | 0 <= i < j < |a| ensures a[i] != a[j] {
      assert (a + b)[i] == a[i] && (a + b)[j] == a[j];
    }
    forall i, j | 0 <= i < j < |b| ensures b[i] != b[j] {
      assert (a + b)[|a| + i] == b[i] && (a + b)[|a| + j] == b[j];
    }
  }

  lemma DistinctCons<T>(x: T, s: seq<T>)
    requires Distinct(s) && x !in s
    ensures Distinct([x] + s)
  {
  }

  lemma DistinctSnoc<T>(s: seq<T>, x: T)
    requires Distinct(s) && x !in s
    ensures Distinct(s + [x])
  {
  }

  /** The recency order has no repetitions and holds exactly the values used. */
  lemma {:induction false} RecentElems<T>(h: seq<T>)
    ensures Distinct(Recent(h))
    ensures forall x :: x in Recent(h) <==> x in h
  {
    if h != [] {
      var g, x := h[..|h| - 1], h[|h| - 1];
      RecentElems(g);
      WithoutElems(Recent(g), x);
      DistinctSnoc(Without(Recent(g), x), x);
      assert h == g + [x];
    }
  }

  /** The index of the last use of x. */
  function LastUse<T(==)>(h: seq<T>, x: T): (i: nat)
    requires x in h
    ensures i < |h| && h[i] == x
    ensures forall j :: i < j < |h| ==> h[j] != x
  {
    if h[|h| - 1] == x then |h| - 1
    else
      assert x in h[..|h| - 1];
      LastUse(h[..|h| - 1], x)
  }

  /** a comes before b. */
  ghost predicate Before<T>(s: seq<T>, a: T, b: T) {
    exists i, j :: 0 <= i < j < |s| && s[i] == a && s[j] == b
  }

  lemma {:induction false} WithoutBefore<T>(s: seq<T>, x: T, a: T, b: T)
    requires Before(Without(s, x), a, b)
    ensures Before(s, a, b)
  {
    var w := Without(s, x);
    var i, j :| 0 <= i < j < |w| && w[i] == a && w[j] == b;
    if s[0] == x {
      WithoutBefore(s[1..], x, a, b);
      BeforeTail(s, a, b);
    } else if i > 0 {
      var w' := Without(s[1..], x);
      assert w'[i - 1] == a && w'[j - 1] == b;
      WithoutBefore(s[1..], x, a, b);
      BeforeTail(s, a, b);
    } else {
      WithoutElems(s[1..], x);
      assert b == Without(s[1..], x)[j - 1];
      assert b in Without(s[1..], x) && b in s[1..];
      var k :| 0 <= k < |s[1..]| && s[1..][k] == b;
      assert s[0] == a && s[k + 1] == b;
    }
  }

  lemma BeforeTail<T>(s: seq<T>, a: T, b: T)
    requires s != [] && Before(s[1..], a, b)
    ensures Before(s, a, b)
  {
    var i, j :| 0 <= i < j < |s[1..]| && s[1..][i] == a && s[1..][j] == b;
    assert s[i + 1] == a && s[j + 1] == b;
  }

  /** The recency order is the order of last uses. */
  lemma {:induction false} RecentOrder<T>(h: seq<T>, a: T, b: T)
    requires Before(Recent(h), a, b)
    ensures a in h && b in h && LastUse(h, a) < LastUse(h, b)
  {
    RecentElems(h);
    var r := Recent(h);
    var i, j :| 0 <= i < j < |r| && r[i] == a && r[j] == b;
    var g, x := h[..|h| - 1], h[|h| - 1];
    var w := Without(Recent(g), x);
    assert r == w + [x];
    assert a == w[i];
    WithoutElems(Recent(g), x);
    RecentElems(g);
    if b != x {
      assert b == w[j];
      assert Before(w, a, b);
      WithoutBefore(Recent(g), x, a, b);
      RecentOrder(g, a, b);
    }
  }

  // ----- The bounded cache -----

  lemma LastNOne<T>(s: seq<T>, n: nat)
    requires |s| <= n + 1
    ensures LastN(s, n) == if |s| <= n then s else s[1..]
  {
  }

  lemma LastNConcat<T>(a: seq<T>, c: seq<T>)
    ensures LastN(a + c, |c|) == c
  {
  }

  lemma LastNSplit<T>(r: seq<T>, n: nat) returns (a: seq<T>, b: seq<T>)
    ensures r == a + b && b == LastN(r, n)
    ensures |r| > n ==> |b| == n
    ensures |r| <= n ==> a == []
  {
    a := if |r| <= n then [] else r[..|r| - n];
    b := LastN(r, n);
  }

  lemma LastNWithoutParts<T>(a: seq<T>, b: seq<T>, p: nat)
    requires Distinct(a + b) && p < |b|
    ensures LastN(Without(a + b, b[p]) + [b[p]], |b|) == Without(b, b[p]) + [b[p]]
  {
    var x := b[p];
    DistinctParts(a, b);
    WithoutAppend(a, b, x);
    WithoutAbsent(a, x);
    WithoutAt(b, p);
    Regroup(a, Without(b, x), [x]);
    LastNConcat(a, Without(b, x) + [x]);
  }

  lemma LastNWithout<T>(r: seq<T>, n: nat, x: T)
    requires Distinct(r) && x in LastN(r, n) && |r| > n
    ensures LastN(Without(r, x) + [x], n) == Without(LastN(r, n), x) + [x]
  {
    var a, b := LastNSplit(r, n);
    var p :| 0 <= p < |b| && b[p] == x;
    LastNWithoutParts(a, b, p);
  }

  lemma LastNEnterParts<T>(a: seq<T>, b: seq<T>, x: T)
    requires b != [] && x !in b
    ensures LastN(Without(a + b, x) + [x], |b|) == LastN(b + [x], |b|)
  {
    WithoutAppend(a, b, x);
    WithoutAbsent(b, x);
    var w, c := Without(a, x), b[1..] + [x];
    assert b + [x] == [b[0]] + c;
    Regroup(w, b, [x]);
    Regroup(w, [b[0]], c);
    LastNConcat(w + [b[0]], c);
    LastNConcat([b[0]], c);
  }

  lemma LastNEnter<T>(r: seq<T>, n: nat, x: T)
    requires n > 0 && Distinct(r) && x !in LastN(r, n)
    ensures LastN(Without(r, x) + [x], n) == LastN(LastN(r, n) + [x], n)
  {
    if |r| <= n {
      WithoutAbsent(r, x);
    } else {
      var a, b := LastNSplit(r, n);
      LastNEnterParts(a, b, x);
    }
  }

  /** After any history, the cache holds exactly the most recently used distinct values, in
      recency order, and never more than its maximum. */
  lemma {:induction false} CachedIsRecent<T>(h: seq<T>, max: nat)
    requires max > 0
    ensures Cached(h, max) == LastN(Recent(h), max)
  {
    if h != [] {
      var g, x := h[..|h| - 1], h[|h| - 1];
      CachedIsRecent(g, max);
      RecentElems(g);
      var r := Recent(g);
      if x !in LastN(r, max) {
        LastNEnter(r, max, x);
      } else if |r| > max {
        LastNWithout(r, max, x);
      } else {
        var p :| 0 <= p < |r| && r[p] == x;
        WithoutAt(r, p);
      }
    }
  }

  /** One more use, seen on the most recently used values. */
  lemma RecentUse<T>(h: seq<T>, x: T, max: nat)
    requires max > 0
    ensures LastN(Recent(h + [x]), max) == Touch(LastN(Recent(h), max), x, max)
  {
    CachedIsRecent(h, max);
    CachedIsRecent(h + [x], max);
    assert (h + [x])[..|h|] == h;
  }
}
