/**
 Sequences as sets of their elements, without repetitions, and without one element.
 */
module Sequences {

  ghost predicate Distinct<T>(s: seq<T>) {
    forall i, j :: 0 <= i < j < |s| ==> s[i] != s[j]
  }

  ghost function Elems<T>(s: seq<T>): set<T> {
    set x | x in s
  }

  /** A sequence without the element at p. */
  function Cut<T>(s: seq<T>, p: nat): (t: seq<T>)
    requires p < |s|
    ensures |t| == |s| - 1
  {
    s[..p] + s[p + 1..]
  }

  lemma CutAt<T>(s: seq<T>, p: nat, i: nat)
    requires p < |s| && i < |s| - 1
    ensures Cut(s, p)[i] == s[if i < p then i else i + 1]
  {
  }

  lemma CutDistinct<T>(s: seq<T>, p: nat)
    requires p < |s| && Distinct(s)
    ensures Distinct(Cut(s, p)) && s[p] !in Cut(s, p)
  {
  }

  lemma Regroup<T>(a: seq<T>, b: seq<T>, c: seq<T>)
    ensures (a + b) + c == a + (b + c)
  {
  }

  lemma TakeNext<T>(s: seq<T>, n: nat)
    requires n < |s|
    ensures s[..n + 1] == s[..n] + [s[n]]
  {
  }

  lemma TakeAll<T>(s: seq<T>)
    ensures s[..|s|] == s
  {
  }

  lemma Halves<T>(s: seq<T>, n: nat)
    requires n <= |s|
    ensures s == s[..n] + s[n..]
  {
  }

  lemma DropAll<T>(s: seq<T>)
    ensures s[|s|..] == []
  {
  }

  lemma DropNext<T>(s: seq<T>, n: nat)
    requires n < |s|
    ensures s[n..][1..] == s[n + 1..] && s[n..][0] == s[n]
  {
  }
}
