/**
 The cache of anonymised addresses (src/crypto_ip.c): a uthash table used as a least recently
 used cache.
 */
module AddressCache {
  import opened Sequences
  import opened UtHash
  import R = Recency

  /** The keys of items, in order. */
  ghost function Keys<K, V>(s: seq<Item<K, V>>): (keys: seq<K>)
    ensures |keys| == |s|
    ensures forall i :: 0 <= i < |s| ==> keys[i] == s[i].key
  {
    seq(|s|, i requires 0 <= i < |s| => s[i].key)
  }

  lemma KeysWithout<K, V>(s: seq<Item<K, V>>, p: nat)
    requires p < |s| && Distinct(Keys(s))
    ensures Keys(Cut(s, p)) == R.Without(Keys(s), s[p].key)
    ensures s[p].key !in R.Without(Keys(s), s[p].key) && Distinct(R.Without(Keys(s), s[p].key))
  {
    R.WithoutAt(Keys(s), p);
    R.WithoutElems(Keys(s), s[p].key);
    assert Keys(Cut(s, p)) == Keys(s)[..p] + Keys(s)[p + 1..];
  }

  lemma KeysAppend<K, V>(s: seq<Item<K, V>>, x: Item<K, V>)
    ensures Keys(s + [x]) == Keys(s) + [x.key]
  {
  }

  lemma KeysTail<K, V>(s: seq<Item<K, V>>)
    requires s != []
    ensures Keys(s[1..]) == Keys(s)[1..]
  {
  }

  lemma KeyIn<K, V>(s: seq<Item<K, V>>, x: Item<K, V>)
    requires x in s
    ensures x.key in Keys(s)
  {
    var i :| 0 <= i < |s| && s[i] == x;
    assert Keys(s)[i] == x.key;
  }

  // Triggers of `Holds` and `Tracks`, so that they unfold only where a proof asks.
  ghost predicate Look<K>(history: seq<K>) { true }
  ghost predicate Used<K>(history: seq<K>) { true }

  /** Whether an address is among the max most recently used ones. */
  ghost predicate Cached<K>(history: seq<K>, max: nat, x: K) {
    forall h: seq<K> {:trigger Used(h)} :: Used(h) && h == history ==> x in R.LastN(R.Recent(history), max)
  }

  /** The keys are the max most recently used ones of a history, least recently used first. */
  ghost predicate Tracks<K>(keys: seq<K>, history: seq<K>, max: nat) {
    forall h: seq<K> {:trigger Used(h)} :: Used(h) && h == history ==> keys == R.LastN(R.Recent(history), max)
  }

  lemma Use<K>(keys: seq<K>, history: seq<K>, max: nat, x: K)
    requires Tracks(keys, history, max) && max > 0
    ensures Tracks(R.Touch(keys, x, max), history + [x], max)
    ensures Cached(history, max, x) <==> x in keys
  {
    assert Used(history);
    R.RecentUse(history, x, max);
  }

  lemma NothingCached<K>(max: nat, x: K)
    ensures !Cached([], max, x)
  {
    assert Used<K>([]);
  }

  class Cache<K(==), V> {
    const hash: Hash<K, V>
    const max: nat
    ghost var repr: set<object>

    ghost predicate Valid()
      reads hash, hash.buckets, hash.app, Members(hash.chains)
    {
      hash.Valid() && Distinct(Keys(hash.app)) && |hash.app| <= max
    }

    ghost predicate Inner(image: K -> V, history: seq<K>)
      reads this, repr
    {
      && hash in repr && hash.buckets in repr
      && Elems(hash.app) <= repr && (forall x :: x in Members(hash.chains) ==> x in repr)
      && Valid() && max > 0
      && (forall x :: x in hash.app ==> x.value == image(x.key))
      && Tracks(Keys(hash.app), history, max)
    }

    /** The cache holds the images of exactly the max most recently used keys of a history, least
        recently used first. */
    ghost predicate Holds(image: K -> V, history: seq<K>)
      reads this, repr
    {
      forall h: seq<K> {:trigger Look(h)} :: Look(h) && h == history ==> Inner(image, history)
    }

    lemma Open(image: K -> V, history: seq<K>)
      requires Holds(image, history)
      ensures Inner(image, history)
    {
      assert Look(history);
    }

    /** Closes `Holds` again after a step on the table. */
    ghost method Close(image: K -> V, history: seq<K>, more: set<object>)
      requires Valid() && max > 0 && Tracks(Keys(hash.app), history, max)
      requires forall x :: x in hash.app ==> x.value == image(x.key)
      requires hash in repr + more && hash.buckets in repr + more && Elems(hash.app) <= repr + more
      modifies this`repr
      ensures Holds(image, history) && repr == old(repr) + more
    {
      hash.ChainsWithin();
      repr := repr + more;
      assert Inner(image, history);
    }

    constructor (hashFn: K -> nat, initialLog2: nat, max: nat, ghost image: K -> V)
      requires max > 0
      ensures this.max == max && Holds(image, []) && fresh(repr)
    {
      hash := new Hash<K, V>(hashFn, initialLog2);
      this.max := max;
      repr := {};
      new;
      Close(image, [], {hash, hash.buckets});
    }

    /** `find_address`: the entry, made the most recent one. */
    method FindAddress(src: K, ghost image: K -> V, ghost history: seq<K>) returns (s: Item?<K, V>)
      requires Holds(image, history)
      modifies this, repr
      ensures fresh(repr - old(repr))
      ensures s == null <==> !Cached(history, max, src)
      ensures s == null ==> Holds(image, history)
      ensures s != null ==> s.value == image(src) && Holds(image, history + [src])
    {
      Open(image, history);
      Use(Keys(hash.app), history, max, src);
      s := FindItem(src);
      Close(image, if s == null then history else history + [src], {hash.buckets});
    }

    /** `add_address`: a new entry; the first one leaves if there are too many. */
    method AddAddress(src: K, value: V, ghost image: K -> V, ghost history: seq<K>)
      requires Holds(image, history) && !Cached(history, max, src) && value == image(src)
      modifies this, repr
      ensures fresh(repr - old(repr))
      ensures Holds(image, history + [src])
    {
      Open(image, history);
      Use(Keys(hash.app), history, max, src);
      ghost var s := AddItem(src, value);
      forall x | x in hash.app ensures x.value == image(x.key) {
        assert x in Elems(hash.app);
      }
      Close(image, history + [src], {hash.buckets, s});
    }

    method FindItem(src: K) returns (s: Item?<K, V>)
      requires Valid()
      modifies hash, hash.buckets, hash.app
      ensures Valid() && (hash.buckets == old(hash.buckets) || fresh(hash.buckets))
      ensures s == null <==> src !in Keys(old(hash.app))
      ensures s == null ==> hash.app == old(hash.app)
      ensures s != null ==>
        && s in old(hash.app) && s.key == src
        && Keys(hash.app) == R.Without(Keys(old(hash.app)), src) + [src]
      ensures forall x :: x in hash.app ==> x in old(hash.app)
    {
      s := hash.Find(src);
      if s != null {
        RemoveEntry(s);
        KeysAppend(hash.app, s);
        R.DistinctSnoc(Keys(hash.app), src);
        hash.Add(s);
      }
    }

    method RemoveEntry(s: Item<K, V>)
      requires Valid() && s in hash.app
      modifies hash, hash.buckets, hash.app
      ensures Valid() && hash.buckets == old(hash.buckets) && |hash.app| < max
      ensures s !in hash.app && s.key !in Keys(hash.app) && Keys(hash.app) == R.Without(Keys(old(hash.app)), s.key)
      ensures forall x :: x in hash.app ==> x in old(hash.app)
    {
      hash.Delete(s);
      ghost var p :| 0 <= p < |old(hash.app)| && old(hash.app)[p] == s && hash.app == Cut(old(hash.app), p);
      KeysWithout(old(hash.app), p);
      forall x | x in hash.app ensures x.key in Keys(hash.app) {
        KeyIn(hash.app, x);
      }
    }

    /** The new entry, before the size is looked at. */
    method Enter(src: K, value: V) returns (ghost s: Item<K, V>)
      requires Valid() && src !in Keys(hash.app)
      modifies hash, hash.buckets, hash.app
      ensures hash.Valid() && Distinct(Keys(hash.app)) && (hash.buckets == old(hash.buckets) || fresh(hash.buckets))
      ensures hash.app == old(hash.app) + [s] && Keys(hash.app) == Keys(old(hash.app)) + [src]
      ensures fresh(s) && s.key == src && s.value == value
      ensures Elems(hash.app) == old(Elems(hash.app)) + {s}
    {
      var item := new Item<K, V>(src, value);
      s := item;
      hash.Add(item);
      KeysAppend(old(hash.app), s);
      ElemsAppend(old(hash.app), s);
      R.DistinctSnoc(Keys(old(hash.app)), src);
    }

    method AddItem(src: K, value: V) returns (ghost s: Item<K, V>)
      requires Valid() && src !in Keys(hash.app) && max > 0
      modifies hash, hash.buckets, hash.app
      ensures Valid() && (hash.buckets == old(hash.buckets) || fresh(hash.buckets))
      ensures Keys(hash.app) == R.LastN(Keys(old(hash.app)) + [src], max)
      ensures fresh(s) && s.key == src && s.value == value
      ensures Elems(hash.app) <= old(Elems(hash.app)) + {s}
    {
      ghost var k := Keys(hash.app) + [src];
      R.LastNOne(k, max);
      s := Enter(src, value);
      assert |k| == |hash.app| == hash.numItems;
      if hash.numItems > max {
        DropFirst();
      }
    }

    method DropFirst()
      requires hash.Valid() && Distinct(Keys(hash.app)) && hash.app != []
      modifies hash, hash.buckets, hash.app
      ensures hash.Valid() && Distinct(Keys(hash.app)) && hash.buckets == old(hash.buckets)
      ensures hash.app == old(hash.app)[1..] && Keys(hash.app) == Keys(old(hash.app))[1..]
      ensures Elems(hash.app) <= old(Elems(hash.app))
    {
      var first := hash.head;
      hash.Delete(first);
      ghost var p :| 0 <= p < |old(hash.app)| && old(hash.app)[p] == first && hash.app == Cut(old(hash.app), p);
      assert p == 0;
      KeysTail(old(hash.app));
      KeysWithout(old(hash.app), 0);
    }
  }
}
