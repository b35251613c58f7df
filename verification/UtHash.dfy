/**
 The hash table of src/uthash.h: an insertion-order list of items and an array of bucket
 chains, doubled when a chain grows too long. `Valid` is the invariant that the macro HASH_FSCK
 checks at run time.
 */
module UtHash {
  import opened Sequences
  import opened MachineWords

  const HASH_BKT_CAPACITY_THRESH: nat := 10

  /** An element with its hash handle. */
  class Item<K, V> {
    const key: K
    const value: V
    var prev: Item?<K, V>
    var next: Item?<K, V>
    var hhPrev: Item?<K, V>
    var hhNext: Item?<K, V>
    var hashv: nat

    constructor (k: K, v: V)
      ensures key == k && value == v
    {
      key, value := k, v;
      prev, next, hhPrev, hhNext, hashv := null, null, null, null, 0;
    }
  }

  datatype Bucket<K, V> = Bucket(hhHead: Item?<K, V>, count: nat, expandMult: nat)

  // ----- Lists -----

  lemma ElemsNext<T>(s: seq<T>, j: nat)
    requires j < |s|
    ensures Elems(s[..j + 1]) == Elems(s[..j]) + {s[j]}
  {
    assert s[..j + 1] == s[..j] + [s[j]];
  }

  /** The item at an index, and null outside the list. */
  ghost function At<K, V>(s: seq<Item<K, V>>, i: int): Item?<K, V> {
    if 0 <= i < |s| then s[i] else null
  }

  /** The application-order list runs through `prev` and `next`. */
  ghost predicate AppLinks<K, V>(s: seq<Item<K, V>>)
    reads s`prev, s`next
  {
    forall i {:trigger s[i].prev} {:trigger s[i].next} :: 0 <= i < |s| ==>
      && s[i].prev == At(s, i - 1)
      && s[i].next == At(s, i + 1)
  }

  /** The application-order links lead past the item at p. */
  ghost predicate Bridged<K, V>(s: seq<Item<K, V>>, p: nat)
    reads s`prev, s`next
  {
    forall i {:trigger s[i].prev} {:trigger s[i].next} :: 0 <= i < |s| && i != p ==>
      && s[i].prev == At(s, if i == p + 1 then p - 1 else i - 1)
      && s[i].next == At(s, if i == p - 1 then p + 1 else i + 1)
  }

  lemma CloseUp<K, V>(s: seq<Item<K, V>>, p: nat)
    requires p < |s| && Bridged(s, p)
    ensures AppLinks(Cut(s, p))
  {
    var t := Cut(s, p);
    forall i | 0 <= i < |t| ensures t[i].prev == At(t, i - 1) && t[i].next == At(t, i + 1) {
      var j := if i < p then i else i + 1;
      assert t[i] == s[j];
      assert At(t, i - 1) == At(s, if j == p + 1 then p - 1 else j - 1);
      assert At(t, i + 1) == At(s, if j == p - 1 then p + 1 else j + 1);
    }
  }

  /** A bucket chain runs through `hhPrev` and `hhNext`. */
  ghost predicate ChainLinks<K, V>(s: seq<Item<K, V>>)
    reads s`hhPrev, s`hhNext
  {
    forall i {:trigger s[i].hhPrev} {:trigger s[i].hhNext} :: 0 <= i < |s| ==>
      && s[i].hhPrev == At(s, i - 1)
      && s[i].hhNext == At(s, i + 1)
  }

  /** A bucket describes its chain. */
  ghost predicate BucketOf<K, V>(b: Bucket<K, V>, c: seq<Item<K, V>>)
    reads c`hhPrev, c`hhNext
  {
    b.hhHead == At(c, 0) && b.count == |c| && ChainLinks(c) && Distinct(c)
  }

  ghost function Members<K, V>(chains: seq<seq<Item<K, V>>>): set<Item<K, V>> {
    set b, i | 0 <= b < |chains| && 0 <= i < |chains[b]| :: chains[b][i]
  }

  // Triggers of the next two predicates, so that they unfold only where a proof asks.
  ghost predicate AtB(b: int) { true }
  ghost predicate AtX<K, V>(x: Item<K, V>) { true }

  /** Bucket b describes its chain, and the items of the chain hash to it. */
  ghost predicate BucketAt<K, V>(bs: seq<Bucket<K, V>>, chains: seq<seq<Item<K, V>>>, b: int)
    requires 0 <= b < |chains| == |bs|
    reads chains[b]`hhPrev, chains[b]`hhNext, chains[b]`hashv
  {
    && BucketOf(bs[b], chains[b])
    && forall i :: 0 <= i < |chains[b]| ==> chains[b][i].hashv % |chains| == b
  }

  ghost predicate BucketsOf<K, V>(bs: seq<Bucket<K, V>>, chains: seq<seq<Item<K, V>>>)
    reads Members(chains)`hhPrev, Members(chains)`hhNext, Members(chains)`hashv
  {
    && |bs| == |chains| > 0
    && forall b {:trigger AtB(b)} :: AtB(b) && 0 <= b < |chains| ==> BucketAt(bs, chains, b)
  }

  lemma OpenBucket<K, V>(bs: seq<Bucket<K, V>>, chains: seq<seq<Item<K, V>>>, b: int)
    requires BucketsOf(bs, chains) && 0 <= b < |chains|
    ensures BucketAt(bs, chains, b)
  {
    assert AtB(b);
  }

  /** The chains hold exactly the items of the set. */
  ghost predicate ChainsHold<K, V>(chains: seq<seq<Item<K, V>>>, items: set<Item<K, V>>)
    requires |chains| > 0
    reads items`hashv
  {
    && Members(chains) <= items
    && (forall x {:trigger AtX(x)} :: AtX(x) && x in items ==> x in chains[x.hashv % |chains|])
  }

  lemma OpenHold<K, V>(chains: seq<seq<Item<K, V>>>, items: set<Item<K, V>>, x: Item<K, V>)
    requires |chains| > 0 && ChainsHold(chains, items) && x in items
    ensures x in chains[x.hashv % |chains|]
  {
    assert AtX(x);
  }

  /** The first item with a key, and null if there is none. */
  ghost function FirstWith<K, V>(c: seq<Item<K, V>>, key: K): Item?<K, V> {
    if c == [] then null else if c[0].key == key then c[0] else FirstWith(c[1..], key)
  }

  /** The neighbours of an item are linked past it. */
  method Bypass<K, V>(del: Item<K, V>, ghost s: seq<Item<K, V>>, ghost p: nat)
    requires Distinct(s) && AppLinks(s) && p < |s| && del == s[p]
    modifies s`prev, s`next
    ensures Bridged(s, p)
  {
    if del.prev != null {
      del.prev.next := del.next;
    }
    if del.next != null {
      del.next.prev := del.prev;
    }
  }

  /** ideal_chain_maxlen for twice the buckets. */
  method IdealLength(numItems: nat, numBuckets: nat, log2NumBuckets: nat) returns (ideal: nat)
    requires numBuckets == Pow2(log2NumBuckets)
    ensures IsCeiling(ideal, numItems, 2 * numBuckets) && (numItems > 0 ==> ideal > 0)
  {
    CeilingOfBits(numItems, log2NumBuckets + 1);
    ideal := Shifted(numItems, log2NumBuckets + 1) + (if And(numItems, numBuckets * 2 - 1) != 0 then 1 else 0);
  }

  /** The list without the item at p: its links, and its ends. */
  lemma Closed<K, V>(s: seq<Item<K, V>>, p: nat)
    requires p < |s| && |s| >= 2 && Distinct(s) && Bridged(s, p)
    ensures AppLinks(Cut(s, p)) && Distinct(Cut(s, p)) && Cut(s, p) != []
    ensures Cut(s, p)[0] == s[if p == 0 then 1 else 0]
    ensures Cut(s, p)[|Cut(s, p)| - 1] == s[if p == |s| - 1 then |s| - 2 else |s| - 1]
  {
    CloseUp(s, p);
    CutDistinct(s, p);
    CutAt(s, p, 0);
    CutAt(s, p, |s| - 2);
  }

  class Hash<K(==), V> {
    const hashFn: K -> nat
    const initialLog2: nat
    var head: Item?<K, V>
    var tail: Item?<K, V>
    var buckets: array<Bucket<K, V>>
    var numBuckets: nat
    var log2NumBuckets: nat
    var numItems: nat
    var idealChainMaxlen: nat
    var nonidealItems: nat
    var ineffExpands: nat
    var noexpand: bool
    ghost var app: seq<Item<K, V>>
    ghost var chains: seq<seq<Item<K, V>>>

    ghost function Items(): set<Item<K, V>>
      reads this`app
    {
      Elems(app)
    }

    /** The list part: order, ends, both directions of the links. */
    ghost predicate AppValid()
      reads this`head, this`tail, this`app, app`prev, app`next
    {
      && Distinct(app) && AppLinks(app)
      && head == At(app, 0)
      && (app != [] ==> tail == app[|app| - 1])
    }

    /** The bucket part. */
    ghost predicate ChainsValid()
      reads this`buckets, this`numBuckets, this`log2NumBuckets, this`chains, buckets
      reads Members(chains)`hhPrev, Members(chains)`hhNext, Members(chains)`hashv
    {
      && buckets.Length == numBuckets == |chains| == Pow2(log2NumBuckets)
      && BucketsOf(buckets[..], chains)
    }

    /** What HASH_FSCK checks, and what HASH_FIND relies on. */
    ghost predicate Valid()
      reads this, buckets, app, Members(chains)
    {
      && AppValid()
      && (app == [] ==> chains == [])
      && (app != [] ==>
            && ChainsValid()
            && ChainsHold(chains, Items())
            && numItems == |app|
            && forall x :: x in app ==> x.hashv == hashFn(x.key))
    }

    lemma ChainsWithin()
      requires Valid()
      ensures Members(chains) <= Items()
    {
    }

    /** An empty table: `head` is a null pointer. */
    constructor (hashFn: K -> nat, initialLog2: nat)
      ensures Valid() && app == [] && fresh(buckets)
      ensures this.hashFn == hashFn && this.initialLog2 == initialLog2
    {
      this.hashFn, this.initialLog2 := hashFn, initialLog2;
      head, tail := null, null;
      buckets := new Bucket<K, V>[0];
      numBuckets, log2NumBuckets, numItems := 0, 0, 0;
      idealChainMaxlen, nonidealItems, ineffExpands, noexpand := 0, 0, 0, false;
      app, chains := [], [];
    }

    /** What HASH_FIND finds: the first item with the key in the chain of its hash. */
    ghost function Answer(key: K): Item?<K, V>
      requires Valid()
      reads this, buckets, app, Members(chains)
    {
      if app == [] then null else FirstWith(chains[hashFn(key) % |chains|], key)
    }

    /** HASH_FIND: the item with the key, if there is one. */
    method Find(key: K) returns (out: Item?<K, V>)
      requires Valid()
      ensures out == Answer(key)
      ensures out == null ==> forall x :: x in app ==> x.key != key
      ensures out != null ==> out in app && out.key == key
    {
      out := null;
      if head != null {
        forall x | x in app && x.key == key ensures x in chains[hashFn(key) % numBuckets] {
          OpenHold(chains, Items(), x);
        }
        var bkt := hashFn(key) % numBuckets;
        ghost var c := chains[bkt];
        ghost var i := 0;
        OpenBucket(buckets[..], chains, bkt);
        out := buckets[bkt].hhHead;
        while out != null && out.key != key
          invariant i <= |c|
          invariant out == At(c, i)
          invariant forall j :: 0 <= j < i ==> c[j].key != key
          invariant FirstWith(c, key) == FirstWith(c[i..], key)
          decreases |c| - i
        {
          assert c[i].hhNext == At(c, i + 1) && c[i..][1..] == c[i + 1..];
          out := out.hhNext;
          i := i + 1;
        }
        assert out != null ==> out in Members(chains);
      }
    }

    /** HASH_MAKE_TABLE. */
    method MakeTable()
      modifies this`buckets, this`numBuckets, this`log2NumBuckets, this`numItems, this`idealChainMaxlen,
        this`nonidealItems, this`ineffExpands, this`noexpand, this`chains
      ensures fresh(buckets) && ChainsValid() && ChainsHold(chains, {}) && numItems == 0
    {
      log2NumBuckets := initialLog2;
      numBuckets := Pow2(initialLog2);
      buckets := new Bucket<K, V>[numBuckets](_ => Bucket(null, 0, 0));
      numItems, idealChainMaxlen, nonidealItems, ineffExpands, noexpand := 0, 0, 0, 0, false;
      chains := seq(numBuckets, _ => []);
      EmptyTable(buckets[..], chains);
    }

    /** HASH_EXPAND_BUCKETS: twice the buckets, every item in its new chain. */
    method ExpandBuckets(ghost items: set<Item<K, V>>)
      requires ChainsValid() && ChainsHold(chains, items) && numItems > 0
      modifies this`buckets, this`numBuckets, this`log2NumBuckets, this`idealChainMaxlen, this`nonidealItems,
        this`ineffExpands, this`noexpand, this`chains, items`hhNext, items`hhPrev
      ensures fresh(buckets) && ChainsValid() && ChainsHold(chains, items)
      ensures numBuckets == 2 * old(numBuckets)
      ensures chains == Rehashed(old(chains), |old(chains)|, numBuckets)
      ensures IsCeiling(idealChainMaxlen, numItems, numBuckets) && idealChainMaxlen > 0
    {
      idealChainMaxlen := IdealLength(numItems, numBuckets, log2NumBuckets);
      var newBuckets, nonideal; ghost var nc;
      newBuckets, nonideal, nc := Rehash(items);
      Install(newBuckets, nonideal, nc, items);
    }

    /** The chains of twice as many new buckets. */
    method Rehash(ghost items: set<Item<K, V>>)
      returns (newBuckets: array<Bucket<K, V>>, nonideal: nat, ghost nc: seq<seq<Item<K, V>>>)
      requires ChainsValid() && ChainsHold(chains, items) && idealChainMaxlen > 0
      modifies items`hhNext, items`hhPrev
      ensures fresh(newBuckets) && newBuckets.Length == 2 * numBuckets
      ensures BucketsOf(newBuckets[..], nc) && ChainsHold(nc, items) && nc == Rehashed(chains, |chains|, 2 * numBuckets)
    {
      newBuckets := new Bucket<K, V>[2 * numBuckets](_ => Bucket(null, 0, 0));
      nonideal, nc := RehashAll(buckets, newBuckets, idealChainMaxlen, chains, items);
    }

    /** The end of HASH_EXPAND_BUCKETS: the new table replaces the old one. */
    method Install(newBuckets: array<Bucket<K, V>>, nonideal: nat, ghost nc: seq<seq<Item<K, V>>>,
                   ghost items: set<Item<K, V>>)
      requires buckets.Length == numBuckets == Pow2(log2NumBuckets)
      requires newBuckets.Length == 2 * numBuckets && BucketsOf(newBuckets[..], nc) && ChainsHold(nc, items)
      modifies this`buckets, this`numBuckets, this`log2NumBuckets, this`nonidealItems, this`ineffExpands,
        this`noexpand, this`chains
      ensures buckets == newBuckets && chains == nc && numBuckets == 2 * old(numBuckets)
      ensures ChainsValid() && ChainsHold(chains, items)
    {
      nonidealItems := nonideal;
      buckets, numBuckets, log2NumBuckets, chains := newBuckets, 2 * numBuckets, log2NumBuckets + 1, nc;
      ineffExpands := if nonidealItems > numItems / 2 then ineffExpands + 1 else 0;
      if ineffExpands > 1 {
        noexpand := true;
      }
      assert BucketsOf(newBuckets[..], nc);
    }

    /** HASH_ADD_TO_BKT: push, then double the buckets if the chain has grown too long. */
    method AddToBkt(add: Item<K, V>, ghost items: set<Item<K, V>>)
      requires ChainsValid() && ChainsHold(chains, items) && add !in items && numItems > 0
      modifies this`buckets, this`numBuckets, this`log2NumBuckets, this`idealChainMaxlen, this`nonidealItems,
        this`ineffExpands, this`noexpand, this`chains, buckets, items`hhNext, items`hhPrev, add`hhNext, add`hhPrev
      ensures buckets == old(buckets) || fresh(buckets)
      ensures ChainsValid() && ChainsHold(chains, items + {add})
      ensures var b := add.hashv % |old(chains)|;
        && b < old(buckets.Length)
        && var pushed := old(chains)[b := [add] + old(chains)[b]];
        chains == if |pushed[b]| >= 10 * (old(buckets[b].expandMult) + 1) && !old(noexpand)
          then Rehashed(pushed, |pushed|, 2 * |pushed|) else pushed
    {
      var b := add.hashv % numBuckets;
      HoldPush(chains, items, b, add);
      PushTo(buckets, b, add, chains);
      chains := chains[b := [add] + chains[b]];
      if buckets[b].count >= (buckets[b].expandMult + 1) * HASH_BKT_CAPACITY_THRESH && !noexpand {
        ExpandBuckets(items + {add});
      }
    }

    /** The list part of HASH_ADD_KEYPTR: the item goes to the end of the application order. */
    method LinkLast(add: Item<K, V>)
      requires AppValid() && add !in app
      modifies this`head, this`tail, this`app, app`next, add`prev, add`next
      ensures AppValid() && app == old(app) + [add]
    {
      add.next := null;
      if head == null {
        head, add.prev := add, null;
      } else {
        tail.next := add;
        add.prev := tail;
      }
      tail := add;
      app := app + [add];
    }

    /** The list part of HASH_DELETE: the item at index p leaves the application order. */
    method Unlink(del: Item<K, V>, ghost p: nat)
      requires AppValid() && |app| >= 2 && p < |app| && del == app[p]
      modifies this`head, this`tail, this`app, app`next, app`prev
      ensures AppValid() && app == Cut(old(app), p)
    {
      ghost var s := app;
      assert del.prev == At(s, p - 1) && del.next == At(s, p + 1);
      if del == tail {
        tail := del.prev;
      }
      if del.prev == null {
        head := del.next;
      }
      Bypass(del, s, p);
      Closed(s, p);
      app := Cut(s, p);
    }

    /** The table part of HASH_ADD_KEYPTR. */
    method AddToTable(add: Item<K, V>, ghost items: set<Item<K, V>>)
      requires ChainsValid() && ChainsHold(chains, items) && add !in items
      modifies this`buckets, this`numBuckets, this`log2NumBuckets, this`idealChainMaxlen, this`nonidealItems,
        this`ineffExpands, this`noexpand, this`chains, this`numItems, buckets, items`hhNext, items`hhPrev,
        add`hhNext, add`hhPrev, add`hashv
      ensures buckets == old(buckets) || fresh(buckets)
      ensures ChainsValid() && ChainsHold(chains, items + {add})
      ensures numItems == old(numItems) + 1 && add.hashv == hashFn(add.key)
    {
      numItems := numItems + 1;
      SetHash(add, items);
      AddToBkt(add, items);
    }

    /** The hash value of an item that is not in the chains. */
    method SetHash(add: Item<K, V>, ghost items: set<Item<K, V>>)
      requires ChainsValid() && ChainsHold(chains, items) && add !in items
      modifies add`hashv
      ensures ChainsValid() && ChainsHold(chains, items) && add.hashv == hashFn(add.key)
    {
      assert add !in Members(chains);
      add.hashv := hashFn(add.key);
      assert BucketsOf(buckets[..], chains);
    }

    /** HASH_ADD: the item becomes the most recent one. */
    method Add(add: Item<K, V>)
      requires Valid() && add !in app
      modifies this, buckets, app, add
      ensures Valid() && app == old(app) + [add]
      ensures buckets == old(buckets) || fresh(buckets)
    {
      if head == null {
        MakeTable();
      }
      AddLinked(add);
    }

    /** HASH_ADD_KEYPTR once there is a table. */
    method AddLinked(add: Item<K, V>)
      requires AppValid() && ChainsValid() && ChainsHold(chains, Items()) && numItems == |app| && add !in app
      modifies this`head, this`tail, this`app, this`buckets, this`numBuckets, this`log2NumBuckets,
        this`idealChainMaxlen, this`nonidealItems, this`ineffExpands, this`noexpand, this`chains, this`numItems,
        buckets, app`next, app`hhNext, app`hhPrev, add`prev, add`next, add`hhNext, add`hhPrev, add`hashv
      ensures app == old(app) + [add] && add.hashv == hashFn(add.key)
      ensures AppValid() && ChainsValid() && ChainsHold(chains, Items()) && numItems == |app|
      ensures buckets == old(buckets) || fresh(buckets)
    {
      ghost var others := Items();
      LinkLast(add);
      AddToTable(add, others);
      ElemsAppend(old(app), add);
    }

    /** The table part of HASH_DELETE. */
    method DropFromTable(del: Item<K, V>, ghost items: set<Item<K, V>>)
      requires ChainsValid() && ChainsHold(chains, items) && del in items && numItems > 0
      modifies this`chains, this`numItems, buckets, items`hhPrev, items`hhNext
      ensures ChainsValid() && ChainsHold(chains, items - {del}) && numItems == old(numItems) - 1
    {
      var b := del.hashv % numBuckets;
      MembersIn(chains, items, b);
      chains := RemoveFrom(buckets, b, del, chains, items);
      numItems := numItems - 1;
    }

    /** HASH_DELETE: the item leaves; deleting the last item frees the table. */
    method Delete(del: Item<K, V>)
      requires Valid() && del in app
      modifies this, buckets, app
      ensures Valid() && buckets == old(buckets)
      ensures exists p :: 0 <= p < |old(app)| && old(app)[p] == del && app == Cut(old(app), p)
    {
      ghost var p :| 0 <= p < |app| && app[p] == del;
      if del.prev == null && del.next == null {
        head := null;
        app, chains := [], [];
      } else {
        DeleteOneOfMany(del, p);
      }
    }

    /** HASH_DELETE when other items remain. */
    method DeleteOneOfMany(del: Item<K, V>, ghost p: nat)
      requires Valid() && |app| >= 2 && p < |app| && app[p] == del
      modifies this`head, this`tail, this`app, this`chains, this`numItems, buckets, app`prev, app`next, app`hhPrev,
        app`hhNext
      ensures app == Cut(old(app), p)
      ensures AppValid() && ChainsValid() && ChainsHold(chains, Items()) && numItems == |app|
    {
      ghost var items := Items();
      ElemsRemove(app, p);
      Unlink(del, p);
      DropFromTable(del, items);
    }
  }

  // ----- HASH_FIND across a doubling -----

  /** The last item with a key, and null if there is none. */
  ghost function LastWith<K, V>(c: seq<Item<K, V>>, key: K): Item?<K, V> {
    if c == [] then null else if c[|c| - 1].key == key then c[|c| - 1] else LastWith(c[..|c| - 1], key)
  }

  /** A chain emptied to the front of others: of its items with a key the last comes first. */
  lemma {:induction false} PushedFirst<K, V>(c: seq<Item<K, V>>, j: nat, cs: seq<seq<Item<K, V>>>, key: K, b: nat)
    requires b < |cs| && j <= |c|
    requires forall m :: 0 <= m < j && c[m].key == key ==> c[m].hashv % |cs| == b
    ensures FirstWith(Pushed(c, j, cs)[b], key) ==
      if LastWith(c[..j], key) != null then LastWith(c[..j], key) else FirstWith(cs[b], key)
  {
    if j > 0 {
      PushedFirst(c, j - 1, cs, key, b);
      var was, x := Pushed(c, j - 1, cs), c[j - 1];
      assert c[..j][..j - 1] == c[..j - 1];
      if x.hashv % |cs| == b {
        assert ([x] + was[b])[1..] == was[b];
      }
    }
  }

  lemma {:induction false} NoneLast<K, V>(c: seq<Item<K, V>>, key: K)
    requires forall m :: 0 <= m < |c| ==> c[m].key != key
    ensures LastWith(c, key) == null && FirstWith(c, key) == null
  {
    if c != [] {
      NoneLast(c[..|c| - 1], key);
      NoneFirst(c[1..], key);
    }
  }

  lemma {:induction false} NoneFirst<K, V>(c: seq<Item<K, V>>, key: K)
    requires forall m :: 0 <= m < |c| ==> c[m].key != key
    ensures FirstWith(c, key) == null
  {
    if c != [] {
      NoneFirst(c[1..], key);
    }
  }

  /** After the doubling the first item with a key is the one that was the last. */
  lemma {:induction false} RehashedFirst<K, V>(oc: seq<seq<Item<K, V>>>, i: nat, n: nat, key: K, h: nat)
    requires |oc| > 0 && n > 0 && i <= |oc|
    requires forall k, m :: 0 <= k < |oc| && 0 <= m < |oc[k]| ==> oc[k][m].hashv % |oc| == k
    requires forall k, m :: 0 <= k < |oc| && 0 <= m < |oc[k]| && oc[k][m].key == key ==> oc[k][m].hashv == h
    ensures FirstWith(Rehashed(oc, i, n)[h % n], key) == if h % |oc| < i then LastWith(oc[h % |oc|], key) else null
  {
    if i > 0 {
      RehashedFirst(oc, i - 1, n, key, h);
      var c := oc[i - 1];
      PushedFirst(c, |c|, Rehashed(oc, i - 1, n), key, h % n);
      assert c[..|c|] == c;
      if h % |oc| != i - 1 {
        NoneLast(c, key);
      }
    }
  }

  /** No two different items of a chain have the key. */
  ghost predicate AtMostOne<K, V>(c: seq<Item<K, V>>, key: K) {
    forall i, j :: 0 <= i < |c| && 0 <= j < |c| && c[i].key == c[j].key == key ==> c[i] == c[j]
  }

  lemma {:induction false} FirstAt<K, V>(c: seq<Item<K, V>>, key: K) returns (i: nat)
    ensures i <= |c| && FirstWith(c, key) == At(c, i) && (i < |c| ==> c[i].key == key)
    ensures forall j :: 0 <= j < i ==> c[j].key != key
  {
    if c == [] || c[0].key == key {
      i := 0;
    } else {
      var k := FirstAt(c[1..], key);
      i := k + 1;
    }
  }

  lemma {:induction false} LastAt<K, V>(c: seq<Item<K, V>>, key: K) returns (i: int)
    ensures -1 <= i < |c| && LastWith(c, key) == At(c, i) && (i >= 0 ==> c[i].key == key)
    ensures forall j :: i < j < |c| ==> c[j].key != key
  {
    if c == [] {
      i := -1;
    } else if c[|c| - 1].key == key {
      i := |c| - 1;
    } else {
      i := LastAt(c[..|c| - 1], key);
    }
  }

  /** The first and the last item with a key are the same exactly when there is at most one. */
  lemma FirstIsLast<K, V>(c: seq<Item<K, V>>, key: K)
    requires Distinct(c)
    ensures FirstWith(c, key) == LastWith(c, key) <==> AtMostOne(c, key)
  {
    var i := FirstAt(c, key);
    var j := LastAt(c, key);
  }

  /** HASH_FIND before and after a doubling of the buckets: the answer is the same exactly when no two
      different items have the key. */
  method FindAcrossDoubling<K(==), V>(h: Hash<K, V>, key: K) returns (a: Item?<K, V>, b: Item?<K, V>)
    requires h.Valid() && h.app != []
    modifies h, h.app
    ensures h.Valid() && h.app == old(h.app)
    ensures a == b <==> forall x, y :: x in h.app && y in h.app && x.key == y.key == key ==> x == y
  {
    a := h.Find(key);
    ghost var c := SameKeys(h, key);
    Double(h, key, c);
    b := h.Find(key);
  }

  /** A doubling, for the items of one key. */
  method Double<K(==), V>(h: Hash<K, V>, ghost key: K, ghost c: seq<Item<K, V>>)
    requires h.Valid() && h.app != [] && |h.chains| > 0
    requires FirstWith(Rehashed(h.chains, |h.chains|, 2 * |h.chains|)[h.hashFn(key) % (2 * |h.chains|)], key) ==
      LastWith(c, key)
    modifies h, h.app
    ensures h.Valid() && h.app == old(h.app) && h.Answer(key) == LastWith(c, key)
  {
    h.ExpandBuckets(h.Items());
  }

  /** The chain of a key holds all its items, and after a doubling the last of them is found. */
  lemma SameKeys<K, V>(h: Hash<K, V>, key: K) returns (c: seq<Item<K, V>>)
    requires h.Valid() && h.app != []
    ensures |h.chains| > 0 && c == h.chains[h.hashFn(key) % |h.chains|] && FirstWith(c, key) == h.Answer(key)
    ensures FirstWith(c, key) == LastWith(c, key) <==>
      forall x, y :: x in h.app && y in h.app && x.key == y.key == key ==> x == y
    ensures FirstWith(Rehashed(h.chains, |h.chains|, 2 * |h.chains|)[h.hashFn(key) % (2 * |h.chains|)], key) ==
      LastWith(c, key)
  {
    var n := |h.chains|;
    c := h.chains[h.hashFn(key) % n];
    forall k | 0 <= k < n ensures Distinct(h.chains[k])
      ensures forall m :: 0 <= m < |h.chains[k]| ==> h.chains[k][m].hashv % n == k && h.chains[k][m] in h.app
    {
      OpenBucket(h.buckets[..], h.chains, k);
      MembersIn(h.chains, h.Items(), k);
      forall m | 0 <= m < |h.chains[k]| ensures h.chains[k][m] in h.app {
        assert h.chains[k][m] in h.Items();
      }
    }
    forall x | x in h.app && x.key == key ensures x in c {
      OpenHold(h.chains, h.Items(), x);
    }
    FirstIsLast(c, key);
    RehashedFirst(h.chains, n, 2 * n, key, h.hashFn(key));
  }

  // ----- The counts that HASH_FSCK compares -----

  function TotalLength<T>(chains: seq<seq<T>>): nat {
    if chains == [] then 0 else TotalLength(chains[..|chains| - 1]) + |chains[|chains| - 1]|
  }

  lemma {:induction false} DistinctCount<T>(s: seq<T>)
    requires Distinct(s)
    ensures |Elems(s)| == |s|
  {
    if s != [] {
      var r := s[..|s| - 1];
      DistinctCount(r);
      assert s == r + [s[|s| - 1]];
      assert Elems(s) == Elems(r) + {s[|s| - 1]};
    }
  }

  lemma {:induction false} ChainsCount<K, V>(bs: seq<Bucket<K, V>>, chains: seq<seq<Item<K, V>>>,
                                             items: set<Item<K, V>>, b: nat)
    requires BucketsOf(bs, chains) && ChainsHold(chains, items) && b <= |chains|
    ensures TotalLength(chains[..b]) == |set x | x in items && x.hashv % |chains| < b|
  {
    var below := set x | x in items && x.hashv % |chains| < b;
    if b == 0 {
      assert below == {};
    } else {
      ChainsCount(bs, chains, items, b - 1);
      OpenBucket(bs, chains, b - 1);
      DistinctCount(chains[b - 1]);
      MembersIn(chains, items, b - 1);
      var rest := set x | x in items && x.hashv % |chains| < b - 1;
      forall x | x in items && x.hashv % |chains| == b - 1 ensures x in chains[b - 1] {
        OpenHold(chains, items, x);
      }
      assert below == rest + Elems(chains[b - 1]);
      assert chains[..b][..b - 1] == chains[..b - 1];
    }
  }

  /** The item counts that HASH_FSCK compares agree: over the buckets, over the application
      order, and the stored one. */
  lemma CountsAgree<K, V>(h: Hash<K, V>)
    requires h.Valid() && h.app != []
    ensures TotalLength(h.chains) == |h.app| == h.numItems
  {
    ChainsCount(h.buckets[..], h.chains, h.Items(), |h.chains|);
    DistinctCount(h.app);
    assert h.chains[..|h.chains|] == h.chains;
    assert h.Items() == set x | x in h.Items() && x.hashv % |h.chains| < |h.chains|;
  }

  // ----- Elements of lists -----

  lemma ElemsAppend<T>(s: seq<T>, x: T)
    ensures Elems(s + [x]) == Elems(s) + {x}
  {
  }

  lemma ElemsRemove<T>(s: seq<T>, p: nat)
    requires p < |s| && Distinct(s)
    ensures Elems(Cut(s, p)) == Elems(s) - {s[p]}
  {
    var r := Cut(s, p);
    forall x | x in Elems(s) - {s[p]} ensures x in r {
      var i :| 0 <= i < |s| && s[i] == x;
      assert r[if i < p then i else i - 1] == x;
    }
  }

  /** A chain without one of its items: HASH_DEL_IN_BKT. */
  method PopFrom<K, V>(bucket: Bucket<K, V>, del: Item<K, V>, ghost c: seq<Item<K, V>>, ghost p: nat)
    returns (r: Bucket<K, V>)
    requires BucketOf(bucket, c) && p < |c| && c[p] == del
    modifies c`hhPrev, c`hhNext
    ensures BucketOf(r, c[..p] + c[p + 1..])
  {
    assert ChainLinks(c) && Distinct(c);
    assert del.hhPrev == At(c, p - 1) && del.hhNext == At(c, p + 1);
    r := bucket.(count := bucket.count - 1);
    if r.hhHead == del {
      r := r.(hhHead := del.hhNext);
    }
    if del.hhPrev != null {
      del.hhPrev.hhNext := del.hhNext;
    }
    if del.hhNext != null {
      del.hhNext.hhPrev := del.hhPrev;
    }
    ghost var c' := c[..p] + c[p + 1..];
    forall i | 0 <= i < |c'| ensures c'[i].hhPrev == At(c', i - 1) && c'[i].hhNext == At(c', i + 1) {
      var j := if i < p then i else i + 1;
      assert c'[i] == c[j] != del;
      assert old(c[j].hhPrev) == At(c, j - 1) && old(c[j].hhNext) == At(c, j + 1);
    }
  }

  method RemoveFrom<K, V>(bs: array<Bucket<K, V>>, b: nat, del: Item<K, V>, ghost cs: seq<seq<Item<K, V>>>,
                          ghost items: set<Item<K, V>>)
    returns (ghost cs': seq<seq<Item<K, V>>>)
    requires BucketsOf(bs[..], cs) && ChainsHold(cs, items) && del in items && b == del.hashv % bs.Length
    modifies bs, cs[b]`hhPrev, cs[b]`hhNext
    ensures BucketsOf(bs[..], cs') && |cs'| == |cs| && ChainsHold(cs', items - {del})
  {
    OpenHold(cs, items, del);
    OpenBucket(bs[..], cs, b);
    ghost var c := cs[b];
    ghost var p :| 0 <= p < |c| && c[p] == del;
    forall k | 0 <= k < |cs|
      ensures (forall i :: 0 <= i < |cs[k]| ==> cs[k][i].hashv % |cs| == k)
        && (k != b ==> forall x :: x in cs[k] ==> x !in c)
    {
      OpenBucket(bs[..], cs, k);
    }
    ghost var c' := c[..p] + c[p + 1..];
    cs' := cs[b := c'];
    HoldPop(cs, items, b, p);
    var bucket := PopFrom(bs[b], del, c, p);
    bs[b] := bucket;
    forall k {:trigger AtB(k)} | AtB(k) && 0 <= k < |cs'| ensures BucketAt(bs[..], cs', k) {
      if k != b {
        assert old(BucketAt(bs[..], cs, k));
      }
    }
  }

  lemma HoldPop<K, V>(cs: seq<seq<Item<K, V>>>, items: set<Item<K, V>>, b: nat, p: nat)
    requires |cs| > 0 && ChainsHold(cs, items) && b < |cs| && p < |cs[b]|
    requires Distinct(cs[b]) && forall k, i :: 0 <= k < |cs| && 0 <= i < |cs[k]| ==> cs[k][i].hashv % |cs| == k
    ensures ChainsHold(cs[b := cs[b][..p] + cs[b][p + 1..]], items - {cs[b][p]})
  {
    var c, del := cs[b], cs[b][p];
    var c' := c[..p] + c[p + 1..];
    var cs' := cs[b := c'];
    assert del in Members(cs);
    forall x {:trigger AtX(x)} | AtX(x) && x in items - {del} ensures x in cs'[x.hashv % |cs'|] {
      OpenHold(cs, items, x);
      if x.hashv % |cs| == b {
        var i :| 0 <= i < |c| && c[i] == x;
        assert c'[if i < p then i else i - 1] == x;
      }
    }
    forall k, i | 0 <= k < |cs'| && 0 <= i < |cs'[k]| ensures cs'[k][i] in items - {del} {
      var j := if k == b && i >= p then i + 1 else i;
      assert cs'[k][i] == cs[k][j] && cs[k][j] in Members(cs);
    }
  }

  /** Items at different places of the chains are different. */
  ghost predicate Separate<K, V>(oc: seq<seq<Item<K, V>>>)
    reads Members(oc)`hashv
  {
    && |oc| > 0
    && (forall k :: 0 <= k < |oc| ==> Distinct(oc[k]))
    && (forall k, m :: 0 <= k < |oc| && 0 <= m < |oc[k]| ==> oc[k][m].hashv % |oc| == k)
  }

  lemma BucketsOfParts<K, V>(bs: seq<Bucket<K, V>>, oc: seq<seq<Item<K, V>>>)
    requires BucketsOf(bs, oc)
    ensures Separate(oc) && Remaining(oc, {}, 0)
    ensures forall k :: 0 <= k < |bs| ==> bs[k].hhHead == At(oc[k], 0)
  {
    forall k | 0 <= k < |oc|
      ensures bs[k].hhHead == At(oc[k], 0) && Distinct(oc[k]) && ChainLinks(oc[k])
      ensures forall m :: 0 <= m < |oc[k]| ==> oc[k][m].hashv % |oc| == k
    {
      OpenBucket(bs, oc, k);
    }
  }

  /** Of the old chains, exactly the items of the chains from i on have not been moved; they are
      still linked forward. */
  ghost predicate Remaining<K, V>(oc: seq<seq<Item<K, V>>>, moved: set<Item<K, V>>, i: nat)
    reads Members(oc)`hhNext
  {
    && (forall k, m :: 0 <= k < i && k < |oc| && 0 <= m < |oc[k]| ==> oc[k][m] in moved)
    && (forall k, m :: i <= k < |oc| && 0 <= m < |oc[k]| ==> oc[k][m] !in moved)
    && (forall k, m {:trigger oc[k][m].hhNext} :: i <= k < |oc| && 0 <= m < |oc[k]| ==>
          oc[k][m].hhNext == At(oc[k], m + 1))
  }

  /** Of one old chain, exactly the items from position j on have not been moved. */
  ghost predicate Rest<K, V>(c: seq<Item<K, V>>, moved: set<Item<K, V>>, j: nat)
    reads c`hhNext
  {
    && (forall m :: 0 <= m < j && m < |c| ==> c[m] in moved)
    && (forall m :: j <= m < |c| ==> c[m] !in moved)
    && (forall m {:trigger c[m].hhNext} :: j <= m < |c| ==> c[m].hhNext == At(c, m + 1))
  }

  lemma EmptyTable<K, V>(bs: seq<Bucket<K, V>>, cs: seq<seq<Item<K, V>>>)
    requires |bs| == |cs| > 0
    requires forall k :: 0 <= k < |bs| ==> bs[k] == Bucket(null, 0, 0)
    requires forall k :: 0 <= k < |cs| ==> cs[k] == []
    ensures BucketsOf(bs, cs) && ChainsHold(cs, {})
  {
    forall k {:trigger AtB(k)} | AtB(k) && 0 <= k < |bs| ensures BucketAt(bs, cs, k) {
    }
  }

  lemma AllMoved<K, V>(oc: seq<seq<Item<K, V>>>, items: set<Item<K, V>>, moved: set<Item<K, V>>)
    requires |oc| > 0 && ChainsHold(oc, items) && moved <= items && Remaining(oc, moved, |oc|)
    ensures moved == items
  {
    forall x | x in items ensures x in moved {
      OpenHold(oc, items, x);
      var m :| 0 <= m < |oc[x.hashv % |oc|]| && oc[x.hashv % |oc|][m] == x;
    }
  }

  /** One item goes to the front of the chain of its hash. */
  ghost function Push<K, V>(cs: seq<seq<Item<K, V>>>, x: Item<K, V>): (r: seq<seq<Item<K, V>>>)
    requires |cs| > 0
    reads x`hashv
    ensures |r| == |cs|
  {
    var b := x.hashv % |cs|;
    cs[b := [x] + cs[b]]
  }

  /** The first j items of a chain go there, one after the other. */
  ghost function Pushed<K, V>(c: seq<Item<K, V>>, j: nat, cs: seq<seq<Item<K, V>>>): (r: seq<seq<Item<K, V>>>)
    requires |cs| > 0 && j <= |c|
    reads c`hashv
    ensures |r| == |cs|
  {
    if j == 0 then cs else Push(Pushed(c, j - 1, cs), c[j - 1])
  }

  /** The first i chains, emptied into n empty ones. */
  ghost function Rehashed<K, V>(oc: seq<seq<Item<K, V>>>, i: nat, n: nat): (r: seq<seq<Item<K, V>>>)
    requires i <= |oc| && n > 0
    reads Members(oc)`hashv
    ensures |r| == n
  {
    if i == 0 then seq(n, _ => [])
    else
      MembersIn(oc, Members(oc), i - 1);
      Pushed(oc[i - 1], |oc[i - 1]|, Rehashed(oc, i - 1, n))
  }

  // Trigger of `Progress`, so that it unfolds only where a proof asks.
  ghost predicate AtI(i: int) { true }

  /** The first i old chains have been emptied into the new ones. */
  ghost predicate Progress<K, V>(oc: seq<seq<Item<K, V>>>, ns: seq<Bucket<K, V>>, nc: seq<seq<Item<K, V>>>,
                                 moved: set<Item<K, V>>, items: set<Item<K, V>>, i: nat)
    requires |ns| > 0
    reads Members(oc)`hhNext, Members(oc)`hashv, moved`hashv, Members(nc)`hhPrev, Members(nc)`hhNext, Members(nc)`hashv
  {
    i <= |oc| && forall k {:trigger AtI(k)} :: AtI(k) && k == i ==>
      && Separate(oc) && Members(oc) <= items && moved <= items && Remaining(oc, moved, i)
      && BucketsOf(ns, nc) && ChainsHold(nc, moved) && nc == Rehashed(oc, i, |ns|)
  }

  lemma StartProgress<K, V>(bs: seq<Bucket<K, V>>, oc: seq<seq<Item<K, V>>>, ns: seq<Bucket<K, V>>,
                            nc: seq<seq<Item<K, V>>>, items: set<Item<K, V>>)
    requires BucketsOf(bs, oc) && ChainsHold(oc, items) && |ns| > 0 && nc == seq(|ns|, _ => [])
    requires forall k :: 0 <= k < |ns| ==> ns[k] == Bucket(null, 0, 0)
    ensures Progress(oc, ns, nc, {}, items, 0)
    ensures |bs| == |oc| && forall k :: 0 <= k < |bs| ==> bs[k].hhHead == At(oc[k], 0)
  {
    BucketsOfParts(bs, oc);
    EmptyTable(ns, nc);
  }

  lemma EndProgress<K, V>(oc: seq<seq<Item<K, V>>>, ns: seq<Bucket<K, V>>, nc: seq<seq<Item<K, V>>>,
                          moved: set<Item<K, V>>, items: set<Item<K, V>>)
    requires |ns| > 0 && |oc| > 0 && ChainsHold(oc, items) && Progress(oc, ns, nc, moved, items, |oc|)
    ensures BucketsOf(ns, nc) && ChainsHold(nc, items) && nc == Rehashed(oc, |oc|, |ns|)
  {
    assert AtI(|oc|);
    AllMoved(oc, items, moved);
  }

  /** The outer loop of HASH_EXPAND_BUCKETS. */
  method RehashAll<K, V>(bs: array<Bucket<K, V>>, ns: array<Bucket<K, V>>, ideal: nat,
                         ghost oc: seq<seq<Item<K, V>>>, ghost items: set<Item<K, V>>)
    returns (nonideal: nat, ghost nc: seq<seq<Item<K, V>>>)
    requires BucketsOf(bs[..], oc) && ChainsHold(oc, items) && ideal > 0
    requires bs != ns && ns.Length == 2 * bs.Length
    requires forall k :: 0 <= k < ns.Length ==> ns[k] == Bucket(null, 0, 0)
    modifies ns, items`hhNext, items`hhPrev
    ensures BucketsOf(ns[..], nc) && ChainsHold(nc, items) && |nc| == ns.Length
    ensures nc == Rehashed(oc, |oc|, ns.Length)
  {
    ghost var moved: set<Item<K, V>> := {};
    nonideal, nc := 0, seq(ns.Length, _ => []);
    StartProgress(bs[..], oc, ns[..], nc, items);
    var i := 0;
    while i < bs.Length
      invariant i <= bs.Length && Progress(oc, ns[..], nc, moved, items, i)
    {
      nonideal, nc := RehashChain(bs[i].hhHead, ns, ideal, nonideal, oc, i, nc, moved, items);
      moved := moved + Elems(oc[i]);
      i := i + 1;
    }
    EndProgress(oc, ns[..], nc, moved, items);
  }

  /** One turn of the outer loop. */
  method RehashChain<K, V>(first: Item?<K, V>, ns: array<Bucket<K, V>>, ideal: nat, nonideal0: nat,
                           ghost oc: seq<seq<Item<K, V>>>, ghost i: nat, ghost nc0: seq<seq<Item<K, V>>>,
                           ghost moved: set<Item<K, V>>, ghost items: set<Item<K, V>>)
    returns (nonideal: nat, ghost nc: seq<seq<Item<K, V>>>)
    requires ideal > 0 && i < |oc| && first == At(oc[i], 0) && ns.Length > 0
    requires Progress(oc, ns[..], nc0, moved, items, i)
    modifies ns, items`hhNext, items`hhPrev
    ensures Progress(oc, ns[..], nc, moved + Elems(oc[i]), items, i + 1)
  {
    assert AtI(i);
    MembersIn(oc, items, i);
    OtherChains(oc, i);
    nonideal, nc := RehashList(ns, first, ideal, nonideal0, oc[i], nc0, moved);
    assert Remaining(oc, moved + Elems(oc[i]), i + 1);
    assert nc == Rehashed(oc, i + 1, ns.Length);
  }

  lemma MembersIn<K, V>(oc: seq<seq<Item<K, V>>>, items: set<Item<K, V>>, i: nat)
    requires i < |oc| && Members(oc) <= items
    ensures forall x :: x in oc[i] ==> x in items
  {
    forall m | 0 <= m < |oc[i]| ensures oc[i][m] in items {
      assert oc[i][m] in Members(oc);
    }
  }

  /** The inner loop of HASH_EXPAND_BUCKETS: the items of one old chain move to new chains. */
  method RehashList<K, V>(bs: array<Bucket<K, V>>, first: Item?<K, V>, ideal: nat, nonideal0: nat,
                          ghost c: seq<Item<K, V>>, ghost cs0: seq<seq<Item<K, V>>>,
                          ghost moved0: set<Item<K, V>>)
    returns (nonideal: nat, ghost cs: seq<seq<Item<K, V>>>)
    requires ideal > 0 && first == At(c, 0) && Distinct(c) && Rest(c, moved0, 0)
    requires BucketsOf(bs[..], cs0) && ChainsHold(cs0, moved0)
    modifies bs, c`hhNext, c`hhPrev, moved0`hhPrev
    ensures BucketsOf(bs[..], cs) && |cs| == |cs0| && ChainsHold(cs, moved0 + Elems(c))
    ensures cs == Pushed(c, |c|, cs0)
  {
    nonideal, cs := nonideal0, cs0;
    ghost var moved: set<Item<K, V>> := moved0;
    var thh := first;
    ghost var j := 0;
    while thh != null
      invariant j <= |c| && thh == At(c, j)
      invariant BucketsOf(bs[..], cs) && |cs| == |cs0| && ChainsHold(cs, moved)
      invariant moved == moved0 + Elems(c[..j]) && cs == Pushed(c, j, cs0)
      invariant Rest(c, moved, j)
      decreases |c| - j
    {
      var nxt := thh.hhNext;
      nonideal, cs := RehashNext(bs, thh, ideal, nonideal, c, j, cs, moved);
      ElemsNext(c, j);
      moved := moved + {c[j]};
      j := j + 1;
      thh := nxt;
    }
    assert c[..j] == c;
  }

  lemma OtherChains<K, V>(oc: seq<seq<Item<K, V>>>, i: nat)
    requires Separate(oc) && i < |oc|
    ensures forall k, m :: 0 <= k < |oc| && k != i && 0 <= m < |oc[k]| ==> oc[k][m] !in oc[i]
  {
  }

  /** One turn of the inner loop. */
  method RehashNext<K, V>(bs: array<Bucket<K, V>>, thh: Item<K, V>, ideal: nat, nonideal0: nat,
                          ghost c: seq<Item<K, V>>, ghost j: nat,
                          ghost cs0: seq<seq<Item<K, V>>>, ghost moved: set<Item<K, V>>)
    returns (nonideal: nat, ghost cs: seq<seq<Item<K, V>>>)
    requires j < |c| && thh == c[j] && Distinct(c) && Rest(c, moved, j) && ideal > 0
    requires BucketsOf(bs[..], cs0) && ChainsHold(cs0, moved)
    modifies bs, thh`hhNext, thh`hhPrev, moved`hhPrev
    ensures BucketsOf(bs[..], cs) && cs == Push(cs0, thh) && ChainsHold(cs, moved + {thh})
    ensures Rest(c, moved + {thh}, j + 1)
  {
    nonideal, cs := RehashItem(bs, thh, ideal, nonideal0, cs0, moved);
    assert forall m :: j + 1 <= m < |c| ==> c[m] != thh;
  }

  method RehashItem<K, V>(bs: array<Bucket<K, V>>, thh: Item<K, V>, ideal: nat, nonideal0: nat,
                          ghost cs0: seq<seq<Item<K, V>>>, ghost moved: set<Item<K, V>>)
    returns (nonideal: nat, ghost cs: seq<seq<Item<K, V>>>)
    requires BucketsOf(bs[..], cs0) && ChainsHold(cs0, moved) && thh !in moved && ideal > 0
    modifies bs, thh`hhNext, thh`hhPrev, moved`hhPrev
    ensures BucketsOf(bs[..], cs) && cs == Push(cs0, thh) && ChainsHold(cs, moved + {thh})
  {
    var b := thh.hashv % bs.Length;
    nonideal := nonideal0;
    HoldPush(cs0, moved, b, thh);
    PushTo(bs, b, thh, cs0);
    cs := cs0[b := [thh] + cs0[b]];
    if bs[b].count > ideal {
      nonideal := nonideal + 1;
      SetMultiplier(bs, b, bs[b].count / ideal, cs);
    }
  }

  method SetMultiplier<K, V>(bs: array<Bucket<K, V>>, b: nat, mult: nat, ghost cs: seq<seq<Item<K, V>>>)
    requires BucketsOf(bs[..], cs) && b < bs.Length
    modifies bs
    ensures BucketsOf(bs[..], cs)
  {
    forall k | 0 <= k < |cs| ensures BucketAt(bs[..], cs, k) {
      OpenBucket(bs[..], cs, k);
    }
    bs[b] := bs[b].(expandMult := mult);
    forall k {:trigger AtB(k)} | AtB(k) && 0 <= k < |cs| ensures BucketAt(bs[..], cs, k) {
      assert old(BucketAt(bs[..], cs, k));
    }
  }

  /** An item, new to the chains, goes to the front of its chain. */
  method PushTo<K, V>(bs: array<Bucket<K, V>>, b: nat, add: Item<K, V>, ghost cs: seq<seq<Item<K, V>>>)
    requires BucketsOf(bs[..], cs) && b < bs.Length && add.hashv % |cs| == b
    requires add !in Members(cs)
    modifies bs, add`hhNext, add`hhPrev, cs[b]`hhPrev
    ensures BucketsOf(bs[..], cs[b := [add] + cs[b]])
    ensures bs[b].count == |cs[b]| + 1 && bs[b].expandMult == old(bs[b].expandMult)
  {
    ghost var c := cs[b];
    OpenBucket(bs[..], cs, b);
    forall i | 0 <= i < |c| ensures c[i] != add {
      assert c[i] in Members(cs);
    }
    forall k | 0 <= k < |cs| && k != b ensures add !in cs[k] && forall x :: x in cs[k] ==> x !in c {
      OpenBucket(bs[..], cs, k);
      assert forall i :: 0 <= i < |cs[k]| ==> cs[k][i] in Members(cs);
    }
    var bucket := PushFront(bs[b], add, c);
    bs[b] := bucket;
    ghost var cs' := cs[b := [add] + c];
    forall k {:trigger AtB(k)} | AtB(k) && 0 <= k < |cs'| ensures BucketAt(bs[..], cs', k) {
      if k != b {
        assert old(BucketAt(bs[..], cs, k));
      }
    }
  }

  lemma HoldPush<K, V>(cs: seq<seq<Item<K, V>>>, items: set<Item<K, V>>, b: nat, add: Item<K, V>)
    requires |cs| > 0 && ChainsHold(cs, items) && b == add.hashv % |cs|
    ensures ChainsHold(cs[b := [add] + cs[b]], items + {add})
  {
    var cs' := cs[b := [add] + cs[b]];
    forall x {:trigger AtX(x)} | AtX(x) && x in items + {add} ensures x in cs'[x.hashv % |cs'|] {
      if x in items {
        OpenHold(cs, items, x);
      }
    }
    forall k, i | 0 <= k < |cs'| && 0 <= i < |cs'[k]| ensures cs'[k][i] in items + {add} {
      if k != b || i > 0 {
        assert cs'[k][i] == cs[k][if k == b then i - 1 else i];
        assert cs[k][if k == b then i - 1 else i] in Members(cs);
      }
    }
  }

  /** A chain with one more item in front. */
  method PushFront<K, V>(bucket: Bucket<K, V>, add: Item<K, V>, ghost c: seq<Item<K, V>>) returns (r: Bucket<K, V>)
    requires BucketOf(bucket, c) && add !in c
    modifies add`hhNext, add`hhPrev, c`hhPrev
    ensures BucketOf(r, [add] + c) && r.expandMult == bucket.expandMult
  {
    add.hhNext := bucket.hhHead;
    add.hhPrev := null;
    if bucket.hhHead != null {
      bucket.hhHead.hhPrev := add;
    }
    r := bucket.(hhHead := add, count := bucket.count + 1);
  }
}
