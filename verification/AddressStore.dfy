/**
 The address part of `crypto_ip` (src/crypto_ip.c): two address caches, for IPv4 and for IPv6, in
 front of `encrypt_ip` and `encrypt_ipv6`, which share the caches of the anonymisation.
 */
module AddressStore {
  import opened UtHash
  import opened AddressCache
  import opened CryptoPan
  import opened CryptoPan6
  import opened PrefixCache

  const MAX_CRYPTIO_CACHE_SIZE: nat := 130000

  /** An address stored or retrieved. */
  datatype Query = Addr4(a4: bv32) | Addr6(a6: In6)

  /** The IPv4 addresses of a history. */
  ghost function Of4(history: seq<Query>): seq<bv32> {
    if history == [] then []
    else
      var h, q := Of4(history[..|history| - 1]), history[|history| - 1];
      if q.Addr4? then h + [q.a4] else h
  }

  /** The IPv6 addresses of a history. */
  ghost function Of6(history: seq<Query>): seq<In6> {
    if history == [] then []
    else
      var h, q := Of6(history[..|history| - 1]), history[|history| - 1];
      if q.Addr6? then h + [q.a6] else h
  }

  lemma OfNext(history: seq<Query>, q: Query)
    ensures Of4(history + [q]) == Of4(history) + if q.Addr4? then [q.a4] else []
    ensures Of6(history + [q]) == Of6(history) + if q.Addr6? then [q.a6] else []
  {
    assert (history + [q])[..|history|] == history;
  }

  function Images(k: ValidKey): bv32 -> bv32 {
    addr => Image(k, addr)
  }

  function Images6(k: ValidKey): In6 -> In6 {
    addr => Encrypt6(k, addr)
  }

  // Trigger of `Encrypts6`, so that it unfolds only where a proof asks.
  ghost predicate See(a: In6) { true }

  /** f is `encrypt_ipv6` under the key. */
  ghost predicate Encrypts6(f: In6 -> In6, k: ValidKey) {
    forall a: In6 {:trigger See(a)} :: See(a) ==> f(a) == Encrypt6(k, a)
  }

  lemma ImagesEncrypt6(k: ValidKey)
    ensures Encrypts6(Images6(k), k)
  {
  }

  /** Every address was answered with its image, that of an IPv6 address under f. */
  ghost predicate Answers(k: ValidKey, f: In6 -> In6, addrs: seq<Query>, out: seq<Query>) {
    |out| == |addrs| && forall i {:trigger out[i]} :: 0 <= i < |addrs| ==> Answered(k, f, addrs[i], out[i])
  }

  ghost predicate Answered(k: ValidKey, f: In6 -> In6, q: Query, r: Query) {
    match q
    case Addr4(a) => r == Addr4(Image(k, a))
    case Addr6(a) => r == Addr6(f(a))
  }

  lemma AnswersFirst(k: ValidKey, f: In6 -> In6, addrs: seq<Query>, out: seq<Query>)
    requires addrs != [] && out != [] && Answered(k, f, addrs[0], out[0]) && Answers(k, f, addrs[1..], out[1..])
    ensures Answers(k, f, addrs, out)
  {
    forall i {:trigger out[i]} | 0 <= i < |addrs| ensures Answered(k, f, addrs[i], out[i]) {
      assert i > 0 ==> out[i] == out[1..][i - 1] && addrs[i] == addrs[1..][i - 1];
    }
  }

  /** What has grown by new objects only is still apart from what was there. */
  lemma StillApart(was: set<object>, now: set<object>, other: set<object>)
    requires was !! other && (now - was) !! other
    ensures now !! other
  {
  }

  const ANY4: bv32 := 0
  const ANY6 := In6(0, 0, 0, 0)

  class CryptoIp {
    const anon: Anonymizer
    const cache: Cache<bv32, bv32>
    const cache6: Cache<In6, In6>
    ghost const image6: In6 -> In6
    var cryptoTotalHit: int
    var cryptoTotalInsert: int
    var cryptoTotalMiss: int
    var cryptoTotalHitIpv6: int
    var cryptoTotalInsertIpv6: int
    var cryptoTotalMissIpv6: int

    /** The caches share nothing. */
    ghost predicate Apart()
      reads cache, cache6
    {
      && anon.encCache !in cache.repr && anon.fullcache !in cache.repr && this !in cache.repr
      && anon.encCache !in cache6.repr && anon.fullcache !in cache6.repr && this !in cache6.repr
      && cache !in cache6.repr && cache6 !in cache.repr && cache.repr !! cache6.repr
    }

    ghost predicate Inner(h4: seq<bv32>, h6: seq<In6>)
      reads anon.encCache, anon.fullcache, cache, cache.repr, cache6, cache6.repr
    {
      anon.Warm() && Encrypts6(image6, anon.key) && cache.Holds(Images(anon.key), h4) && cache6.Holds(image6, h6)
    }

    /** The caches serve two histories, one for each kind of address. */
    ghost predicate Serves(h4: seq<bv32>, h6: seq<In6>)
      reads anon.encCache, anon.fullcache, cache, cache.repr, cache6, cache6.repr
    {
      Apart() && forall h {:trigger Look(h)} :: Look(h) && h == h4 ==> Inner(h4, h6)
    }

    /** The caches hold nothing but true images, and each address cache holds exactly the most recently
        used addresses of its kind, least recently used first. */
    ghost predicate Valid(history: seq<Query>)
      reads anon.encCache, anon.fullcache, cache, cache.repr, cache6, cache6.repr
    {
      Apart() && forall h: seq<Query> {:trigger Look(h)} :: Look(h) && h == history ==> Serves(Of4(h), Of6(h))
    }

    lemma Close(history: seq<Query>, q: Query, h4: seq<bv32>, h6: seq<In6>)
      requires h4 == Of4(history) + if q.Addr4? then [q.a4] else []
      requires h6 == Of6(history) + if q.Addr6? then [q.a6] else []
      requires Serves(h4, h6)
      ensures Valid(history + [q])
    {
      OfNext(history, q);
    }

    lemma Open(history: seq<Query>)
      requires Valid(history)
      ensures Serves(Of4(history), Of6(history))
    {
      assert Look(history);
    }

    /** `initialize_crypto`: the warm-up calls, and one address of each kind entered. */
    constructor (k: ValidKey, hashFn: bv32 -> nat, hashFn6: In6 -> nat)
      ensures Valid([Addr4(0)] + [Addr6(In6(0, 0, 0, 0))]) && anon.key == k && Encrypts6(image6, k)
      ensures cache.max == cache6.max == 130000
      ensures cryptoTotalHit == 0 && cryptoTotalInsert == 1 && cryptoTotalMiss == 0
      ensures cryptoTotalHitIpv6 == 0 && cryptoTotalInsertIpv6 == 1 && cryptoTotalMissIpv6 == 0
      ensures fresh(anon.encCache) && fresh(anon.fullcache)
      ensures fresh(cache) && fresh(cache.repr) && fresh(cache6) && fresh(cache6.repr)
    {
      anon := new Anonymizer(k);
      cache := new Cache<bv32, bv32>(hashFn, 17, MAX_CRYPTIO_CACHE_SIZE, Images(k));
      image6 := Images6(k);
      cache6 := new Cache<In6, In6>(hashFn6, 17, MAX_CRYPTIO_CACHE_SIZE, Images6(k));
      cryptoTotalHit, cryptoTotalInsert, cryptoTotalMiss := 0, 1, 0;
      cryptoTotalHitIpv6, cryptoTotalInsertIpv6, cryptoTotalMissIpv6 := 0, 1, 0;
      new;
      ImagesEncrypt6(k);
      WarmUp();
      FirstEntries();
    }

    method WarmUp()
      requires Apart() && anon.Shape() && anon.Abs() == Raw() && Encrypts6(image6, anon.key)
      requires cache.Holds(Images(anon.key), []) && cache6.Holds(image6, [])
      modifies anon.encCache, anon.fullcache
      ensures Serves([], [])
    {
      anon.WarmUpCalls();
      assert Inner([], []);
    }

    method FirstEntries()
      requires Serves([], [])
      modifies anon.encCache, anon.fullcache, cache, cache.repr, cache6, cache6.repr
      ensures Valid([Addr4(ANY4)] + [Addr6(ANY6)])
      ensures fresh(cache.repr - old(cache.repr)) && fresh(cache6.repr - old(cache6.repr))
    {
      NothingCached<bv32>(cache.max, ANY4);
      NothingCached<In6>(cache6.max, ANY6);
      FirstHistory();
      var ip2 := Insert(ANY4, [], []);
      var ip62 := Insert6(ANY6, [] + [ANY4], []);
      assert Serves(Of4([Addr4(ANY4)] + [Addr6(ANY6)]), Of6([Addr4(ANY4)] + [Addr6(ANY6)]));
    }

    /** The miss branch of `store_crypto_ip` and `retrieve_crypto_ip`. */
    method Insert(addr: bv32, ghost h4: seq<bv32>, ghost h6: seq<In6>) returns (ipEntry: bv32)
      requires Serves(h4, h6) && !Cached(h4, cache.max, addr)
      modifies anon.encCache, anon.fullcache, cache, cache.repr
      ensures Serves(h4 + [addr], h6) && fresh(cache.repr - old(cache.repr))
      ensures ipEntry == Image(anon.key, addr)
    {
      assert Look(h4);
      var e := anon.EncryptIp(Htonl(addr));
      ipEntry := Htonl(e);
      assert Inner(h4, h6);
      Enter(addr, ipEntry, h4, h6);
    }

    method Enter(addr: bv32, value: bv32, ghost h4: seq<bv32>, ghost h6: seq<In6>)
      requires Serves(h4, h6) && !Cached(h4, cache.max, addr) && value == Image(anon.key, addr)
      modifies cache, cache.repr
      ensures Serves(h4 + [addr], h6) && fresh(cache.repr - old(cache.repr))
    {
      assert Look(h4);
      ghost var was, other := cache.repr, cache6.repr;
      cache.AddAddress(addr, value, Images(anon.key), h4);
      StillApart(was, cache.repr, other);
      assert Inner(h4 + [addr], h6);
    }

    method Lookup(addr: bv32, ghost h4: seq<bv32>, ghost h6: seq<In6>) returns (entry: Item?<bv32, bv32>)
      requires Serves(h4, h6)
      modifies cache, cache.repr
      ensures fresh(cache.repr - old(cache.repr))
      ensures entry == null <==> !Cached(h4, cache.max, addr)
      ensures if entry == null then Serves(h4, h6) else Serves(h4 + [addr], h6) && entry.value == Image(anon.key, addr)
    {
      assert Look(h4);
      ghost var was, other := cache.repr, cache6.repr;
      entry := cache.FindAddress(addr, Images(anon.key), h4);
      StillApart(was, cache.repr, other);
      if entry == null {
        assert Inner(h4, h6);
      } else {
        assert Inner(h4 + [addr], h6);
      }
    }

    /** What `store_crypto_ip` and `retrieve_crypto_ip` share: the entry, found or inserted. */
    method Entry4(addr: bv32, ghost history: seq<Query>) returns (r: bv32, inserted: bool)
      requires Valid(history)
      modifies anon.encCache, anon.fullcache, cache, cache.repr
      ensures Valid(history + [Addr4(addr)]) && fresh(cache.repr - old(cache.repr))
      ensures r == Image(anon.key, addr) && inserted == !Cached(Of4(history), cache.max, addr)
    {
      Open(history);
      ghost var h4, h6 := Of4(history), Of6(history);
      var entry := Lookup(addr, h4, h6);
      inserted := entry == null;
      if inserted {
        r := Insert(addr, h4, h6);
      } else {
        r := entry.value;
      }
      Close(history, Addr4(addr), h4 + [addr], h6);
    }

    /** `retrieve_crypto_ip` answers as if there were no cache. */
    method RetrieveCryptoIp(addr: bv32, ghost history: seq<Query>) returns (r: bv32)
      requires Valid(history)
      modifies this, anon.encCache, anon.fullcache, cache, cache.repr
      ensures Valid(history + [Addr4(addr)]) && fresh(cache.repr - old(cache.repr))
      ensures r == Image(anon.key, addr)
      ensures unchanged(`cryptoTotalHit, `cryptoTotalHitIpv6, `cryptoTotalInsertIpv6, `cryptoTotalMissIpv6)
      ensures cryptoTotalMiss - old(cryptoTotalMiss) == cryptoTotalInsert - old(cryptoTotalInsert)
        == if Cached(Of4(history), cache.max, addr) then 0 else 1
    {
      var inserted;
      r, inserted := Entry4(addr, history);
      if inserted {
        cryptoTotalInsert := cryptoTotalInsert + 1;
        cryptoTotalMiss := cryptoTotalMiss + 1;
      }
    }

    /** `store_crypto_ip`. */
    method StoreCryptoIp(addr: bv32, ghost history: seq<Query>)
      requires Valid(history)
      modifies this, anon.encCache, anon.fullcache, cache, cache.repr
      ensures Valid(history + [Addr4(addr)]) && fresh(cache.repr - old(cache.repr))
      ensures unchanged(`cryptoTotalMiss, `cryptoTotalHitIpv6, `cryptoTotalInsertIpv6, `cryptoTotalMissIpv6)
      ensures cryptoTotalHit - old(cryptoTotalHit) == if Cached(Of4(history), cache.max, addr) then 1 else 0
      ensures cryptoTotalInsert - old(cryptoTotalInsert) == if Cached(Of4(history), cache.max, addr) then 0 else 1
    {
      var r, inserted := Entry4(addr, history);
      if inserted {
        cryptoTotalInsert := cryptoTotalInsert + 1;
      } else {
        cryptoTotalHit := cryptoTotalHit + 1;
      }
    }

    /** The miss branch of `store_crypto_ipv6` and `retrieve_crypto_ipv6`. */
    method Insert6(addr: In6, ghost h4: seq<bv32>, ghost h6: seq<In6>) returns (ipEntry: In6)
      requires Serves(h4, h6) && !Cached(h6, cache6.max, addr)
      modifies anon.encCache, anon.fullcache, cache6, cache6.repr
      ensures Serves(h4, h6 + [addr]) && fresh(cache6.repr - old(cache6.repr))
      ensures ipEntry == image6(addr)
    {
      assert Look(h4);
      ipEntry := EncryptAs6(addr);
      assert Inner(h4, h6);
      Enter6(addr, ipEntry, h4, h6);
    }

    method EncryptAs6(addr: In6) returns (r: In6)
      requires anon.Warm() && Encrypts6(image6, anon.key)
      modifies anon.encCache, anon.fullcache
      ensures anon.Warm() && r == image6(addr)
    {
      assert See(addr);
      r := EncryptIpv6(anon, addr);
    }

    method Enter6(addr: In6, value: In6, ghost h4: seq<bv32>, ghost h6: seq<In6>)
      requires Serves(h4, h6) && !Cached(h6, cache6.max, addr) && value == image6(addr)
      modifies cache6, cache6.repr
      ensures Serves(h4, h6 + [addr]) && fresh(cache6.repr - old(cache6.repr))
    {
      assert Look(h4);
      ghost var was, other := cache6.repr, cache.repr;
      cache6.AddAddress(addr, value, image6, h6);
      StillApart(was, cache6.repr, other);
      assert Inner(h4, h6 + [addr]);
    }

    method Lookup6(addr: In6, ghost h4: seq<bv32>, ghost h6: seq<In6>) returns (entry: Item?<In6, In6>)
      requires Serves(h4, h6)
      modifies cache6, cache6.repr
      ensures fresh(cache6.repr - old(cache6.repr))
      ensures entry == null <==> !Cached(h6, cache6.max, addr)
      ensures if entry == null then Serves(h4, h6) else Serves(h4, h6 + [addr]) && entry.value == image6(addr)
    {
      assert Look(h4);
      ghost var was, other := cache6.repr, cache.repr;
      entry := cache6.FindAddress(addr, image6, h6);
      StillApart(was, cache6.repr, other);
      if entry == null {
        assert Inner(h4, h6);
      } else {
        assert Inner(h4, h6 + [addr]);
      }
    }

    /** What `store_crypto_ipv6` and `retrieve_crypto_ipv6` share: the entry, found or inserted. */
    method Entry6(addr: In6, ghost history: seq<Query>) returns (r: In6, inserted: bool)
      requires Valid(history)
      modifies anon.encCache, anon.fullcache, cache6, cache6.repr
      ensures Valid(history + [Addr6(addr)]) && fresh(cache6.repr - old(cache6.repr))
      ensures r == image6(addr) && inserted == !Cached(Of6(history), cache6.max, addr)
    {
      Open(history);
      ghost var h4, h6 := Of4(history), Of6(history);
      var entry := Lookup6(addr, h4, h6);
      inserted := entry == null;
      if inserted {
        r := Insert6(addr, h4, h6);
      } else {
        r := entry.value;
      }
      Close(history, Addr6(addr), h4, h6 + [addr]);
    }

    /** `retrieve_crypto_ipv6` answers as if there were no cache. */
    method RetrieveCryptoIpv6(addr: In6, ghost history: seq<Query>) returns (r: In6)
      requires Valid(history)
      modifies this, anon.encCache, anon.fullcache, cache6, cache6.repr
      ensures Valid(history + [Addr6(addr)]) && fresh(cache6.repr - old(cache6.repr))
      ensures r == image6(addr)
      ensures unchanged(`cryptoTotalHitIpv6, `cryptoTotalHit, `cryptoTotalInsert, `cryptoTotalMiss)
      ensures cryptoTotalMissIpv6 - old(cryptoTotalMissIpv6) == cryptoTotalInsertIpv6 - old(cryptoTotalInsertIpv6)
        == if Cached(Of6(history), cache6.max, addr) then 0 else 1
    {
      var inserted;
      r, inserted := Entry6(addr, history);
      if inserted {
        cryptoTotalInsertIpv6 := cryptoTotalInsertIpv6 + 1;
        cryptoTotalMissIpv6 := cryptoTotalMissIpv6 + 1;
      }
    }

    /** `store_crypto_ipv6`. */
    method StoreCryptoIpv6(addr: In6, ghost history: seq<Query>)
      requires Valid(history)
      modifies this, anon.encCache, anon.fullcache, cache6, cache6.repr
      ensures Valid(history + [Addr6(addr)]) && fresh(cache6.repr - old(cache6.repr))
      ensures unchanged(`cryptoTotalMissIpv6, `cryptoTotalHit, `cryptoTotalInsert, `cryptoTotalMiss)
      ensures cryptoTotalHitIpv6 - old(cryptoTotalHitIpv6) == if Cached(Of6(history), cache6.max, addr) then 1 else 0
      ensures cryptoTotalInsertIpv6 - old(cryptoTotalInsertIpv6) ==
        if Cached(Of6(history), cache6.max, addr) then 0 else 1
    {
      var r, inserted := Entry6(addr, history);
      if inserted {
        cryptoTotalInsertIpv6 := cryptoTotalInsertIpv6 + 1;
      } else {
        cryptoTotalHitIpv6 := cryptoTotalHitIpv6 + 1;
      }
    }

    /** One call of a retrieve function after the other. */
    method RetrieveEach(addrs: seq<Query>, ghost history: seq<Query>) returns (out: seq<Query>)
      requires Valid(history)
      modifies this, anon.encCache, anon.fullcache, cache, cache.repr, cache6, cache6.repr
      ensures Valid(history + addrs)
      ensures fresh(cache.repr - old(cache.repr)) && fresh(cache6.repr - old(cache6.repr))
      ensures Answers(anon.key, image6, addrs, out)
      decreases |addrs|
    {
      if addrs == [] {
        out := [];
        assert history + addrs == history;
      } else {
        var r := RetrieveOne(addrs[0], history);
        var rest := RetrieveEach(addrs[1..], history + [addrs[0]]);
        assert history + [addrs[0]] + addrs[1..] == history + addrs;
        out := [r] + rest;
        AnswersFirst(anon.key, image6, addrs, out);
      }
    }

    method RetrieveOne(q: Query, ghost history: seq<Query>) returns (r: Query)
      requires Valid(history)
      modifies this, anon.encCache, anon.fullcache, cache, cache.repr, cache6, cache6.repr
      ensures Valid(history + [q]) && Answered(anon.key, image6, q, r)
      ensures fresh(cache.repr - old(cache.repr)) && fresh(cache6.repr - old(cache6.repr))
    {
      match q
      case Addr4(a) =>
        var x := RetrieveCryptoIp(a, history);
        r := Addr4(x);
      case Addr6(a) =>
        var x := RetrieveCryptoIpv6(a, history);
        r := Addr6(x);
    }
  }

  lemma FirstHistory()
    ensures var h := [Addr4(ANY4)] + [Addr6(ANY6)]; Of4(h) == [] + [ANY4] && Of6(h) == [] + [ANY6]
  {
    OfNext([], Addr4(ANY4));
    OfNext([Addr4(ANY4)], Addr6(ANY6));
    assert [] + [Addr4(ANY4)] == [Addr4(ANY4)];
  }

  /** The true image of either kind of address. */
  function ImageOf(k: ValidKey, q: Query): Query {
    match q
    case Addr4(a) => Addr4(Image(k, a))
    case Addr6(a) => Addr6(Encrypt6(k, a))
  }

  /** A whole session: whatever the addresses, of both kinds, and their order, every answer is the true
      image. */
  method Session(k: ValidKey, hashFn: bv32 -> nat, hashFn6: In6 -> nat, addrs: seq<Query>) returns (out: seq<Query>)
    ensures |out| == |addrs| && forall i :: 0 <= i < |addrs| ==> out[i] == ImageOf(k, addrs[i])
  {
    var cryptoIp := new CryptoIp(k, hashFn, hashFn6);
    out := cryptoIp.RetrieveEach(addrs, [Addr4(ANY4)] + [Addr6(ANY6)]);
    TrueAnswers(k, cryptoIp.image6, addrs, out);
  }

  lemma TrueAnswers(k: ValidKey, f: In6 -> In6, addrs: seq<Query>, out: seq<Query>)
    requires Answers(k, f, addrs, out) && Encrypts6(f, k)
    ensures |out| == |addrs| && forall i :: 0 <= i < |addrs| ==> out[i] == ImageOf(k, addrs[i])
  {
    forall i | 0 <= i < |addrs| ensures out[i] == ImageOf(k, addrs[i]) {
      assert Answered(k, f, addrs[i], out[i]);
      if addrs[i].Addr6? {
        assert See(addrs[i].a6);
      }
    }
  }
}
