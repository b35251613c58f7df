/**
 The fast form of the anonymisation (src/crypto_ip.c): a two-entry cache of full addresses and
 a table of the first twenty pad bits in which 0 means "not yet computed".
 */
module PrefixCache {
  import opened CryptoPan
  import T = TwoEntryCache

  const CACHEBITS: bv32 := 20
  const CACHESIZE: nat := 0x10_0000

  // ----- The table as a value -----

  function Hi(addr: bv32): bv32 { addr >> 12 }

  function Up(x: bv32): bv32 { x << 12 }

  /** The first twenty bits of an address. */
  function Hi20(addr: bv32): bv20 { Hi(addr) as bv20 }

  function Widen(x: bv20): bv32 { x as bv32 }

  /** The index of a twenty-bit prefix in enc_cache. */
  function Index(x: bv20): nat { x as int }

  /** What `cache_update` stores for the addresses with the first twenty bits `scan`. */
  function ScanPad(k: ValidKey, scan: bv20): bv32 {
    Hi(Pad(k, Up(Widen(scan)), CACHEBITS))
  }

  /** The pad bits of an address, continued from its first m bits to its first n. */
  function Extend(k: ValidKey, addr: bv32, start: bv32, m: bv32, n: bv32): bv32
    requires m <= n <= 32
    decreases n
  {
    if n == m then start
    else OrBit(Extend(k, addr, start, m, n - 1), PadBit(k, Top(addr, n - 1), n - 1), n - 1)
  }

  // Trigger of `IsExtended`, so that it unfolds only where a proof asks.
  ghost predicate Bits(n: bv32) { true }

  ghost predicate IsExtended(k: ValidKey, addr: bv32, start: bv32, m: bv32, n: bv32, r: bv32)
    requires m <= n <= 32
  {
    forall p: bv32 {:trigger Bits(p)} :: Bits(p) && p == n ==> r == Extend(k, addr, start, m, n)
  }

  lemma NothingExtended(k: ValidKey, addr: bv32, start: bv32, m: bv32)
    requires m <= 32
    ensures IsExtended(k, addr, start, m, m, start)
  {
  }

  lemma OneMore(pos: bv32)
    requires pos < 32
    ensures 0 < pos + 1 <= 32 && pos + 1 - 1 == pos
    ensures forall m: bv32 {:trigger m <= pos} :: m <= pos ==> m <= pos + 1 && m != pos + 1
  {
  }

  ghost predicate LeftOf(n: nat) { true }
  ghost predicate IsLeft(pos: bv32, n: bv32, left: nat) {
    forall l: nat {:trigger LeftOf(l)} :: LeftOf(l) && l == left ==> pos <= n && left == (n - pos) as nat
  }
  lemma Left(pos: bv32, n: bv32) returns (left: nat)
    requires pos <= n
    ensures IsLeft(pos, n, left)
  {
    left := (n - pos) as nat;
  }
  lemma LeftNext(m: bv32, pos: bv32, n: bv32, left: nat) returns (l: nat)
    requires m <= pos < n <= 32 && IsLeft(pos, n, left)
    ensures l < left && IsLeft(pos + 1, n, l) && m <= pos + 1 <= n
  {
    assert LeftOf(left);
    Closer(m, pos, n);
    l := (n - (pos + 1)) as nat;
  }
  lemma Closer(m: bv32, pos: bv32, n: bv32)
    requires m <= pos < n <= 32
    ensures n - (pos + 1) < n - pos && m <= pos + 1 <= n
  {
  }

  lemma ExtendedNext(k: ValidKey, addr: bv32, start: bv32, m: bv32, pos: bv32, r: bv32)
    requires m <= pos < 32 && IsExtended(k, addr, start, m, pos, r)
    ensures m <= pos + 1 <= 32
    ensures IsExtended(k, addr, start, m, pos + 1, OrBit(r, PadBit(k, Top(addr, pos), pos), pos))
  {
    OneMore(pos);
    assert Bits(pos);
  }

  /** The answer computed from a table entry. */
  function FromEntry(k: ValidKey, entry: bv32, addr: bv32): bv32 {
    Xor(Extend(k, addr, Up(entry), CACHEBITS, 32), addr)
  }

  function Truth(k: ValidKey): bv20 -> bv32 { (x: bv20) => ScanPad(k, x) }

  /** Distinct prefixes have distinct indices below CACHESIZE. */
  lemma IndexInjective()
    ensures T.Injective(Index, CACHESIZE)
  {
    forall x, y {:trigger Index(x), Index(y)} ensures Index(x) < CACHESIZE && (Index(x) == Index(y) ==> x == y) {
      if Index(x) == Index(y) {
        SameIndex(x, y);
      }
    }
  }

  lemma BackAndForth(x: bv20)
    ensures ((x as int) as bv20) == x
  {
  }

  lemma SameIndex(x: bv20, y: bv20)
    requires x as int == y as int
    ensures x == y
  {
    BackAndForth(x);
    BackAndForth(y);
  }

  /** The table behind the two-entry cache; 0 marks an entry not yet computed. */
  ghost function SchemeOf(k: ValidKey): T.Scheme<bv32, seq<bv32>> {
    IndexInjective();
    T.Scheme(a => Anonymize(k, a),
             (t, a) => if Index(Hi20(a)) < |t| then T.Filled(Index, Truth(k), 0, t, Hi20(a)) else t,
             (t, a) => if Index(Hi20(a)) < |t| then FromEntry(k, t[Index(Hi20(a))], a) else 0,
             t => T.TableTrue(Index, Truth(k), 0, t, CACHESIZE))
  }

  lemma KeepOrBit(r: bv32, bit: bv32, n: bv32)
    requires n < 32 && bit <= 1 && Keep(r, n) == r
    ensures Keep(OrBit(r, bit, n), n + 1) == OrBit(r, bit, n)
  {
  }

  /** The first n pad bits have nothing below them. */
  lemma {:induction false} KeepPad(k: ValidKey, a: bv32, n: bv32)
    requires n <= 32
    ensures Keep(Pad(k, a, n), n) == Pad(k, a, n)
    decreases n
  {
    if n > 0 {
      KeepPad(k, a, n - 1);
      KeepOrBit(Pad(k, a, n - 1), PadBit(k, Top(a, n - 1), n - 1), n - 1);
    }
  }

  lemma HiFits(addr: bv32)
    ensures Widen(Hi20(addr)) == Hi(addr)
  {
  }

  lemma UpHi(addr: bv32)
    ensures SharePrefix(Up(Hi(addr)), addr, 19)
  {
  }

  lemma KeepTwenty(p: bv32)
    requires Keep(p, CACHEBITS) == p
    ensures Up(Hi(p)) == p
  {
  }

  /** A table entry is the first twenty pad bits of each of its addresses. */
  lemma ScanPadIsPad(k: ValidKey, addr: bv32)
    ensures Up(ScanPad(k, Hi20(addr))) == Pad(k, addr, CACHEBITS)
  {
    HiFits(addr);
    UpHi(addr);
    PadOfPrefix(k, Up(Hi(addr)), addr, 19);
    KeepPad(k, addr, CACHEBITS);
    KeepTwenty(Pad(k, addr, CACHEBITS));
  }

  lemma {:induction false} ExtendPad(k: ValidKey, addr: bv32, m: bv32, n: bv32)
    requires m <= n <= 32
    ensures Extend(k, addr, Pad(k, addr, m), m, n) == Pad(k, addr, n)
    decreases n
  {
    if n > m {
      ExtendPad(k, addr, m, n - 1);
    }
  }

  lemma FromTrueEntry(k: ValidKey, addr: bv32)
    ensures FromEntry(k, ScanPad(k, Hi20(addr)), addr) == Anonymize(k, addr)
  {
    ScanPadIsPad(k, addr);
    ExtendPad(k, addr, CACHEBITS, 32);
  }

  lemma SchemeMiss(k: ValidKey, t: seq<bv32>, a: bv32)
    requires |t| == CACHESIZE
    ensures Index(Hi20(a)) < CACHESIZE
    ensures SchemeOf(k).fill(t, a) == T.Filled(Index, Truth(k), 0, t, Hi20(a))
    ensures SchemeOf(k).answer(t, a) == FromEntry(k, t[Index(Hi20(a))], a)
  {
    IndexInjective();
  }

  lemma SchemeLaws(k: ValidKey)
    ensures T.Laws(SchemeOf(k))
  {
    var s := SchemeOf(k);
    IndexInjective();
    forall t, a {:trigger T.At(t, a)} | T.At(t, a) && s.good(t)
      ensures s.good(s.fill(t, a)) && s.answer(s.fill(t, a), a) == s.image(a)
    {
      assert Index(Hi20(a)) < CACHESIZE;
      T.FilledTrue(Index, Truth(k), 0, t, CACHESIZE, Hi20(a));
      FromTrueEntry(k, a);
    }
  }

  /** The cache that `panon_init_cache` leaves: both entries map 0 to 0, the table is empty. */
  ghost function Raw(): T.Cache<bv32, seq<bv32>> {
    T.Cache(0, 0, 0, 0, seq(CACHESIZE, _ => 0))
  }

  lemma RawGood(k: ValidKey)
    ensures SchemeOf(k).good(Raw().table)
  {
    IndexInjective();
    var t := Raw().table;
    forall x ensures Index(x) < CACHESIZE && (t[Index(x)] == 0 || t[Index(x)] == Truth(k)(x)) {
      assert Index(x) < CACHESIZE;
    }
  }

  /** After the two warm-up calls of `initialize_crypto` everything in the cache is true. */
  lemma WarmUp(k: ValidKey)
    ensures var s := SchemeOf(k); T.Coherent(s, T.Step(s, T.Step(s, Raw(), 1).0, 2).0)
  {
    var s := SchemeOf(k);
    SchemeLaws(k);
    RawGood(k);
    T.MissStep(s, Raw(), 1);
    T.MissStep(s, T.Step(s, Raw(), 1).0, 2);
  }

  /** Over any run after the warm-up calls, `cpp_anonymize` answers as `pp_anonymize`. */
  lemma WarmRun(k: ValidKey, addrs: seq<bv32>)
    ensures var s := SchemeOf(k); T.AllRight(s, T.Step(s, T.Step(s, Raw(), 1).0, 2).0, addrs)
  {
    WarmUp(k);
    SchemeLaws(k);
    T.CoherentRun(SchemeOf(k), T.Step(SchemeOf(k), T.Step(SchemeOf(k), Raw(), 1).0, 2).0, addrs);
  }

  /** Without the warm-up calls a run is answered as `pp_anonymize` answers it exactly when 0 is
      its own image, or every query for 0 comes after two different non-zero addresses. */
  lemma ColdRun(k: ValidKey, addrs: seq<bv32>)
    ensures T.AllRight(SchemeOf(k), Raw(), addrs) <==>
      Anonymize(k, 0) == 0 || forall i :: 0 <= i < |addrs| && addrs[i] == 0 ==> T.TwoBefore(0, addrs, i)
  {
    var s := SchemeOf(k);
    SchemeLaws(k);
    RawGood(k);
    T.RawRun(s, 0, Raw().table, addrs);
  }

  // ----- The anonymiser object -----

  // Trigger of `Warm`, so that it unfolds only where a proof asks.
  ghost predicate Ask(n: nat) { true }

  /** The address part of `crypto_ip`: m_pad and the cipher are in `key`. */
  class Anonymizer {
    const key: ValidKey
    const encCache: array<bv32>
    const fullcache: array2<bv32>

    ghost predicate Shape() {
      encCache.Length == CACHESIZE && fullcache.Length0 == 2 && fullcache.Length1 == 2
    }

    /** Both caches, as a value. */
    ghost function Abs(): T.Cache<bv32, seq<bv32>>
      requires Shape()
      reads encCache, fullcache
    {
      T.Cache(fullcache[0, 0], fullcache[0, 1], fullcache[1, 0], fullcache[1, 1], encCache[..])
    }

    /** `panon_init` followed by `panon_init_cache`. */
    constructor (k: ValidKey)
      ensures key == k && Shape() && Abs() == Raw()
      ensures fresh(encCache) && fresh(fullcache)
    {
      key := k;
      encCache := new bv32[CACHESIZE](_ => 0);
      fullcache := new bv32[2, 2]((_, _) => 0);
      new;
      assert encCache[..] == Raw().table;
    }

    /** The first four cipher input bytes; the others stay those of m_pad. */
    method SetFirst4(rinInput: array<bv8>, x: bv32)
      requires rinInput.Length == 16 && rinInput[4..] == key.pad[4..]
      modifies rinInput
      ensures rinInput[4..] == key.pad[4..]
      ensures rinInput[..] == CipherInput(key, x)
    {
      rinInput[0] := (x >> 24) as bv8;
      rinInput[1] := ((x << 8) >> 24) as bv8;
      rinInput[2] := ((x << 16) >> 24) as bv8;
      rinInput[3] := ((x << 24) >> 24) as bv8;
      assert rinInput[..] == rinInput[..4] + rinInput[4..];
    }

    /** The bit loops of `pp_anonymize`, `cpp_anonymize` and `cache_update`: `result` holds the
        pad bits before position m and is extended to those before position n. */
    method PadLoop(addr: bv32, start: bv32, m: bv32, n: bv32) returns (result: bv32)
      requires m <= n <= 32
      ensures result == Extend(key, addr, start, m, n)
    {
      var rinInput := new bv8[16](i requires 0 <= i < 16 => key.pad[i]);
      assert rinInput[4..] == key.pad[4..];
      NothingExtended(key, addr, start, m);
      result := start;
      var pos := m;
      ghost var left := Left(m, n);
      while pos < n
        invariant m <= pos <= n && IsLeft(pos, n, left)
        invariant rinInput[4..] == key.pad[4..]
        invariant IsExtended(key, addr, start, m, pos, result)
        decreases left
      {
        left := LeftNext(m, pos, n, left);
        result := PadOne(rinInput, addr, start, m, pos, result);
        pos := pos + 1;
      }
      assert Bits(n);
    }

    method PadOne(rinInput: array<bv8>, addr: bv32, ghost start: bv32, ghost m: bv32, pos: bv32, was: bv32)
      returns (result: bv32)
      requires rinInput.Length == 16 && rinInput[4..] == key.pad[4..]
      requires m <= pos < 32 && IsExtended(key, addr, start, m, pos, was)
      modifies rinInput
      ensures rinInput[4..] == key.pad[4..]
      ensures m <= pos + 1 <= 32 && IsExtended(key, addr, start, m, pos + 1, result)
    {
      ExtendedNext(key, addr, start, m, pos, was);
      var bit := NextBit(rinInput, Top(addr, pos), pos);
      result := OrBit(was, bit, pos);
    }

    /** The pad bit that follows the first bits of the address. */
    method NextBit(rinInput: array<bv8>, top: bv32, pos: bv32) returns (bit: bv32)
      requires rinInput.Length == 16 && rinInput[4..] == key.pad[4..] && pos < 32
      modifies rinInput
      ensures rinInput[4..] == key.pad[4..] && bit == PadBit(key, top, pos)
    {
      SetFirst4(rinInput, Input(key, top, pos));
      var rinOutput := key.first(rinInput[..]);
      bit := (rinOutput >> 7) as bv32;
    }

    method PpAnonymize(addr: bv32) returns (r: bv32)
      ensures r == Anonymize(key, addr)
    {
      var result := PadLoop(addr, 0, 0, 32);
      ExtendPad(key, addr, 0, 32);
      r := Xor(result, addr);
    }

    method CacheUpdate(scan: bv20)
      requires Shape()
      modifies encCache
      ensures Index(scan) < CACHESIZE
      ensures encCache[..] == old(encCache[..])[Index(scan) := ScanPad(key, scan)]
    {
      IndexInjective();
      assert Index(scan) < CACHESIZE;
      var addr := Up(Widen(scan));
      var result := PadLoop(addr, 0, 0, CACHEBITS);
      ExtendPad(key, addr, 0, CACHEBITS);
      encCache[Index(scan)] := Hi(result);
    }

    method LookupCache(addr: bv32) returns (entry: bv32)
      requires Shape()
      modifies encCache
      ensures Index(Hi20(addr)) < CACHESIZE
      ensures encCache[..] == T.Filled(Index, Truth(key), 0, old(encCache[..]), Hi20(addr))
      ensures entry == encCache[Index(Hi20(addr))]
    {
      IndexInjective();
      var i := Index(Hi20(addr));
      assert i < CACHESIZE;
      if encCache[i] == 0 {
        CacheUpdate(Hi20(addr));
      }
      entry := encCache[i];
    }

    /** `cpp_anonymize` when neither full entry matches: the table lookup and the rest of the bits. */
    method ComputeMiss(addr: bv32) returns (r: bv32)
      requires Shape()
      modifies encCache
      ensures encCache[..] == SchemeOf(key).fill(old(encCache[..]), addr)
      ensures r == SchemeOf(key).answer(encCache[..], addr)
    {
      SchemeMiss(key, encCache[..], addr);
      var entry := LookupCache(addr);
      SchemeMiss(key, encCache[..], addr);
      var result := PadLoop(addr, Up(entry), CACHEBITS, 32);
      r := Xor(result, addr);
    }

    /** `cpp_anonymize` is one step of the two-entry cache over the table. */
    method CppAnonymize(addr: bv32) returns (r: bv32)
      requires Shape()
      modifies encCache, fullcache
      ensures (Abs(), r) == T.Step(SchemeOf(key), old(Abs()), addr)
    {
      if fullcache[0, 0] == addr {
        return fullcache[0, 1];
      } else if fullcache[1, 0] == addr {
        var tmp := fullcache[1, 1];
        fullcache[1, 0] := fullcache[0, 0];
        fullcache[1, 1] := fullcache[0, 1];
        fullcache[0, 0] := addr;
        fullcache[0, 1] := tmp;
        return tmp;
      }
      r := ComputeMiss(addr);
      fullcache[1, 0] := fullcache[0, 0];
      fullcache[1, 1] := fullcache[0, 1];
      fullcache[0, 0] := addr;
      fullcache[0, 1] := r;
    }

    /** Both caches hold nothing but true answers. */
    ghost predicate Warm()
      reads encCache, fullcache
    {
      Shape() && forall n {:trigger Ask(n)} :: Ask(n) ==> T.Coherent(SchemeOf(key), Abs())
    }

    /** `cpp_anonymize` from warm caches: the right answer, and they stay warm. */
    method EncryptIp(addr: bv32) returns (r: bv32)
      requires Warm()
      modifies encCache, fullcache
      ensures Warm()
      ensures r == Anonymize(key, addr)
    {
      assert Ask(0);
      SchemeLaws(key);
      T.CoherentStep(SchemeOf(key), Abs(), addr);
      r := CppAnonymize(addr);
    }

    /** The warm-up calls of `initialize_crypto`, on a cache just initialised. */
    method WarmUpCalls()
      requires Shape() && Abs() == Raw()
      modifies encCache, fullcache
      ensures Warm()
    {
      WarmUp(key);
      var r := CppAnonymize(1);
      r := CppAnonymize(2);
    }
  }
}
