/**
 The IPv6 membership test (`match_ipv6_net`, src/ip_utils.c), and the lists that `ParseNetFile`
 fills and `anon_ip_check` searches.
 */
module SubnetLists {
  import opened CryptoPan
  import opened CryptoPan6
  import opened Subnets

  // ----- Bits of an address in bytes -----

  type Address6 = s: seq<bv8> | |s| == 16 witness seq(16, _ => 0)

  function BitMask(j: nat): bv8 {
    if j == 0 then 0x80 else if j == 1 then 0x40 else if j == 2 then 0x20 else if j == 3 then 0x10
    else if j == 4 then 8 else if j == 5 then 4 else if j == 6 then 2 else 1
  }

  /** Bit j of a byte, the first one highest. */
  function Bit(x: bv8, j: nat): bv8 { x & BitMask(j) }

  /** Two addresses agree on bit i. */
  predicate AgreeAt(a: Address6, b: Address6, i: nat)
    requires i < 128
  {
    Bit(a[i / 8], i % 8) == Bit(b[i / 8], i % 8)
  }

  ghost predicate AgreeBits(a: Address6, b: Address6, n: nat)
    requires n <= 128
  {
    forall i {:trigger AgreeAt(a, b, i)} :: 0 <= i < n ==> AgreeAt(a, b, i)
  }

  const MASKS: seq<bv8> := [0x80, 0xc0, 0xe0, 0xf0, 0xf8, 0xfc, 0xfe, 0xff]

  function Masked(x: bv8, p: nat): bv8
    requires 0 < p <= 8
  {
    x & MASKS[p - 1]
  }

  lemma MaskedBits(x: bv8, y: bv8, p: nat)
    requires 0 < p <= 8
    ensures Masked(x, p) == Masked(y, p) <==> forall j {:trigger Bit(x, j)} :: 0 <= j < p ==> Bit(x, j) == Bit(y, j)
  {
    if Masked(x, p) == Masked(y, p) {
      forall j | 0 <= j < p ensures Bit(x, j) == Bit(y, j) {
        BitOfMasked(x, p, j);
        BitOfMasked(y, p, j);
      }
    } else if p == 1 {
      assert Bit(x, 0) != Bit(y, 0);
    } else if Masked(x, p - 1) != Masked(y, p - 1) {
      MaskedBits(x, y, p - 1);
    } else {
      MaskedNext(x, y, p);
    }
  }

  lemma BitOfMasked(x: bv8, p: nat, j: nat)
    requires 0 <= j < p <= 8
    ensures Bit(Masked(x, p), j) == Bit(x, j)
  {
  }

  lemma MaskedNext(x: bv8, y: bv8, p: nat)
    requires 1 < p <= 8 && Masked(x, p - 1) == Masked(y, p - 1) && Masked(x, p) != Masked(y, p)
    ensures Bit(x, p - 1) != Bit(y, p - 1)
  {
  }

  lemma WholeByte(x: bv8)
    ensures Masked(x, 8) == x
  {
  }

  lemma Place(k: nat, j: nat)
    requires j < 8
    ensures (8 * k + j) / 8 == k && (8 * k + j) % 8 == j
  {
  }

  /** The bits of one byte, up to p of them. */
  lemma ByteAgrees(a: Address6, b: Address6, k: nat, p: nat)
    requires k < 16 && 0 < p <= 8
    ensures Masked(a[k], p) == Masked(b[k], p) <==>
      forall i {:trigger AgreeAt(a, b, i)} :: 8 * k <= i < 8 * k + p ==> AgreeAt(a, b, i)
  {
    MaskedBits(a[k], b[k], p);
    if forall i {:trigger AgreeAt(a, b, i)} :: 8 * k <= i < 8 * k + p ==> AgreeAt(a, b, i) {
      forall j | 0 <= j < p ensures Bit(a[k], j) == Bit(b[k], j) {
        Place(k, j);
        assert AgreeAt(a, b, 8 * k + j);
      }
    }
    if Masked(a[k], p) == Masked(b[k], p) {
      forall i | 8 * k <= i < 8 * k + p ensures AgreeAt(a, b, i) {
        Place(k, i - 8 * k);
        assert Bit(a[k], i - 8 * k) == Bit(b[k], i - 8 * k);
      }
    }
  }

  lemma {:induction false} BytesAgree(a: Address6, b: Address6, full: nat)
    requires full <= 16
    ensures a[..full] == b[..full] <==> AgreeBits(a, b, 8 * full)
  {
    if full > 0 {
      BytesAgree(a, b, full - 1);
      ByteAgrees(a, b, full - 1, 8);
      WholeByte(a[full - 1]);
      WholeByte(b[full - 1]);
      assert a[..full] == a[..full - 1] + [a[full - 1]] && b[..full] == b[..full - 1] + [b[full - 1]];
      if a[..full] == b[..full] {
        assert a[..full - 1] == a[..full][..full - 1] == b[..full - 1];
        assert a[full - 1] == a[..full][full - 1] == b[full - 1];
      }
    }
  }

  /** The whole bytes and the bits left over. */
  lemma PrefixAgrees(a: Address6, b: Address6, mask: nat)
    requires mask <= 128
    ensures var full, partial := mask / 8, mask % 8;
      (a[..full] == b[..full] && (partial == 0 || Masked(a[full], partial) == Masked(b[full], partial))) <==>
        AgreeBits(a, b, mask)
  {
    var full, partial := mask / 8, mask % 8;
    BytesAgree(a, b, full);
    if partial > 0 {
      ByteAgrees(a, b, full, partial);
    }
  }

  /** `memcmp` on the first n bytes, as a test for equality. */
  method SameBytes(a: Address6, b: Address6, n: nat) returns (same: bool)
    requires n <= 16
    ensures same <==> a[..n] == b[..n]
  {
    for i := 0 to n
      invariant a[..i] == b[..i]
    {
      if a[i] != b[i] {
        assert a[..n][i] != b[..n][i];
        return false;
      }
      assert a[..i + 1] == a[..i] + [a[i]] && b[..i + 1] == b[..i] + [b[i]];
    }
    same := true;
  }

  /** `match_ipv6_net`: 1 exactly when some entry agrees with the address on its first mask bits. */
  method MatchIpv6Net(adx: Address6, internalList: array<Address6>, maskList: array<int>, listSize: nat)
    returns (r: int)
    requires listSize <= internalList.Length && listSize <= maskList.Length
    requires forall i :: 0 <= i < listSize ==> 0 <= maskList[i] <= 128
    ensures r == 1 || r == 0
    ensures r == 1 <==> exists i :: 0 <= i < listSize && AgreeBits(adx, internalList[i], maskList[i])
  {
    for i := 0 to listSize
      invariant forall j :: 0 <= j < i ==> !AgreeBits(adx, internalList[j], maskList[j])
    {
      PrefixAgrees(adx, internalList[i], maskList[i]);
      if maskList[i] == 0 {
        return 1;
      }
      var full, partial := maskList[i] / 8, maskList[i] % 8;
      var isMatch := 0;
      var same := SameBytes(adx, internalList[i], full);
      if !same {
        isMatch := 0;
      } else if partial != 0 {
        if Masked(adx[full], partial) == Masked(internalList[i][full], partial) {
          isMatch := 1;
        }
      } else {
        isMatch := 1;
      }
      if isMatch == 1 {
        return 1;
      }
    }
    r := 0;
  }

  // ----- The lists -----

  /** A line of a subnet file, already split: an address with a number of mask bits, or an IPv4
      address with a dotted mask. */
  datatype Line = Bits4(addr: bv32, bits: int) | Dotted4(addr: bv32, mask: bv32) | Bits6(addr6: Address6, bits: int)

  predicate GoodLine(l: Line) {
    match l
    case Bits4(_, bits) => 0 <= bits <= 32
    case Dotted4(_, _) => true
    case Bits6(_, bits) => 0 <= bits <= 128
  }

  function EntryOf(l: Line): Entry4
    requires GoodLine(l) && !l.Bits6?
  {
    match l
    case Bits4(addr, bits) => Entry(addr, bits)
    case Dotted4(addr, mask) => Entry4(And(addr, mask), mask)
  }

  /** The IPv4 entries of good lines, in order. */
  function Entries4(lines: seq<Line>): (es: seq<Entry4>)
    requires forall l :: l in lines ==> GoodLine(l)
    ensures |es| <= |lines|
  {
    if lines == [] then []
    else
      var l := lines[|lines| - 1];
      Entries4(lines[..|lines| - 1]) + if l.Bits6? then [] else [EntryOf(l)]
  }

  /** The IPv6 lines, in order. */
  function Lines6(lines: seq<Line>): (ls: seq<Line>)
    ensures |ls| <= |lines| && forall l :: l in ls ==> l.Bits6? && l in lines
  {
    if lines == [] then []
    else
      var l := lines[|lines| - 1];
      Lines6(lines[..|lines| - 1]) + if l.Bits6? then [l] else []
  }

  /** An IPv4 entry comes from an IPv4 line, and every IPv4 line gives one. */
  lemma {:induction false} Entries4Elems(lines: seq<Line>, e: Entry4)
    requires forall l :: l in lines ==> GoodLine(l)
    ensures e in Entries4(lines) <==> exists l :: l in lines && !l.Bits6? && EntryOf(l) == e
  {
    if lines != [] {
      var g, l := lines[..|lines| - 1], lines[|lines| - 1];
      assert lines == g + [l];
      Entries4Elems(g, e);
    }
  }

  /** The file is accepted: every line is good, and no list is full when a line is read. */
  ghost predicate Accepts(lines: seq<Line>, maxEntries: nat) {
    lines != [] ==>
      var g := lines[..|lines| - 1];
      && Accepts(g, maxEntries) && GoodLine(lines[|lines| - 1])
      && |Lines6(g)| != maxEntries && |g| - |Lines6(g)| != maxEntries
  }

  /** The masks have at most 32 or 128 bits, and before every line both lists have room. */
  ghost predicate LineFits(lines: seq<Line>, maxEntries: nat, i: nat)
    requires i < |lines|
  {
    && (lines[i].Bits4? ==> 0 <= lines[i].bits <= 32) && (lines[i].Bits6? ==> 0 <= lines[i].bits <= 128)
    && |Lines6(lines[..i])| < maxEntries && i - |Lines6(lines[..i])| < maxEntries
  }

  /** Exactly such files are accepted. */
  lemma {:induction false} AcceptsExactly(lines: seq<Line>, maxEntries: nat)
    ensures Accepts(lines, maxEntries) <==> forall i: nat :: i < |lines| ==> LineFits(lines, maxEntries, i)
  {
    if lines != [] {
      var g, n := lines[..|lines| - 1], |lines| - 1;
      AcceptsExactly(g, maxEntries);
      forall i: nat | i < n ensures LineFits(lines, maxEntries, i) <==> LineFits(g, maxEntries, i) {
        assert g[..i] == lines[..i];
      }
      if Accepts(g, maxEntries) {
        RoomLeft(g, maxEntries);
        assert LineFits(lines, maxEntries, n) <==> Accepts(lines, maxEntries);
      }
    }
  }

  lemma {:induction false} AcceptsPrefix(lines: seq<Line>, i: nat, maxEntries: nat)
    requires i <= |lines| && Accepts(lines, maxEntries)
    ensures Accepts(lines[..i], maxEntries)
  {
    if i < |lines| {
      AcceptsPrefix(lines[..|lines| - 1], i, maxEntries);
      assert lines[..|lines| - 1][..i] == lines[..i];
    } else {
      assert lines[..i] == lines;
    }
  }

  lemma PrefixNext(lines: seq<Line>, i: nat)
    requires i < |lines|
    ensures lines[..i + 1] == lines[..i] + [lines[i]] && lines[..i + 1][..i] == lines[..i]
  {
  }

  lemma EntriesNext(lines: seq<Line>, l: Line)
    requires (forall x :: x in lines ==> GoodLine(x)) && GoodLine(l)
    ensures forall x :: x in lines + [l] ==> GoodLine(x)
    ensures Entries4(lines + [l]) == if l.Bits6? then Entries4(lines) else Entries4(lines) + [EntryOf(l)]
    ensures Lines6(lines + [l]) == if l.Bits6? then Lines6(lines) + [l] else Lines6(lines)
  {
    assert (lines + [l])[..|lines|] == lines;
  }

  lemma {:induction false} EntriesCount(lines: seq<Line>)
    requires forall l :: l in lines ==> GoodLine(l)
    ensures |Entries4(lines)| + |Lines6(lines)| == |lines|
  {
    if lines != [] {
      EntriesCount(lines[..|lines| - 1]);
    }
  }

  lemma NotAccepted(lines: seq<Line>, i: nat, maxEntries: nat)
    requires i < |lines| && !Accepts(lines[..i + 1], maxEntries)
    ensures !Accepts(lines, maxEntries)
  {
    if Accepts(lines, maxEntries) {
      AcceptsPrefix(lines, i + 1, maxEntries);
    }
  }

  /** The lists of an accepted file are not overfull. */
  lemma {:induction false} RoomLeft(lines: seq<Line>, maxEntries: nat)
    requires Accepts(lines, maxEntries)
    ensures |Lines6(lines)| <= maxEntries && |lines| - |Lines6(lines)| <= maxEntries
  {
    if lines != [] {
      RoomLeft(lines[..|lines| - 1], maxEntries);
    }
  }

  /** The arrays of a class of subnets, with their counters. */
  class NetLists {
    const netList: array<bv32>
    const netMask: array<bv32>
    const netListV6: array<Address6>
    const netMaskV6: array<int>
    var tot: nat
    var totV6: nat

    constructor (maxEntries: nat)
      ensures Shape(maxEntries) && tot == 0 && totV6 == 0
      ensures fresh(netList) && fresh(netMask) && fresh(netListV6) && fresh(netMaskV6)
    {
      netList, netMask := new bv32[maxEntries], new bv32[maxEntries];
      netListV6 := new Address6[maxEntries](_ => seq(16, _ => 0));
      netMaskV6 := new int[maxEntries];
      tot, totV6 := 0, 0;
    }

    ghost predicate Shape(maxEntries: nat) {
      && netList != netMask && netList.Length == netMask.Length == maxEntries
      && netListV6.Length == netMaskV6.Length == maxEntries
      && netListV6 as object != netMaskV6 && netList as object !in {netListV6, netMaskV6}
      && netMask as object !in {netListV6, netMaskV6}
    }

    /** The lists hold these entries, in order. */
    ghost predicate Holds(es: seq<Entry4>, ls: seq<Line>)
      reads this, netList, netMask, netListV6, netMaskV6
    {
      && tot == |es| <= netList.Length && tot <= netMask.Length
      && totV6 == |ls| <= netListV6.Length && totV6 <= netMaskV6.Length
      && (forall j :: 0 <= j < tot ==> es[j] == Entry4(netList[j], netMask[j]))
      && (forall j :: 0 <= j < totV6 ==> ls[j] == Bits6(netListV6[j], netMaskV6[j]))
    }

    /** One good line. */
    method AddLine(l: Line, ghost es: seq<Entry4>, ghost ls: seq<Line>, ghost maxEntries: nat)
      requires Shape(maxEntries) && GoodLine(l) && Holds(es, ls) && tot < maxEntries && totV6 < maxEntries
      modifies this, netList, netMask, netListV6, netMaskV6
      ensures if l.Bits6? then Holds(es, ls + [l]) else Holds(es + [EntryOf(l)], ls)
    {
      if l.Bits6? {
        netListV6[totV6], netMaskV6[totV6] := l.addr6, l.bits;
        totV6 := totV6 + 1;
      } else {
        var e := EntryOf(l);
        netList[tot], netMask[tot] := e.net, e.mask;
        tot := tot + 1;
      }
    }

    /** The lists hold the entries of good lines. */
    ghost predicate Parsed(lines: seq<Line>, maxEntries: nat)
      reads this, netList, netMask, netListV6, netMaskV6
    {
      && (forall l :: l in lines ==> GoodLine(l)) && Accepts(lines, maxEntries)
      && Holds(Entries4(lines), Lines6(lines))
    }

    /** The checks of one line, and the line. */
    method ParseLine(l: Line, ghost g: seq<Line>, maxEntries: nat) returns (ok: bool)
      requires Shape(maxEntries) && Parsed(g, maxEntries)
      modifies this, netList, netMask, netListV6, netMaskV6
      ensures ok <==> Accepts(g + [l], maxEntries)
      ensures ok ==> Parsed(g + [l], maxEntries)
    {
      EntriesCount(g);
      RoomLeft(g, maxEntries);
      assert (g + [l])[..|g|] == g;
      if tot == maxEntries || totV6 == maxEntries || !GoodLine(l) {
        return false;
      }
      EntriesNext(g, l);
      AddLine(l, Entries4(g), Lines6(g), maxEntries);
      ok := true;
    }

    /** `ParseNetFile` on lines already split. */
    method ParseNetFile(lines: seq<Line>, maxEntries: nat) returns (code: int)
      requires Shape(maxEntries)
      modifies this, netList, netMask, netListV6, netMaskV6
      ensures code == 0 || code == 1
      ensures code == 1 <==> Accepts(lines, maxEntries)
      ensures code == 1 ==> Parsed(lines, maxEntries)
    {
      tot, totV6 := 0, 0;
      ghost var g := [];
      for i := 0 to |lines|
        invariant g == lines[..i] && Parsed(g, maxEntries)
      {
        PrefixNext(lines, i);
        var ok := ParseLine(lines[i], g, maxEntries);
        if !ok {
          NotAccepted(lines, i, maxEntries);
          return 0;
        }
        g := g + [lines[i]];
      }
      assert g == lines;
      code := 1;
    }

    /** `anon_ip_check`: 1 exactly when some entry covers the address. */
    method AnonIpCheck(adx: bv32, ghost lines: seq<Line>, ghost maxEntries: nat) returns (r: int)
      requires Parsed(lines, maxEntries)
      ensures r == 1 || r == 0
      ensures r == 1 <==> exists e :: e in Entries4(lines) && Covers(e, adx)
    {
      for i := 0 to tot
        invariant forall j :: 0 <= j < i ==> !Covers(Entries4(lines)[j], adx)
      {
        if And(adx, netMask[i]) == netList[i] {
          assert Covers(Entries4(lines)[i], adx);
          return 1;
        }
      }
      r := 0;
    }
  }

  // ----- What the lists mean -----

  /** What a line says: the addresses that agree with it under its mask. */
  predicate Means(l: Line, adx: bv32)
    requires !l.Bits6?
  {
    match l
    case Bits4(addr, bits) => 0 <= bits && ShareWord(adx, addr, bits)
    case Dotted4(addr, mask) => And(adx, mask) == And(addr, mask)
  }

  /** For lists without 0.0.0.0 behind which bits are written, the test finds an address exactly when
      some line means it. */
  lemma ListMeans(lines: seq<Line>, adx: bv32)
    requires forall l :: l in lines ==> GoodLine(l) && (l.Bits4? ==> l.addr != 0 || l.bits == 0)
    ensures (exists e :: e in Entries4(lines) && Covers(e, adx)) <==>
      exists l :: l in lines && !l.Bits6? && Means(l, adx)
  {
    forall l | l in lines && !l.Bits6? ensures Covers(EntryOf(l), adx) <==> Means(l, adx) {
      if l.Bits4? {
        CoversPrefix(l.addr, l.bits, adx);
      }
    }
    if e :| e in Entries4(lines) && Covers(e, adx) {
      Entries4Elems(lines, e);
    }
    if l :| l in lines && !l.Bits6? && Means(l, adx) {
      Entries4Elems(lines, EntryOf(l));
    }
  }
}
