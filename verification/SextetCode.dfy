/**
 The shape of base64 (src/base64.h) without its bits: groups of three values become groups of four
 characters, and the last group is padded.
 */
module SextetCode {

  /** The four characters of a group, and the three values got back from them. `none` stands for
      the missing values of the last group. */
  datatype Code<!B> = Code(
    e0: B -> B, e1: (B, B) -> B, e2: (B, B) -> B, e3: B -> B,
    d0: (B, B) -> B, d1: (B, B) -> B, d2: (B, B) -> B,
    none: B, pad: B)

  // Trigger of `Laws`, so that they are used only where a proof asks.
  ghost predicate Use<B>(x: B, y: B, z: B) { true }

  ghost predicate Laws<B(!new)>(k: Code<B>) {
    forall x, y, z {:trigger Use(x, y, z)} :: Use(x, y, z) ==>
      && k.d0(k.e0(x), k.e1(x, y)) == x && k.d1(k.e1(x, y), k.e2(y, z)) == y && k.d2(k.e2(y, z), k.e3(z)) == z
      && k.e0(x) != k.pad && k.e1(x, y) != k.pad && k.e2(y, z) != k.pad && k.e3(z) != k.pad
  }

  function Encode<B>(k: Code<B>, x: seq<B>): (s: seq<B>) {
    if |x| == 0 then []
    else if |x| == 1 then [k.e0(x[0]), k.e1(x[0], k.none), k.pad, k.pad]
    else if |x| == 2 then [k.e0(x[0]), k.e1(x[0], x[1]), k.e2(x[1], k.none), k.pad]
    else [k.e0(x[0]), k.e1(x[0], x[1]), k.e2(x[1], x[2]), k.e3(x[2])] + Encode(k, x[3..])
  }

  /** How many of the last two characters are padding. */
  function Pads<B(==)>(k: Code<B>, s: seq<B>): (n: nat)
    requires |s| >= 2
    ensures n <= 2
  {
    (if s[|s| - 1] == k.pad then 1 else 0) + (if s[|s| - 2] == k.pad then 1 else 0)
  }

  function DecodeLast<B>(k: Code<B>, s: seq<B>, pads: nat): (x: seq<B>)
    requires |s| == 4 && pads <= 2
    ensures |x| == 3 - pads
  {
    if pads == 2 then [k.d0(s[0], s[1])]
    else if pads == 1 then [k.d0(s[0], s[1]), k.d1(s[1], s[2])]
    else [k.d0(s[0], s[1]), k.d1(s[1], s[2]), k.d2(s[2], s[3])]
  }

  /** The groups of s, the last one short by `pads`. */
  function DecodeGroups<B>(k: Code<B>, s: seq<B>, pads: nat): (x: seq<B>)
    requires pads <= 2
    decreases |s|
  {
    if |s| < 4 then []
    else if |s| < 8 then DecodeLast(k, s[..4], pads)
    else DecodeLast(k, s[..4], 0) + DecodeGroups(k, s[4..], pads)
  }

  function Decode<B(==)>(k: Code<B>, s: seq<B>): (x: seq<B>)
    requires |s| >= 2
  {
    DecodeGroups(k, s, Pads(k, s))
  }

  lemma {:induction false} EncodeLength<B>(k: Code<B>, x: seq<B>)
    ensures |Encode(k, x)| == 4 * ((|x| + 2) / 3)
    ensures x != [] ==> |Encode(k, x)| >= 4
  {
    if |x| >= 3 {
      EncodeLength(k, x[3..]);
    }
  }

  function Missing(n: nat): (m: nat)
    ensures m <= 2 && (n + m) % 3 == 0
  {
    if n % 3 == 0 then 0 else 3 - n % 3
  }

  lemma EncodeMore<B>(k: Code<B>, x: seq<B>)
    requires |x| > 3
    ensures var s := Encode(k, x);
      && s[..4] == [k.e0(x[0]), k.e1(x[0], x[1]), k.e2(x[1], x[2]), k.e3(x[2])]
      && s[4..] == Encode(k, x[3..]) && |s| >= 8
  {
    EncodeLength(k, x[3..]);
  }

  /** The first four characters. */
  lemma EncodeFirst<B>(k: Code<B>, x: seq<B>)
    requires x != []
    ensures var s := Encode(k, x);
      && |s| >= 4 && s[0] == k.e0(x[0]) && s[1] == k.e1(x[0], if |x| > 1 then x[1] else k.none)
      && s[2] == (if |x| > 1 then k.e2(x[1], if |x| > 2 then x[2] else k.none) else k.pad)
      && s[3] == (if |x| > 2 then k.e3(x[2]) else k.pad)
  {
  }

  lemma NotEmpty<B>(k: Code<B>, x: seq<B>, i: nat)
    requires i < |Encode(k, x)|
    ensures x != []
  {
  }

  /** The later ones. */
  lemma EncodeLater<B>(k: Code<B>, x: seq<B>, i: nat)
    requires 4 <= i < |Encode(k, x)|
    ensures |x| > 3 && i - 4 < |Encode(k, x[3..])| && Encode(k, x)[i] == Encode(k, x[3..])[i - 4]
  {
    EncodeLength(k, x);
    EncodeMore(k, x);
    assert Encode(k, x)[i] == Encode(k, x)[4..][i - 4];
  }

  lemma EncodeThree<B>(k: Code<B>, x: seq<B>)
    requires |x| == 3
    ensures Encode(k, x) == [k.e0(x[0]), k.e1(x[0], x[1]), k.e2(x[1], x[2]), k.e3(x[2])]
  {
    assert x[3..] == [];
  }

  /** A sequence of at most three values. */
  lemma LastGroup<B(!new)>(k: Code<B>, x: seq<B>)
    requires Laws(k) && 0 < |x| <= 3
    ensures |Encode(k, x)| == 4 && Pads(k, Encode(k, x)) == Missing(|x|)
    ensures DecodeLast(k, Encode(k, x), Missing(|x|)) == x
  {
    assert Use(x[0], if |x| > 1 then x[1] else k.none, if |x| > 2 then x[2] else k.none);
    if |x| == 3 {
      EncodeThree(k, x);
    }
  }

  lemma {:induction false} EncodePads<B(!new)>(k: Code<B>, x: seq<B>)
    requires Laws(k) && x != []
    ensures |Encode(k, x)| >= 4 && Pads(k, Encode(k, x)) == Missing(|x|)
  {
    if |x| > 3 {
      EncodePads(k, x[3..]);
      EncodeMore(k, x);
      PadsOfTail(k, Encode(k, x));
    } else {
      LastGroup(k, x);
    }
  }

  /** No character of a group, and no padding, is the value z0. */
  ghost predicate NeverZero<B(!new)>(k: Code<B>, z0: B) {
    k.pad != z0 && forall x, y, z {:trigger Use(x, y, z)} :: Use(x, y, z) ==>
      k.e0(x) != z0 && k.e1(x, y) != z0 && k.e2(y, z) != z0 && k.e3(z) != z0
  }

  lemma {:induction false} EncodeNeverZero<B(!new)>(k: Code<B>, z0: B, x: seq<B>)
    requires NeverZero(k, z0)
    ensures z0 !in Encode(k, x)
  {
    if x != [] {
      assert Use(x[0], if |x| > 1 then x[1] else k.none, if |x| > 2 then x[2] else k.none);
      if |x| > 2 {
        EncodeNeverZero(k, z0, x[3..]);
      }
    }
  }

  lemma PadsOfTail<B>(k: Code<B>, s: seq<B>)
    requires |s| >= 8
    ensures Pads(k, s[4..]) == Pads(k, s)
  {
  }

  lemma FirstGroup<B(!new)>(k: Code<B>, x: seq<B>)
    requires Laws(k) && |x| > 3
    ensures var s := Encode(k, x); |s| >= 8 && DecodeLast(k, s[..4], 0) == x[..3] && s[4..] == Encode(k, x[3..])
  {
    EncodeMore(k, x);
    assert Use(x[0], x[1], x[2]);
    assert x[..3] == [x[0], x[1], x[2]];
  }

  lemma GroupsNext<B>(k: Code<B>, s: seq<B>, pads: nat)
    requires |s| >= 8 && pads <= 2
    ensures DecodeGroups(k, s, pads) == DecodeLast(k, s[..4], 0) + DecodeGroups(k, s[4..], pads)
  {
  }

  lemma {:induction false} GroupsRoundTrip<B(!new)>(k: Code<B>, x: seq<B>)
    requires Laws(k) && x != []
    ensures DecodeGroups(k, Encode(k, x), Missing(|x|)) == x
  {
    if |x| > 3 {
      GroupsRoundTrip(k, x[3..]);
      FirstGroup(k, x);
      GroupsNext(k, Encode(k, x), Missing(|x|));
      assert x == x[..3] + x[3..];
    } else {
      LastGroup(k, x);
    }
  }

  /** Decoding what has been encoded gives it back, for every non-empty sequence. */
  lemma RoundTrip<B(!new)>(k: Code<B>, x: seq<B>)
    requires Laws(k) && x != []
    ensures Decode(k, Encode(k, x)) == x
  {
    EncodePads(k, x);
    GroupsRoundTrip(k, x);
  }

  // ----- The loops over buffers -----

  lemma EncodeStep<B>(k: Code<B>, x: seq<B>, n: nat)
    requires n + 3 <= |x|
    ensures Encode(k, x[n..]) ==
      [k.e0(x[n]), k.e1(x[n], x[n + 1]), k.e2(x[n + 1], x[n + 2]), k.e3(x[n + 2])] + Encode(k, x[n + 3..])
  {
    assert x[n..][3..] == x[n + 3..];
  }

  // Trigger of `Encoding` and `Decoding`, so that they unfold only where a proof asks.
  ghost predicate Ask(n: nat) { true }

  /** done encodes x up to n. */
  ghost predicate Encoding<B>(k: Code<B>, x: seq<B>, n: nat, done: seq<B>) {
    n <= |x| && forall m {:trigger Ask(m)} :: Ask(m) && m == n ==> Encode(k, x) == done + Encode(k, x[n..])
  }

  lemma NoneEncoded<B>(k: Code<B>, x: seq<B>)
    ensures Encoding(k, x, 0, [])
  {
    assert x[0..] == x;
  }

  /** Four characters written behind those already there. */
  lemma Written<B>(was: seq<B>, now: seq<B>, rc: nat, g: seq<B>, tail: seq<B>, whole: seq<B>)
    requires rc + |g| <= |was| == |now| && whole == was[..rc] + (g + tail)
    requires now[..rc] == was[..rc] && now[rc..rc + |g|] == g
    ensures whole == now[..rc + |g|] + tail
  {
    assert now[..rc + |g|] == now[..rc] + now[rc..rc + |g|];
  }

  method Put4<B>(res: array<B>, rc: nat, a: B, b: B, c: B, d: B)
    requires rc + 4 <= res.Length
    modifies res
    ensures res[..rc] == old(res[..rc]) && res[rc..rc + 4] == [a, b, c, d]
  {
    res[rc], res[rc + 1], res[rc + 2], res[rc + 3] := a, b, c, d;
  }

  /** One turn of the loop of `base64`. */
  method EncodeGroup<B>(k: Code<B>, bin: array<B>, n: nat, ghost x: seq<B>, res: array<B>, rc: nat)
    requires bin != res && n + 3 <= |x| <= bin.Length && rc + 4 <= res.Length
    requires bin[n] == x[n] && bin[n + 1] == x[n + 1] && bin[n + 2] == x[n + 2]
    requires Encoding(k, x, n, res[..rc])
    modifies res
    ensures Encoding(k, x, n + 3, res[..rc + 4])
  {
    assert Ask(n);
    ghost var was, g := res[..], [k.e0(x[n]), k.e1(x[n], x[n + 1]), k.e2(x[n + 1], x[n + 2]), k.e3(x[n + 2])];
    Put4(res, rc, k.e0(bin[n]), k.e1(bin[n], bin[n + 1]), k.e2(bin[n + 1], bin[n + 2]), k.e3(bin[n + 2]));
    EncodeStep(k, x, n);
    Written(was, res[..], rc, g, Encode(k, x[n + 3..]), was[..rc] + (g + Encode(k, x[n + 3..])));
  }

  /** The full groups of `base64`. */
  method EncodeFull<B>(k: Code<B>, bin: array<B>, ghost x: seq<B>, len: nat, ghost n: nat, res: array<B>)
    returns (byteNo: nat, rc: nat)
    requires bin != res && |x| == len <= bin.Length && 3 * n <= len < 3 * n + 3 && 4 * n <= res.Length
    requires forall i :: 0 <= i < len ==> bin[i] == x[i]
    modifies res
    ensures byteNo == 3 * n && rc == 4 * n && Encoding(k, x, byteNo, res[..rc])
  {
    ghost var g := 0;
    rc, byteNo := 0, 0;
    NoneEncoded(k, x);
    while byteNo <= len - 3
      invariant byteNo == 3 * g && rc == 4 * g && g <= n
      invariant Encoding(k, x, byteNo, res[..rc])
    {
      EncodeGroup(k, bin, byteNo, x, res, rc);
      rc := rc + 4;
      byteNo := byteNo + 3;
      g := g + 1;
    }
  }

  /** The last group of `base64`. */
  method EncodeTail<B>(k: Code<B>, bin: array<B>, len: nat, byteNo: nat, pad: nat, res: array<B>, rc: nat)
    returns (end: nat)
    requires bin != res && byteNo <= len <= bin.Length && pad <= 2 && rc <= res.Length
    requires if pad == 0 then byteNo == len else byteNo + 3 - pad == len && rc + 4 <= res.Length
    modifies res
    ensures end == (if pad == 0 then rc else rc + 4) && res[..end] == old(res[..rc]) + Encode(k, bin[byteNo..len])
  {
    end := rc;
    if pad == 2 {
      Put4(res, rc, k.e0(bin[byteNo]), k.e1(bin[byteNo], k.none), k.pad, k.pad);
      end := rc + 4;
    } else if pad == 1 {
      Put4(res, rc, k.e0(bin[byteNo]), k.e1(bin[byteNo], bin[byteNo + 1]), k.e2(bin[byteNo + 1], k.none), k.pad);
      end := rc + 4;
    }
    assert res[..end] == res[..rc] + res[rc..end];
  }

  /** `base64`: the characters, and a null behind them. */
  method EncodeBuffer<B(0)>(k: Code<B>, bin: array<B>, len: nat) returns (res: array<B>, flen: int)
    requires len <= bin.Length
    ensures fresh(res) && flen == |Encode(k, bin[..len])| && res.Length == flen + 1
    ensures res[..flen] == Encode(k, bin[..len]) && res[flen] == k.none
  {
    EncodeLength(k, bin[..len]);
    var modulusLen := len % 3;
    var pad := modulusLen % 2 * 2 + modulusLen / 2;
    flen := 4 * (len + pad) / 3;
    res := new B[flen + 1];
    ghost var x := bin[..len];
    var byteNo, rc := EncodeFull(k, bin, x, len, len / 3, res);
    assert Ask(byteNo) && x[byteNo..] == bin[byteNo..len];
    rc := EncodeTail(k, bin, len, byteNo, pad, res, rc);
    res[rc] := k.none;
  }

  // ----- Decoding -----

  method Put3<B>(bin: array<B>, cb: nat, a: B, b: B, c: B)
    requires cb + 3 <= bin.Length
    modifies bin
    ensures bin[..cb] == old(bin[..cb]) && bin[cb..cb + 3] == [a, b, c]
  {
    bin[cb], bin[cb + 1], bin[cb + 2] := a, b, c;
  }

  /** done decodes s up to n. */
  ghost predicate Decoding<B>(k: Code<B>, s: seq<B>, n: nat, pads: nat, done: seq<B>)
    requires pads <= 2
  {
    n <= |s| && forall m {:trigger Ask(m)} :: Ask(m) && m == n ==>
      DecodeGroups(k, s, pads) == done + DecodeGroups(k, s[n..], pads)
  }

  lemma NoneDecoded<B>(k: Code<B>, s: seq<B>, pads: nat)
    requires pads <= 2
    ensures Decoding(k, s, 0, pads, [])
  {
    assert s[0..] == s;
  }

  lemma DecodeStep<B>(k: Code<B>, s: seq<B>, n: nat, pads: nat)
    requires pads <= 2 && n + 4 <= |s| && (n + 8 <= |s| || pads == 0)
    ensures DecodeGroups(k, s[n..], pads)
      == [k.d0(s[n], s[n + 1]), k.d1(s[n + 1], s[n + 2]), k.d2(s[n + 2], s[n + 3])] + DecodeGroups(k, s[n + 4..], pads)
  {
    assert s[n..][4..] == s[n + 4..];
    if n + 8 > |s| {
      assert DecodeGroups(k, s[n + 4..], pads) == [];
    }
  }

  /** The turns of the loop of `unbase64` from a place on. */
  function Turns(charNo: nat, len: nat, pad: nat): (n: nat)
    decreases len - charNo
  {
    if charNo <= len - 4 - pad then 1 + Turns(charNo + 4, len, pad) else 0
  }

  /** The bytes that `unbase64` makes room for, and those that it stores. */
  function Room(len: nat, pad: nat): int {
    3 * len / 4 - pad
  }

  function Stored(len: nat, pad: nat): nat
    requires pad <= 2
  {
    3 * Turns(0, len, pad) + if pad == 0 then 0 else 3 - pad
  }

  /** The lengths for which padding is in its place. */
  predicate Fits(len: nat, pad: nat) {
    pad == 0 || len % 4 == 0 || (pad == 2 && len % 4 == 1)
  }

  lemma {:induction false} TurnsIs(charNo: nat, len: nat, pad: nat)
    requires pad <= 2
    ensures Turns(charNo, len, pad) == if charNo <= len - 4 - pad then (len - pad - charNo) / 4 else 0
    decreases len - charNo
  {
    if charNo <= len - 4 - pad {
      TurnsIs(charNo + 4, len, pad);
    }
  }

  /** All bytes are stored inside the room made for them exactly when the padding, if there is any, is in
      its place; without padding that is so for every length. */
  lemma StoresInside(len: nat, pad: nat)
    requires 2 <= len && pad <= 2
    ensures Stored(len, pad) <= Room(len, pad) <==> Fits(len, pad)
    ensures Stored(len, pad) == Room(len, pad) <==> len % 4 == 0 || (len % 4 == 1 && pad != 1)
  {
    TurnsIs(0, len, pad);
    var n, r := len / 4, len % 4;
    assert len == 4 * n + r;
  }

  /** Two characters and one padding sign: two bytes are stored where there is room for one. */
  lemma StoredBeyond<B>(k: Code<B>, x: B, y: B)
    requires x != k.pad && y != k.pad
    ensures var s := [x, y, k.pad]; Room(|s|, Pads(k, s)) == 1 && Stored(|s|, Pads(k, s)) == 2
  {
  }

  /** One turn of the loop of `unbase64`. */
  method DecodeGroup<B>(k: Code<B>, s: seq<B>, n: nat, pad: nat, bin: array<B>, cb: nat)
    requires pad <= 2 && n + 4 <= |s| && (n + 8 <= |s| || pad == 0) && cb + 3 <= bin.Length
    requires Decoding(k, s, n, pad, bin[..cb])
    modifies bin
    ensures Decoding(k, s, n + 4, pad, bin[..cb + 3])
  {
    assert Ask(n);
    ghost var was, g := bin[..], [k.d0(s[n], s[n + 1]), k.d1(s[n + 1], s[n + 2]), k.d2(s[n + 2], s[n + 3])];
    Put3(bin, cb, k.d0(s[n], s[n + 1]), k.d1(s[n + 1], s[n + 2]), k.d2(s[n + 2], s[n + 3]));
    DecodeStep(k, s, n, pad);
    Written(was, bin[..], cb, g, DecodeGroups(k, s[n + 4..], pad), was[..cb] + (g + DecodeGroups(k, s[n + 4..], pad)));
  }

  /** The groups that the loop decodes: all of them, or all but the padded one. */
  predicate FullGroups(len: nat, pad: nat, n: nat) {
    4 * n <= len - (if pad == 0 then 0 else 4) < 4 * n + 4
  }

  lemma GroupsThatFit(len: nat, pad: nat) returns (n: nat)
    requires pad <= 2 && len >= 2 && Fits(len, pad)
    ensures FullGroups(len, pad, n)
    ensures 3 * n + (if pad == 0 then 0 else 3 - pad) == Stored(len, pad) <= Room(len, pad)
  {
    n := len / 4 - if pad == 0 then 0 else 1;
    TurnsIs(0, len, pad);
    StoresInside(len, pad);
    assert len == 4 * (len / 4) + len % 4;
  }

  /** The loop goes on exactly while one of these groups is left. */
  lemma GoesOn(len: nat, pad: nat, n: nat, g: nat)
    requires pad <= 2 && Fits(len, pad) && FullGroups(len, pad, n) && g <= n
    ensures 4 * g <= len - 4 - pad <==> g < n
  {
  }

  /** The full groups of `unbase64`. */
  method DecodeFull<B>(k: Code<B>, s: seq<B>, pad: nat, ghost n: nat, bin: array<B>) returns (charNo: nat, cb: nat)
    requires pad <= 2 && Fits(|s|, pad) && FullGroups(|s|, pad, n) && 3 * n <= bin.Length
    modifies bin
    ensures charNo == 4 * n && cb == 3 * n && Decoding(k, s, charNo, pad, bin[..cb])
  {
    ghost var g := 0;
    charNo, cb := 0, 0;
    NoneDecoded(k, s, pad);
    GoesOn(|s|, pad, n, g);
    while charNo <= |s| - 4 - pad
      invariant charNo == 4 * g && cb == 3 * g && g <= n
      invariant charNo <= |s| - 4 - pad <==> g < n
      invariant Decoding(k, s, charNo, pad, bin[..cb])
      decreases n - g
    {
      DecodeGroup(k, s, charNo, pad, bin, cb);
      cb := cb + 3;
      charNo := charNo + 4;
      g := g + 1;
      GoesOn(|s|, pad, n, g);
    }
  }

  /** The last group of `unbase64`. */
  method DecodeTail<B>(k: Code<B>, s: seq<B>, charNo: nat, pad: nat, bin: array<B>, cb: nat) returns (end: nat)
    requires pad <= 2 && charNo <= |s| && cb <= bin.Length
    requires if pad == 0 then |s| < charNo + 4 else charNo + 4 <= |s| < charNo + 8 && cb + 3 - pad <= bin.Length
    modifies bin
    ensures end == (if pad == 0 then cb else cb + 3 - pad)
    ensures bin[..end] == old(bin[..cb]) + DecodeGroups(k, s[charNo..], pad)
  {
    end := cb;
    if pad == 1 {
      bin[cb] := k.d0(s[charNo], s[charNo + 1]);
      bin[cb + 1] := k.d1(s[charNo + 1], s[charNo + 2]);
      end := cb + 2;
    } else if pad == 2 {
      bin[cb] := k.d0(s[charNo], s[charNo + 1]);
      end := cb + 1;
    }
  }

  /** `unbase64`, wherever its stores stay inside the room it makes; a string too short to hold a group
      gives a null pointer. The bytes behind the decoded ones, if any, are whatever the memory held. */
  method DecodeBuffer<B(0, ==)>(k: Code<B>, s: seq<B>) returns (bin: array?<B>, flen: int)
    requires |s| >= 2 ==> Fits(|s|, Pads(k, s))
    ensures |s| < 2 ==> bin == null && flen == 0
    ensures |s| >= 2 ==> bin != null && fresh(bin) && flen == bin.Length == Room(|s|, Pads(k, s))
    ensures |s| >= 2 ==> |Decode(k, s)| == Stored(|s|, Pads(k, s)) <= flen && bin[..|Decode(k, s)|] == Decode(k, s)
  {
    var len := |s|;
    if len < 2 {
      return null, 0;
    }
    var pad := 0;
    if s[len - 1] == k.pad {
      pad := pad + 1;
    }
    if s[len - 2] == k.pad {
      pad := pad + 1;
    }
    ghost var n := GroupsThatFit(len, pad);
    flen := 3 * len / 4 - pad;
    bin := new B[flen];
    var charNo, cb := DecodeFull(k, s, pad, n, bin);
    assert Ask(charNo);
    var end := DecodeTail(k, s, charNo, pad, bin, cb);
    assert bin[..end] == Decode(k, s);
  }
}
