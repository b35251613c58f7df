/**
 The question of a DNS message (`dnsEntry`, src/proto_mng.c): the parse of its name, with its bounds and
 the buffer it writes, the scrub of its name, and a whole message scrubbed.
 */
module DnsQuestion {
  import opened DnsScrub

  /** The layout of the name of a question, whatever its contents are: its length bytes as signed
      characters, up to a zero. A negative one takes no further bytes. */
  datatype Labels = Done | Part(size: int, rest: Labels)

  function Signed(x: Byte): int {
    if x < 128 then x else x - 256
  }

  /** A signed char is the byte itself, modulo 256. */
  lemma SignedIs(x: Byte)
    ensures -128 <= Signed(x) < 128 && (x - Signed(x)) % 256 == 0
  {
  }

  function Bytes(size: int): nat {
    if size > 0 then size else 0
  }

  /** The next length byte. */
  function Head(q: Labels): int {
    if q.Done? then 0 else q.size
  }

  ghost predicate Laid(b: seq<Byte>, at: nat, q: Labels)
    decreases q
  {
    && at < |b| && Signed(b[at]) == Head(q)
    && (q.Part? ==>
          q.size != 0 && at + 1 + Bytes(q.size) < |b| && Laid(b, at + 1 + Bytes(q.size), q.rest))
  }

  function WireLen(q: Labels): nat {
    match q
    case Done => 1
    case Part(size, rest) => 1 + Bytes(size) + WireLen(rest)
  }

  /** The places of label contents. */
  ghost function Places(at: nat, q: Labels): set<nat>
    decreases q
  {
    match q
    case Done => {}
    case Part(size, rest) => Span(at + 1, at + 1 + Bytes(size)) + Places(at + 1 + Bytes(size), rest)
  }

  lemma {:induction false} PlacesInside(at: nat, q: Labels)
    ensures forall i :: i in Places(at, q) ==> at < i < at + WireLen(q)
    decreases q
  {
    if q.Part? {
      PlacesInside(at + 1 + Bytes(q.size), q.rest);
    }
  }

  function LabelsOf(path: Path): Labels
    requires Plain(path)
  {
    match path
    case End => Done
    case Label(len, rest) => Part(len, LabelsOf(rest))
  }

  /** A plain name of a message, as the loops of the question see it. */
  lemma {:induction false} DecodesLaid(b: seq<Byte>, at: nat, path: Path)
    requires Decodes(b, at, path) && Plain(path)
    ensures Laid(b, at, LabelsOf(path))
    decreases path
  {
    if path.Label? {
      DecodesLaid(b, at + path.len + 1, path.rest);
    }
  }

  /** The two views agree on the places of the contents and on the length of the name. */
  lemma {:induction false} LaidPlaces(at: nat, path: Path)
    requires Plain(path)
    ensures Places(at, LabelsOf(path)) == Content(at, path) && WireLen(LabelsOf(path)) == WireSize(path)
    decreases path
  {
    if path.Label? {
      LaidPlaces(at + path.len + 1, path.rest);
    }
  }

  const NAME_DNS: nat := 500
  const DOT: Byte := 46

  datatype Option<T> = None | Some(value: T)

  /** The labels with dots between them. */
  ghost function Dotted(b: seq<Byte>, at: nat, q: Labels): seq<Byte>
    requires Laid(b, at, q)
    decreases q
  {
    match q
    case Done => []
    case Part(size, rest) =>
      var next := at + 1 + Bytes(size);
      b[at + 1..next] + (if rest == Done then [] else [DOT]) + Dotted(b, next, rest)
  }

  function TextLength(q: Labels): nat {
    match q
    case Done => 0
    case Part(size, rest) => Bytes(size) + (if rest == Done then 0 else 1) + TextLength(rest)
  }

  /** The length bytes added up. */
  function Lengths(q: Labels): int {
    match q
    case Done => 0
    case Part(size, rest) => size + Lengths(rest)
  }

  predicate Positive(q: Labels) {
    q.Part? ==> q.size > 0 && Positive(q.rest)
  }

  /** The length bytes are signed characters. */
  predicate Small(q: Labels) {
    q.Part? ==> -128 <= q.size < 128 && q.size != 0 && Small(q.rest)
  }

  lemma {:induction false} LaidSmall(b: seq<Byte>, at: nat, q: Labels)
    requires Laid(b, at, q)
    ensures Small(q) && at < |b|
    decreases q
  {
    if q.Part? {
      LaidSmall(b, at + 1 + Bytes(q.size), q.rest);
    }
  }

  /** What C takes a text to be: it ends before the first zero. */
  function CString(s: seq<Byte>): (t: seq<Byte>)
    ensures |t| <= |s| && t == s[..|t|] && (|t| < |s| ==> s[|t|] == 0)
  {
    if s == [] || s[0] == 0 then [] else [s[0]] + CString(s[1..])
  }

  // ----- The bounds of the parse -----

  const TWO_64: nat := 0x1_0000_0000_0000_0000

  /** The bound test: the header sizes are of type size_t, so both sides are compared without sign. */
  predicate Exceeds(length: int, room: int) {
    length % TWO_64 >= room % TWO_64
  }

  lemma SignLost(x: int)
    requires -0x8000_0000 <= x < 0x8000_0000
    ensures x % TWO_64 == if x >= 0 then x else x + TWO_64
  {
  }

  /** What the test comes to. */
  predicate Refuses(length: int, room: int) {
    if room >= 0 then length < 0 || length >= room else room <= length < 0
  }

  /** The test refuses a length, or a negative one, as it should exactly when the message is not shorter
      than its own headers; when it is shorter no length is refused for lack of room. */
  lemma BoundTest(length: int, room: int)
    requires -128 <= length < 0x8000_0000 && -0x8000_0000 <= room < 0x8000_0000
    ensures length >= 0 ==> ((Exceeds(length, room) <==> length >= room) <==> room >= 0)
    ensures Exceeds(length, room) <==> Refuses(length, room)
  {
    SignLost(length);
    SignLost(room);
  }

  method Refused(length: int, room: int) returns (r: bool)
    requires -128 <= length < 0x8000_0000 && -0x8000_0000 <= room < 0x8000_0000
    ensures r <==> Refuses(length, room)
  {
    BoundTest(length, room);
    r := Exceeds(length, room);
  }

  /** Whether the parse goes through the rest of a name, with n bytes in the buffer and the next length
      byte accepted and taken from the room. */
  predicate Goes(q: Labels, room: int, n: nat) {
    q.Part? ==>
      var m := n + Bytes(q.size);
      && m < NAME_DNS && !Refuses(Head(q.rest), room)
      && Goes(q.rest, room - Head(q.rest), if q.rest == Done then m else m + 1)
  }

  predicate Admits(q: Labels, room: int) {
    !Refuses(Head(q), room) && Goes(q, room - Head(q), 0)
  }

  lemma {:induction false} TextPositive(q: Labels)
    requires Positive(q)
    ensures TextLength(q) >= Head(q) && Lengths(q) >= Head(q)
  {
    if q.Part? {
      TextPositive(q.rest);
    }
  }

  /** A label that is not refused, when the room allows only positive ones. */
  lemma Accepted(size: int, room: int)
    requires !Refuses(size, room) && (room >= 0 || size > 0) && size != 0
    ensures size > 0 && (room >= 0 ==> size < room) && (room - size >= 0 <==> room >= 0)
  {
  }

  /** A length byte refused makes the rest not fit. */
  lemma {:induction false} RefusedRest(q: Labels, room: int)
    requires Refuses(Head(q), room) && Positive(q)
    ensures room >= 0 && Lengths(q) >= room
  {
    TextPositive(q);
  }

  lemma {:induction false} GoesExactly(q: Labels, room: int, n: nat)
    requires (room >= 0 || Positive(q)) && !Refuses(Head(q), room) && (q == Done ==> n < NAME_DNS)
    requires Small(q)
    ensures Goes(q, room - Head(q), n) <==>
      Positive(q) && n + TextLength(q) < NAME_DNS && (room < 0 || Lengths(q) < room)
  {
    if q.Part? {
      Accepted(q.size, room);
      var m, next := n + q.size, room - q.size;
      if Refuses(Head(q.rest), next) {
        if Positive(q.rest) {
          RefusedRest(q.rest, next);
        }
      } else if m < NAME_DNS {
        GoesExactly(q.rest, next, if q.rest == Done then m else m + 1);
      } else if Positive(q.rest) {
        TextPositive(q.rest);
      }
    }
  }

  /** The names a parse goes through: with room for the headers, exactly those without negative length
      bytes whose text is short enough and whose length bytes fit; without it nothing has to fit. */
  lemma AdmitsExact(q: Labels, room: int)
    requires Small(q) && (room >= 0 || Positive(q))
    ensures Admits(q, room) <==> Positive(q) && TextLength(q) < 500 && (room < 0 || Lengths(q) < room)
  {
    if !Refuses(Head(q), room) {
      GoesExactly(q, room, 0);
    } else if Positive(q) {
      RefusedRest(q, room);
    }
  }

  // ----- The buffer of the name -----

  /** One past the last place of the buffer that the parse writes, in the same state. */
  function Reaches(q: Labels, room: int, n: nat): nat {
    if q.Done? then n + 1
    else
      var m := n + Bytes(q.size);
      if m >= NAME_DNS || Refuses(Head(q.rest), room) then m
      else Reaches(q.rest, room - Head(q.rest), if q.rest == Done then m else m + 1)
  }

  function Written(q: Labels, room: int): nat {
    if Refuses(Head(q), room) then 0 else Reaches(q, room - Head(q), 0)
  }

  function Count(q: Labels): nat {
    if q.Done? then 0 else 1 + Count(q.rest)
  }

  /** The first k labels. */
  function Prefix(q: Labels, k: nat): Labels
    requires k <= Count(q)
  {
    if k == 0 then Done else Part(q.size, Prefix(q.rest, k - 1))
  }

  /** Where a text ends that follows n bytes, the last of which may be a dot. */
  function TextEnd(q: Labels, n: nat): int {
    if q == Done then n - 1 else n + TextLength(q)
  }

  /** If no length byte up to label k is refused, and the text before that label is short enough, so that
      the label is copied, then it ends inside the buffer. */
  predicate EndsInside(q: Labels, room: int, n: nat, k: nat)
    requires 0 < k <= Count(q)
  {
    var before, upTo := Prefix(q, k - 1), Prefix(q, k);
    Positive(upTo) && (room < 0 || Lengths(upTo) < room) && TextEnd(before, n) < NAME_DNS ==>
      TextEnd(upTo, n) <= NAME_DNS
  }

  ghost predicate AllInside(q: Labels, room: int, n: nat) {
    forall k {:trigger EndsInside(q, room, n, k)} :: 0 < k <= Count(q) ==> EndsInside(q, room, n, k)
  }

  lemma PartFacts(size: int, rest: Labels)
    requires size > 0
    ensures var q := Part(size, rest);
      && (Positive(q) <==> Positive(rest)) && Lengths(q) == size + Lengths(rest)
      && TextLength(q) == size + (if rest == Done then 0 else 1) + TextLength(rest)
  {
  }

  lemma PrefixFacts(q: Labels, k: nat)
    requires 0 < k <= Count(q)
    ensures Prefix(q, k) == Part(q.size, Prefix(q.rest, k - 1)) && Prefix(q, 0) == Done
  {
  }

  lemma {:induction false} InsideNext(q: Labels, room: int, n: nat, k: nat)
    requires q.Part? && 0 < k <= Count(q.rest) && q.size > 0 && (room >= 0 ==> q.size < room)
    ensures EndsInside(q, room, n, k + 1) <==> EndsInside(q.rest, room - q.size, n + q.size + 1, k)
  {
    var before, upTo := Prefix(q.rest, k - 1), Prefix(q.rest, k);
    PrefixFacts(q, k);
    PrefixFacts(q, k + 1);
    PrefixFacts(q.rest, k);
    if k > 1 {
      PrefixFacts(q.rest, k - 1);
    }
    PartFacts(q.size, before);
    PartFacts(q.size, upTo);
  }

  lemma {:induction false} FirstInside(q: Labels, room: int, n: nat)
    requires q.Part? && q.size > 0 && (room >= 0 ==> q.size < room) && n <= NAME_DNS
    ensures EndsInside(q, room, n, 1) <==> n + q.size <= NAME_DNS
  {
    PrefixFacts(q, 1);
    PartFacts(q.size, Done);
    assert Prefix(q.rest, 0) == Done && TextLength(Done) == 0 == Lengths(Done) && Positive(Done);
  }

  /** Behind a text that fills the buffer, or a length byte refused, no label is copied. */
  lemma {:induction false} NothingCopied(q: Labels, room: int, n: nat, k: nat)
    requires q.Part? && q.size > 0 && 1 < k <= Count(q) && (room >= 0 || Positive(q)) && (room >= 0 ==> q.size < room)
    requires n + q.size >= NAME_DNS || Refuses(Head(q.rest), room - q.size)
    ensures EndsInside(q, room, n, k)
  {
    var before, upTo := Prefix(q.rest, k - 2), Prefix(q.rest, k - 1);
    PrefixFacts(q, k);
    PrefixFacts(q, k - 1);
    PrefixFacts(q.rest, k - 1);
    PartFacts(q.size, before);
    PartFacts(q.size, upTo);
    if Positive(upTo) && Refuses(Head(q.rest), room - q.size) {
      RefusedRest(upTo, room - q.size);
    }
  }

  lemma {:induction false} InsideExactly(q: Labels, room: int, n: nat)
    requires Small(q) && (room >= 0 || Positive(q)) && !Refuses(Head(q), room)
    requires n <= NAME_DNS && (q == Done ==> n < NAME_DNS)
    ensures Reaches(q, room - Head(q), n) <= NAME_DNS <==> AllInside(q, room, n)
  {
    if q.Part? {
      Accepted(q.size, room);
      var m, next := n + q.size, room - q.size;
      FirstInside(q, room, n);
      if m >= NAME_DNS || Refuses(Head(q.rest), next) {
        OnlyFirst(q, room, n);
      } else if q.rest == Done {
        InsideExactly(q.rest, next, m);
        InsideRest(q, room, n);
      } else {
        InsideExactly(q.rest, next, m + 1);
        InsideRest(q, room, n);
      }
    }
  }

  lemma {:induction false} OnlyFirst(q: Labels, room: int, n: nat)
    requires q.Part? && q.size > 0 && (room >= 0 || Positive(q)) && (room >= 0 ==> q.size < room)
    requires n + q.size >= NAME_DNS || Refuses(Head(q.rest), room - q.size)
    ensures AllInside(q, room, n) <==> EndsInside(q, room, n, 1)
  {
    forall k {:trigger EndsInside(q, room, n, k)} | 1 < k <= Count(q) ensures EndsInside(q, room, n, k) {
      NothingCopied(q, room, n, k);
    }
  }

  lemma {:induction false} InsideRest(q: Labels, room: int, n: nat)
    requires q.Part? && q.size > 0 && (room >= 0 ==> q.size < room) && EndsInside(q, room, n, 1)
    ensures q.rest != Done ==> (AllInside(q, room, n) <==> AllInside(q.rest, room - q.size, n + q.size + 1))
    ensures q.rest == Done ==> AllInside(q, room, n)
  {
    if AllInside(q, room, n) {
      forall k {:trigger EndsInside(q.rest, room - q.size, n + q.size + 1, k)} | 0 < k <= Count(q.rest)
        ensures EndsInside(q.rest, room - q.size, n + q.size + 1, k)
      {
        InsideNext(q, room, n, k);
      }
    }
    if AllInside(q.rest, room - q.size, n + q.size + 1) {
      forall k {:trigger EndsInside(q, room, n, k)} | 0 < k <= Count(q) ensures EndsInside(q, room, n, k) {
        if k > 1 {
          InsideNext(q, room, n, k - 1);
        }
      }
    }
  }

  /** Whether label k, counted from 1, is copied: its length byte and those before it are accepted, and
      the text before it is shorter than the buffer. */
  predicate Copied(q: Labels, room: int, k: nat)
    requires 0 < k <= Count(q)
  {
    var upTo := Prefix(q, k);
    Positive(upTo) && (room < 0 || Lengths(upTo) < room) && TextLength(Prefix(q, k - 1)) < NAME_DNS
  }

  lemma {:induction false} EndsInsideIs(q: Labels, room: int, k: nat)
    requires 0 < k <= Count(q)
    ensures EndsInside(q, room, 0, k) <==> (Copied(q, room, k) ==> TextLength(Prefix(q, k)) <= NAME_DNS)
  {
    PrefixFacts(q, k);
    if k > 1 {
      PrefixFacts(q, k - 1);
    } else {
      assert Prefix(q, 0) == Done && TextLength(Done) == 0;
    }
  }

  /** All writes stay inside the buffer exactly when every label that is copied ends inside it. */
  lemma WritesInside(q: Labels, room: int)
    requires Small(q) && (room >= 0 || Positive(q))
    ensures Written(q, room) <= NAME_DNS <==>
      forall k {:trigger Copied(q, room, k)} :: 0 < k <= Count(q) && Copied(q, room, k) ==>
        TextLength(Prefix(q, k)) <= NAME_DNS
  {
    forall k {:trigger Copied(q, room, k)} {:trigger EndsInside(q, room, 0, k)} | 0 < k <= Count(q)
      ensures EndsInside(q, room, 0, k) <==> (Copied(q, room, k) ==> TextLength(Prefix(q, k)) <= NAME_DNS)
      ensures Refuses(Head(q), room) ==> !Copied(q, room, k)
    {
      EndsInsideIs(q, room, k);
      PrefixFacts(q, k);
      if Refuses(Head(q), room) && Positive(Prefix(q, k)) {
        RefusedRest(Prefix(q, k), room);
      }
    }
    if !Refuses(Head(q), room) {
      InsideExactly(q, room, 0);
    }
  }

  /** Of a name without negative length bytes nothing is written exactly when its first length byte is refused. */
  lemma WrittenNothing(q: Labels, room: int)
    requires Positive(q)
    ensures Written(q, room) == 0 <==> room >= 0 && Head(q) >= room
  {
    if q.Part? {
      ReachesFurther(q.rest, room - q.size - Head(q.rest), if q.rest == Done then q.size else q.size + 1);
    }
  }

  lemma {:induction false} ReachesFurther(q: Labels, room: int, n: nat)
    ensures Reaches(q, room, n) >= n
  {
    if q.Part? {
      var m := n + Bytes(q.size);
      ReachesFurther(q.rest, room - Head(q.rest), if q.rest == Done then m else m + 1);
    }
  }

  /** A name that the parse goes through is written inside the buffer. */
  lemma AdmittedInside(q: Labels, room: int)
    requires Admits(q, room)
    ensures Written(q, room) <= NAME_DNS
  {
    GoesInside(q, room - Head(q), 0);
  }

  lemma {:induction false} GoesInside(q: Labels, room: int, n: nat)
    requires Goes(q, room, n) && (q == Done ==> n < NAME_DNS)
    ensures Reaches(q, room, n) <= NAME_DNS
  {
    if q.Part? {
      var m := n + Bytes(q.size);
      GoesInside(q.rest, room - Head(q.rest), if q.rest == Done then m else m + 1);
    }
  }

  /** Five labels that make a text of 499 bytes, and one more. */
  function Six(last: int): Labels {
    Part(100, Part(100, Part(100, Part(100, Part(95, Part(last, Done))))))
  }

  lemma PartAll(size: int, rest: Labels, length: nat, sum: nat)
    requires 0 < size < 128 && rest != Done && Positive(rest) && Small(rest) && TextLength(rest) == length
      && Lengths(rest) == sum
    ensures var q := Part(size, rest);
      Positive(q) && Small(q) && TextLength(q) == size + 1 + length && Lengths(q) == size + sum
  {
  }

  /** Behind 499 bytes of text and a dot, any label is written beyond the buffer. */
  lemma WrittenBeyond(last: int, room: int)
    requires 0 < last < 128 && room > 622
    ensures Written(Six(last), room) == 500 + last && !Admits(Six(last), room)
  {
    var q5 := Part(last, Done);
    var q4 := Part(95, q5);
    var q3 := Part(100, q4);
    var q2 := Part(100, q3);
    var q1 := Part(100, q2);
    assert TextLength(Done) == 0 && Lengths(Done) == 0 && Positive(Done) && Small(Done);
    assert Positive(q5) && Small(q5) && TextLength(q5) == last && Lengths(q5) == last;
    PartAll(95, q5, last, last);
    PartAll(100, q4, 96 + last, 95 + last);
    PartAll(100, q3, 197 + last, 195 + last);
    PartAll(100, q2, 298 + last, 295 + last);
    PartAll(100, q1, 399 + last, 395 + last);
    AdmitsExact(Six(last), room);
    assert Reaches(q5, room - 495 - last, 500) == 500 + last;
    assert Reaches(q4, room - 495, 404) == 500 + last;
    assert Reaches(q3, room - 400, 303) == 500 + last;
    assert Reaches(q2, room - 300, 202) == 500 + last;
    assert Reaches(q1, room - 200, 101) == 500 + last;
  }

  // ----- The parse of the question -----

  // Trigger of `Parsing`, so that it unfolds only where a proof asks.
  ghost predicate Text(text: seq<Byte>) { true }

  /** The text of the name is what a parse has read, and what it still has to read once the length
      byte before pos has been read. */
  ghost predicate Parsing(b: seq<Byte>, text: seq<Byte>, name: seq<Byte>, pos: nat, length: int, q: Labels) {
    0 < pos && forall t {:trigger Text(t)} :: Text(t) && t == text ==>
      && Laid(b, pos - 1, q) && length == Signed(b[pos - 1])
      && t == name + Dotted(b, pos - 1, q)
  }

  /** What the bounds say about a name, with n bytes of text and the length byte read. */
  ghost predicate Bounded(ok: bool, end: nat, n: nat, room: int, length: int, q: Labels) {
    && Small(q) && length == Head(q) && room < 0x8000_0000 && room >= -12 - n - Bytes(length) && n <= NAME_DNS
    && (q == Done ==> n < NAME_DNS)
    && ok == Goes(q, room, n) && end == Reaches(q, room, n)
  }

  lemma DottedPart(b: seq<Byte>, at: nat, q: Labels, name: seq<Byte>, next: nat)
    requires Laid(b, at, q) && q.Part? && next == at + 1 + Bytes(q.size)
    ensures next < |b| && Laid(b, next, q.rest)
    ensures name + Dotted(b, at, q) ==
      (name + b[at + 1..next] + if q.rest == Done then [] else [DOT]) + Dotted(b, next, q.rest)
  {
  }

  /** One label and the next length byte. */
  lemma ParseNext(b: seq<Byte>, text: seq<Byte>, name: seq<Byte>, pos: nat, length: int, q: Labels)
    requires Parsing(b, text, name, pos, length, q) && length != 0
    ensures q.Part? && length == q.size && pos + Bytes(length) < |b|
    ensures var name', next := name + b[pos..pos + Bytes(length)], Signed(b[pos + Bytes(length)]);
      && next == Head(q.rest) && (next == 0 <==> q.rest == Done)
      && Parsing(b, text, name' + if next == 0 then [] else [DOT], pos + Bytes(length) + 1, next, q.rest)
  {
    assert Text(text);
    assert q.Part?;
    DottedPart(b, pos - 1, q, name, pos + Bytes(length));
  }

  /** The bound tests of one turn: the parse is left exactly when it does not go through, and what is
      written then is all. */
  lemma BoundsNext(ok: bool, end: nat, n: nat, room: int, length: int, q: Labels)
    requires Bounded(ok, end, n, room, length, q) && q.Part?
    ensures var m, next := n + Bytes(length), Head(q.rest);
      && -128 <= next < 128 && -0x8000_0000 <= room
      && if Refuses(next, room) || m >= NAME_DNS then !ok && end == m
         else Bounded(ok, end, if next == 0 then m else m + 1, room - next, next, q.rest)
  {
    assert Small(q.rest) && (Head(q.rest) == 0 <==> q.rest == Done);
  }

  lemma ParseStart(b: seq<Byte>, at: nat, q: Labels, room: int)
    requires Laid(b, at, q) && -12 < room < 0x8000_0000
    ensures at < |b| && Signed(b[at]) == Head(q)
    ensures !Refuses(Head(q), room) ==> Bounded(Admits(q, room), Written(q, room), 0, room - Head(q), Head(q), q)
    ensures Parsing(b, Dotted(b, at, q), [], at + 1, Head(q), q)
  {
    LaidSmall(b, at, q);
    assert [] + Dotted(b, at, q) == Dotted(b, at, q);
  }

  lemma ParsedAll(b: seq<Byte>, text: seq<Byte>, name: seq<Byte>, pos: nat, q: Labels)
    requires Parsing(b, text, name, pos, 0, q)
    ensures q == Done && name == text
  {
    assert Text(text);
    LaidSmall(b, pos - 1, q);
  }

  /** The parse of the question: the text of the name as C sees it, if it is not empty and the parse goes
      through, and how far the buffer is written. The headers take len bytes and 12 more, and at least
      len bytes are there. */
  method ParseName(buff: array<Byte>, at: nat, ghost q: Labels, pktLen: int, len: int)
    returns (r: Option<seq<Byte>>, written: nat)
    requires Laid(buff[..], at, q) && 0 <= len < pktLen < 0x8000_0000
    ensures var name, room := CString(Dotted(buff[..], at, q)), pktLen - (len + 12);
      && r == (if Admits(q, room) && name != [] then Some(name) else None)
      && written == Written(q, room)
  {
    ParseStart(buff[..], at, q, pktLen - (len + 12));
    var length: int := Signed(buff[at]);
    var refused := Refused(length, pktLen - (len + 12));
    if refused {
      return None, 0;
    }
    ghost var room := pktLen - (len + 12);
    var name;
    name, written := ParseLabels(buff, at, q, pktLen - length, len, length, Admits(q, room), Written(q, room));
    if name.None? {
      return None, written;
    }
    r := if |CString(name.value)| == 0 then None else Some(CString(name.value));
  }

  /** The labels of the name, copied with dots between them. */
  method ParseLabels(buff: array<Byte>, at: nat, ghost q: Labels, start: int, len: int, first: int, ghost ok: bool,
                     ghost end: nat)
    returns (r: Option<seq<Byte>>, written: nat)
    requires Laid(buff[..], at, q) && Parsing(buff[..], Dotted(buff[..], at, q), [], at + 1, first, q)
    requires Bounded(ok, end, 0, start - (len + 12), first, q)
    ensures r == (if ok then Some(Dotted(buff[..], at, q)) else None) && written == end
  {
    ghost var b, rest := buff[..], q;
    ghost var text := Dotted(b, at, q);
    var name: seq<Byte>, pos: int, dnslen: int, length: int := [], at + 1, start, first;
    while length != 0
      invariant 0 < pos && Parsing(b, text, name, pos, length, rest)
      invariant Bounded(ok, end, |name|, dnslen - (len + 12), length, rest)
      decreases rest
    {
      BoundsNext(ok, end, |name|, dnslen - (len + 12), length, rest);
      name, pos, length := CopyLabel(buff, b, text, name, pos, length, rest);
      var refused := Refused(length, dnslen - (len + 12));
      if refused || |name| >= NAME_DNS {
        return None, |name|;
      }
      dnslen := dnslen - length;
      rest := rest.rest;
      name := name + if length != 0 then [DOT] else [];
    }
    ParsedAll(b, text, name, pos, rest);
    r, written := Some(name), |name| + 1;
  }

  /** One label behind the text so far, and the next length byte. */
  method CopyLabel(buff: array<Byte>, ghost b: seq<Byte>, ghost text: seq<Byte>, was: seq<Byte>, at: nat, size: int,
                   ghost q: Labels)
    returns (name: seq<Byte>, pos: nat, length: int)
    requires buff[..] == b && Parsing(b, text, was, at, size, q) && size != 0
    ensures q.Part? && size == q.size && |name| == |was| + Bytes(size)
    ensures length == Head(q.rest) && (length == 0 <==> q.rest == Done)
    ensures 0 < pos && Parsing(b, text, name + if length == 0 then [] else [DOT], pos, length, q.rest)
  {
    ParseNext(b, text, was, at, size, q);
    name, pos := was, at;
    var j := 0;
    while j < size
      invariant 0 <= j <= Bytes(size) && pos == at + j && name == was + b[at..at + j]
    {
      name := name + [buff[pos]];
      pos := pos + 1;
      j := j + 1;
    }
    length := Signed(buff[pos]);
    pos := pos + 1;
  }

  // ----- The scrub of the question -----

  /** Scrubbed as far as pos. */
  ghost predicate ScrubbedTo(b: seq<Byte>, b': seq<Byte>, c: set<nat>, pos: nat) {
    && |b'| == |b|
    && forall i :: 0 <= i < |b| ==> if i in c && i < pos then Letter(b'[i]) else b'[i] == b[i]
  }

  /** From pos on, c are the contents of the rest of a name. */
  ghost predicate AheadIs(c: set<nat>, pos: nat, q: Labels) {
    forall i: nat :: i >= pos ==> (i in c <==> i in Places(pos, q))
  }

  lemma AheadNext(c: set<nat>, pos: nat, q: Labels)
    requires AheadIs(c, pos, q) && q.Part?
    ensures AheadIs(c, pos + 1 + Bytes(q.size), q.rest)
    ensures forall i :: pos < i <= pos + Bytes(q.size) ==> i in c
  {
    var next := pos + 1 + Bytes(q.size);
    PlacesInside(next, q.rest);
    forall i: nat | i > pos ensures i in Places(pos, q) <==> i < next || i in Places(next, q.rest) {
      assert i < next ==> Within(pos + 1, i, next);
    }
  }

  lemma AheadNotHere(c: set<nat>, pos: nat, q: Labels)
    requires AheadIs(c, pos, q)
    ensures pos !in c
  {
    PlacesInside(pos, q);
  }

  // Trigger of `Scrubbing`, so that it unfolds only where a proof asks.
  ghost predicate Spot(pos: nat) { true }

  /** What the scrub still has to do, at the next length byte. */
  ghost predicate Scrubbing(b: seq<Byte>, b': seq<Byte>, c: set<nat>, pos: nat, q: Labels) {
    |b'| == |b| && forall p {:trigger Spot(p)} :: Spot(p) && p == pos ==>
      Laid(b, pos, q) && ScrubbedTo(b, b', c, pos) && AheadIs(c, pos, q)
  }

  lemma Here(b: seq<Byte>, b': seq<Byte>, c: set<nat>, pos: nat, q: Labels)
    requires Scrubbing(b, b', c, pos, q)
    ensures pos < |b'| && Signed(b'[pos]) == Head(q) && (Head(q) == 0 <==> q == Done)
  {
    assert Spot(pos);
    AheadNotHere(c, pos, q);
  }

  lemma AllScrubbed(b: seq<Byte>, b': seq<Byte>, c: set<nat>, pos: nat)
    requires Scrubbing(b, b', c, pos, Done)
    ensures Scrubbed(b, b', c, {})
  {
    assert Spot(pos);
  }

  /** One label becomes letters. */
  method ScrubLabel(buff: array<Byte>, start: nat, length: int, ghost b: seq<Byte>, ghost c: set<nat>)
    returns (pos: nat)
    requires ScrubbedTo(b, buff[..], c, start) && start + Bytes(length) <= buff.Length
    requires forall i :: start <= i < start + Bytes(length) ==> i in c
    modifies buff
    ensures pos == start + Bytes(length) && ScrubbedTo(b, buff[..], c, pos)
  {
    pos := start;
    var j := 0;
    while j < length
      invariant 0 <= j <= Bytes(length) && pos == start + j && ScrubbedTo(b, buff[..], c, pos)
    {
      var r := RandChar();
      ghost var b' := buff[..];
      buff[pos] := r;
      assert buff[..] == b'[pos := r];
      pos := pos + 1;
      j := j + 1;
    }
  }

  method ScrubPart(buff: array<Byte>, at: nat, ghost b: seq<Byte>, ghost c: set<nat>, length: int, ghost q: Labels)
    returns (pos: nat)
    requires Scrubbing(b, buff[..], c, at, q) && q.Part? && length == q.size
    modifies buff
    ensures pos == at + 1 + Bytes(length) && Scrubbing(b, buff[..], c, pos, q.rest)
  {
    assert Spot(at);
    AheadNotHere(c, at, q);
    AheadNext(c, at, q);
    pos := ScrubLabel(buff, at + 1, length, b, c);
  }

  /** The scrub loop of the question: every label is overwritten; ends behind the name. */
  method ScrubQuestion(buff: array<Byte>, at: nat, ghost q: Labels) returns (end: nat)
    requires Laid(buff[..], at, q)
    modifies buff
    ensures Scrubbed(old(buff[..]), buff[..], Places(at, q), {})
    ensures end == at + WireLen(q)
  {
    ghost var b, c, rest := buff[..], Places(at, q), q;
    PlacesInside(at, q);
    var pos: nat := at;
    Here(b, buff[..], c, pos, rest);
    var length: int := Signed(buff[pos]);
    while length != 0
      invariant Scrubbing(b, buff[..], c, pos, rest)
      invariant length == Head(rest) && (length == 0 <==> rest == Done) && pos + WireLen(rest) == at + WireLen(q)
      decreases rest
    {
      pos := ScrubPart(buff, pos, b, c, length, rest);
      rest := rest.rest;
      Here(b, buff[..], c, pos, rest);
      length := Signed(buff[pos]);
    }
    AllScrubbed(b, buff[..], c, pos);
    end := pos + 1;
  }

  // ----- A message in a session -----

  /** The question is scrubbed, and then names in any order and any number of times: all names keep their
      layout and every structure byte, and the contents of those scrubbed are letters. */
  method ScrubMessage(buff: array<Byte>, question: Name, starts: seq<nat>, ghost paths: seq<Path>,
                      ghost names: set<Name>)
    requires Message(buff[..], names) && question in names && Plain(question.path) && |paths| == |starts|
    requires forall t :: 0 <= t < |starts| ==> Name(starts[t], paths[t]) in names
    modifies buff
    ensures Message(buff[..], names)
    ensures forall y, i :: y in names && i in Structure(y.at, y.path) && i < buff.Length ==> buff[i] == old(buff[i])
    ensures forall i :: i in Content(question.at, question.path) && i < buff.Length ==> Letter(buff[i])
    ensures forall t, i :: 0 <= t < |starts| && i in Content(starts[t], paths[t]) && i < buff.Length ==> Letter(buff[i])
  {
    ghost var messages, scrubbed := [buff[..]], [];
    DecodesLaid(buff[..], question.at, question.path);
    LaidPlaces(question.at, question.path);
    var end := ScrubQuestion(buff, question.at, LabelsOf(question.path));
    messages, scrubbed := RunMore(messages, scrubbed, buff[..], question);
    for t := 0 to |starts|
      invariant ScrubRun(messages, scrubbed) && messages[0] == old(buff[..]) && messages[|scrubbed|] == buff[..]
      invariant |scrubbed| == t + 1 && scrubbed[0] == question
        && forall u :: 0 <= u < |scrubbed| ==> scrubbed[u] in names
      invariant forall u :: 0 <= u < t ==> scrubbed[u + 1] == Name(starts[u], paths[u])
    {
      RunKeeps(messages, scrubbed, names);
      ReadOne(buff, starts[t], paths[t], names);
      messages, scrubbed := RunMore(messages, scrubbed, buff[..], Name(starts[t], paths[t]));
    }
    RunKeeps(messages, scrubbed, names);
    assert forall t :: 0 <= t < |starts| ==> scrubbed[t + 1] == Name(starts[t], paths[t]);
  }

  method ReadOne(buff: array<Byte>, start: nat, ghost path: Path, ghost names: set<Name>)
    requires Message(buff[..], names) && Name(start, path) in names
    modifies buff
    ensures Scrubbed(old(buff[..]), buff[..], Content(start, path), {})
  {
    assert Apart(Name(start, path), Name(start, path));
    DecodesWalks(buff[..], start, path);
    WalkOfIs(start, path);
    var count := ReadName(buff, start, WalkOf(path));
  }

  lemma RunMore(messages: seq<seq<Byte>>, scrubbed: seq<Name>, b: seq<Byte>, x: Name)
    returns (messages': seq<seq<Byte>>, scrubbed': seq<Name>)
    requires ScrubRun(messages, scrubbed) && Scrubbed(messages[|scrubbed|], b, Content(x.at, x.path), {})
    ensures messages' == messages + [b] && scrubbed' == scrubbed + [x] && ScrubRun(messages', scrubbed')
  {
    messages', scrubbed' := messages + [b], scrubbed + [x];
  }
}
