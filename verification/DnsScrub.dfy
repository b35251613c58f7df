/**
 Scrubbing of names in DNS messages (`ReadName`, src/dns_mng.c): the labels are overwritten in place, and the
 name format with its compression pointers (RFC 1035, section 4.1.4) stays as it was.
 */
module DnsScrub {

  type Byte = x: int | 0 <= x < 256

  /** How a name is laid out: labels, pointers to earlier places, and the end. */
  datatype Path = End | Label(len: nat, rest: Path) | Pointer(target: nat, rest: Path)

  /** The place a pointer at `at` leads to. */
  function Target(b: seq<Byte>, at: nat): int
    requires at + 1 < |b|
  {
    var hi: int, lo: int := b[at], b[at + 1];
    hi * 256 + lo - 49152
  }

  /** A name is laid out at a place, finitely, whatever its labels contain. */
  ghost predicate LaidOut(b: seq<Byte>, at: nat, path: Path)
    decreases path
  {
    match path
    case End => at < |b| && b[at] == 0
    case Label(len, rest) => at + len < |b| && 0 < b[at] == len < 192 && LaidOut(b, at + len + 1, rest)
    case Pointer(target, rest) =>
      && at + 1 < |b| && b[at] >= 192 && Target(b, at) == target
      && LaidOut(b, target, rest)
  }

  /** The name at a place decodes, finitely, to the path: its label contents are bytes that are
      neither an end nor a pointer. */
  ghost predicate Decodes(b: seq<Byte>, at: nat, path: Path)
    decreases path
  {
    match path
    case End => at < |b| && b[at] == 0
    case Label(len, rest) =>
      && at + len < |b| && 0 < b[at] == len < 192
      && (forall i :: at < i <= at + len ==> 0 < b[i] < 192)
      && Decodes(b, at + len + 1, rest)
    case Pointer(target, rest) =>
      && at + 1 < |b| && b[at] >= 192 && Target(b, at) == target
      && Decodes(b, target, rest)
  }

  /** The places of length bytes, pointers and the end. */
  ghost function Structure(at: nat, path: Path): set<nat>
    decreases path
  {
    match path
    case End => {at}
    case Label(len, rest) => {at} + Structure(at + len + 1, rest)
    case Pointer(target, rest) => {at, at + 1} + Structure(target, rest)
  }

  predicate Within(lo: nat, i: nat, hi: nat) { lo <= i < hi }

  ghost function Span(lo: nat, hi: nat): set<nat> {
    set i | lo <= i < hi && Within(lo, i, hi)
  }

  /** The places of label contents. */
  ghost function Content(at: nat, path: Path): set<nat>
    decreases path
  {
    match path
    case End => {}
    case Label(len, rest) => Span(at + 1, at + len + 1) + Content(at + len + 1, rest)
    case Pointer(target, rest) => Content(target, rest)
  }

  /** The bytes the name takes where it stands. */
  function WireSize(path: Path): nat {
    match path
    case End => 1
    case Label(len, rest) => len + 1 + WireSize(rest)
    case Pointer(_, _) => 2
  }

  predicate Letter(x: Byte) { 65 <= x <= 90 }

  /** The letters from A to Z. */
  lemma LetterExact(x: Byte)
    ensures Letter(x) <==> 'A' <= x as char <= 'Z'
  {
  }

  /** b' is b with new bytes, neither ends nor pointers, at places of c. */
  ghost predicate Masked(b: seq<Byte>, b': seq<Byte>, c: set<nat>) {
    && |b'| == |b|
    && forall i :: 0 <= i < |b| ==> if i in c then 0 < b'[i] < 192 else b'[i] == b[i]
  }

  /** New bytes at places without structure leave a name as it was laid out. */
  lemma {:induction false} MaskedDecodes(b: seq<Byte>, b': seq<Byte>, c: set<nat>, at: nat, path: Path)
    requires Masked(b, b', c) && Decodes(b, at, path) && c !! Structure(at, path)
    ensures Decodes(b', at, path)
    decreases path
  {
    match path
    case End =>
    case Label(len, rest) =>
      MaskedDecodes(b, b', c, at + len + 1, rest);
    case Pointer(target, rest) =>
      MaskedDecodes(b, b', c, target, rest);
  }

  ghost predicate Over(ahead: set<nat>) { true }

  /** All contents but those ahead have been overwritten by letters, and nothing else has changed. */
  ghost predicate Scrubbed(b: seq<Byte>, b': seq<Byte>, c: set<nat>, ahead: set<nat>) {
    |b'| == |b| && forall s {:trigger Over(s)} :: Over(s) && s == ahead ==>
      && Masked(b, b', c)
      && forall i :: 0 <= i < |b'| && i in c && i !in ahead ==> Letter(b'[i])
  }

  lemma OpenScrubbed(b: seq<Byte>, b': seq<Byte>, c: set<nat>, ahead: set<nat>)
    requires Scrubbed(b, b', c, ahead)
    ensures Masked(b, b', c)
    ensures forall i :: 0 <= i < |b'| && i in c && i !in ahead ==> Letter(b'[i])
  {
    assert Over(ahead);
  }

  // ----- ReadName -----

  /** What the loop of `ReadName` meets, byte by byte: an end or a pointer counts as such also inside a
      label, and a label goes on behind a pointer. */
  datatype Walk = Stop | Length(size: nat, rest: Walk) | Inner(rest: Walk) | Jump(target: nat, rest: Walk)

  /** The loop meets w from a place on, with `todo` bytes of the current label left. */
  ghost predicate Walks(b: seq<Byte>, at: nat, todo: nat, w: Walk)
    decreases w
  {
    match w
    case Stop => at < |b| && b[at] == 0
    case Length(size, rest) => todo == 0 && at < |b| && 0 < b[at] == size < 192 && Walks(b, at + 1, size, rest)
    case Inner(rest) => todo > 0 && at < |b| && 0 < b[at] < 192 && Walks(b, at + 1, todo - 1, rest)
    case Jump(target, rest) =>
      && at + 1 < |b| && b[at] >= 192 && Target(b, at) == target
      && Walks(b, target, todo, rest)
  }

  /** The places that direct the loop. */
  ghost function Kept(at: nat, w: Walk): set<nat>
    decreases w
  {
    match w
    case Stop => {at}
    case Length(_, rest) => {at} + Kept(at + 1, rest)
    case Inner(rest) => Kept(at + 1, rest)
    case Jump(target, rest) => {at, at + 1} + Kept(target, rest)
  }

  /** The places where it writes. */
  ghost function Overwritten(at: nat, w: Walk): set<nat>
    decreases w
  {
    match w
    case Stop => {}
    case Length(_, rest) => Overwritten(at + 1, rest)
    case Inner(rest) => {at} + Overwritten(at + 1, rest)
    case Jump(target, rest) => Overwritten(target, rest)
  }

  /** The bytes up to the end or the first pointer, with that. */
  function InPlace(w: Walk): nat {
    match w
    case Stop => 1
    case Length(_, rest) => 1 + InPlace(rest)
    case Inner(rest) => 1 + InPlace(rest)
    case Jump(_, _) => 2
  }

  // Trigger of `Reading`, so that it unfolds only where a proof asks.
  ghost predicate Ask(reader: nat) { true }

  /** Where a reader stands in a walk over the message b that writes in c, and the places ahead of it. */
  ghost predicate Reading(b: seq<Byte>, c: set<nat>, reader: nat, todo: nat, rest: Walk, ahead: set<nat>) {
    reader < |b| && forall r {:trigger Ask(r)} :: Ask(r) && r == reader ==>
      && Walks(b, reader, todo, rest)
      && Kept(reader, rest) !! c
      && ahead == Overwritten(reader, rest) <= c
  }

  lemma StartReading(b: seq<Byte>, at: nat, w: Walk)
    requires Walks(b, at, 0, w) && Overwritten(at, w) !! Kept(at, w)
    ensures Reading(b, Overwritten(at, w), at, 0, w, Overwritten(at, w))
    ensures Scrubbed(b, b, Overwritten(at, w), Overwritten(at, w))
  {
    WalkMasked(b, at, 0, w);
  }

  lemma {:induction false} WalkMasked(b: seq<Byte>, at: nat, todo: nat, w: Walk)
    requires Walks(b, at, todo, w)
    ensures Masked(b, b, Overwritten(at, w))
    decreases w
  {
    match w
    case Stop =>
    case Length(size, rest) =>
      WalkMasked(b, at + 1, size, rest);
    case Inner(rest) =>
      WalkMasked(b, at + 1, todo - 1, rest);
    case Jump(target, rest) =>
      WalkMasked(b, target, todo, rest);
  }

  lemma WalksInside(b: seq<Byte>, at: nat, todo: nat, w: Walk)
    requires Walks(b, at, todo, w)
    ensures at < |b|
  {
  }

  /** What the next byte is tells where the reader stands. */
  lemma NextByte(b: seq<Byte>, b': seq<Byte>, c: set<nat>, ahead: set<nat>, reader: nat, todo: nat, rest: Walk)
    requires Reading(b, c, reader, todo, rest, ahead) && Scrubbed(b, b', c, ahead)
    ensures b'[reader] == 0 <==> rest.Stop?
    ensures b'[reader] >= 192 <==> rest.Jump?
    ensures 0 < b'[reader] < 192 ==> if todo == 0 then rest.Length? else rest.Inner?
    ensures rest.Stop? ==> ahead == {}
  {
    OpenScrubbed(b, b', c, ahead);
    assert Ask(reader);
  }

  lemma AtPointer(b: seq<Byte>, b': seq<Byte>, c: set<nat>, ahead: set<nat>, reader: nat, todo: nat, rest: Walk)
    requires Reading(b, c, reader, todo, rest, ahead) && rest.Jump? && Scrubbed(b, b', c, ahead)
    ensures reader + 1 < |b|
    ensures Target(b', reader) == rest.target && Reading(b, c, rest.target, todo, rest.rest, ahead)
  {
    assert Ask(reader);
    OpenScrubbed(b, b', c, ahead);
    WalksInside(b, rest.target, todo, rest.rest);
  }

  lemma AtLength(b: seq<Byte>, b': seq<Byte>, c: set<nat>, ahead: set<nat>, reader: nat, todo: nat, rest: Walk)
    requires Reading(b, c, reader, todo, rest, ahead) && rest.Length? && Scrubbed(b, b', c, ahead)
    ensures b'[reader] == rest.size && Reading(b, c, reader + 1, rest.size, rest.rest, ahead)
  {
    assert Ask(reader);
    OpenScrubbed(b, b', c, ahead);
    WalksInside(b, reader + 1, rest.size, rest.rest);
  }

  lemma AtContent(b: seq<Byte>, c: set<nat>, ahead: set<nat>, reader: nat, todo: nat, rest: Walk)
    returns (next: set<nat>)
    requires Reading(b, c, reader, todo, rest, ahead) && rest.Inner?
    ensures reader in c && todo > 0
    ensures ahead == {reader} + next && Reading(b, c, reader + 1, todo - 1, rest.rest, next)
  {
    next := Overwritten(reader + 1, rest.rest);
    assert Ask(reader);
    WalksInside(b, reader + 1, todo - 1, rest.rest);
  }

  lemma ScrubOne(b: seq<Byte>, b': seq<Byte>, c: set<nat>, ahead: set<nat>, i: nat, r: Byte)
    requires Scrubbed(b, b', c, {i} + ahead) && i < |b'| && i in c && Letter(r)
    ensures Scrubbed(b, b'[i := r], c, ahead)
  {
    OpenScrubbed(b, b', c, {i} + ahead);
  }

  /** `randChar`: any letter. */
  method RandChar() returns (r: Byte)
    ensures Letter(r)
  {
    var n: int :| 0 <= n < 26;
    r := 65 + n;
  }

  /** One content byte becomes a letter. */
  method Overwrite(buffer: array<Byte>, i: nat, ghost b: seq<Byte>, ghost c: set<nat>, ghost ahead: set<nat>)
    requires Scrubbed(b, buffer[..], c, {i} + ahead) && i < buffer.Length && i in c
    modifies buffer
    ensures Scrubbed(b, buffer[..], c, ahead)
  {
    var r := RandChar();
    ScrubOne(b, buffer[..], c, ahead, i, r);
    ghost var b' := buffer[..];
    buffer[i] := r;
    assert buffer[..] == b'[i := r];
  }

  /** `ReadName`: overwrites exactly the places inside labels, as it meets them, and counts the bytes of
      the name in place. */
  method ReadName(buffer: array<Byte>, start: nat, ghost w: Walk) returns (count: int)
    requires Walks(buffer[..], start, 0, w) && Overwritten(start, w) !! Kept(start, w)
    modifies buffer
    ensures Scrubbed(old(buffer[..]), buffer[..], Overwritten(start, w), {})
    ensures count == InPlace(w)
  {
    StartReading(buffer[..], start, w);
    count := ReadLoop(buffer, start, w, Overwritten(start, w));
  }

  method ReadLoop(buffer: array<Byte>, start: nat, ghost w: Walk, ghost c: set<nat>) returns (count: int)
    requires Reading(buffer[..], c, start, 0, w, c) && Scrubbed(buffer[..], buffer[..], c, c)
    modifies buffer
    ensures Scrubbed(old(buffer[..]), buffer[..], c, {})
    ensures count == InPlace(w)
  {
    ghost var b, todo, rest, ahead := buffer[..], 0, w, c;
    var reader: int, jumped: bool := start, false;
    var first: int, ctrl: int, cnt: int := 0, 0, 0;
    count := 1;
    while buffer[reader] != 0
      invariant 0 <= reader && 0 <= todo && Reading(b, c, reader, todo, rest, ahead)
      invariant if ctrl == 0 then first == 0 && todo == 0 else ctrl == 1 && todo == cnt - first
      invariant Scrubbed(b, buffer[..], c, ahead)
      invariant if jumped then count + 1 == InPlace(w) else count + InPlace(rest) - 1 == InPlace(w)
      decreases rest
    {
      NextByte(b, buffer[..], c, ahead, reader, todo, rest);
      if buffer[reader] >= 192 {
        AtPointer(b, buffer[..], c, ahead, reader, todo, rest);
        var offset := Target(buffer[..], reader);
        reader := offset - 1;
        jumped := true;
      } else if first == 0 && ctrl == 0 {
        AtLength(b, buffer[..], c, ahead, reader, todo, rest);
        cnt := buffer[reader];
        ctrl := ctrl + 1;
        todo := rest.size;
      } else if first == cnt {
        AtLength(b, buffer[..], c, ahead, reader, todo, rest);
        first := 0;
        cnt := buffer[reader];
        todo := rest.size;
      } else {
        ghost var next := AtContent(b, c, ahead, reader, todo, rest);
        Overwrite(buffer, reader, b, c, next);
        ahead := next;
        first := first + 1;
        todo := todo - 1;
      }
      rest := rest.rest;
      reader := reader + 1;
      if !jumped {
        count := count + 1;
      }
    }
    NextByte(b, buffer[..], c, ahead, reader, todo, rest);
    if jumped {
      count := count + 1;
    }
  }

  // ----- What the walk does to a name -----

  /** The bytes of a label, and what follows it. */
  function WithInner(n: nat, w: Walk): Walk {
    if n == 0 then w else Inner(WithInner(n - 1, w))
  }

  function WalkOf(path: Path): Walk {
    match path
    case End => Stop
    case Label(len, rest) => Length(len, WithInner(len, WalkOf(rest)))
    case Pointer(target, rest) => Jump(target, WalkOf(rest))
  }

  lemma {:induction false} WithInnerWalks(b: seq<Byte>, at: nat, n: nat, w: Walk)
    requires Walks(b, at + n, 0, w) && at + n < |b| && forall i :: at <= i < at + n ==> 0 < b[i] < 192
    ensures Walks(b, at, n, WithInner(n, w))
    decreases n
  {
    if n > 0 {
      assert at + n == at + 1 + (n - 1);
      WithInnerWalks(b, at + 1, n - 1, w);
    }
  }

  lemma {:induction false} WithInnerIs(at: nat, n: nat, w: Walk)
    ensures Overwritten(at, WithInner(n, w)) == Span(at, at + n) + Overwritten(at + n, w)
    ensures Kept(at, WithInner(n, w)) == Kept(at + n, w) && InPlace(WithInner(n, w)) == n + InPlace(w)
    decreases n
  {
    if n > 0 {
      assert at + n == at + 1 + (n - 1);
      WithInnerIs(at + 1, n - 1, w);
      SpanFirst(at, at + n);
    } else {
      assert Span(at, at) == {};
    }
  }

  lemma SpanFirst(lo: nat, hi: nat)
    requires lo < hi
    ensures Span(lo, hi) == {lo} + Span(lo + 1, hi)
  {
  }

  /** A name that decodes is walked as it is laid out. */
  lemma {:induction false} DecodesWalks(b: seq<Byte>, at: nat, path: Path)
    requires Decodes(b, at, path)
    ensures Walks(b, at, 0, WalkOf(path))
    decreases path
  {
    match path
    case End =>
    case Label(len, rest) =>
      DecodesWalks(b, at + len + 1, rest);
      WalksInside(b, at + len + 1, 0, WalkOf(rest));
      WithInnerWalks(b, at + 1, len, WalkOf(rest));
    case Pointer(target, rest) =>
      DecodesWalks(b, target, rest);
  }

  lemma LabelIs(at: nat, len: nat, w: Walk)
    ensures Overwritten(at, Length(len, WithInner(len, w))) == Span(at + 1, at + len + 1) + Overwritten(at + len + 1, w)
    ensures Kept(at, Length(len, WithInner(len, w))) == {at} + Kept(at + len + 1, w)
    ensures InPlace(Length(len, WithInner(len, w))) == len + 1 + InPlace(w)
  {
    var inner := WithInner(len, w);
    WithInnerIs(at + 1, len, w);
    assert InPlace(Length(len, inner)) == 1 + InPlace(inner);
  }

  lemma {:induction false} WalkOfIs(at: nat, path: Path)
    ensures Overwritten(at, WalkOf(path)) == Content(at, path) && Kept(at, WalkOf(path)) == Structure(at, path)
    ensures InPlace(WalkOf(path)) == WireSize(path)
    decreases path
  {
    match path
    case End =>
    case Label(len, rest) =>
      WalkOfIs(at + len + 1, rest);
      LabelIs(at, len, WalkOf(rest));
    case Pointer(target, rest) =>
      WalkOfIs(target, rest);
  }

  /** There is one walk from a place. */
  lemma {:induction false} OneWalk(b: seq<Byte>, at: nat, todo: nat, w: Walk, v: Walk)
    requires Walks(b, at, todo, w) && Walks(b, at, todo, v)
    ensures w == v
    decreases w
  {
    match w
    case Stop =>
    case Length(size, rest) =>
      OneWalk(b, at + 1, size, rest, v.rest);
    case Inner(rest) =>
      OneWalk(b, at + 1, todo - 1, rest, v.rest);
    case Jump(target, rest) =>
      OneWalk(b, target, todo, rest, v.rest);
  }

  /** No byte inside a label looks like an end or a pointer. */
  ghost predicate Clean(b: seq<Byte>, at: nat, path: Path) {
    forall i :: i in Content(at, path) && i < |b| ==> 0 < b[i] < 192
  }

  lemma {:induction false} CleanDecodes(b: seq<Byte>, at: nat, path: Path)
    requires LaidOut(b, at, path) && Clean(b, at, path)
    ensures Decodes(b, at, path)
    decreases path
  {
    match path
    case End =>
    case Label(len, rest) =>
      CleanDecodes(b, at + len + 1, rest);
      forall i | at < i <= at + len ensures 0 < b[i] < 192 {
        assert Within(at + 1, i, at + len + 1) && i in Content(at, path);
      }
    case Pointer(target, rest) =>
      CleanDecodes(b, target, rest);
  }

  /** The walk overwrites exactly the contents of a name exactly when no byte inside a label looks like
      an end or a pointer. */
  lemma OverwritesContents(b: seq<Byte>, at: nat, path: Path, w: Walk)
    requires LaidOut(b, at, path) && Walks(b, at, 0, w)
    ensures Overwritten(at, w) == Content(at, path) <==> Clean(b, at, path)
  {
    if Clean(b, at, path) {
      CleanDecodes(b, at, path);
      DecodesWalks(b, at, path);
      WalkOfIs(at, path);
      OneWalk(b, at, 0, w, WalkOf(path));
    }
    WalkMasked(b, at, 0, w);
  }

  /** A zero byte inside a label ends the walk: the letter behind it stays. */
  lemma LetterStays(x: Byte)
    requires Letter(x)
    ensures var b: seq<Byte>, path, w := [2, 0, x, 0], Label(2, End), Length(2, Stop);
      LaidOut(b, 0, path) && Walks(b, 0, 0, w) && 2 in Content(0, path) && Overwritten(0, w) == {}
  {
    assert 2 in Span(1, 3);
  }

  // ----- Messages -----

  /** A name of a message: where it starts, and how it is laid out. */
  datatype Name = Name(at: nat, path: Path)

  ghost predicate Apart(x: Name, y: Name) {
    Content(x.at, x.path) !! Structure(y.at, y.path)
  }

  /** All the names decode, and no byte is structure of one and content of another, or of itself. */
  ghost predicate Message(b: seq<Byte>, names: set<Name>) {
    && (forall x :: x in names ==> Decodes(b, x.at, x.path))
    && (forall x, y {:trigger Apart(x, y)} :: x in names && y in names ==> Apart(x, y))
  }

  /** Scrubbing one name changes no length, pointer or end of any name. */
  lemma ScrubKeeps(b: seq<Byte>, b': seq<Byte>, names: set<Name>, x: Name)
    requires Message(b, names) && x in names && Scrubbed(b, b', Content(x.at, x.path), {})
    ensures Message(b', names)
    ensures forall y, i :: y in names && i in Structure(y.at, y.path) && i < |b| ==> b'[i] == b[i]
  {
    var c := Content(x.at, x.path);
    OpenScrubbed(b, b', c, {});
    forall y | y in names
      ensures Decodes(b', y.at, y.path) && forall i :: i in Structure(y.at, y.path) && i < |b| ==> b'[i] == b[i]
    {
      assert Apart(x, y);
      MaskedDecodes(b, b', c, y.at, y.path);
    }
  }

  /** A run of scrubs: the message before and after each, and the name scrubbed. */
  ghost predicate ScrubRun(messages: seq<seq<Byte>>, scrubbed: seq<Name>) {
    && |messages| == |scrubbed| + 1
    && forall t :: 0 <= t < |scrubbed| ==>
      Scrubbed(messages[t], messages[t + 1], Content(scrubbed[t].at, scrubbed[t].path), {})
  }

  /** After any run of scrubs every name decodes to its layout with unchanged structure bytes, and
      every content of a scrubbed name is a letter. */
  lemma {:induction false} RunKeeps(messages: seq<seq<Byte>>, scrubbed: seq<Name>, names: set<Name>)
    requires ScrubRun(messages, scrubbed) && Message(messages[0], names)
    requires forall t :: 0 <= t < |scrubbed| ==> scrubbed[t] in names
    ensures var last := messages[|scrubbed|];
      && Message(last, names) && |last| == |messages[0]|
      && (forall y, i :: y in names && i in Structure(y.at, y.path) && i < |last| ==> last[i] == messages[0][i])
      && (forall t, i :: 0 <= t < |scrubbed| && i in Content(scrubbed[t].at, scrubbed[t].path) && i < |last| ==>
            Letter(last[i]))
    decreases |scrubbed|
  {
    if scrubbed != [] {
      var n := |scrubbed| - 1;
      var x := scrubbed[n];
      RunKeeps(messages[..n + 1], scrubbed[..n], names);
      ScrubKeeps(messages[n], messages[n + 1], names, x);
      OpenScrubbed(messages[n], messages[n + 1], Content(x.at, x.path), {});
      assert messages[..n + 1][n] == messages[n];
      forall t, i | 0 <= t < |scrubbed| && i in Content(scrubbed[t].at, scrubbed[t].path) && i < |messages[n + 1]|
        ensures Letter(messages[n + 1][i])
      {
        if t < n {
          assert scrubbed[..n][t] == scrubbed[t];
        }
      }
    }
  }

  // ----- Names without pointers -----

  /** A name without pointers, with length bytes that are not negative as a signed char. */
  predicate Plain(path: Path) {
    match path
    case End => true
    case Label(len, rest) => len < 128 && Plain(rest)
    case Pointer(_, _) => false
  }

  /** A plain name lies in one stretch. */
  lemma {:induction false} PlainSpan(at: nat, path: Path)
    requires Plain(path)
    ensures Structure(at, path) <= Span(at, at + WireSize(path)) && Content(at, path) <= Span(at, at + WireSize(path))
    ensures Content(at, path) !! Structure(at, path)
    decreases path
  {
    if path.Label? {
      var next := at + path.len + 1;
      PlainSpan(next, path.rest);
      forall i | i in Content(at, path) ensures at < i < at + WireSize(path) && i !in Structure(at, path) {
        if i in Content(next, path.rest) {
          assert i in Span(next, next + WireSize(path.rest));
        } else {
          assert i in Span(at + 1, next);
          assert i !in Span(next, next + WireSize(path.rest));
        }
      }
      forall i | i in Structure(at, path) ensures at <= i < at + WireSize(path) {
        if i != at {
          assert i in Span(next, next + WireSize(path.rest));
        }
      }
    }
  }
}
