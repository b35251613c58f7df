/**
 Names as RFC 1035 writes them into a message (sections 3.1 and 4.1.4), and that the scrub reads them as they
 were written.
 */
module DnsPrint {
  import opened DnsScrub
  import Q = DnsQuestion

  // ----- Pointers -----

  /** A pointer to t, for every t below 2^14: 0xc0 with the six high bits of t, and the eight low ones. Only these
      two bytes lead to t. */
  lemma {:induction false} PointerExact(b: seq<Byte>, at: nat, t: nat)
    requires at + 1 < |b| && t < 0x4000
    ensures b[at] == 0xc0 + t / 256 && b[at + 1] == t % 256 <==> b[at] >= 192 && Target(b, at) == t
  {
    var hi: int, lo: int := b[at], b[at + 1];
    assert hi * 256 + lo - 49152 == (hi - 192) * 256 + lo;
    if hi >= 192 && Target(b, at) == t {
      assert t == (hi - 192) * 256 + lo;
    }
  }

  // ----- Written names -----

  /** How a name ends: with a null, or by pointing to a label (or the end) of an earlier name. */
  datatype Tail = Null | To(name: nat, start: nat)

  /** Other bytes of the message, the labels of a name behind them, and its end. */
  datatype Written = Written(before: seq<Byte>, labels: seq<seq<Byte>>, tail: Tail)

  /** The bytes of the first n labels, with their length bytes. */
  function Offset(labels: seq<seq<Byte>>, n: nat): (size: nat)
    requires n <= |labels|
  {
    if n == 0 then 0 else Offset(labels, n - 1) + 1 + |labels[n - 1]|
  }

  function Size(w: Written): nat {
    |w.before| + Offset(w.labels, |w.labels|) + if w.tail.Null? then 1 else 2
  }

  function Sizes(ws: seq<Written>, n: nat): nat
    requires n <= |ws|
  {
    if n == 0 then 0 else Sizes(ws, n - 1) + Size(ws[n - 1])
  }

  /** Where label l of name i starts, or its end if l is the number of its labels. */
  function Place(ws: seq<Written>, i: nat, l: nat): nat
    requires i < |ws| && l <= |ws[i].labels|
  {
    Sizes(ws, i) + |ws[i].before| + Offset(ws[i].labels, l)
  }

  ghost predicate Look(i: nat) { true }

  /** Labels have lengths from 1 on, and pointers lead to earlier names and fit into 14 bits;
      used where a proof asks. */
  ghost predicate Writable(ws: seq<Written>) {
    forall i: nat {:trigger Look(i)} :: Look(i) && i < |ws| ==>
      && (forall l :: 0 <= l < |ws[i].labels| ==> 0 < |ws[i].labels[l]| < 192)
      && (ws[i].tail.To? ==>
            var t := ws[i].tail;
            t.name < i && t.start <= |ws[t.name].labels| && Place(ws, t.name, t.start) < 0x4000)
  }

  function Digit(n: nat): Byte {
    n % 256
  }

  function LabelsText(labels: seq<seq<Byte>>, n: nat): (s: seq<Byte>)
    requires n <= |labels|
    ensures |s| == Offset(labels, n)
  {
    if n == 0 then [] else LabelsText(labels, n - 1) + [Digit(|labels[n - 1]|)] + labels[n - 1]
  }

  function TailText(ws: seq<Written>, i: nat): (s: seq<Byte>)
    requires Writable(ws) && i < |ws|
    ensures |s| == if ws[i].tail.Null? then 1 else 2
  {
    if ws[i].tail.Null? then [0]
    else
      assert Look(i);
      var t := Place(ws, ws[i].tail.name, ws[i].tail.start);
      [0xc0 + t / 256, t % 256]
  }

  function NameText(ws: seq<Written>, i: nat): (s: seq<Byte>)
    requires Writable(ws) && i < |ws|
    ensures |ws[i].before| + |s| == Size(ws[i])
  {
    LabelsText(ws[i].labels, |ws[i].labels|) + TailText(ws, i)
  }

  /** The message up to the end of name n - 1. */
  function Text(ws: seq<Written>, n: nat): (s: seq<Byte>)
    requires Writable(ws) && n <= |ws|
    ensures |s| == Sizes(ws, n)
  {
    if n == 0 then [] else Text(ws, n - 1) + (ws[n - 1].before + NameText(ws, n - 1))
  }

  /** The path a name was written from, from label l on. */
  function PathOf(ws: seq<Written>, i: nat, l: nat): Path
    requires Writable(ws) && i < |ws| && l <= |ws[i].labels|
    decreases i, |ws[i].labels| - l
  {
    if l < |ws[i].labels| then Label(|ws[i].labels[l]|, PathOf(ws, i, l + 1))
    else if ws[i].tail.Null? then End
    else
      assert Look(i);
      var t := ws[i].tail;
      Pointer(Place(ws, t.name, t.start), PathOf(ws, t.name, t.start))
  }

  // ----- What stands where -----

  ghost predicate Ask(at: nat) { true }

  /** s stands in b at a place; used where a proof asks. */
  ghost predicate Holds(b: seq<Byte>, at: nat, s: seq<Byte>) {
    at + |s| <= |b| && forall a: nat {:trigger Ask(a)} :: Ask(a) && a == at ==> b[a..a + |s|] == s
  }

  lemma {:induction false} HeldAt(b: seq<Byte>, at: nat, s: seq<Byte>, x: nat)
    requires Holds(b, at, s) && x < |s|
    ensures b[at + x] == s[x]
  {
    assert Ask(at);
    assert b[at..at + |s|][x] == b[at + x];
  }

  lemma {:induction false} HoldsPart(b: seq<Byte>, at: nat, s: seq<Byte>, o: nat, r: seq<Byte>)
    requires Holds(b, at, s) && Holds(s, o, r)
    ensures Holds(b, at + o, r)
  {
    forall x: nat | x < |r| ensures b[at + o..at + o + |r|][x] == r[x] {
      HeldAt(s, o, r, x);
      HeldAt(b, at, s, o + x);
    }
    assert b[at + o..at + o + |r|] == r;
  }

  lemma {:induction false} HoldsFirst(s: seq<Byte>, r: seq<Byte>)
    ensures Holds(s + r, 0, s) && Holds(s + r, |s|, r)
  {
  }

  lemma {:induction false} LabelInText(labels: seq<seq<Byte>>, n: nat, l: nat)
    requires l < n <= |labels|
    ensures Holds(LabelsText(labels, n), Offset(labels, l), [Digit(|labels[l]|)] + labels[l])
  {
    var s, r := LabelsText(labels, n - 1), [Digit(|labels[n - 1]|)] + labels[n - 1];
    assert LabelsText(labels, n) == s + r;
    HoldsFirst(s, r);
    if l < n - 1 {
      LabelInText(labels, n - 1, l);
      HoldsPart(s + r, 0, s, Offset(labels, l), [Digit(|labels[l]|)] + labels[l]);
    }
  }

  lemma {:induction false} LastName(ws: seq<Written>, n: nat)
    requires Writable(ws) && n < |ws|
    ensures Holds(Text(ws, n + 1), Place(ws, n, 0), NameText(ws, n))
  {
    var s, before, r := Text(ws, n), ws[n].before, NameText(ws, n);
    HoldsFirst(s, before + r);
    HoldsFirst(before, r);
    HoldsPart(s + (before + r), |s|, before + r, |before|, r);
  }

  lemma {:induction false} EarlierText(ws: seq<Written>, n: nat)
    requires Writable(ws) && n < |ws|
    ensures Holds(Text(ws, n + 1), 0, Text(ws, n))
  {
    HoldsFirst(Text(ws, n), ws[n].before + NameText(ws, n));
  }

  /** Name i, in the text of the first n names. */
  lemma {:induction false} NameInText(ws: seq<Written>, n: nat, i: nat)
    requires Writable(ws) && i < n <= |ws|
    ensures Holds(Text(ws, n), Place(ws, i, 0), NameText(ws, i))
  {
    if i < n - 1 {
      NameInText(ws, n - 1, i);
      EarlierText(ws, n - 1);
      HoldsPart(Text(ws, n), 0, Text(ws, n - 1), Place(ws, i, 0), NameText(ws, i));
    } else {
      LastName(ws, i);
    }
  }

  lemma {:induction false} LabelHeld(ws: seq<Written>, i: nat, l: nat)
    requires Writable(ws) && i < |ws| && l < |ws[i].labels|
    ensures Holds(Text(ws, |ws|), Place(ws, i, l), [Digit(|ws[i].labels[l]|)] + ws[i].labels[l])
  {
    var labels := ws[i].labels;
    var s, r := LabelsText(labels, |labels|), [Digit(|labels[l]|)] + labels[l];
    NameInText(ws, |ws|, i);
    HoldsFirst(s, TailText(ws, i));
    HoldsPart(Text(ws, |ws|), Place(ws, i, 0), NameText(ws, i), 0, s);
    LabelInText(labels, |labels|, l);
    HoldsPart(Text(ws, |ws|), Place(ws, i, 0), s, Offset(labels, l), r);
  }

  lemma {:induction false} LabelByte(ws: seq<Written>, i: nat, l: nat, x: nat)
    requires Writable(ws) && i < |ws| && l < |ws[i].labels| && x <= |ws[i].labels[l]|
    ensures var b, at, bytes := Text(ws, |ws|), Place(ws, i, l), ws[i].labels[l];
      at + x < |b| && b[at + x] == if x == 0 then |bytes| else bytes[x - 1]
  {
    LabelHeld(ws, i, l);
    LabelFits(ws, i, l);
    HeldAt(Text(ws, |ws|), Place(ws, i, l), [Digit(|ws[i].labels[l]|)] + ws[i].labels[l], x);
  }

  /** Label l of name i, with its length byte. */
  lemma {:induction false} LabelSlice(ws: seq<Written>, i: nat, l: nat)
    requires Writable(ws) && i < |ws| && l < |ws[i].labels|
    ensures var b, at, bytes := Text(ws, |ws|), Place(ws, i, l), ws[i].labels[l];
      at + 1 + |bytes| <= |b| && b[at..at + 1 + |bytes|] == [Digit(|bytes|)] + bytes
  {
    LabelHeld(ws, i, l);
    assert Ask(Place(ws, i, l));
  }

  lemma {:induction false} LabelFits(ws: seq<Written>, i: nat, l: nat)
    requires Writable(ws) && i < |ws| && l < |ws[i].labels|
    ensures 0 < |ws[i].labels[l]| < 192 && Digit(|ws[i].labels[l]|) == |ws[i].labels[l]|
  {
    assert Look(i);
  }

  lemma {:induction false} LabelEnds(ws: seq<Written>, i: nat, l: nat)
    requires Writable(ws) && i < |ws| && l < |ws[i].labels|
    ensures Place(ws, i, l + 1) == Place(ws, i, l) + 1 + |ws[i].labels[l]|
  {
  }

  lemma {:induction false} TailAt(ws: seq<Written>, i: nat)
    requires Writable(ws) && i < |ws|
    ensures Holds(Text(ws, |ws|), Place(ws, i, |ws[i].labels|), TailText(ws, i))
  {
    var s := LabelsText(ws[i].labels, |ws[i].labels|);
    NameInText(ws, |ws|, i);
    HoldsFirst(s, TailText(ws, i));
    HoldsPart(Text(ws, |ws|), Place(ws, i, 0), NameText(ws, i), |s|, TailText(ws, i));
  }

  ghost predicate AskPath(at: nat) { true }

  /** A name is laid out at a place; used where a proof asks. */
  ghost predicate Lies(b: seq<Byte>, at: nat, path: Path) {
    forall a: nat {:trigger AskPath(a)} :: AskPath(a) && a == at ==> LaidOut(b, a, path)
  }

  lemma {:induction false} NullLies(ws: seq<Written>, i: nat)
    requires Writable(ws) && i < |ws| && ws[i].tail.Null?
    ensures Lies(Text(ws, |ws|), Place(ws, i, |ws[i].labels|), End)
  {
    NullAt(ws, i);
  }

  lemma {:induction false} NullAt(ws: seq<Written>, i: nat)
    requires Writable(ws) && i < |ws| && ws[i].tail.Null?
    ensures var b, at := Text(ws, |ws|), Place(ws, i, |ws[i].labels|); at < |b| && b[at] == 0
  {
    TailAt(ws, i);
    HeldAt(Text(ws, |ws|), Place(ws, i, |ws[i].labels|), TailText(ws, i), 0);
  }

  lemma {:induction false} PointerLies(ws: seq<Written>, i: nat, p: nat, path: Path)
    requires Writable(ws) && i < |ws| && ws[i].tail.To? && ws[i].tail.name < |ws|
    requires ws[i].tail.start <= |ws[ws[i].tail.name].labels| && p == Place(ws, ws[i].tail.name, ws[i].tail.start)
    requires Lies(Text(ws, |ws|), p, path)
    ensures Lies(Text(ws, |ws|), Place(ws, i, |ws[i].labels|), Pointer(p, path))
  {
    assert Look(i) && AskPath(p);
    var b, at := Text(ws, |ws|), Place(ws, i, |ws[i].labels|);
    TailAt(ws, i);
    HeldAt(b, at, TailText(ws, i), 0);
    HeldAt(b, at, TailText(ws, i), 1);
    PointerExact(b, at, p);
  }

  lemma {:induction false} LabelLies(b: seq<Byte>, at: nat, bytes: seq<Byte>, path: Path)
    requires 0 < |bytes| < 192 && at + 1 + |bytes| <= |b| && b[at..at + 1 + |bytes|] == [Digit(|bytes|)] + bytes
    requires Lies(b, at + 1 + |bytes|, path)
    ensures Lies(b, at, Label(|bytes|, path))
  {
    assert AskPath(at + 1 + |bytes|);
    assert b[at] == b[at..at + 1 + |bytes|][0];
    assert at + |bytes| + 1 == at + 1 + |bytes|;
  }

  lemma {:induction false} WrittenLies(ws: seq<Written>, i: nat, l: nat)
    requires Writable(ws) && i < |ws| && l <= |ws[i].labels|
    ensures Lies(Text(ws, |ws|), Place(ws, i, l), PathOf(ws, i, l))
    decreases i, |ws[i].labels| - l
  {
    if l < |ws[i].labels| {
      LabelSlice(ws, i, l);
      LabelFits(ws, i, l);
      LabelEnds(ws, i, l);
      WrittenLies(ws, i, l + 1);
      LabelLies(Text(ws, |ws|), Place(ws, i, l), ws[i].labels[l], PathOf(ws, i, l + 1));
    } else if ws[i].tail.Null? {
      NullLies(ws, i);
    } else {
      assert Look(i);
      var t := ws[i].tail;
      WrittenLies(ws, t.name, t.start);
      PointerLies(ws, i, Place(ws, t.name, t.start), PathOf(ws, t.name, t.start));
    }
  }

  /** Every name, from every label on, is laid out by the path it was written from. */
  lemma {:induction false} WrittenIsLaidOut(ws: seq<Written>, i: nat, l: nat)
    requires Writable(ws) && i < |ws| && l <= |ws[i].labels|
    ensures LaidOut(Text(ws, |ws|), Place(ws, i, l), PathOf(ws, i, l))
  {
    WrittenLies(ws, i, l);
    assert AskPath(Place(ws, i, l));
  }

  // ----- Contents and marks are apart -----

  /** A byte inside label l of name i. */
  ghost predicate InLabel(ws: seq<Written>, i: nat, l: nat, p: nat) {
    i < |ws| && l < |ws[i].labels| && Place(ws, i, l) < p <= Place(ws, i, l) + |ws[i].labels[l]|
  }

  /** A length byte, or a byte of the end of name i. */
  ghost predicate IsMark(ws: seq<Written>, i: nat, l: nat, p: nat) {
    && i < |ws| && l <= |ws[i].labels|
    && (p == Place(ws, i, l) || (l == |ws[i].labels| && ws[i].tail.To? && p == Place(ws, i, l) + 1))
  }

  lemma {:induction false} OffsetGrows(labels: seq<seq<Byte>>, l: nat, m: nat)
    requires l < m <= |labels|
    ensures Offset(labels, l) + 1 + |labels[l]| <= Offset(labels, m)
  {
    if l < m - 1 {
      OffsetGrows(labels, l, m - 1);
    }
  }

  lemma {:induction false} SizesGrow(ws: seq<Written>, i: nat, j: nat)
    requires i < j <= |ws|
    ensures Sizes(ws, i) + Size(ws[i]) <= Sizes(ws, j)
  {
    if i < j - 1 {
      SizesGrow(ws, i, j - 1);
    }
  }

  lemma {:induction false} PlaceInside(ws: seq<Written>, i: nat, l: nat)
    requires i < |ws| && l <= |ws[i].labels|
    ensures Sizes(ws, i) <= Place(ws, i, l)
    ensures l < |ws[i].labels| ==> Place(ws, i, l) + |ws[i].labels[l]| < Sizes(ws, i) + Size(ws[i])
    ensures l == |ws[i].labels| ==> Place(ws, i, l) + (if ws[i].tail.To? then 1 else 0) < Sizes(ws, i) + Size(ws[i])
  {
    if l < |ws[i].labels| {
      OffsetGrows(ws[i].labels, l, |ws[i].labels|);
    }
  }

  lemma {:induction false} MarkIsNoContent(ws: seq<Written>, i: nat, l: nat, j: nat, m: nat, p: nat)
    requires InLabel(ws, i, l, p)
    ensures !IsMark(ws, j, m, p)
  {
    if IsMark(ws, j, m, p) {
      PlaceInside(ws, i, l);
      PlaceInside(ws, j, m);
      if i < j {
        SizesGrow(ws, i, j);
      } else if j < i {
        SizesGrow(ws, j, i);
        MarkEnds(ws, j, m, p);
      } else if l < m {
        OffsetGrows(ws[i].labels, l, m);
      } else if m < l {
        OffsetGrows(ws[i].labels, m, l);
      }
    }
  }

  lemma {:induction false} MarkEnds(ws: seq<Written>, j: nat, m: nat, p: nat)
    requires IsMark(ws, j, m, p)
    ensures p < Sizes(ws, j) + Size(ws[j])
  {
    PlaceInside(ws, j, m);
  }

  lemma {:induction false} ContentsAreLabels(ws: seq<Written>, i: nat, l: nat, p: nat)
    requires Writable(ws) && i < |ws| && l <= |ws[i].labels| && p in Content(Place(ws, i, l), PathOf(ws, i, l))
    ensures exists j, m :: InLabel(ws, j, m, p)
    decreases i, |ws[i].labels| - l
  {
    if l < |ws[i].labels| {
      LabelEnds(ws, i, l);
      if Within(Place(ws, i, l) + 1, p, Place(ws, i, l) + |ws[i].labels[l]| + 1) {
        assert InLabel(ws, i, l, p);
      } else {
        ContentsAreLabels(ws, i, l + 1, p);
      }
    } else if ws[i].tail.To? {
      assert Look(i);
      ContentsAreLabels(ws, ws[i].tail.name, ws[i].tail.start, p);
    }
  }

  lemma {:induction false} StructureIsMarks(ws: seq<Written>, i: nat, l: nat, p: nat)
    requires Writable(ws) && i < |ws| && l <= |ws[i].labels| && p in Structure(Place(ws, i, l), PathOf(ws, i, l))
    ensures exists j, m :: IsMark(ws, j, m, p)
    decreases i, |ws[i].labels| - l
  {
    if p == Place(ws, i, l) {
      assert IsMark(ws, i, l, p);
    } else if l < |ws[i].labels| {
      LabelEnds(ws, i, l);
      StructureIsMarks(ws, i, l + 1, p);
    } else if ws[i].tail.To? {
      assert Look(i);
      if p == Place(ws, i, l) + 1 {
        assert IsMark(ws, i, l, p);
      } else {
        StructureIsMarks(ws, ws[i].tail.name, ws[i].tail.start, p);
      }
    }
  }

  /** The bytes of all labels are neither ends nor pointers. */
  ghost predicate CleanLabels(ws: seq<Written>) {
    forall i, l, x :: 0 <= i < |ws| && 0 <= l < |ws[i].labels| && 0 <= x < |ws[i].labels[l]| ==>
      0 < ws[i].labels[l][x] < 192
  }

  lemma {:induction false} LabelIsClean(ws: seq<Written>, i: nat, l: nat, p: nat)
    requires Writable(ws) && CleanLabels(ws) && InLabel(ws, i, l, p)
    ensures p < |Text(ws, |ws|)| && 0 < Text(ws, |ws|)[p] < 192
  {
    LabelByte(ws, i, l, p - Place(ws, i, l));
  }

  function NameOf(ws: seq<Written>, i: nat): Name
    requires Writable(ws) && i < |ws|
  {
    Name(Place(ws, i, 0), PathOf(ws, i, 0))
  }

  lemma {:induction false} WrittenDecodes(ws: seq<Written>, i: nat)
    requires Writable(ws) && CleanLabels(ws) && i < |ws|
    ensures Decodes(Text(ws, |ws|), Place(ws, i, 0), PathOf(ws, i, 0))
  {
    var b, at, path := Text(ws, |ws|), Place(ws, i, 0), PathOf(ws, i, 0);
    WrittenIsLaidOut(ws, i, 0);
    forall p: nat | p in Content(at, path) && p < |b| ensures 0 < b[p] < 192 {
      ContentsAreLabels(ws, i, 0, p);
      var j, m :| InLabel(ws, j, m, p);
      LabelIsClean(ws, j, m, p);
    }
    CleanDecodes(b, at, path);
  }

  /** A message written from names with such pointers is one that the scrub keeps: every name decodes to the
      path it was written from, and no byte is content of one name and structure of another. */
  lemma {:induction false} WrittenIsMessage(ws: seq<Written>, names: set<Name>)
    requires Writable(ws) && CleanLabels(ws)
    requires forall x :: x in names ==> exists i: nat :: i < |ws| && x == NameOf(ws, i)
    ensures Message(Text(ws, |ws|), names)
  {
    forall x | x in names ensures Decodes(Text(ws, |ws|), x.at, x.path) {
      var i: nat :| i < |ws| && x == NameOf(ws, i);
      WrittenDecodes(ws, i);
    }
    forall x, y {:trigger Apart(x, y)} | x in names && y in names ensures Apart(x, y) {
      var i: nat :| i < |ws| && x == NameOf(ws, i);
      var j: nat :| j < |ws| && y == NameOf(ws, j);
      NamesApart(ws, i, j);
    }
  }

  lemma {:induction false} NamesApart(ws: seq<Written>, i: nat, j: nat)
    requires Writable(ws) && i < |ws| && j < |ws|
    ensures Apart(NameOf(ws, i), NameOf(ws, j))
  {
    var c, s := Content(Place(ws, i, 0), PathOf(ws, i, 0)), Structure(Place(ws, j, 0), PathOf(ws, j, 0));
    forall p | p in c ensures p !in s {
      if p in s {
        ContentsAreLabels(ws, i, 0, p);
        StructureIsMarks(ws, j, 0, p);
        var i', l :| InLabel(ws, i', l, p);
        var j', m :| IsMark(ws, j', m, p);
        MarkIsNoContent(ws, i', l, j', m, p);
      }
    }
  }

  // ----- The question -----

  /** The labels from label l on, as the loops of the question see them. */
  function QuestionOf(labels: seq<seq<Byte>>, l: nat): Q.Labels
    requires l <= |labels|
    decreases |labels| - l
  {
    if l == |labels| then Q.Done else Q.Part(|labels[l]|, QuestionOf(labels, l + 1))
  }

  /** These labels with full stops between them. */
  function Joined(labels: seq<seq<Byte>>, l: nat): seq<Byte>
    requires l <= |labels|
    decreases |labels| - l
  {
    if l == |labels| then []
    else if l == |labels| - 1 then labels[l]
    else labels[l] + ['.' as Byte] + Joined(labels, l + 1)
  }

  ghost predicate AskText(at: nat) { true }

  /** The loops of the question find the labels q, and the text is s; used where a proof asks. */
  ghost predicate Finds(b: seq<Byte>, at: nat, q: Q.Labels, s: seq<Byte>) {
    at < |b| && forall a: nat {:trigger AskText(a)} :: AskText(a) && a == at ==>
      Q.Laid(b, a, q) && Q.Dotted(b, a, q) == s
  }

  lemma {:induction false} DoneIs(b: seq<Byte>, at: nat)
    requires at < |b| && b[at] == 0
    ensures Finds(b, at, Q.Done, [])
  {
  }

  lemma {:induction false} PartIs(b: seq<Byte>, at: nat, bytes: seq<Byte>, rest: Q.Labels, more: seq<Byte>)
    requires 0 < |bytes| < 128 && at + 1 + |bytes| <= |b| && b[at..at + 1 + |bytes|] == [Digit(|bytes|)] + bytes
    requires Finds(b, at + 1 + |bytes|, rest, more)
    ensures Finds(b, at, Q.Part(|bytes|, rest), bytes + (if rest == Q.Done then [] else ['.' as Byte]) + more)
  {
    assert AskText(at + 1 + |bytes|);
    var s := b[at..at + 1 + |bytes|];
    assert s[0] == b[at] && b[at + 1..at + 1 + |bytes|] == s[1..] == bytes;
  }

  lemma {:induction false} WrittenIsFound(ws: seq<Written>, i: nat, l: nat)
    requires Writable(ws) && i < |ws| && l <= |ws[i].labels| && ws[i].tail.Null?
    requires forall m :: 0 <= m < |ws[i].labels| ==> |ws[i].labels[m]| < 128
    ensures Finds(Text(ws, |ws|), Place(ws, i, l), QuestionOf(ws[i].labels, l), Joined(ws[i].labels, l))
    decreases |ws[i].labels| - l
  {
    var b, labels := Text(ws, |ws|), ws[i].labels;
    if l == |labels| {
      NullAt(ws, i);
      DoneIs(b, Place(ws, i, l));
    } else {
      WrittenIsFound(ws, i, l + 1);
      LabelEnds(ws, i, l);
      LabelFits(ws, i, l);
      LabelSlice(ws, i, l);
      PartIs(b, Place(ws, i, l), labels[l], QuestionOf(labels, l + 1), Joined(labels, l + 1));
    }
  }

  /** A name written without a pointer, with labels of 127 bytes at most: the question loops find its labels, and
      the text of the parse is the labels with full stops between them. */
  lemma {:induction false} WrittenIsParsed(ws: seq<Written>, i: nat)
    requires Writable(ws) && i < |ws| && ws[i].tail.Null?
    requires forall m :: 0 <= m < |ws[i].labels| ==> |ws[i].labels[m]| < 128
    ensures var b, at, q := Text(ws, |ws|), Place(ws, i, 0), QuestionOf(ws[i].labels, 0);
      Q.Laid(b, at, q) && Q.Dotted(b, at, q) == Joined(ws[i].labels, 0)
  {
    WrittenIsFound(ws, i, 0);
    assert AskText(Place(ws, i, 0));
  }
}
