/**
 The round trip of an INI configuration (src/ini.c): rows of every kind are printed and parsed again.
 */
module IniPrint {
  import opened Sequences
  import opened IniLines

  // ----- Rows -----

  /** A row of a configuration: white space, a comment, a section, a name with a value (and a remark behind it), and
      a further line of that value. */
  datatype Row =
    | Blank(space: string)
    | Comment(space: string, mark: char, text: string)
    | Header(name: string, after: string)
    | Entry(name: string, space: string, more: string, value: string, tail: string, remark: string)
    | More(space: string, value: string, after: string)

  function PrintRow(r: Row): string {
    match r
    case Blank(space) => space + "\n"
    case Comment(space, mark, text) => space + ([mark] + text) + "\n"
    case Header(name, after) => "[" + name + "]" + after + "\n"
    case Entry(name, space, more, value, tail, remark) =>
      (name + space) + "=" + ((more + value + tail) + remark) + "\n"
    case More(space, value, after) => space + value + (after + "\n")
  }

  predicate Spaces(s: string) {
    forall i :: 0 <= i < |s| ==> Space(s[i]) && s[i] != '\n'
  }

  predicate OneLine(s: string) {
    forall i :: 0 <= i < |s| ==> s[i] != '\n' && s[i] != '\0'
  }

  /** What a row may hold, and that its line fits into the 200 characters of the buffer. */
  predicate GoodRow(r: Row) {
    && |PrintRow(r)| < 200
    && match r
       case Blank(space) => Spaces(space)
       case Comment(space, mark, text) => Spaces(space) && mark in ";#" && OneLine(text)
       case Header(name, after) => Clean(name, "]") && OneLine(after)
       case Entry(name, space, more, value, tail, remark) =>
         && name != [] && Trimmed(name) && Clean(name, "=") && name[0] !in ";#["
         && Spaces(space) && Spaces(more) && Spaces(tail)
         && Trimmed(value) && Clean(value, "") && (value != [] ==> value[0] != ';')
         && OneLine(remark) && (remark != [] ==> remark[0] == ';' && tail != [])
       case More(space, value, after) =>
         && Spaces(space) && space != [] && Spaces(after)
         && value != [] && Trimmed(value) && value[0] !in ";#" && OneLine(value)
  }

  /** What is kept of a name: at most 49 characters. */
  function Kept(s: string): string {
    if |s| < 50 then s else s[..49]
  }

  /** A further line needs a name of the same section before it. */
  predicate GoodRows(rows: seq<Row>, prev: string) {
    rows != [] ==>
      && GoodRow(rows[0])
      && match rows[0]
         case Header(_, _) => GoodRows(rows[1..], "")
         case Entry(name, _, _, _, _, _) => GoodRows(rows[1..], Kept(name))
         case More(_, _, _) => prev != [] && GoodRows(rows[1..], prev)
         case _ => GoodRows(rows[1..], prev)
  }

  /** The calls a configuration stands for, from a section and a name on. */
  function Calls(rows: seq<Row>, section: string, prev: string): seq<Call> {
    if rows == [] then []
    else
      match rows[0]
      case Header(name, _) => Calls(rows[1..], Kept(name), "")
      case Entry(name, _, _, value, _, _) =>
        [Call(section, name, value)] + Calls(rows[1..], section, Kept(name))
      case More(_, value, _) => [Call(section, prev, value)] + Calls(rows[1..], section, prev)
      case _ => Calls(rows[1..], section, prev)
  }

  /** The number of the first line whose call the handler refuses, or 0. */
  function FirstRefused(rows: seq<Row>, section: string, prev: string, lineno: nat, h: Handler): nat {
    if rows == [] then 0
    else
      match rows[0]
      case Header(name, _) => FirstRefused(rows[1..], Kept(name), "", lineno + 1, h)
      case Entry(name, _, _, value, _, _) =>
        if !h(Call(section, name, value)) then lineno
        else FirstRefused(rows[1..], section, Kept(name), lineno + 1, h)
      case More(_, value, _) =>
        if !h(Call(section, prev, value)) then lineno else FirstRefused(rows[1..], section, prev, lineno + 1, h)
      case _ => FirstRefused(rows[1..], section, prev, lineno + 1, h)
  }

  // ----- Pieces of a line -----

  /** White space in C. */
  lemma SpaceExact(c: char)
    ensures Space(c) <==> c as int in {9, 10, 11, 12, 13, 32}
  {
  }

  lemma {:induction false} RStripPrefix(s: string, k: nat)
    requires k < |s| && !Space(s[k])
    ensures k < |RStripped(s)| <= |s| && RStripped(s) == s[..|RStripped(s)|]
  {
    if Space(s[|s| - 1]) {
      var t := s[..|s| - 1];
      RStripPrefix(t, k);
      assert t[..|RStripped(t)|] == s[..|RStripped(t)|];
    } else {
      assert s[..|s|] == s;
    }
  }

  lemma {:induction false} LSkipTo(s: string, k: nat)
    requires k < |s| && !Space(s[k]) && forall i :: 0 <= i < k ==> Space(s[i])
    ensures LSkipped(s) == s[k..]
  {
    if k > 0 {
      LSkipTo(s[1..], k - 1);
      assert s[1..][k - 1..] == s[k..];
    } else {
      assert s[0..] == s;
    }
  }

  /** The line from its first visible character on, at k. */
  lemma VisibleFrom(raw: string, k: nat)
    requires k < |raw| && !Space(raw[k]) && forall i :: 0 <= i < k ==> Space(raw[i])
    ensures var text := RStripped(raw);
      && k < |text| <= |raw| && text == raw[..|text|] && LSkipped(text) == text[k..]
  {
    RStripPrefix(raw, k);
    LSkipTo(RStripped(raw), k);
  }

  // ----- What a row does -----

  /** The state after a row. */
  function After(st: State, r: Row, h: Handler): State {
    var next := st.(lineno := st.lineno + 1);
    match r
    case Header(name, _) => next.(section := Kept(name), prevName := "")
    case Entry(name, _, _, value, _, _) => Handled(next.(prevName := Kept(name)), name, value, h)
    case More(_, value, _) => Handled(next, st.prevName, value, h)
    case _ => next
  }

  lemma LineIs(st: State, raw: string, h: Handler)
    requires !HasBom(raw, st.lineno + 1)
    ensures Line(st, raw, h) == TextLine(st.(lineno := st.lineno + 1), RStripped(raw), false, h)
  {
    var next := st.(lineno := st.lineno + 1);
    assert !HasBom(raw, next.lineno);
  }

  lemma BlankDone(st: State, space: string, h: Handler)
    requires Spaces(space)
    ensures TextLine(st, RStripped(space + "\n"), false, h) == st
  {
    var raw := space + "\n";
    assert [] + raw == raw;
    RStripMore([], raw);
  }

  lemma CommentDone(st: State, space: string, mark: char, text: string, h: Handler)
    requires Spaces(space) && mark in ";#"
    ensures TextLine(st, RStripped(space + ([mark] + text) + "\n"), false, h) == st
  {
    var raw := space + ([mark] + text) + "\n";
    assert raw[|space|] == mark && forall i :: 0 <= i < |space| ==> raw[i] == space[i];
    VisibleFrom(raw, |space|);
    assert LSkipped(RStripped(raw))[0] == mark;
  }

  lemma HeaderDone(st: State, name: string, after: string, h: Handler)
    requires Clean(name, "]")
    ensures TextLine(st, RStripped("[" + name + "]" + after + "\n"), false, h) ==
      st.(section := Kept(name), prevName := "")
  {
    var raw, n := "[" + name + "]" + after + "\n", |name|;
    assert raw[0] == '[' && raw[n + 1] == ']';
    RStripPrefix(raw, n + 1);
    VisibleFrom(raw, 0);
    var start := RStripped(raw);
    assert start[0..] == start && LSkipped(start) == start;
    var rest := start[n + 1..];
    assert start[1..] == name + rest && rest[0] == ']';
    FindPasses(name, rest, "]", false);
    assert start[1..n + 1] == name;
  }

  lemma MoreDone(st: State, space: string, value: string, after: string, h: Handler)
    requires Spaces(space) && space != [] && Spaces(after) && st.prevName != []
    requires value != [] && Trimmed(value) && value[0] !in ";#"
    ensures TextLine(st, RStripped(space + value + (after + "\n")), false, h) == Handled(st, st.prevName, value, h)
  {
    var text := space + value;
    RStripMore(text, after + "\n");
    assert text[|text| - 1] == value[|value| - 1];
    RStripSolid(text);
    assert text[|space|] == value[0];
    LSkipTo(text, |space|);
    assert text[|space|..] == value;
  }

  // ----- Names with values -----

  /** The value behind an equals sign, with a remark or at the end of the line. */
  lemma ValueBefore(more: string, value: string, tail: string, remark: string)
    requires Spaces(more) && Spaces(tail) && Trimmed(value) && Clean(value, "") && (value != [] ==> value[0] != ';')
    requires remark != [] ==> remark[0] == ';' && tail != []
    ensures ValueOf(more + value + tail + remark) == value
  {
    var body := more + value + tail;
    BodyClean(more, value, tail);
    FindPasses(body, remark, "", false);
    assert body != [] && tail != [] ==> body[|body| - 1] == tail[|tail| - 1];
    assert (body + remark)[..|body|] == body;
    Stripped(more, value, tail);
  }

  /** White space around a clean text hides no comment. */
  lemma BodyClean(more: string, value: string, tail: string)
    requires Spaces(more) && Spaces(tail) && Clean(value, "") && (value != [] ==> value[0] != ';')
    ensures Clean(more + value + tail, "")
  {
    var body := more + value + tail;
    forall i | 0 <= i < |body| ensures body[i] != '\n' && body[i] != '\0' {
      assert Space(body[i]) || body[i] in value;
    }
    forall i | 0 < i < |body| && body[i] == ';' ensures !Space(body[i - 1]) {
      assert !Space(body[i]);
      assert |more| <= i < |more| + |value| && body[i] == value[i - |more|];
      if i > |more| {
        assert body[i - 1] == value[i - |more| - 1];
      }
    }
  }

  /** The white space on both sides goes. */
  lemma Stripped(more: string, value: string, tail: string)
    requires Spaces(more) && Spaces(tail) && Trimmed(value)
    ensures RStripped(LSkipped(more + value + tail)) == value
  {
    var body := more + value + tail;
    if value == [] {
      assert body == more + tail;
      AllSkipped(body);
      RStripSolid([]);
    } else {
      assert body[|more|] == value[0];
      LSkipTo(body, |more|);
      assert body[|more|..] == value + tail;
      RStripMore(value, tail);
      RStripSolid(value);
    }
  }

  lemma {:induction false} AllSkipped(s: string)
    requires forall i :: 0 <= i < |s| ==> Space(s[i])
    ensures LSkipped(s) == []
  {
    if s != [] {
      AllSkipped(s[1..]);
    }
  }

  lemma RemarkLeft(head: string, body: string, remark: string)
    requires remark != [] && remark[0] == ';'
    ensures var start, j := RStripped(head + "=" + (body + remark) + "\n"), |head| + 1 + |body|;
      j < |start| && start[j] == ';' && start[|head| + 1..] == body + start[j..]
  {
    var raw, j := head + "=" + (body + remark) + "\n", |head| + 1 + |body|;
    assert raw[j] == ';';
    RStripPrefix(raw, j);
    assert raw[|head| + 1..j] == body;
  }

  lemma PlainLeft(head: string, more: string, value: string, tail: string)
    requires Spaces(more) && Spaces(tail) && Trimmed(value)
    ensures var text := head + "=" + if value == [] then [] else more + value;
      RStripped(head + "=" + (more + value + tail) + "\n") == text
  {
    var text := head + "=" + if value == [] then [] else more + value;
    var end := if value == [] then more + tail + "\n" else tail + "\n";
    assert head + "=" + (more + value + tail) + "\n" == text + end;
    RStripMore(text, end);
    RStripSolid(text);
  }

  /** What is left of the line behind the equals sign holds the value, without a remark. */
  lemma PlainValue(head: string, more: string, value: string, tail: string)
    requires Spaces(more) && Spaces(tail) && Trimmed(value) && Clean(value, "") && (value != [] ==> value[0] != ';')
    ensures ValueStands(RStripped(head + "=" + (more + value + tail) + "\n"), head, value)
  {
    var start := RStripped(head + "=" + (more + value + tail) + "\n");
    PlainLeft(head, more, value, tail);
    assert start[..|head|] == head;
    if value == [] {
      assert start[|head| + 1..] == [] + [] + [] + [];
      ValueBefore([], [], [], []);
    } else {
      assert start[|head| + 1..] == more + value + [] + [];
      ValueBefore(more, value, [], []);
    }
  }

  /** The same with a remark. */
  lemma RemarkedValue(head: string, more: string, value: string, tail: string, remark: string)
    requires Spaces(more) && Spaces(tail) && Trimmed(value) && Clean(value, "") && (value != [] ==> value[0] != ';')
    requires remark != [] && remark[0] == ';' && tail != []
    ensures ValueStands(RStripped(head + "=" + ((more + value + tail) + remark) + "\n"), head, value)
  {
    var raw := head + "=" + ((more + value + tail) + remark) + "\n";
    var start, body := RStripped(raw), more + value + tail;
    RemarkLeft(head, body, remark);
    RStripPrefix(raw, |head|);
    assert raw[..|head|] == head && raw[|head|] == '=';
    ValueBefore(more, value, tail, start[|head| + 1 + |body|..]);
  }

  /** The line starts with the head and an equals sign, and the value stands behind it. */
  predicate ValueStands(start: string, head: string, value: string) {
    && |head| < |start| && start[..|head|] == head && start[|head|] == '='
    && ValueOf(start[|head| + 1..]) == value
  }

  lemma PairStarts(st: State, start: string, h: Handler)
    requires start != [] && !Space(start[0]) && start[0] !in ";#["
    ensures TextLine(st, start, false, h) == PairLine(st, start, h)
  {
    LSkipSolid(start);
  }

  lemma PairDone(st: State, head: string, start: string, name: string, value: string, h: Handler)
    requires ValueStands(start, head, value) && Clean(head, "=") && RStripped(head) == name
    ensures PairLine(st, start, h) == Handled(st.(prevName := Kept(name)), name, value, h)
  {
    var k := |head|;
    assert start == head + start[k..];
    FindPasses(head, start[k..], "=", false);
  }

  lemma EntryDone(st: State, name: string, space: string, rest: string, value: string, raw: string, h: Handler)
    requires name != [] && Trimmed(name) && Clean(name, "=") && name[0] !in ";#[" && Spaces(space)
    requires raw == (name + space) + "=" + rest + "\n"
    requires ValueStands(RStripped(raw), name + space, value)
    ensures TextLine(st, RStripped(raw), false, h) == Handled(st.(prevName := Kept(name)), name, value, h)
  {
    var start, head := RStripped(raw), name + space;
    assert start[0] == start[..|head|][0] == head[0] == name[0];
    NameClean(name, space);
    RStripMore(name, space);
    RStripSolid(name);
    PairStarts(st, start, h);
    PairDone(st, head, start, name, value, h);
  }

  lemma NameClean(name: string, space: string)
    requires Clean(name, "=") && Spaces(space)
    ensures Clean(name + space, "=")
  {
    var s := name + space;
    forall i | |name| <= i < |s| ensures Space(s[i]) && s[i] != '\n' {
      assert s[i] == space[i - |name|];
    }
    forall i | 0 < i < |s| && s[i] == ';' ensures !Space(s[i - 1]) {
    }
  }

  lemma EntryRow(st: State, r: Row, h: Handler)
    requires GoodRow(r) && r.Entry?
    ensures TextLine(st, RStripped(PrintRow(r)), false, h) == Handled(st.(prevName := Kept(r.name)), r.name, r.value, h)
  {
    var head := r.name + r.space;
    if r.remark == [] {
      PlainValue(head, r.more, r.value, r.tail);
      assert (r.more + r.value + r.tail) + r.remark == r.more + r.value + r.tail;
    } else {
      RemarkedValue(head, r.more, r.value, r.tail, r.remark);
    }
    EntryDone(st, r.name, r.space, (r.more + r.value + r.tail) + r.remark, r.value, PrintRow(r), h);
  }

  /** Any row does to the state what it stands for. */
  lemma RowDone(st: State, r: Row, h: Handler)
    requires GoodRow(r) && (r.More? ==> st.prevName != []) && !HasBom(PrintRow(r), st.lineno + 1)
    ensures Line(st, PrintRow(r), h) == After(st, r, h)
  {
    var next := st.(lineno := st.lineno + 1);
    LineIs(st, PrintRow(r), h);
    match r
    case Blank(space) => BlankDone(next, space, h);
    case Comment(space, mark, text) => CommentDone(next, space, mark, text, h);
    case Header(name, after) => HeaderDone(next, name, after, h);
    case More(space, value, after) => MoreDone(next, space, value, after, h);
    case Entry(_, _, _, _, _, _) => EntryRow(next, r, h);
  }

  // ----- The round trip -----

  function PrintRows(rows: seq<Row>): seq<string> {
    if rows == [] then [] else [PrintRow(rows[0])] + PrintRows(rows[1..])
  }

  /** The error after some calls: the first one stays. */
  function ErrorAfter(error: nat, refused: nat): nat {
    if error != 0 then error else refused
  }

  /** Rows behind the first line do to the state what they stand for. */
  lemma {:induction false} RowsDone(st: State, rows: seq<Row>, h: Handler)
    requires GoodRows(rows, st.prevName) && (st.lineno > 0 || rows == [] || !HasBom(PrintRow(rows[0]), 1))
    ensures var end := AllLines(st, PrintRows(rows), h);
      && end.calls == st.calls + Calls(rows, st.section, st.prevName)
      && end.error == ErrorAfter(st.error, FirstRefused(rows, st.section, st.prevName, st.lineno + 1, h))
    decreases |rows|
  {
    if rows != [] {
      var next := After(st, rows[0], h);
      RowDone(st, rows[0], h);
      RowsDone(next, rows[1..], h);
      AllLinesFirst(st, PrintRow(rows[0]), PrintRows(rows[1..]), h);
      CallsFirst(st, rows, h);
    }
  }

  lemma {:induction false} CallsFirst(st: State, rows: seq<Row>, h: Handler)
    requires rows != [] && GoodRows(rows, st.prevName)
    ensures var next := After(st, rows[0], h);
      && GoodRows(rows[1..], next.prevName) && next.lineno == st.lineno + 1
      && next.calls + Calls(rows[1..], next.section, next.prevName) == st.calls + Calls(rows, st.section, st.prevName)
      && ErrorAfter(next.error, FirstRefused(rows[1..], next.section, next.prevName, st.lineno + 2, h)) ==
        ErrorAfter(st.error, FirstRefused(rows, st.section, st.prevName, st.lineno + 1, h))
  {
    match rows[0]
    case Entry(name, _, _, value, _, _) =>
      Regroup(st.calls, [Call(st.section, name, value)], Calls(rows[1..], st.section, Kept(name)));
    case More(_, value, _) =>
      Regroup(st.calls, [Call(st.section, st.prevName, value)], Calls(rows[1..], st.section, st.prevName));
    case _ =>
  }

  lemma RowWhole(r: Row)
    requires GoodRow(r)
    ensures WholeLine(PrintRow(r), INI_MAX_LINE)
  {
  }

  lemma {:induction false} RowsWhole(rows: seq<Row>, prev: string)
    requires GoodRows(rows, prev)
    ensures forall l :: l in PrintRows(rows) ==> WholeLine(l, INI_MAX_LINE)
  {
    if rows != [] {
      RowWhole(rows[0]);
      match rows[0]
      case Header(_, _) => RowsWhole(rows[1..], "");
      case Entry(name, _, _, _, _, _) => RowsWhole(rows[1..], Kept(name));
      case _ => RowsWhole(rows[1..], prev);
    }
  }

  /** The bytes EF BB BF. */
  const MARK: string := [0xEF as char, 0xBB as char, 0xBF as char]

  /** A byte order mark before the first line changes nothing. */
  lemma MarkSkipped(line: string, h: Handler)
    requires !HasBom(line, 1)
    ensures Line(START, MARK + line, h) == Line(START, line, h)
  {
    assert (MARK + line)[3..] == line;
  }

  /** A configuration as text, with or without a byte order mark. */
  function Printed(mark: bool, rows: seq<Row>): string {
    (if mark then MARK else []) + Joined(PrintRows(rows))
  }

  lemma MarkedLines(line: string, rest: seq<string>)
    requires WholeLine(line, INI_MAX_LINE - 3) && forall l :: l in rest ==> WholeLine(l, INI_MAX_LINE)
    ensures Lines(MARK + Joined([line] + rest), INI_MAX_LINE) == [MARK + line] + rest
  {
    var lines := [MARK + line] + rest;
    JoinedFirst(line, rest);
    JoinedFirst(MARK + line, rest);
    assert MARK + (line + Joined(rest)) == (MARK + line) + Joined(rest);
    forall l | l in lines ensures WholeLine(l, INI_MAX_LINE) {
      if l !in rest {
        assert l == MARK + line;
      }
    }
    LinesWhole(lines, INI_MAX_LINE);
  }

  lemma {:induction false} PrintedLines(mark: bool, rows: seq<Row>, h: Handler)
    requires GoodRows(rows, "") && (rows != [] ==> !HasBom(PrintRow(rows[0]), 1))
    requires mark ==> rows != [] && |PrintRow(rows[0])| < 197
    ensures Parse(Printed(mark, rows), h) == AllLines(START, PrintRows(rows), h)
  {
    RowsWhole(rows, "");
    LinesWhole(PrintRows(rows), INI_MAX_LINE);
    if mark {
      var line, rest := PrintRow(rows[0]), PrintRows(rows[1..]);
      RowWhole(rows[0]);
      MarkedLines(line, rest);
      AllLinesFirst(START, MARK + line, rest, h);
      AllLinesFirst(START, line, rest, h);
      MarkSkipped(line, h);
    } else {
      assert [] + Joined(PrintRows(rows)) == Joined(PrintRows(rows));
    }
  }

  /** Parsing a printed configuration, with or without a byte order mark, calls the handler with exactly its triples,
      in order, with one call more under the name before it for each further line of a value; and the error is the
      number of the first line whose call the handler refuses, or 0. */
  lemma {:induction false} RoundTrip(mark: bool, rows: seq<Row>, h: Handler)
    requires GoodRows(rows, "") && (rows != [] ==> !HasBom(PrintRow(rows[0]), 1))
    requires mark ==> rows != [] && |PrintRow(rows[0])| < 197
    ensures var end := Parse(Printed(mark, rows), h);
      end.calls == Calls(rows, "", "") && end.error == FirstRefused(rows, "", "", 1, h)
  {
    PrintedLines(mark, rows, h);
    RowsDone(START, rows, h);
  }

  /** There is such a line exactly when the handler does not accept all calls. */
  lemma {:induction false} RefusedExactly(rows: seq<Row>, section: string, prev: string, lineno: nat, h: Handler)
    requires lineno > 0
    ensures FirstRefused(rows, section, prev, lineno, h) == 0 <==> forall c :: c in Calls(rows, section, prev) ==> h(c)
    decreases |rows|
  {
    if rows != [] {
      match rows[0]
      case Header(name, _) => RefusedExactly(rows[1..], Kept(name), "", lineno + 1, h);
      case Entry(name, _, _, value, _, _) =>
        var c := Call(section, name, value);
        assert c in [c] + Calls(rows[1..], section, Kept(name));
        RefusedExactly(rows[1..], section, Kept(name), lineno + 1, h);
      case More(_, value, _) =>
        var c := Call(section, prev, value);
        assert c in [c] + Calls(rows[1..], section, prev);
        RefusedExactly(rows[1..], section, prev, lineno + 1, h);
      case _ => RefusedExactly(rows[1..], section, prev, lineno + 1, h);
    }
  }
}
