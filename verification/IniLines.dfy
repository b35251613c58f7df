/**
 The INI format (src/ini.c) as functions: how text becomes lines, and what one line does.
 */
module IniLines {
  import opened Sequences

  const INI_MAX_LINE: nat := 200
  const MAX_SECTION: nat := 50
  const MAX_NAME: nat := 50

  /** `isspace`. */
  predicate Space(c: char) {
    c == ' ' || 9 <= c as int <= 13
  }

  /** `rstrip`. */
  function RStripped(s: string): string {
    if s != [] && Space(s[|s| - 1]) then RStripped(s[..|s| - 1]) else s
  }

  /** `lskip`. */
  function LSkipped(s: string): string {
    if s != [] && Space(s[0]) then LSkipped(s[1..]) else s
  }

  /** `find_chars_or_comment`: the first of the characters, or a semicolon behind white space. */
  function FindFrom(s: string, chars: string, wasSpace: bool): (e: nat)
    ensures e <= |s|
  {
    if s == [] || s[0] in chars || (wasSpace && s[0] == ';') then 0
    else 1 + FindFrom(s[1..], chars, Space(s[0]))
  }

  /** `strncpy0` into a buffer of this size. */
  function Truncated(s: string, size: nat): (t: string)
    requires size > 0
    ensures |t| < size && t <= s
  {
    if |s| < size then s else s[..size - 1]
  }

  // ----- One line -----

  datatype Call = Call(section: string, name: string, value: string)

  /** What the parser carries from line to line. */
  datatype State = State(section: string, prevName: string, lineno: nat, error: nat, calls: seq<Call>)

  const START := State("", "", 0, 0, [])

  type Handler = Call -> bool

  function Failed(st: State): State {
    if st.error == 0 then st.(error := st.lineno) else st
  }

  /** The handler is called; its refusal is an error. */
  function Handled(st: State, name: string, value: string, h: Handler): State {
    var c := Call(st.section, name, value);
    var next := st.(calls := st.calls + [c]);
    if h(c) then next else Failed(next)
  }

  /** A byte order mark at the start of the first line. */
  predicate HasBom(s: string, lineno: nat) {
    lineno == 1 && |s| >= 3 && s[0] as int == 0xEF && s[1] as int == 0xBB && s[2] as int == 0xBF
  }

  /** A line that starts with a bracket. */
  function SectionLine(st: State, start: string): State
    requires start != []
  {
    var e := FindFrom(start[1..], "]", false);
    if e < |start| - 1 && start[e + 1] == ']'
      then st.(section := Truncated(start[1..e + 1], MAX_SECTION), prevName := "")
    else Failed(st)
  }

  /** The value part of a pair. */
  function ValueOf(s: string): string {
    RStripped(LSkipped(s[..FindFrom(s, "", false)]))
  }

  /** A line that should be a pair. */
  function PairLine(st: State, start: string, h: Handler): State {
    var e := FindFrom(start, "=", false);
    if e < |start| && (start[e] == '=' || start[e] == ':') then
      var name := RStripped(start[..e]);
      Handled(st.(prevName := Truncated(name, MAX_NAME)), name, ValueOf(start[e + 1..]), h)
    else Failed(st)
  }

  /** The line from its first visible character on; `indented` when that is not the first one. */
  function StartLine(st: State, start: string, indented: bool, h: Handler): State {
    if start == [] || start[0] in ";#" then st
    else if st.prevName != [] && indented then Handled(st, st.prevName, start, h)
    else if start[0] == '[' then SectionLine(st, start)
    else PairLine(st, start, h)
  }

  /** The line without trailing white space. */
  function TextLine(st: State, text: string, marked: bool, h: Handler): State {
    StartLine(st, LSkipped(text), marked || |LSkipped(text)| < |text|, h)
  }

  function Line(st: State, raw: string, h: Handler): State {
    var next := st.(lineno := st.lineno + 1);
    if HasBom(raw, next.lineno) then TextLine(next, RStripped(raw[3..]), true, h)
    else TextLine(next, RStripped(raw), false, h)
  }

  lemma {:induction false} FindStops(s: string, chars: string, wasSpace: bool)
    ensures var e := FindFrom(s, chars, wasSpace); e < |s| ==> s[e] in chars || s[e] == ';'
  {
    if s != [] {
      FindStops(s[1..], chars, Space(s[0]));
    }
  }

  /** A line is a pair exactly when the first place the search stops at, an equals sign or a comment,
      is an equals sign; a colon never stops it. */
  lemma PairExact(st: State, start: string, h: Handler)
    ensures var e := FindFrom(start, "=", false);
      PairLine(st, start, h) != Failed(st) <==> e < |start| && start[e] == '='
  {
    FindStops(start, "=", false);
    var e := FindFrom(start, "=", false);
    if e < |start| && start[e] == '=' {
      assert |PairLine(st, start, h).calls| == |st.calls| + 1;
    }
  }

  /** So a name and a value with a colon between them are an error, unless an equals sign follows. */
  lemma ColonIsNoPair(st: State, name: string, value: string, h: Handler)
    requires '=' !in name && '=' !in value
    ensures PairLine(st, name + ":" + value, h) == Failed(st)
  {
    var start := name + ":" + value;
    PairExact(st, start, h);
    var e := FindFrom(start, "=", false);
    assert e < |start| ==> start[e] in start;
  }

  // ----- The reader -----

  /** How many characters the reader takes: to the end of the line, or as many as there is room for. */
  function Take(s: string, room: nat): (n: nat)
    ensures n <= |s| && n <= room && (s != [] && room > 0 ==> n > 0)
  {
    if s == [] || room == 0 then 0 else if s[0] == '\n' then 1 else 1 + Take(s[1..], room - 1)
  }

  /** The lines delivered by `ini_reader_string` to a buffer of `num` characters. */
  function Lines(s: string, num: nat): seq<string>
    requires num >= 2
    decreases |s|
  {
    if s == [] then [] else [s[..Take(s, num - 1)]] + Lines(s[Take(s, num - 1)..], num)
  }

  function Joined(lines: seq<string>): string {
    if lines == [] then "" else lines[0] + Joined(lines[1..])
  }

  lemma JoinedFirst(line: string, rest: seq<string>)
    ensures Joined([line] + rest) == line + Joined(rest)
  {
    assert ([line] + rest)[1..] == rest;
  }

  /** The reader delivers every character once, in order. */
  lemma {:induction false} NothingLost(s: string, num: nat)
    requires num >= 2
    ensures Joined(Lines(s, num)) == s
    decreases |s|
  {
    if s != [] {
      var n := Take(s, num - 1);
      NothingLost(s[n..], num);
      JoinedFirst(s[..n], Lines(s[n..], num));
      Halves(s, n);
    }
  }

  // ----- The parser -----

  function AllLines(st: State, lines: seq<string>, h: Handler): State
    decreases |lines|
  {
    if lines == [] then st else AllLines(Line(st, lines[0], h), lines[1..], h)
  }

  lemma AllLinesFirst(st: State, line: string, more: seq<string>, h: Handler)
    ensures AllLines(st, [line] + more, h) == AllLines(Line(st, line, h), more, h)
  {
    assert ([line] + more)[1..] == more;
  }

  /** `ini_parse_string`, as a function. */
  function Parse(text: string, h: Handler): State {
    AllLines(START, Lines(text, INI_MAX_LINE), h)
  }

  /** A line that does not end within 199 characters is cut there, and goes on as a new line. */
  lemma LongLine(text: string, h: Handler)
    requires |text| >= 199 && forall i :: 0 <= i < 199 ==> text[i] != '\n'
    ensures Parse(text, h) == AllLines(Line(START, text[..199], h), Lines(text[199..], 200), h)
  {
    TakeCut(text, 199);
    AllLinesFirst(START, text[..199], Lines(text[199..], 200), h);
  }

  lemma {:induction false} TakeCut(s: string, room: nat)
    requires |s| >= room && forall i :: 0 <= i < room ==> s[i] != '\n'
    ensures Take(s, room) == room
  {
    if room > 0 {
      TakeCut(s[1..], room - 1);
    }
  }

  /** A text of one line. */
  lemma OneLine(t: string, h: Handler)
    requires t != [] && Take(t, INI_MAX_LINE - 1) == |t|
    ensures Parse(t, h) == Line(START, t, h)
  {
    TakeAll(t);
    DropAll(t);
    assert Lines(t, INI_MAX_LINE) == [t] + Lines([], INI_MAX_LINE) == [t];
    LastLine(START, t, h);
  }

  lemma LastLine(st: State, t: string, h: Handler)
    ensures AllLines(st, [t], h) == Line(st, t, h)
  {
    assert [t][1..] == [] && AllLines(Line(st, t, h), [], h) == Line(st, t, h);
    assert AllLines(st, [t], h) == AllLines(Line(st, [t][0], h), [t][1..], h);
  }

  lemma ThreeChars(t: string)
    requires |t| == 3 && t[0] != '\n' && t[1] != '\n'
    ensures Take(t, INI_MAX_LINE - 1) == 3
  {
    assert Take(t[1..][1..], INI_MAX_LINE - 3) == 1;
    assert Take(t[1..], INI_MAX_LINE - 2) == 2;
  }

  /** The text a:b is refused in its first line, and no handler is called. */
  lemma ColonText(t: string, h: Handler)
    requires t == "a:b"
    ensures Parse(t, h) == State("", "", 1, 1, [])
  {
    var st := State("", "", 1, 0, []);
    ThreeChars(t);
    OneLine(t, h);
    RStripSolid(t);
    LSkipSolid(t);
    assert START.(lineno := 1) == st && "a" + ":" + "b" == t;
    ColonIsNoPair(st, "a", "b", h);
    assert Line(START, t, h) == PairLine(st, t, h) == Failed(st);
  }

  // ----- What can be printed -----

  /** No line end, no null, none of the characters, and no comment inside. */
  predicate Clean(s: string, chars: string) {
    && (forall i :: 0 <= i < |s| ==> s[i] != '\n' && s[i] != '\0' && s[i] !in chars)
    && (forall i :: 0 < i < |s| && s[i] == ';' ==> !Space(s[i - 1]))
  }

  predicate Trimmed(s: string) {
    s == [] || (!Space(s[0]) && !Space(s[|s| - 1]))
  }

  // ----- Lines come back as printed -----

  /** A line as the reader delivers it: ends with the only line end in it, and fits the buffer. */
  predicate WholeLine(l: string, num: nat) {
    && 0 < |l| < num && l[|l| - 1] == '\n'
    && forall i :: 0 <= i < |l| - 1 ==> l[i] != '\n'
  }

  lemma {:induction false} TakeWhole(l: string, rest: string, room: nat)
    requires WholeLine(l, room + 1)
    ensures Take(l + rest, room) == |l|
  {
    assert (l + rest)[0] == l[0];
    if |l| > 1 {
      assert (l + rest)[1..] == l[1..] + rest;
      TakeWhole(l[1..], rest, room - 1);
    }
  }

  lemma {:induction false} LinesWhole(ls: seq<string>, num: nat)
    requires num >= 2 && forall l :: l in ls ==> WholeLine(l, num)
    ensures Lines(Joined(ls), num) == ls
  {
    if ls != [] {
      var l, rest := ls[0], Joined(ls[1..]);
      assert l in ls;
      TakeWhole(l, rest, num - 1);
      LinesWhole(ls[1..], num);
      assert (l + rest)[..|l|] == l && (l + rest)[|l|..] == rest;
    }
  }

  // ----- Pieces of the line functions -----

  lemma RStripSolid(s: string)
    requires s == [] || !Space(s[|s| - 1])
    ensures RStripped(s) == s
  {
  }

  /** White space at the end goes. */
  lemma {:induction false} RStripMore(s: string, t: string)
    requires forall i :: 0 <= i < |t| ==> Space(t[i])
    ensures RStripped(s + t) == RStripped(s)
  {
    if t == [] {
      assert s + t == s;
    } else {
      assert (s + t)[..|s + t| - 1] == s + t[..|t| - 1];
      RStripMore(s, t[..|t| - 1]);
    }
  }

  /** The search passes clean text. */
  lemma {:induction false} FindPasses(s: string, t: string, chars: string, wasSpace: bool)
    requires Clean(s, chars) && (wasSpace && s != [] ==> s[0] != ';')
    ensures FindFrom(s + t, chars, wasSpace) ==
      |s| + FindFrom(t, chars, if s == [] then wasSpace else Space(s[|s| - 1]))
  {
    if s == [] {
      assert s + t == t;
    } else {
      assert (s + t)[1..] == s[1..] + t;
      assert Clean(s[1..], chars) by {
        forall i | 0 < i < |s[1..]| && s[1..][i] == ';' ensures !Space(s[1..][i - 1]) {
          assert s[i + 1] == ';';
        }
      }
      assert |s| > 1 ==> (Space(s[0]) ==> s[1] != ';');
      FindPasses(s[1..], t, chars, Space(s[0]));
    }
  }

  lemma {:induction false} LSkipSolid(s: string)
    requires s == [] || !Space(s[0])
    ensures LSkipped(s) == s
  {
  }

  lemma {:induction false} AllLinesAppend(st: State, a: seq<string>, b: seq<string>, h: Handler)
    ensures AllLines(st, a + b, h) == AllLines(AllLines(st, a, h), b, h)
    decreases |a|
  {
    if a == [] {
      assert a + b == b;
    } else {
      assert (a + b)[1..] == a[1..] + b;
      AllLinesAppend(Line(st, a[0], h), a[1..], b, h);
    }
  }
}
