/**
 The INI parser in memory (src/ini.c): null-terminated strings that are cut in place in the line
 buffer, and the loop over the lines of a string.
 */
module IniParser {
  import opened Sequences
  import opened IniLines

  // ----- Null-terminated strings -----

  /** The string that starts at a place of a buffer. */
  ghost predicate IsStr(b: seq<char>, at: nat, s: string) {
    && at + |s| < |b| && b[at + |s|] == '\0'
    && forall i :: 0 <= i < |s| ==> b[at + i] == s[i] && s[i] != '\0'
  }

  /** Nothing changes outside a stretch of a buffer. */
  ghost predicate OnlyWithin(b: seq<char>, b': seq<char>, lo: nat, hi: nat) {
    |b'| == |b| && forall i :: 0 <= i < |b| && !(lo <= i < hi) ==> b'[i] == b[i]
  }

  lemma StrEnd(b: seq<char>, at: nat, s: string, n: nat)
    requires IsStr(b, at, s) && n <= |s|
    ensures b[at + n] == '\0' <==> n == |s|
  {
    if n < |s| {
      assert s[n] != '\0';
    }
  }

  lemma StrTail(b: seq<char>, at: nat, s: string, k: nat)
    requires IsStr(b, at, s) && k <= |s|
    ensures IsStr(b, at + k, s[k..])
  {
  }

  lemma StrCut(b: seq<char>, at: nat, s: string, k: nat)
    requires IsStr(b, at, s) && k <= |s|
    ensures IsStr(b[at + k := '\0'], at, s[..k])
  {
  }

  lemma StrElsewhere(b: seq<char>, b': seq<char>, lo: nat, hi: nat, at: nat, s: string)
    requires IsStr(b, at, s) && OnlyWithin(b, b', lo, hi) && hi <= at
    ensures IsStr(b', at, s)
  {
  }

  method StrLen(buf: array<char>, at: nat, ghost s: string) returns (n: nat)
    requires IsStr(buf[..], at, s)
    ensures n == |s|
  {
    n := 0;
    while buf[at + n] != '\0'
      invariant n <= |s|
      decreases |s| - n
    {
      n := n + 1;
    }
    StrEnd(buf[..], at, s, n);
  }

  /** The string as a value, for a call of the handler. */
  method Get(buf: array<char>, at: nat, ghost s: string) returns (r: string)
    requires IsStr(buf[..], at, s)
    ensures r == s
  {
    var n := StrLen(buf, at, s);
    r := buf[at..at + n];
  }

  /** `rstrip`. */
  method RStrip(buf: array<char>, at: nat, ghost s: string)
    requires IsStr(buf[..], at, s)
    modifies buf
    ensures IsStr(buf[..], at, RStripped(s)) && OnlyWithin(old(buf[..]), buf[..], at, at + |s|)
  {
    var n := StrLen(buf, at, s);
    var p := at + n;
    assert s[..n] == s;
    while p > at
      invariant at <= p <= at + |s|
      invariant IsStr(buf[..], at, s[..p - at]) && RStripped(s[..p - at]) == RStripped(s)
      invariant OnlyWithin(old(buf[..]), buf[..], at, at + |s|)
    {
      ghost var b, t := buf[..], s[..p - at];
      p := p - 1;
      if !Space(buf[p]) {
        assert RStripped(t) == t;
        return;
      }
      StrCut(b, at, t, p - at);
      buf[p] := '\0';
      assert buf[..] == b[p := '\0'];
      assert t[..p - at] == s[..p - at];
    }
  }

  /** `lskip`. */
  method LSkip(buf: array<char>, at: nat, ghost s: string) returns (p: nat)
    requires IsStr(buf[..], at, s)
    ensures at <= p <= at + |s| && s[p - at..] == LSkipped(s) && IsStr(buf[..], p, LSkipped(s))
  {
    p := at;
    while buf[p] != '\0' && Space(buf[p])
      invariant at <= p <= at + |s| && LSkipped(s[p - at..]) == LSkipped(s)
      decreases at + |s| - p
    {
      assert s[p - at..][1..] == s[p + 1 - at..];
      p := p + 1;
    }
    StrTail(buf[..], at, s, p - at);
  }

  /** `find_chars_or_comment`; a null pointer for the characters is no characters. */
  method FindCharsOrComment(buf: array<char>, at: nat, chars: string, ghost s: string) returns (p: nat)
    requires IsStr(buf[..], at, s) && '\0' !in chars
    ensures p == at + FindFrom(s, chars, false)
  {
    p := at;
    var wasSpace := false;
    while buf[p] != '\0' && buf[p] !in chars && !(wasSpace && buf[p] == ';')
      invariant at <= p <= at + |s|
      invariant FindFrom(s, chars, false) == p - at + FindFrom(s[p - at..], chars, wasSpace)
      decreases at + |s| - p
    {
      assert s[p - at..][1..] == s[p + 1 - at..];
      wasSpace := Space(buf[p]);
      p := p + 1;
    }
  }

  /** `strncpy0`. */
  method StrNCpy0(dest: array<char>, src: array<char>, at: nat, size: nat, ghost s: string)
    requires dest != src && IsStr(src[..], at, s) && 0 < size == dest.Length
    modifies dest
    ensures IsStr(dest[..], 0, Truncated(s, size))
  {
    var i := 0;
    while i < size - 1 && src[at + i] != '\0'
      invariant i <= size - 1 && i <= |s|
      invariant forall j :: 0 <= j < i ==> dest[j] == s[j]
    {
      dest[i] := src[at + i];
      i := i + 1;
    }
    StrEnd(src[..], at, s, i);
    dest[i] := '\0';
    dest[size - 1] := '\0';
  }

  // ----- The reader -----

  /** What the reader takes from a place on: one character, and more unless it ends the line. */
  lemma TakeTurn(s: string, i: nat, room: nat)
    requires i < |s| && room > 0
    ensures Take(s[i..], room) == 1 + if s[i] == '\n' then 0 else Take(s[i + 1..], room - 1)
  {
    DropNext(s, i);
  }

  /** `ini_parse_string_ctx`. */
  class Context {
    const text: string
    var ptr: nat
    var numLeft: nat

    ghost predicate Valid()
      reads this
    {
      ptr + numLeft == |text| && '\0' !in text
    }

    ghost function Rest(): string
      reads this
      requires Valid()
    {
      text[ptr..]
    }

    constructor (text: string)
      requires '\0' !in text
      ensures Valid() && Rest() == text
    {
      this.text, ptr, numLeft := text, 0, |text|;
    }

    /** The next character of the text. */
    method Next() returns (c: char)
      requires Valid() && numLeft != 0
      modifies this
      ensures Valid() && old(Rest()) != [] && c == old(Rest())[0] && Rest() == old(Rest())[1..]
    {
      DropNext(text, ptr);
      c := text[ptr];
      ptr := ptr + 1;
      numLeft := numLeft - 1;
    }

    /** The loop of `ini_reader_string`. */
    method Copy(str: array<char>, num: nat) returns (i: nat)
      requires Valid() && 2 <= num == str.Length
      modifies this, str
      ensures Valid() && i == Take(old(Rest()), num - 1)
      ensures Rest() == old(Rest())[i..] && forall j :: 0 <= j < i ==> str[j] == old(Rest())[j]
    {
      ghost var s := Rest();
      i := 0;
      while i < num - 1 && numLeft != 0
        invariant i <= num - 1 && i <= |s| && Valid() && Rest() == s[i..]
        invariant forall j :: 0 <= j < i ==> str[j] == s[j]
        invariant Take(s, num - 1) == i + Take(s[i..], num - 1 - i)
        decreases num - i
      {
        DropNext(s, i);
        TakeTurn(s, i, num - 1 - i);
        var c := Next();
        str[i] := c;
        i := i + 1;
        if c == '\n' {
          break;
        }
      }
    }

    /** `ini_reader_string`. */
    method Read(str: array<char>, num: nat) returns (ok: bool)
      requires Valid() && num == str.Length
      modifies this, str
      ensures Valid() && ok == (old(Rest()) != [] && num >= 2)
      ensures !ok ==> Rest() == old(Rest())
      ensures ok ==> var n := Take(old(Rest()), num - 1);
        IsStr(str[..], 0, old(Rest())[..n]) && Rest() == old(Rest())[n..]
    {
      if numLeft == 0 || num < 2 {
        return false;
      }
      var i := Copy(str, num);
      str[i] := '\0';
      ok := true;
    }
  }

  // ----- The parser -----

  /** The locals of `ini_parse_stream`, and the calls made so far. */
  class Parser {
    const handler: Handler
    const line: array<char>
    const section: array<char>
    const prevName: array<char>
    var lineno: nat
    var error: nat
    var calls: seq<Call>

    ghost predicate Shape() {
      && line.Length == INI_MAX_LINE && section.Length == MAX_SECTION && prevName.Length == MAX_NAME
      && line != section && line != prevName && section != prevName
    }

    ghost predicate Shows(st: State)
      reads this, section, prevName
    {
      && Shape() && lineno == st.lineno && error == st.error && calls == st.calls
      && IsStr(section[..], 0, st.section) && IsStr(prevName[..], 0, st.prevName)
    }

    constructor (handler: Handler)
      ensures Shows(START) && this.handler == handler && fresh(line) && fresh(section) && fresh(prevName)
    {
      this.handler, lineno, error, calls := handler, 0, 0, [];
      line := new char[INI_MAX_LINE];
      section := new char[MAX_SECTION](_ => '\0');
      prevName := new char[MAX_NAME](_ => '\0');
    }

    method Fail(ghost st: State)
      requires Shows(st)
      modifies this`error
      ensures Shows(Failed(st))
    {
      if error == 0 {
        error := lineno;
      }
    }

    /** A call of the handler with strings from the buffers. */
    method Handle(names: array<char>, nameAt: nat, valueAt: nat, ghost st: State, ghost name: string,
                  ghost value: string)
      requires Shows(st) && IsStr(names[..], nameAt, name) && IsStr(line[..], valueAt, value)
      modifies this`error, this`calls
      ensures Shows(Handled(st, name, value, handler))
    {
      var s := Get(section, 0, st.section);
      var n := Get(names, nameAt, name);
      var v := Get(line, valueAt, value);
      var c := Call(s, n, v);
      calls := calls + [c];
      if !handler(c) {
        if error == 0 {
          error := lineno;
        }
      }
    }

    /** The name between brackets becomes the section. */
    method EnterSection(start: nat, end: nat, ghost e: nat, ghost st: State, ghost s: string)
      requires Shows(st) && IsStr(line[..], start, s) && e < |s| - 1 && end == start + 1 + e
      modifies line, section, prevName
      ensures Shows(st.(section := Truncated(s[1..e + 1], MAX_SECTION), prevName := ""))
    {
      StrTail(line[..], start, s, 1);
      ghost var b := line[..];
      StrCut(b, start + 1, s[1..], e);
      line[end] := '\0';
      assert line[..] == b[end := '\0'];
      assert s[1..][..e] == s[1..e + 1];
      StrNCpy0(section, line, start + 1, MAX_SECTION, s[1..e + 1]);
      prevName[0] := '\0';
    }

    /** A line that starts with a bracket. */
    method SectionStep(start: nat, ghost st: State, ghost s: string)
      requires Shows(st) && IsStr(line[..], start, s) && s != []
      modifies this`error, line, section, prevName
      ensures Shows(SectionLine(st, s))
    {
      StrTail(line[..], start, s, 1);
      var end := FindCharsOrComment(line, start + 1, "]", s[1..]);
      ghost var e := FindFrom(s[1..], "]", false);
      StrEnd(line[..], start + 1, s[1..], e);
      if line[end] == ']' {
        EnterSection(start, end, e, st, s);
      } else {
        Fail(st);
      }
    }

    /** The value of a pair, cut and trimmed. */
    method CutValue(at: nat, ghost s: string) returns (value: nat)
      requires IsStr(line[..], at, s)
      modifies line
      ensures at <= value && IsStr(line[..], value, ValueOf(s)) && OnlyWithin(old(line[..]), line[..], at, at + |s| + 1)
    {
      var end := FindCharsOrComment(line, at, "", s);
      ghost var e := FindFrom(s, "", false);
      ghost var b := line[..];
      StrCut(b, at, s, e);
      StrEnd(b, at, s, e);
      if line[end] != '\0' {
        line[end] := '\0';
      }
      assert line[..] == b[end := '\0'];
      value := LSkip(line, at, s[..e]);
      RStrip(line, value, LSkipped(s[..e]));
    }

    /** The name of a pair, cut and trimmed; the value stays behind it. */
    method CutName(start: nat, e: nat, ghost s: string)
      requires IsStr(line[..], start, s) && e < |s|
      modifies line
      ensures IsStr(line[..], start, RStripped(s[..e])) && IsStr(line[..], start + e + 1, s[e + 1..])
    {
      ghost var b := line[..];
      StrCut(b, start, s, e);
      StrTail(b, start, s, e + 1);
      line[start + e] := '\0';
      assert line[..] == b[start + e := '\0'];
      StrElsewhere(b, line[..], start + e, start + e + 1, start + e + 1, s[e + 1..]);
      b := line[..];
      RStrip(line, start, s[..e]);
      StrElsewhere(b, line[..], start, start + e, start + e + 1, s[e + 1..]);
    }

    /** Both halves of a pair. */
    method CutPair(start: nat, e: nat, ghost s: string) returns (valueAt: nat)
      requires IsStr(line[..], start, s) && e < |s|
      modifies line
      ensures IsStr(line[..], start, RStripped(s[..e])) && IsStr(line[..], valueAt, ValueOf(s[e + 1..]))
    {
      CutName(start, e, s);
      ghost var b := line[..];
      valueAt := CutValue(start + e + 1, s[e + 1..]);
      RStripShorter(s[..e]);
      StrBefore(b, line[..], start + e + 1, start, RStripped(s[..e]));
    }

    /** The handler is called with both halves. */
    method EnterPair(start: nat, e: nat, ghost st: State, ghost s: string)
      requires Shows(st) && IsStr(line[..], start, s) && e < |s|
      modifies this`error, this`calls, line, prevName
      ensures var name := RStripped(s[..e]);
        Shows(Handled(st.(prevName := Truncated(name, MAX_NAME)), name, ValueOf(s[e + 1..]), handler))
    {
      ghost var name, value := RStripped(s[..e]), ValueOf(s[e + 1..]);
      var valueAt := CutPair(start, e, s);
      StrNCpy0(prevName, line, start, MAX_NAME, name);
      Handle(line, start, valueAt, st.(prevName := Truncated(name, MAX_NAME)), name, value);
    }

    /** A line that should be a pair. */
    method PairStep(start: nat, ghost st: State, ghost s: string)
      requires Shows(st) && IsStr(line[..], start, s)
      modifies this`error, this`calls, line, prevName
      ensures Shows(PairLine(st, s, handler))
    {
      var end := FindCharsOrComment(line, start, "=", s);
      StrEnd(line[..], start, s, end - start);
      PairIs(st, s, end - start, handler);
      if line[end] == '=' || line[end] == ':' {
        EnterPair(start, end - start, st, s);
      } else {
        Fail(st);
      }
    }

    /** The comment marks that make the whole line a comment; an empty line counts as one. */
    method IsComment(start: nat, ghost s: string) returns (r: bool)
      requires IsStr(line[..], start, s)
      ensures r <==> s == [] || s[0] in ";#"
    {
      StrEnd(line[..], start, s, 0);
      r := line[start] == '\0' || line[start] in ";#";
    }

    /** What a line is, and what it does. */
    method StartStep(start: nat, ghost st: State, ghost s: string)
      requires Shows(st) && IsStr(line[..], start, s)
      modifies this`error, this`calls, line, section, prevName
      ensures Shows(StartLine(st, s, start > 0, handler))
    {
      var comment := IsComment(start, s);
      StrEnd(prevName[..], 0, st.prevName, 0);
      if comment {
      } else if prevName[0] != '\0' && start > 0 {
        Handle(prevName, 0, start, st, st.prevName, s);
      } else if line[start] == '[' {
        SectionStep(start, st, s);
      } else {
        PairStep(start, st, s);
      }
    }

    /** The first characters of the first line may be a byte order mark. */
    method SkipBom(ghost raw: string) returns (start: nat)
      requires IsStr(line[..], 0, raw)
      ensures start == if HasBom(raw, lineno) then 3 else 0
    {
      start := 0;
      if lineno == 1 {
        StrEnd(line[..], 0, raw, 0);
        if line[0] as int == 0xEF {
          StrEnd(line[..], 0, raw, 1);
          if line[1] as int == 0xBB {
            StrEnd(line[..], 0, raw, 2);
            if line[2] as int == 0xBF {
              start := 3;
            }
          }
        }
      }
    }

    /** One turn of the loop of `ini_parse_stream`. */
    method ParseLine(ghost st: State, ghost raw: string)
      requires Shows(st) && IsStr(line[..], 0, raw)
      modifies this, line, section, prevName
      ensures Shows(Line(st, raw, handler))
    {
      lineno := lineno + 1;
      ghost var st1 := st.(lineno := st.lineno + 1);
      var bom := SkipBom(raw);
      StrTail(line[..], 0, raw, bom);
      RStrip(line, bom, raw[bom..]);
      ghost var text := RStripped(raw[bom..]);
      var start := LSkip(line, bom, text);
      LineStarts(st, raw, bom, start, handler);
      StartStep(start, st1, LSkipped(text));
    }

    /** A turn of the loop with its read: the next line of the text, if there is one. */
    method ParseNext(ctx: Context, ghost st: State, ghost end: State) returns (ok: bool, ghost next: State)
      requires Shows(st) && ctx.Valid() && Leads(st, ctx.Rest(), handler, end)
      modifies this, line, section, prevName, ctx
      ensures ctx.Valid() && Shows(next) && Leads(next, ctx.Rest(), handler, end)
      ensures if ok then |ctx.Rest()| < |old(ctx.Rest())| else next == end && ctx.Rest() == old(ctx.Rest())
    {
      ghost var s := ctx.Rest();
      ok := ctx.Read(line, INI_MAX_LINE);
      LeadsOn(st, s, handler, end);
      next := st;
      if ok {
        ghost var raw := s[..Take(s, INI_MAX_LINE - 1)];
        ParseLine(st, raw);
        next := Line(st, raw, handler);
      }
    }

    /** `ini_parse_string`: the same calls, in the same order, and the same error, as parsing the text
        by lines. */
    method ParseString(text: string) returns (code: nat)
      requires Shows(START) && '\0' !in text
      modifies this, line, section, prevName
      ensures Shows(Parse(text, handler)) && code == Parse(text, handler).error
    {
      var ctx := new Context(text);
      ghost var st, end := START, Parse(text, handler);
      LeadsIs(START, text, handler, end);
      var more := true;
      while more
        invariant ctx.Valid() && fresh(ctx) && Shows(st) && Leads(st, ctx.Rest(), handler, end)
        invariant !more ==> st == end
        decreases |ctx.Rest()|, more
      {
        more, st := ParseNext(ctx, st, end);
      }
      code := error;
    }
  }

  ghost predicate Ask(rest: string) { true }

  /** Parsing the rest of a text from a state ends in the given state. */
  ghost predicate Leads(st: State, rest: string, h: Handler, end: State) {
    forall s {:trigger Ask(s)} :: Ask(s) && s == rest ==> AllLines(st, Lines(s, INI_MAX_LINE), h) == end
  }

  lemma LeadsIs(st: State, rest: string, h: Handler, end: State)
    requires AllLines(st, Lines(rest, INI_MAX_LINE), h) == end
    ensures Leads(st, rest, h, end)
  {
  }

  lemma LeadsMeans(st: State, rest: string, h: Handler, end: State)
    requires Leads(st, rest, h, end)
    ensures AllLines(st, Lines(rest, INI_MAX_LINE), h) == end
  {
    assert Ask(rest);
  }

  lemma LinesFirst(s: string, num: nat)
    requires s != [] && num >= 2
    ensures var n := Take(s, num - 1); 0 < n <= |s| && Lines(s, num) == [s[..n]] + Lines(s[n..], num)
  {
  }

  lemma LeadsOn(st: State, rest: string, h: Handler, end: State)
    requires Leads(st, rest, h, end)
    ensures rest == [] ==> st == end
    ensures var n := Take(rest, INI_MAX_LINE - 1);
      rest != [] ==> 0 < n <= |rest| && Leads(Line(st, rest[..n], h), rest[n..], h, end)
  {
    LeadsMeans(st, rest, h, end);
    if rest != [] {
      var n := Take(rest, INI_MAX_LINE - 1);
      LinesFirst(rest, INI_MAX_LINE);
      AllLinesFirst(st, rest[..n], Lines(rest[n..], INI_MAX_LINE), h);
      LeadsIs(Line(st, rest[..n], h), rest[n..], h, end);
    }
  }

  /** What a line does depends on its text from the first visible character on, and on whether that
      is the first one in the buffer. */
  lemma LineStarts(st: State, raw: string, bom: nat, start: nat, h: Handler)
    requires bom <= |raw| && bom == (if HasBom(raw, st.lineno + 1) then 3 else 0)
    requires var text := RStripped(raw[bom..]); bom <= start <= bom + |text| && text[start - bom..] == LSkipped(text)
    ensures Line(st, raw, h) == StartLine(st.(lineno := st.lineno + 1), LSkipped(RStripped(raw[bom..])), start > 0, h)
  {
    var next := st.(lineno := st.lineno + 1);
    assert raw[0..] == raw;
    var text := RStripped(raw[bom..]);
    assert Line(st, raw, h) == TextLine(next, text, bom > 0, h);
    IndentedIs(text, bom, start);
  }

  lemma PairIs(st: State, s: string, e: nat, h: Handler)
    requires e == FindFrom(s, "=", false)
    ensures var name := RStripped(s[..e]);
      PairLine(st, s, h) ==
        if e < |s| && (s[e] == '=' || s[e] == ':')
        then Handled(st.(prevName := Truncated(name, MAX_NAME)), name, ValueOf(s[e + 1..]), h) else Failed(st)
  {
  }

  lemma IndentedIs(text: string, bom: nat, start: nat)
    requires bom <= start <= bom + |text| && text[start - bom..] == LSkipped(text)
    ensures (bom > 0 || |LSkipped(text)| < |text|) <==> start > 0
  {
  }

  lemma {:induction false} RStripShorter(s: string)
    ensures |RStripped(s)| <= |s|
  {
    if s != [] {
      RStripShorter(s[..|s| - 1]);
    }
  }

  lemma StrBefore(b: seq<char>, b': seq<char>, lo: nat, at: nat, s: string)
    requires IsStr(b, at, s) && |b'| == |b| && (forall i :: 0 <= i < |b| && i < lo ==> b'[i] == b[i]) && at + |s| < lo
    ensures IsStr(b', at, s)
  {
  }
}
