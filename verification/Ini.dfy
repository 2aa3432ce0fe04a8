/** INI file parser (uboot/cmd/ini.c), on the text of the file in memory. */
module Ini {

  const MAX_LINE := 200
  const MAX_SECTION := 50
  const MAX_NAME := 50

  predicate IsSpace(c: char) { '\t' <= c <= '\r' || c == ' ' || c == 160 as char }

  /** A line buffer as a C string: up to its first null character. */
  function CutNul(s: string): string {
    if s == "" || s[0] == '\0' then "" else [s[0]] + CutNul(s[1..])
  }

  function Rstrip(s: string): (r: string)
    ensures r <= s && (r != "" ==> !IsSpace(r[|r| - 1]))
  {
    if s != "" && IsSpace(s[|s| - 1]) then Rstrip(s[..|s| - 1]) else s
  }

  function Lskip(s: string): (r: string)
    ensures |r| <= |s| && (r != "" ==> !IsSpace(r[0]))
  {
    if s != "" && IsSpace(s[0]) then Lskip(s[1..]) else s
  }

  /** Character `i` starts a comment: a semicolon after white space. */
  predicate CommentAt(s: string, i: int) { 0 < i < |s| && s[i] == ';' && IsSpace(s[i - 1]) }

  /** First place from `i` on of character `c` or of a comment, or the end. */
  function Find(s: string, c: char, i: nat): (r: nat)
    requires i <= |s|
    ensures i <= r <= |s|
    decreases |s| - i
  {
    if i == |s| || s[i] == c || CommentAt(s, i) then i else Find(s, c, i + 1)
  }

  function Trunc(s: string, n: nat): string { if |s| > n then s[..n] else s }

  function Unquote(v: string): string {
    if v != "" && v[0] == '"' && v[|v| - 1] == '"' then (if |v| == 1 then "" else v[1..|v| - 1]) else v
  }

  // ---------------------------------------------------------------- one line

  /** A handler call. */
  datatype Call = Call(section: string, name: string, value: string)

  /** What a line means: nothing, a section heading, a call, or an error. */
  datatype Meaning = Nothing | Heading(name: string) | Makes(call: Call) | Malformed

  /** The place of the equals sign or, without one, of the colon. */
  function Separator(s: string): (r: nat)
    ensures r <= |s|
  {
    var eq := Find(s, '=', 0);
    if eq < |s| && s[eq] == '=' then eq else Find(s, ':', 0)
  }

  /** The text after the separator without its comment, white space and quotes. */
  function ValueOf(text: string): string {
    var value := Lskip(text);
    Unquote(Rstrip(value[..Find(value, '\0', 0)]))
  }

  /** The name=value part of a line. */
  function PairMeaning(section: string, s: string): Meaning {
    var end := Separator(s);
    if end < |s| && (s[end] == '=' || s[end] == ':') then Makes(Call(section, Rstrip(s[..end]), ValueOf(s[end + 1..])))
    else Malformed
  }

  function LineMeaning(multiline: bool, section: string, prev: string, piece: string): Meaning {
    var line := Rstrip(CutNul(piece));
    var s := Lskip(line);
    if s == "" || s[0] == ';' || s[0] == '#' then Nothing
    else if multiline && prev != "" && |s| < |line| then Makes(Call(section, prev, s))
    else if s[0] == '[' then
      var end := Find(s, ']', 1);
      if end < |s| && s[end] == ']' then Heading(Trunc(s[1..end], MAX_SECTION - 1)) else Malformed
    else PairMeaning(section, s)
  }

  /** Section and previous name after a line. A continuation keeps the previous name. */
  function NextSection(m: Meaning, section: string): string { if m.Heading? then m.name else section }

  function NextPrev(m: Meaning, prev: string): string {
    match m
    case Heading(_) => ""
    case Makes(c) => Trunc(c.name, MAX_NAME - 1)
    case _ => prev
  }

  // ---------------------------------------------------------------- the file

  /** The next line of the text, with its newline if it has one. */
  function Piece(text: string): (r: string)
    ensures r <= text && (text != "" ==> r != "")
  {
    if text == "" then "" else if text[0] == '\n' then "\n" else [text[0]] + Piece(text[1..])
  }

  datatype State = State(section: string, prev: string, calls: seq<Call>, error: nat)

  /** The state after one line, with `verdicts` the results of the handler calls in order. */
  function Step(multiline: bool, verdicts: seq<bool>, st: State, lineno: nat, piece: string): State {
    var m := LineMeaning(multiline, st.section, st.prev, piece);
    var calls := if m.Makes? then st.calls + [m.call] else st.calls;
    State(NextSection(m, st.section), NextPrev(m, st.prev), calls,
          if Fails(m, verdicts, |st.calls|) && st.error == 0 then lineno else st.error)
  }

  /** A line fails when it is malformed or its handler call is refused. */
  predicate Fails(m: Meaning, verdicts: seq<bool>, call: nat) {
    m.Malformed? || (m.Makes? && call < |verdicts| && !verdicts[call])
  }

  function Parse(multiline: bool, verdicts: seq<bool>, st: State, lineno: nat, text: string): State
    decreases |text|
  {
    if text == "" then st
    else
      var next := Step(multiline, verdicts, st, lineno + 1, Piece(text));
      Parse(multiline, verdicts, next, lineno + 1, text[|Piece(text)|..])
  }

  const START: State := State("", "", [], 0)

  /** Every line fits the line buffer. */
  ghost predicate LinesFit(text: string)
    decreases |text|
  {
    text == "" || (|Piece(text)| < MAX_LINE && LinesFit(text[|Piece(text)|..]))
  }

  // ---------------------------------------------------------------- the loops

  method RstripLoop(s: string) returns (r: string)
    ensures r == Rstrip(s)
  {
    var p := |s|;
    assert s[..p] == s;
    while p > 0 && IsSpace(s[p - 1])
      invariant 0 <= p <= |s| && Rstrip(s[..p]) == Rstrip(s)
    {
      assert s[..p][..p - 1] == s[..p - 1];
      p := p - 1;
    }
    r := s[..p];
  }

  method LskipLoop(s: string) returns (r: string)
    ensures r == Lskip(s)
  {
    var p := 0;
    while p < |s| && IsSpace(s[p])
      invariant 0 <= p <= |s| && Lskip(s[p..]) == Lskip(s)
    {
      assert s[p..][1..] == s[p + 1..];
      p := p + 1;
    }
    r := s[p..];
  }

  method FindLoop(s: string, c: char, from: nat) returns (i: nat)
    requires from <= |s|
    ensures i == Find(s, c, from)
  {
    var wasWhitespace := from > 0 && IsSpace(s[from - 1]);
    i := from;
    while i < |s| && s[i] != c && !(wasWhitespace && s[i] == ';')
      invariant from <= i <= |s| && Find(s, c, i) == Find(s, c, from)
      invariant wasWhitespace == (i > 0 && IsSpace(s[i - 1]))
    {
      wasWhitespace := IsSpace(s[i]);
      i := i + 1;
    }
  }

  /** Takes the next line off the memory at `mem`; the line ends at the returned place. */
  method Memgets(file: string, mem: nat) returns (str: string, next: nat)
    requires mem < |file|
    ensures str == Piece(file[mem..]) && next == mem + |str| <= |file| && file[next..] == file[mem..][|str|..]
  {
    var end := mem;
    while end < |file| && file[end] != '\n'
      invariant mem <= end <= |file|
      invariant |Piece(file[mem..])| == (end - mem) + |Piece(file[end..])|
    {
      assert file[end..][1..] == file[end + 1..];
      end := end + 1;
    }
    var newline := if end < |file| then 1 else 0;
    next := end + newline;
    str := file[mem..next];
  }

  /** The meaning of a line, computed as the parser does. */
  method ReadLine(multiline: bool, section: string, prev: string, piece: string) returns (m: Meaning)
    ensures m == LineMeaning(multiline, section, prev, piece)
  {
    var line := RstripLoop(CutNul(piece));
    var s := LskipLoop(line);
    if s == "" || s[0] == ';' || s[0] == '#' {
      return Nothing;
    }
    if multiline && prev != "" && |s| < |line| {
      return Makes(Call(section, prev, s));
    }
    if s[0] == '[' {
      var end := FindLoop(s, ']', 1);
      return if end < |s| && s[end] == ']' then Heading(Trunc(s[1..end], MAX_SECTION - 1)) else Malformed;
    }
    m := ReadPair(section, s);
  }

  method ReadValue(text: string) returns (v: string)
    ensures v == ValueOf(text)
  {
    var value := LskipLoop(text);
    var comment := FindLoop(value, '\0', 0);
    value := RstripLoop(value[..comment]);
    v := Unquote(value);
  }

  method FindSeparator(s: string) returns (end: nat)
    ensures end == Separator(s)
  {
    end := FindLoop(s, '=', 0);
    if !(end < |s| && s[end] == '=') {
      end := FindLoop(s, ':', 0);
    }
  }

  method ReadPair(section: string, s: string) returns (m: Meaning)
    ensures m == PairMeaning(section, s)
  {
    var end := FindSeparator(s);
    if end < |s| && (s[end] == '=' || s[end] == ':') {
      var name := RstripLoop(s[..end]);
      var value := ReadValue(s[end + 1..]);
      return Makes(Call(section, name, value));
    }
    return Malformed;
  }

  method IniParse(multiline: bool, file: string, verdicts: seq<bool>) returns (error: nat, calls: seq<Call>)
    requires LinesFit(file)
    ensures error == Parse(multiline, verdicts, START, 0, file).error
    ensures calls == Parse(multiline, verdicts, START, 0, file).calls
  {
    var section, prevName, lineno := "", "", 0;
    error, calls := 0, [];
    var curmem := 0;
    ghost var result := Parse(multiline, verdicts, START, 0, file);
    assert file[0..] == file;
    while curmem < |file|
      invariant 0 <= curmem <= |file|
      invariant Parse(multiline, verdicts, State(section, prevName, calls, error), lineno, file[curmem..]) == result
    {
      var line, next := Memgets(file, curmem);
      lineno := lineno + 1;
      var m := ReadLine(multiline, section, prevName, line);
      var ok := true;
      if m.Makes? {
        ok := |calls| >= |verdicts| || verdicts[|calls|];
        calls := calls + [m.call];
      }
      if (m.Malformed? || !ok) && error == 0 {
        error := lineno;
      }
      section, prevName := NextSection(m, section), NextPrev(m, prevName);
      curmem := next;
    }
  }
}
