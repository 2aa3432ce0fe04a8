/** Lines, errors and the round trip of the INI parser. */
module IniTheorems {
  import opened Ini

  // ---------------------------------------------------------------- lines

  /** The pieces that successive line reads take. */
  ghost function Pieces(text: string): seq<string>
    decreases |text|
  {
    if text == "" then [] else [Piece(text)] + Pieces(text[|Piece(text)|..])
  }

  ghost function Flat(ss: seq<string>): string { if ss == [] then "" else ss[0] + Flat(ss[1..]) }

  /** A whole line: it has a newline at its end or, for the last line, none. */
  ghost predicate WholeLine(s: string, last: bool) {
    s != "" && (forall k :: 0 <= k < |s| - 1 ==> s[k] != '\n') && (s[|s| - 1] == '\n' || last)
  }

  lemma {:induction false} PieceIsLine(text: string)
    requires text != ""
    ensures WholeLine(Piece(text), Piece(text) == text)
    decreases |text|
  {
    if text[0] != '\n' && |text| > 1 {
      PieceIsLine(text[1..]);
      var p := Piece(text[1..]);
      assert Piece(text) == [text[0]] + p;
      if p == text[1..] { assert text == [text[0]] + p; }
    }
  }

  /** The line reads take whole lines, one each, and together the whole file. */
  lemma {:induction false} PiecesAreLines(text: string)
    ensures Flat(Pieces(text)) == text
    ensures forall i :: 0 <= i < |Pieces(text)| ==> WholeLine(Pieces(text)[i], i == |Pieces(text)| - 1)
    decreases |text|
  {
    if text != "" {
      var p := Piece(text);
      var rest := text[|p|..];
      PieceIsLine(text);
      PiecesAreLines(rest);
      assert text == p + rest;
      assert ([p] + Pieces(rest))[1..] == Pieces(rest);
      if rest != "" { assert p != text; }
    }
  }

  // ---------------------------------------------------------------- the first error

  /** The state after the first `n` lines. */
  ghost function Run(multiline: bool, verdicts: seq<bool>, lines: seq<string>, n: nat): State
    requires n <= |lines|
  {
    if n == 0 then START else Step(multiline, verdicts, Run(multiline, verdicts, lines, n - 1), n, lines[n - 1])
  }

  lemma {:induction false} RunPrefix(multiline: bool, verdicts: seq<bool>, done: seq<string>, all: seq<string>, n: nat)
    requires n <= |done| <= |all| && forall k :: 0 <= k < n ==> all[k] == done[k]
    ensures Run(multiline, verdicts, all, n) == Run(multiline, verdicts, done, n)
    decreases n
  {
    if n > 0 {
      RunPrefix(multiline, verdicts, done, all, n - 1);
      assert all[n - 1] == done[n - 1];
    }
  }

  lemma RunSnoc(multiline: bool, verdicts: seq<bool>, done: seq<string>, p: string)
    ensures Run(multiline, verdicts, done + [p], |done| + 1)
            == Step(multiline, verdicts, Run(multiline, verdicts, done, |done|), |done| + 1, p)
  {
    RunPrefix(multiline, verdicts, done, done + [p], |done|);
  }

  lemma PiecesSnoc(done: seq<string>, text: string)
    requires text != ""
    ensures done + Pieces(text) == (done + [Piece(text)]) + Pieces(text[|Piece(text)|..])
  {
  }

  /** One line of the parser. */
  lemma ParseStep(
      multiline: bool, verdicts: seq<bool>, st: State, lineno: nat, text: string, p: string, rest: string, st': State)
    requires text != "" && p == Piece(text) && rest == text[|p|..]
    requires st' == Step(multiline, verdicts, st, lineno + 1, p)
    ensures Parse(multiline, verdicts, st, lineno, text) == Parse(multiline, verdicts, st', lineno + 1, rest)
  {
  }

  /** Parsing on after the lines `done` is running over all the lines. */
  lemma {:induction false} ParseIsRun(
      multiline: bool, verdicts: seq<bool>, done: seq<string>, text: string, st: State, all: seq<string>)
    requires st == Run(multiline, verdicts, done, |done|) && all == done + Pieces(text)
    ensures Parse(multiline, verdicts, st, |done|, text) == Run(multiline, verdicts, all, |all|)
    decreases |text|
  {
    if text == "" {
      assert all == done;
    } else {
      var p := Piece(text);
      var rest := text[|p|..];
      var st' := Step(multiline, verdicts, st, |done| + 1, p);
      RunSnoc(multiline, verdicts, done, p);
      PiecesSnoc(done, text);
      ParseStep(multiline, verdicts, st, |done|, text, p, rest, st');
      ParseIsRun(multiline, verdicts, done + [p], rest, st', all);
    }
  }

  /** Line `k` (from 0) of the file is malformed or its call is refused. */
  ghost predicate FailsAt(multiline: bool, verdicts: seq<bool>, lines: seq<string>, k: nat)
    requires k < |lines|
  {
    var st := Run(multiline, verdicts, lines, k);
    var m, call := LineMeaning(multiline, st.section, st.prev, lines[k]), |st.calls|;
    m == Malformed || (m.Makes? && call < |verdicts| && !verdicts[call])
  }

  /** `e` is the number (from 1) of the first failing line among the first `n`, or 0. */
  ghost predicate IsFirstError(multiline: bool, verdicts: seq<bool>, lines: seq<string>, n: nat, e: nat)
    requires n <= |lines|
  {
    && e <= n && (e > 0 ==> FailsAt(multiline, verdicts, lines, e - 1))
    && forall k :: 0 <= k < (if e > 0 then e - 1 else n) ==> !FailsAt(multiline, verdicts, lines, k)
  }

  /** The same on the list of which lines fail. */
  ghost predicate IsFirst(bad: seq<bool>, n: nat, e: nat)
    requires n <= |bad|
  {
    e <= n && (e > 0 ==> bad[e - 1]) && forall k :: 0 <= k < (if e > 0 then e - 1 else n) ==> !bad[k]
  }

  /** How one line changes the reported error. */
  lemma RunError(multiline: bool, verdicts: seq<bool>, lines: seq<string>, n: nat)
    requires n < |lines|
    ensures
      var e := Run(multiline, verdicts, lines, n).error;
      Run(multiline, verdicts, lines, n + 1).error ==
      if FailsAt(multiline, verdicts, lines, n) && e == 0 then n + 1 else e
  {
    var st := Run(multiline, verdicts, lines, n);
    assert Run(multiline, verdicts, lines, n + 1) == Step(multiline, verdicts, st, n + 1, lines[n]);
  }

  /** An error number set by the first failing line and then kept. */
  lemma {:induction false} KeptErrorIsFirst(bad: seq<bool>, errors: seq<nat>, n: nat)
    requires n <= |bad| && |errors| == |bad| + 1 && errors[0] == 0
    requires forall k :: 0 <= k < |bad| ==> errors[k + 1] == if bad[k] && errors[k] == 0 then k + 1 else errors[k]
    ensures IsFirst(bad, n, errors[n])
    decreases n
  {
    if n > 0 { KeptErrorIsFirst(bad, errors, n - 1); }
  }

  ghost function FailList(multiline: bool, verdicts: seq<bool>, lines: seq<string>): (bad: seq<bool>)
    ensures |bad| == |lines|
    ensures forall k :: 0 <= k < |bad| ==> bad[k] == FailsAt(multiline, verdicts, lines, k)
  {
    seq(|lines|, k requires 0 <= k < |lines| => FailsAt(multiline, verdicts, lines, k))
  }

  ghost function ErrorList(multiline: bool, verdicts: seq<bool>, lines: seq<string>): (errors: seq<nat>)
    ensures |errors| == |lines| + 1
    ensures forall k :: 0 <= k < |errors| ==> errors[k] == Run(multiline, verdicts, lines, k).error
  {
    seq(|lines| + 1, k requires 0 <= k <= |lines| => Run(multiline, verdicts, lines, k).error)
  }

  lemma ErrorListStep(
      multiline: bool, verdicts: seq<bool>, lines: seq<string>, bad: seq<bool>, errors: seq<nat>, k: nat)
    requires k < |lines| && bad == FailList(multiline, verdicts, lines)
    requires errors == ErrorList(multiline, verdicts, lines)
    ensures errors[k + 1] == if bad[k] && errors[k] == 0 then k + 1 else errors[k]
  {
    RunError(multiline, verdicts, lines, k);
  }

  /** A run ends with the number of the first failing line. */
  lemma RunReportsFirst(multiline: bool, verdicts: seq<bool>, lines: seq<string>)
    ensures IsFirst(FailList(multiline, verdicts, lines), |lines|, Run(multiline, verdicts, lines, |lines|).error)
  {
    var bad, errors := FailList(multiline, verdicts, lines), ErrorList(multiline, verdicts, lines);
    forall k | 0 <= k < |lines| ensures errors[k + 1] == if bad[k] && errors[k] == 0 then k + 1 else errors[k] {
      ErrorListStep(multiline, verdicts, lines, bad, errors, k);
    }
    assert errors[0] == 0;
    KeptErrorIsFirst(bad, errors, |lines|);
  }

  lemma FirstIsFirstError(multiline: bool, verdicts: seq<bool>, lines: seq<string>, bad: seq<bool>, n: nat, e: nat)
    requires bad == FailList(multiline, verdicts, lines) && n <= |lines| && IsFirst(bad, n, e)
    ensures IsFirstError(multiline, verdicts, lines, n, e)
  {
    assert e > 0 ==> bad[e - 1];
    assert forall k :: 0 <= k < (if e > 0 then e - 1 else n) ==> !bad[k];
  }

  /** The parser returns the number of the first bad line, and 0 if there is none. */
  lemma ReportsFirstError(multiline: bool, verdicts: seq<bool>, file: string)
    ensures
      var lines := Pieces(file);
      IsFirstError(multiline, verdicts, lines, |lines|, Parse(multiline, verdicts, START, 0, file).error)
  {
    var lines := Pieces(file);
    assert [] + lines == lines;
    ParseIsRun(multiline, verdicts, [], file, START, lines);
    RunReportsFirst(multiline, verdicts, lines);
    FirstIsFirstError(multiline, verdicts, lines, FailList(multiline, verdicts, lines), |lines|,
                      Run(multiline, verdicts, lines, |lines|).error);
  }

  // ---------------------------------------------------------------- round trip

  /** A line of a file: a heading; a name and a value with a separator, white space around it,
      quotes or none, and perhaps a remark behind; a continuation of the value before; or a remark
      or blank line. */
  datatype Entry =
    | Head(name: string)
    | Pair(name: string, gap: string, separator: char, pad: string, value: string, quoted: bool, remark: string)
    | Continued(value: string)
    | Remark(text: string)

  ghost function Quote(v: string): string { "\"" + v + "\"" }

  /** A remark behind a value, after a space. */
  ghost function Behind(remark: string): string { if remark == "" then "" else " " + remark }

  /** The value as it is written. */
  ghost function Written(e: Entry): string
    requires e.Pair?
  {
    if e.quoted then Quote(e.value) else e.value
  }

  ghost function Body(e: Entry): string {
    match e
    case Head(n) => "[" + n + "]"
    case Pair(n, gap, sep, pad, _, _, remark) => (n + gap + [sep]) + (pad + (Written(e) + Behind(remark)))
    case Continued(v) => " " + v
    case Remark(t) => t
  }

  /** At most the first 49 characters. */
  ghost function Short(s: string): string { if |s| > 49 then s[..49] else s }

  ghost function Render(e: Entry): string { Body(e) + "\n" }

  ghost function RenderAll(es: seq<Entry>): string { if es == [] then "" else Render(es[0]) + RenderAll(es[1..]) }

  /** Name that the next continuation line belongs to. */
  ghost function PrevOf(e: Entry, prev: string): string {
    match e
    case Head(_) => ""
    case Pair(n, _, _, _, _, _, _) => Short(n)
    case _ => prev
  }

  /** The call an entry stands for, if any. */
  ghost function CallOf(e: Entry, section: string, prev: string): seq<Call> {
    match e
    case Pair(n, _, _, _, v, _, _) => [Call(section, n, v)]
    case Continued(v) => [Call(section, prev, v)]
    case _ => []
  }

  /** The calls the entries stand for. */
  ghost function CallsOf(es: seq<Entry>, section: string, prev: string): seq<Call>
    decreases |es|
  {
    if es == [] then []
    else
      var section' := if es[0].Head? then Short(es[0].name) else section;
      CallOf(es[0], section, prev) + CallsOf(es[1..], section', PrevOf(es[0], prev))
  }

  ghost predicate NoBreak(s: string) { '\n' !in s && '\0' !in s }

  /** Text with nothing in it that could be taken for a comment. */
  ghost predicate Plain(s: string) { NoBreak(s) && forall k :: 0 <= k < |s| ==> !CommentAt(s, k) }

  /** Text that line reading leaves as it is. */
  ghost predicate Trimmed(s: string) { NoBreak(s) && s != "" && !IsSpace(s[0]) && !IsSpace(s[|s| - 1]) }

  /** White space inside a line. */
  ghost predicate Spaces(s: string) { NoBreak(s) && forall k :: 0 <= k < |s| ==> IsSpace(s[k]) }

  /** The value can be written as the entry does: quoted, or bare without white space or quotes
      around it; nothing at all only at the end of the line. */
  ghost predicate GoodValue(e: Entry)
    requires e.Pair?
  {
    var v := e.value;
    && Plain(v) && (e.remark == "" || (Trimmed(e.remark) && e.remark[0] == ';'))
    && (e.quoted ||
        (v == "" && e.pad == "" && e.remark == "") ||
        (Trimmed(v) && v[0] != ';' && !(v[0] == '"' && v[|v| - 1] == '"')))
  }

  ghost predicate Good(multiline: bool, e: Entry, prev: string) {
    match e
    case Head(n) => Plain(n) && ']' !in n
    case Pair(n, gap, sep, pad, v, _, _) =>
      && Plain(n) && Trimmed(n) && n[0] != ';' && n[0] != '#' && n[0] != '[' && '=' !in n
      && Spaces(gap) && Spaces(pad) && GoodValue(e) && (sep == '=' || (sep == ':' && ':' !in n && '=' !in v))
    case Continued(v) => multiline && prev != "" && Trimmed(v) && v[0] != ';' && v[0] != '#'
    case Remark(t) => t == "" || (Trimmed(t) && (t[0] == ';' || t[0] == '#'))
  }

  ghost predicate AllGood(multiline: bool, es: seq<Entry>, prev: string)
    decreases |es|
  {
    es == [] || (Good(multiline, es[0], prev) && AllGood(multiline, es[1..], PrevOf(es[0], prev)))
  }

  // ---------------------------------------------------------------- strings

  /** A C string ends before its first null character. */
  lemma {:induction false} CutNulMeans(s: string)
    ensures
      var r := CutNul(s);
      r <= s && '\0' !in r && (|r| < |s| ==> s[|r|] == '\0')
    decreases |s|
  {
    if s != "" && s[0] != '\0' { CutNulMeans(s[1..]); }
  }

  /** Only white space is taken off the end, and only white space off the start. */
  lemma {:induction false} RstripMeans(s: string)
    ensures
      var r := Rstrip(s);
      r <= s && forall k :: |r| <= k < |s| ==> IsSpace(s[k])
    decreases |s|
  {
    if s != "" && IsSpace(s[|s| - 1]) {
      var t := s[..|s| - 1];
      RstripMeans(t);
      forall k | |Rstrip(s)| <= k < |s| ensures IsSpace(s[k]) { if k < |t| { assert t[k] == s[k]; } }
    }
  }

  lemma {:induction false} LskipMeans(s: string)
    ensures
      var r := Lskip(s);
      r == s[|s| - |r|..] && forall k :: 0 <= k < |s| - |r| ==> IsSpace(s[k])
    decreases |s|
  {
    if s != "" && IsSpace(s[0]) {
      var t := s[1..];
      LskipMeans(t);
      forall k | 0 <= k < |s| - |Lskip(s)| ensures IsSpace(s[k]) { if k > 0 { assert t[k - 1] == s[k]; } }
    }
  }

  lemma {:induction false} CutNulWhole(s: string)
    requires '\0' !in s
    ensures CutNul(s) == s
    decreases |s|
  {
    if s != "" { CutNulWhole(s[1..]); assert s == [s[0]] + s[1..]; }
  }

  /** A line without white space at its end is read as it is. */
  lemma LineText(s: string)
    requires NoBreak(s) && (s == "" || !IsSpace(s[|s| - 1]))
    ensures Rstrip(CutNul(s + "\n")) == s
  {
    CutNulWhole(s + "\n");
    assert (s + "\n")[..|s|] == s;
  }

  /** The place of a character or comment with neither before it. */
  lemma {:induction false} FindAt(s: string, c: char, i: nat, r: nat)
    requires i <= r <= |s| && (r < |s| ==> s[r] == c || CommentAt(s, r))
    requires forall k :: i <= k < r ==> s[k] != c && !CommentAt(s, k)
    ensures Find(s, c, i) == r
    decreases r - i
  {
    if i < r { FindAt(s, c, i + 1, r); }
  }

  lemma CommentInConcat(a: string, b: string, k: int)
    ensures k < |a| ==> (CommentAt(a + b, k) <==> CommentAt(a, k))
    ensures k > |a| ==> (CommentAt(a + b, k) <==> CommentAt(b, k - |a|))
  {
  }

  lemma PlainConcat(a: string, b: string)
    requires Plain(a) && Plain(b) && (b != "" ==> b[0] != ';')
    ensures Plain(a + b)
  {
    forall k | 0 <= k < |a + b| ensures !CommentAt(a + b, k) { CommentInConcat(a, b, k); }
  }

  lemma QuotePlain(v: string)
    requires Plain(v)
    ensures Plain(Quote(v)) && ('=' !in v ==> '=' !in Quote(v))
  {
    var q := Quote(v);
    forall k | 0 <= k < |q| ensures !CommentAt(q, k) {
      if 1 < k <= |v| { assert q[k] == v[k - 1] && q[k - 1] == v[k - 2]; assert !CommentAt(v, k - 1); }
    }
  }

  /** The end of a plain text, or the remark behind it, stops a search for a character the text
      does not hold. */
  lemma FindPastPlain(a: string, remark: string, c: char)
    requires Plain(a) && c !in a && c != ' ' && (remark != "" ==> remark[0] == ';')
    ensures
      var r := if remark == "" then |a| else |a| + 1;
      Find(a + Behind(remark), c, 0) == r && (r < |a + Behind(remark)| ==> (a + Behind(remark))[r] == ';')
  {
    var s := a + Behind(remark);
    var r := if remark == "" then |a| else |a| + 1;
    forall k | 0 <= k < r ensures s[k] != c && !CommentAt(s, k) {
      if k < |a| { CommentInConcat(a, Behind(remark), k); }
    }
    FindAt(s, c, 0, r);
  }

  lemma {:induction false} LskipSpaces(w: string, t: string)
    requires Spaces(w)
    ensures Lskip(w + t) == Lskip(t)
    decreases |w|
  {
    if w == "" {
      assert w + t == t;
    } else {
      assert (w + t)[1..] == w[1..] + t;
      LskipSpaces(w[1..], t);
    }
  }

  lemma {:induction false} RstripSpaces(s: string, w: string)
    requires Spaces(w) && (s == "" || !IsSpace(s[|s| - 1]))
    ensures Rstrip(s + w) == s
    decreases |w|
  {
    if w == "" {
      assert s + w == s;
    } else {
      var n := |w| - 1;
      assert (s + w)[..|s + w| - 1] == s + w[..n];
      RstripSpaces(s, w[..n]);
    }
  }

  lemma SpacesPlain(w: string)
    requires Spaces(w)
    ensures Plain(w) && (forall c :: c in w ==> IsSpace(c)) && (w != "" ==> w[0] != ';')
  {
  }

  /** Text without white space around it, up to the remark behind it, is the value. */
  lemma BareRead(q: string, remark: string)
    requires Plain(q) && q != "" && !IsSpace(q[0]) && !IsSpace(q[|q| - 1]) && (remark != "" ==> remark[0] == ';')
    ensures ValueOf(q + Behind(remark)) == Unquote(q)
  {
    var value := q + Behind(remark);
    FindPastPlain(q, remark, '\0');
    assert value[0] == q[0];
    assert Lskip(value) == value;
    if remark == "" {
      assert value[..|q|] == q;
    } else {
      assert value[..|q| + 1] == q + " ";
      RstripSpaces(q, " ");
    }
  }

  lemma QuotesOff(v: string)
    ensures Unquote(Quote(v)) == v
  {
    var q := Quote(v);
    assert q[1..|q| - 1] == v;
  }

  lemma PadSkipped(pad: string, text: string)
    requires Spaces(pad)
    ensures ValueOf(pad + text) == ValueOf(text)
  {
    LskipSpaces(pad, text);
  }

  lemma WrittenRead(e: Entry)
    requires e.Pair? && GoodValue(e)
    ensures ValueOf(Written(e) + Behind(e.remark)) == e.value
  {
    if e.quoted {
      QuotePlain(e.value);
      BareRead(Quote(e.value), e.remark);
      QuotesOff(e.value);
    } else if e.value != "" {
      BareRead(e.value, e.remark);
    } else {
      assert Written(e) + Behind(e.remark) == "";
    }
  }

  lemma ValueRead(e: Entry)
    requires e.Pair? && Spaces(e.pad) && GoodValue(e)
    ensures ValueOf(e.pad + (Written(e) + Behind(e.remark))) == e.value
  {
    PadSkipped(e.pad, Written(e) + Behind(e.remark));
    WrittenRead(e);
  }

  /** The first place of a character that a plain text does not hold before it. */
  lemma FindAfter(a: string, c: char, b: string)
    requires Plain(a) && c !in a
    ensures Find((a + [c]) + b, c, 0) == |a|
  {
    var s := (a + [c]) + b;
    forall k | 0 <= k < |a| ensures s[k] != c && !CommentAt(s, k) {
      assert s[k] == a[k];
      CommentInConcat(a, [c] + b, k);
      assert s == a + ([c] + b);
    }
    FindAt(s, c, 0, |a|);
  }

  lemma WrittenPlain(e: Entry)
    requires e.Pair? && GoodValue(e)
    ensures Plain(Written(e)) && (Written(e) != "" ==> Written(e)[0] != ';')
    ensures '=' !in e.value ==> '=' !in Written(e)
  {
    QuotePlain(e.value);
  }

  lemma Regrouped(b: string, pad: string, w: string, t: string)
    ensures b + (pad + (w + t)) == (b + pad + w) + t
  {
  }

  /** A search for an equals sign that is not there ends at the remark or at the end. */
  lemma NoEquals(a: string, pad: string, w: string, remark: string, s: string)
    requires Plain(a) && Spaces(pad) && Plain(w) && (w != "" ==> w[0] != ';') && (remark != "" ==> remark[0] == ';')
    requires '=' !in a && '=' !in w && s == (a + [':']) + (pad + (w + Behind(remark)))
    ensures
      var r := Find(s, '=', 0);
      r < |s| ==> s[r] == ';'
  {
    var b := a + [':'];
    SpacesPlain(pad);
    PlainConcat(a, [':']);
    PlainConcat(b, pad);
    PlainConcat(b + pad, w);
    Regrouped(b, pad, w, Behind(remark));
    FindPastPlain(b + pad + w, remark, '=');
  }

  lemma SeparatorFound(e: Entry)
    requires e.Pair? && Good(false, e, "")
    ensures Separator(Body(e)) == |e.name + e.gap|
  {
    var a := e.name + e.gap;
    SpacesPlain(e.gap);
    PlainConcat(e.name, e.gap);
    FindAfter(a, e.separator, e.pad + (Written(e) + Behind(e.remark)));
    if e.separator == ':' {
      WrittenPlain(e);
      NoEquals(a, e.pad, Written(e), e.remark, Body(e));
    }
  }

  // ---------------------------------------------------------------- lines

  lemma BracketFound(n: string, s: string)
    requires Plain(n) && ']' !in n && s == "[" + n + "]"
    ensures NoBreak(s) && Find(s, ']', 1) == |n| + 1 && s[1..|n| + 1] == n
  {
    forall k | 1 <= k < |n| + 1 ensures s[k] != ']' && !CommentAt(s, k) {
      assert s[k] == n[k - 1];
      if k > 1 { assert s[k - 1] == n[k - 2]; assert !CommentAt(n, k - 1); }
    }
    FindAt(s, ']', 1, |n| + 1);
  }

  lemma HeadMeaning(multiline: bool, section: string, prev: string, n: string)
    requires Good(multiline, Head(n), prev)
    ensures LineMeaning(multiline, section, prev, Render(Head(n))) == Heading(Short(n))
  {
    var s := Body(Head(n));
    BracketFound(n, s);
    LineText(s);
    assert Lskip(s) == s;
  }

  lemma AroundSeparator(a: string, sep: char, rest: string, s: string)
    requires s == (a + [sep]) + rest
    ensures |a| < |s| && s[..|a|] == a && s[|a|] == sep && s[|a| + 1..] == rest
  {
  }

  lemma PairMeant(section: string, e: Entry)
    requires e.Pair? && Good(false, e, "")
    ensures PairMeaning(section, Body(e)) == Makes(Call(section, e.name, e.value))
  {
    SeparatorFound(e);
    AroundSeparator(e.name + e.gap, e.separator, e.pad + (Written(e) + Behind(e.remark)), Body(e));
    ValueRead(e);
    RstripSpaces(e.name, e.gap);
  }

  lemma PairEnd(e: Entry, s: string)
    requires e.Pair? && Good(false, e, "") && s == Body(e)
    ensures s != "" && s[0] == e.name[0] && !IsSpace(s[|s| - 1])
  {
    var rest := e.pad + (Written(e) + Behind(e.remark));
    assert s == (e.name + e.gap + [e.separator]) + rest;
    if e.remark != "" {
      assert s[|s| - 1] == e.remark[|e.remark| - 1];
    } else if Written(e) != "" {
      assert s[|s| - 1] == Written(e)[|Written(e)| - 1];
    } else {
      assert rest == "";
    }
  }

  lemma PairBody(e: Entry)
    requires e.Pair? && Good(false, e, "")
    ensures Trimmed(Body(e)) && Body(e)[0] == e.name[0]
  {
    PairEnd(e, Body(e));
    WrittenPlain(e);
  }

  lemma PairLine(multiline: bool, section: string, prev: string, e: Entry)
    requires e.Pair? && Good(multiline, e, prev)
    ensures LineMeaning(multiline, section, prev, Render(e)) == Makes(Call(section, e.name, e.value))
  {
    PairBody(e);
    LineText(Body(e));
    assert Lskip(Body(e)) == Body(e);
    PairMeant(section, e);
  }

  lemma ContinuedLine(section: string, prev: string, v: string)
    requires Good(true, Continued(v), prev)
    ensures LineMeaning(true, section, prev, Render(Continued(v))) == Makes(Call(section, prev, v))
  {
    var s := " " + v;
    LineText(s);
    assert s[1..] == v;
    assert Lskip(v) == v;
  }

  lemma RemarkLine(multiline: bool, section: string, prev: string, t: string)
    requires Good(multiline, Remark(t), prev)
    ensures LineMeaning(multiline, section, prev, Render(Remark(t))) == Nothing
  {
    LineText(t);
    assert Lskip(t) == t;
  }

  // ---------------------------------------------------------------- malformed lines

  /** White space is tab, newline, vertical tab, form feed, carriage return, space and 160. */
  lemma WhiteSpace(c: char)
    ensures IsSpace(c) <==> c as int in {9, 10, 11, 12, 13, 32, 160}
  {
  }

  /** Character `c` comes at or after `i`, and no semicolon after white space comes before it. */
  ghost predicate Reaches(s: string, c: char, i: nat) {
    exists k :: i <= k < |s| && s[k] == c && NoComment(s, i, k)
  }

  ghost predicate NoComment(s: string, i: int, k: int) {
    forall j :: i <= j < k && 0 < j < |s| && s[j] == ';' ==> s[j - 1] as int !in {9, 10, 11, 12, 13, 32, 160}
  }

  lemma {:induction false} FindReaches(s: string, c: char, i: nat)
    requires i <= |s| && c != ';'
    ensures
      var r := Find(s, c, i);
      (r < |s| && s[r] == c) <==> Reaches(s, c, i)
    decreases |s| - i
  {
    if i < |s| {
      if s[i] == c {
        assert NoComment(s, i, i);
      } else if CommentAt(s, i) {
        WhiteSpace(s[i - 1]);
        forall k | i <= k < |s| && s[k] == c ensures !NoComment(s, i, k) { assert i < k; }
      } else {
        FindReaches(s, c, i + 1);
        if k :| i <= k < |s| && s[k] == c && NoComment(s, i, k) { assert NoComment(s, i + 1, k); }
        if k :| i + 1 <= k < |s| && s[k] == c && NoComment(s, i + 1, k) {
          if i > 0 { WhiteSpace(s[i - 1]); }
          assert NoComment(s, i, k);
        }
      }
    }
  }

  lemma {:induction false} FindStops(s: string, c: char, i: nat)
    requires i <= |s|
    ensures Find(s, c, i) < |s| ==> s[Find(s, c, i)] == c || s[Find(s, c, i)] == ';'
    decreases |s| - i
  {
    if i < |s| { FindStops(s, c, i + 1); }
  }

  /** Which lines are errors: those that are neither blank nor a remark and lack the closing
      bracket of a heading, or both the equals sign and the colon of a pair. */
  lemma MalformedIff(multiline: bool, section: string, prev: string, s: string)
    requires Trimmed(s)
    ensures LineMeaning(multiline, section, prev, s + "\n") == Malformed <==>
      && s[0] != ';' && s[0] != '#'
      && (if s[0] == '[' then !Reaches(s, ']', 1) else !Reaches(s, '=', 0) && !Reaches(s, ':', 0))
  {
    LineText(s);
    assert Lskip(s) == s;
    FindReaches(s, ']', 1);
    FindReaches(s, '=', 0);
    FindReaches(s, ':', 0);
    FindStops(s, ':', 0);
  }

  // ---------------------------------------------------------------- whole lines

  lemma {:induction false} PieceOfLine(line: string, rest: string)
    requires WholeLine(line, false)
    ensures Piece(line + rest) == line
    decreases |line|
  {
    var text := line + rest;
    if |line| > 1 {
      assert text[1..] == line[1..] + rest;
      PieceOfLine(line[1..], rest);
      assert line == [line[0]] + line[1..];
    } else {
      assert line == "\n" && text[0] == '\n';
    }
  }

  lemma RenderedLine(multiline: bool, e: Entry, prev: string)
    requires Good(multiline, e, prev)
    ensures WholeLine(Render(e), false)
  {
    if e.Pair? { PairBody(e); }
    var body := Body(e);
    assert NoBreak(body);
    forall k | 0 <= k < |Render(e)| - 1 ensures Render(e)[k] != '\n' { assert Render(e)[k] == body[k]; }
  }

  // ---------------------------------------------------------------- files

  /** What a rendered entry does to the parser's state. */
  lemma EntryStep(multiline: bool, e: Entry, st: State, lineno: nat)
    requires Good(multiline, e, st.prev) && |st.prev| < MAX_NAME
    ensures
      var st' := Step(multiline, [], st, lineno, Render(e));
      && st'.error == st.error
      && st'.section == (if e.Head? then Short(e.name) else st.section)
      && st'.prev == PrevOf(e, st.prev) && |st'.prev| < MAX_NAME
      && st'.calls == st.calls + CallOf(e, st.section, st.prev)
  {
    match e
    case Head(n) => HeadMeaning(multiline, st.section, st.prev, n);
    case Pair(_, _, _, _, _, _, _) => PairLine(multiline, st.section, st.prev, e);
    case Continued(v) => ContinuedLine(st.section, st.prev, v);
    case Remark(t) => RemarkLine(multiline, st.section, st.prev, t);
  }

  lemma RenderedHead(multiline: bool, es: seq<Entry>, prev: string)
    requires es != [] && Good(multiline, es[0], prev)
    ensures
      var text := RenderAll(es);
      text != "" && Piece(text) == Render(es[0]) && text[|Render(es[0])|..] == RenderAll(es[1..])
  {
    RenderedLine(multiline, es[0], prev);
    PieceOfLine(Render(es[0]), RenderAll(es[1..]));
  }

  /** Rendered entries are parsed to exactly their calls, in order, without error. */
  lemma {:induction false} RenderParses(multiline: bool, es: seq<Entry>, st: State, lineno: nat)
    requires AllGood(multiline, es, st.prev) && st.error == 0 && |st.prev| < MAX_NAME
    ensures
      var r := Parse(multiline, [], st, lineno, RenderAll(es));
      r.error == 0 && r.calls == st.calls + CallsOf(es, st.section, st.prev)
    decreases |es|
  {
    if es != [] {
      var e := es[0];
      var st' := Step(multiline, [], st, lineno + 1, Render(e));
      RenderedHead(multiline, es, st.prev);
      EntryStep(multiline, e, st, lineno + 1);
      ParseStep(multiline, [], st, lineno, RenderAll(es), Render(e), RenderAll(es[1..]), st');
      RenderParses(multiline, es[1..], st', lineno + 1);
      Reassociate(st.calls, CallOf(e, st.section, st.prev), CallsOf(es[1..], st'.section, st'.prev));
    }
  }

  lemma Reassociate(a: seq<Call>, b: seq<Call>, c: seq<Call>)
    ensures (a + b) + c == a + (b + c)
  {
  }

  /** The rendered file meets the parser's line limit exactly when each entry does. */
  lemma {:induction false} RenderFits(multiline: bool, es: seq<Entry>, prev: string)
    requires AllGood(multiline, es, prev)
    ensures LinesFit(RenderAll(es)) <==> forall i :: 0 <= i < |es| ==> |Render(es[i])| < 200
    decreases |es|
  {
    if es != [] {
      RenderedHead(multiline, es, prev);
      RenderFits(multiline, es[1..], PrevOf(es[0], prev));
      assert forall i :: 0 <= i < |es| ==> i == 0 || es[i] == es[1..][i - 1];
    }
  }

  /** Parsing a rendered file makes exactly the calls of its entries and returns 0. */
  lemma RoundTrip(multiline: bool, es: seq<Entry>)
    requires AllGood(multiline, es, "")
    ensures
      var r := Parse(multiline, [], START, 0, RenderAll(es));
      r.error == 0 && r.calls == CallsOf(es, "", "")
  {
    RenderParses(multiline, es, START, 0);
    assert [] + CallsOf(es, "", "") == CallsOf(es, "", "");
  }
}
