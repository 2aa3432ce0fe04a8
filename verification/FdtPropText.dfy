/** Reading the string lists that the property printer prints: the outer quotes are stripped and
    the text is split at each separator, from the left. */
module FdtPropText {
  import opened FdtProp
  import opened Machine

  /** The printed separator stands at `k`. */
  predicate SepAt(t: string, k: int) {
    0 <= k && k + 4 <= |t| && t[k] == '"' && t[k + 1] == ',' && t[k + 2] == ' ' && t[k + 3] == '"'
  }

  /** Splits `t` at its separators, with `cur` read of the current string. */
  function Split(cur: string, t: string): (ss: seq<string>)
    ensures |ss| > 0
    decreases |t|
  {
    if t == "" then [cur]
    else if SepAt(t, 0) then [cur] + Split("", t[4..])
    else Split(cur + [t[0]], t[1..])
  }

  /** The strings of a quoted text. */
  function Unquoted(text: string): (ss: seq<string>)
    ensures |ss| > 0
  {
    if |text| < 2 then [""] else Split("", text[1..|text| - 1])
  }

  // ---------------------------------------------------------------- the printed text

  /** The strings with separators between them. */
  ghost function Joined(ss: seq<string>): string
    requires ss != []
    decreases |ss|
  {
    if |ss| == 1 then ss[0] else ss[0] + "\", \"" + Joined(ss[1..])
  }

  lemma {:induction false} QuotedIsJoined(a: string, ss: seq<string>)
    requires ss != []
    ensures Quoted(a + ss[0], ss[1..]) == a + Joined(ss)
    decreases |ss|
  {
    if |ss| > 1 {
      var rest, a' := ss[1..], a + ss[0] + "\", \"";
      QuotedStep(a + ss[0], rest);
      QuotedIsJoined(a', rest);
      Regrouped(a, ss[0], Joined(rest));
    }
  }

  lemma QuotedStep(a: string, ss: seq<string>)
    requires ss != []
    ensures Quoted(a, ss) == Quoted(a + "\", \"" + ss[0], ss[1..])
  {
  }

  lemma Regrouped(a: string, s: string, t: string)
    ensures a + s + "\", \"" + t == a + (s + "\", \"" + t)
  {
  }

  /** What the reader makes of the printed strings depends on their joined text. */
  lemma ReadsPrinted(ss: seq<string>, text: string)
    requires ss != [] && text == Quoted("\"" + ss[0], ss[1..]) + "\""
    ensures text[0] == '"' && Unquoted(text) == Split("", Joined(ss))
  {
    QuotedIsJoined("\"", ss);
    assert text[1..|text| - 1] == Joined(ss);
  }

  // ---------------------------------------------------------------- when reading undoes printing

  ghost predicate NoSep(s: string) { forall k :: !SepAt(s, k) }

  /** The text could begin a separator that the quote behind it completes. */
  predicate EndsOpen(s: string) {
    var n := |s|;
    n >= 3 && s[n - 3] == '"' && s[n - 2] == ',' && s[n - 1] == ' '
  }

  /** No string holds a separator, and none but the last ends in the beginning of one. */
  ghost predicate Splittable(ss: seq<string>) {
    forall i :: 0 <= i < |ss| ==> NoSep(ss[i]) && (i < |ss| - 1 ==> !EndsOpen(ss[i]))
  }

  lemma SepInRest(t: string, k: int)
    requires t != "" && k >= 0
    ensures SepAt(t[1..], k) <==> SepAt(t, k + 1)
  {
  }

  /** Splits at the first separator. */
  lemma {:induction false} SplitFirst(cur: string, t: string, n: nat)
    requires SepAt(t, n) && forall k :: 0 <= k < n ==> !SepAt(t, k)
    ensures Split(cur, t) == [cur + t[..n]] + Split("", t[n + 4..])
    decreases n
  {
    if n == 0 {
      assert cur + t[..0] == cur;
    } else {
      forall k | 0 <= k <= n - 1 ensures SepAt(t[1..], k) <==> SepAt(t, k + 1) { SepInRest(t, k); }
      SplitFirst(cur + [t[0]], t[1..], n - 1);
      assert cur + [t[0]] + t[1..][..n - 1] == cur + t[..n];
      assert t[1..][n + 3..] == t[n + 4..];
    }
  }

  lemma {:induction false} SplitNone(cur: string, t: string)
    requires NoSep(t)
    ensures Split(cur, t) == [cur + t]
    decreases |t|
  {
    if t == "" {
      assert cur + t == cur;
    } else {
      forall k ensures !SepAt(t[1..], k) { if k >= 0 { SepInRest(t, k); } }
      SplitNone(cur + [t[0]], t[1..]);
      assert cur + [t[0]] + t[1..] == cur + t;
    }
  }

  /** A string without separator, not open at its end, is found before the separator. */
  lemma CleanBefore(s: string, rest: string, t: string)
    requires NoSep(s) && !EndsOpen(s) && t == s + "\", \"" + rest
    ensures SepAt(t, |s|) && forall k :: 0 <= k < |s| ==> !SepAt(t, k)
    ensures t[..|s|] == s && t[|s| + 4..] == rest
  {
    forall k | 0 <= k < |s| ensures !SepAt(t, k) {
      if k + 4 <= |s| { assert !SepAt(s, k); }
    }
  }

  lemma {:induction false} SplitJoined(ss: seq<string>)
    requires ss != [] && Splittable(ss)
    ensures Split("", Joined(ss)) == ss
    decreases |ss|
  {
    if |ss| == 1 {
      SplitNone("", ss[0]);
    } else {
      var rest := ss[1..];
      forall i | 0 <= i < |rest| ensures NoSep(rest[i]) && (i < |rest| - 1 ==> !EndsOpen(rest[i])) {
        assert rest[i] == ss[i + 1];
      }
      SplitJoined(rest);
      CleanBefore(ss[0], Joined(rest), Joined(ss));
      SplitFirst("", Joined(ss), |ss[0]|);
      assert "" + ss[0] == ss[0] && ss == [ss[0]] + rest;
    }
  }

  lemma SepInConcat(cur: string, t: string, k: int)
    ensures SepAt(cur, k) ==> SepAt(cur + t, k)
    ensures SepAt(cur + t, |cur|) <==> SepAt(t, 0)
    ensures EndsOpen(cur) && t != "" && t[0] == '"' ==> SepAt(cur + t, |cur| - 3)
  {
  }

  lemma SplittableCons(s: string, ss: seq<string>)
    requires NoSep(s) && !EndsOpen(s) && ss != [] && Splittable(ss)
    ensures Splittable([s] + ss)
  {
    var all := [s] + ss;
    forall i | 0 <= i < |all| ensures NoSep(all[i]) && (i < |all| - 1 ==> !EndsOpen(all[i])) {
      if i > 0 { assert all[i] == ss[i - 1]; }
    }
  }

  /** Whatever the reader returns is splittable. */
  lemma {:induction false} SplitIsClean(cur: string, t: string)
    requires forall k :: 0 <= k < |cur| ==> !SepAt(cur + t, k)
    ensures Splittable(Split(cur, t))
    decreases |t|
  {
    forall k ensures !SepAt(cur, k) { SepInConcat(cur, t, k); }
    SepInConcat(cur, t, 0);
    if t != "" {
      if SepAt(t, 0) {
        SplitIsClean("", t[4..]);
        SplittableCons(cur, Split("", t[4..]));
      } else {
        assert cur + [t[0]] + t[1..] == cur + t;
        SplitIsClean(cur + [t[0]], t[1..]);
      }
    }
  }

  /** The reader returns the strings that were printed exactly when they are splittable. */
  lemma ReadUndoesPrintIff(ss: seq<string>)
    requires ss != []
    ensures Split("", Joined(ss)) == ss <==> Splittable(ss)
  {
    if Splittable(ss) { SplitJoined(ss); }
    SplitIsClean("", Joined(ss));
  }

  // ---------------------------------------------------------------- the reader splits often enough

  /** Number of characters in the strings. */
  ghost function Total(ss: seq<string>): nat { if ss == [] then 0 else |ss[0]| + Total(ss[1..]) }

  /** Number of separators the reader finds. */
  ghost function Seps(t: string): nat {
    if t == "" then 0 else if SepAt(t, 0) then 1 + Seps(t[4..]) else Seps(t[1..])
  }

  lemma {:induction false} SplitTotal(cur: string, t: string)
    ensures Total(Split(cur, t)) + 4 * Seps(t) == |cur| + |t|
    decreases |t|
  {
    if t != "" {
      if SepAt(t, 0) {
        SplitTotal("", t[4..]);
        assert ([cur] + Split("", t[4..]))[1..] == Split("", t[4..]);
      } else {
        SplitTotal(cur + [t[0]], t[1..]);
      }
    }
  }

  /** A separator is followed by one at its last quote at the earliest. */
  lemma SepsSkip(t: string)
    requires SepAt(t, 0)
    ensures Seps(t[1..]) == Seps(t[3..])
  {
    assert t[1..][1..] == t[2..] && t[2..][1..] == t[3..];
    assert !SepAt(t[1..], 0) && !SepAt(t[2..], 0);
  }

  /** One more character in front adds one separator or none. */
  lemma {:induction false} SepsCons(t: string)
    requires t != ""
    ensures Seps(t[1..]) <= Seps(t) <= Seps(t[1..]) + 1
    decreases |t|
  {
    if SepAt(t, 0) {
      SepsSkip(t);
      SepsCons(t[3..]);
      assert t[3..][1..] == t[4..];
    }
  }

  lemma {:induction false} SepsPrefix(x: string, t: string)
    ensures Seps(t) <= Seps(x + t)
    decreases |x|
  {
    if x == "" {
      assert x + t == t;
    } else {
      SepsPrefix(x[1..], t);
      assert (x + t)[1..] == x[1..] + t;
      SepsCons(x + t);
    }
  }

  lemma {:induction false} SepsJoin(s: string, rest: string, t: string)
    requires t == s + "\", \"" + rest
    ensures Seps(t) >= 1 + Seps(rest)
    decreases |s|
  {
    if SepAt(t, 0) {
      var x := (s + "\", \"")[4..];
      assert t[4..] == x + rest;
      SepsPrefix(x, rest);
    } else {
      assert s != "";
      SepsJoin(s[1..], rest, t[1..]);
    }
  }

  lemma {:induction false} JoinedSeps(ss: seq<string>)
    requires ss != []
    ensures Seps(Joined(ss)) >= |ss| - 1 && |Joined(ss)| == Total(ss) + 4 * (|ss| - 1)
    decreases |ss|
  {
    if |ss| > 1 {
      JoinedSeps(ss[1..]);
      SepsJoin(ss[0], Joined(ss[1..]), Joined(ss));
    }
  }

  /** The reader never returns more characters than were printed as strings. */
  lemma ReaderTotal(ss: seq<string>)
    requires ss != []
    ensures Total(Split("", Joined(ss))) <= Total(ss)
  {
    SplitTotal("", Joined(ss));
    JoinedSeps(ss);
  }

  // ---------------------------------------------------------------- characters

  /** Characters that a byte other than null stands for. */
  ghost predicate Bytish(s: string) { forall i :: 0 <= i < |s| ==> 0 < s[i] as int < 256 }

  ghost predicate AllBytish(ss: seq<string>) { forall i :: 0 <= i < |ss| ==> Bytish(ss[i]) }

  lemma {:induction false} SplitBytish(cur: string, t: string)
    requires Bytish(cur) && Bytish(t)
    ensures AllBytish(Split(cur, t))
    decreases |t|
  {
    if t != "" {
      if SepAt(t, 0) { SplitBytish("", t[4..]); } else { SplitBytish(cur + [t[0]], t[1..]); }
    }
  }

  lemma {:induction false} JoinedBytish(ss: seq<string>)
    requires ss != [] && AllBytish(ss)
    ensures Bytish(Joined(ss))
    decreases |ss|
  {
    if |ss| > 1 { JoinedBytish(ss[1..]); }
  }

  lemma {:induction false} StringAtBytish(v: seq<byte>)
    ensures Bytish(StringAt(v))
    decreases |v|
  {
    if v != [] && v[0] != 0 { StringAtBytish(v[1..]); }
  }

  lemma {:induction false} StringsBytish(v: seq<byte>)
    ensures AllBytish(Strings(v))
    decreases |v|
  {
    if v != [] {
      StringAtBytish(v);
      StringsBytish(v[Min(|StringAt(v)| + 1, |v|)..]);
    }
  }

  /** The first string read starts as the text does. */
  lemma {:induction false} SplitStarts(cur: string, t: string)
    ensures cur <= Split(cur, t)[0]
    ensures cur == "" && t != "" && !SepAt(t, 0) ==> Split(cur, t)[0] != "" && Split(cur, t)[0][0] == t[0]
    ensures cur == "" && (t == "" || SepAt(t, 0)) ==> Split(cur, t)[0] == ""
    decreases |t|
  {
    if t != "" && !SepAt(t, 0) {
      SplitStarts(cur + [t[0]], t[1..]);
      assert cur <= cur + [t[0]];
    }
  }
}
