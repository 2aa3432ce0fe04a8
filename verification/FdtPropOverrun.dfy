/** When the property parser reads behind its last argument. */
module FdtPropOverrun {
  import opened FdtProp
  import opened Machine

  // ---------------------------------------------------------------- bytes

  /** Character `k` is a space, a hexadecimal digit, or the x of a 0x that begins a number. */
  predicate HexAt(s: string, k: nat)
    requires k < |s|
  {
    || s[k] == ' ' || IsXDigit(s[k])
    || (s[k] == 'x' && k >= 1 && s[k - 1] == '0' && (k == 1 || s[k - 2] == ' ') && k + 1 < |s| && IsXDigit(s[k + 1]))
  }

  /** The text consists of hexadecimal numbers and spaces. */
  ghost predicate HexText(s: string) { forall k :: 0 <= k < |s| ==> HexAt(s, k) }

  lemma HexInRest(s: string, n: nat, k: nat)
    requires n + 2 <= k < |s|
    ensures HexAt(s, k) <==> HexAt(s[n..], k - n)
  {
  }

  /** Text behind `n` good characters that no number continues is good exactly when all is. */
  lemma HexBehind(s: string, n: nat)
    requires n <= |s| && (forall k :: 0 <= k < n ==> HexAt(s, k))
    requires n < |s| ==> (HexAt(s, n) <==> s[n] == ' ' || IsXDigit(s[n]))
    requires n + 1 < |s| && s[n + 1] == 'x' && s[n] == '0' ==> n == 0 || s[n - 1] == ' '
    ensures HexText(s) <==> HexText(s[n..])
  {
    forall k | n <= k < |s| ensures HexAt(s, k) <==> HexAt(s[n..], k - n) {
      if k >= n + 2 { HexInRest(s, n, k); }
    }
    if HexText(s[n..]) {
      forall k | 0 <= k < |s| ensures HexAt(s, k) { if k >= n { assert HexAt(s[n..], k - n); } }
    } else {
      var k :| 0 <= k < |s[n..]| && !HexAt(s[n..], k);
      assert !HexAt(s, n + k);
    }
  }

  lemma {:induction false} HexBehindSpaces(s: string)
    ensures HexText(s) <==> HexText(SkipSpaces(s))
    decreases |s|
  {
    if s != "" && s[0] == ' ' {
      HexBehind(s, 1);
      HexBehindSpaces(s[1..]);
    }
  }

  /** The digit loop in base 16 takes all the hexadecimal digits there are. */
  lemma {:induction false} DigitRun(s: string, acc: nat)
    ensures
      var n := Digits(s, 16, acc).1;
      (forall k :: 0 <= k < n ==> IsXDigit(s[k])) && (n < |s| ==> !IsXDigit(s[n]))
    decreases |s|
  {
    if s != "" && IsXDigit(s[0]) {
      var acc' := (acc * 16 + DigitValue(s[0])) % U32;
      DigitRun(s[1..], acc');
      var n := Digits(s[1..], 16, acc').1;
      forall k | 0 <= k < n + 1 ensures IsXDigit(s[k]) { if k > 0 { assert s[k] == s[1..][k - 1]; } }
    }
  }

  /** A number takes good characters, and ends before a character that is no digit. */
  lemma NumberTaken(s: string, n: nat)
    requires s != "" && IsXDigit(s[0]) && n == Strtoul(s, 16).1
    ensures 0 < n <= |s| && (n < |s| ==> !IsXDigit(s[n]))
    ensures forall k :: 0 <= k < n ==> HexAt(s, k)
    ensures n < |s| && s[n] == 'x' ==> !HexAt(s, n)
  {
    if s[0] == '0' && |s| > 2 && s[1] == 'x' && IsXDigit(s[2]) {
      DigitRun(s[2..], 0);
      forall k | 0 <= k < n ensures HexAt(s, k) && (k != 1 ==> IsXDigit(s[k])) {
        if k >= 2 { assert s[k] == s[2..][k - 2]; }
      }
    } else if s[0] == '0' {
      DigitRun(s[1..], 0);
      forall k | 0 <= k < n ensures IsXDigit(s[k]) { if k >= 1 { assert s[k] == s[1..][k - 1]; } }
    } else {
      DigitRun(s, 0);
    }
  }

  lemma HexBehindNumber(s: string, n: nat)
    requires s != "" && IsXDigit(s[0]) && n == Strtoul(s, 16).1
    ensures HexText(s) <==> HexText(s[n..])
  {
    NumberTaken(s, n);
    HexBehind(s, n);
  }

  /** The byte parser reads behind its arguments exactly when they are hexadecimal numbers and
      spaces throughout, with no closing bracket. */
  lemma {:induction false} BytesOverrunIff(h: string, tail: seq<string>, data: seq<byte>)
    ensures ParseBytes(h, tail, data) == Overrun <==>
            HexText(h) && forall i :: 0 <= i < |tail| ==> HexText(tail[i])
    decreases |tail|, |h|
  {
    var s := SkipSpaces(h);
    HexBehindSpaces(h);
    if h != "" && h[0] == ']' {
      assert !HexAt(h, 0);
    } else if s == "" {
      if tail != [] {
        BytesOverrunIff(tail[0], tail[1..], data);
        assert forall i :: 0 < i < |tail| ==> tail[i] == tail[1..][i - 1];
      }
    } else if !IsXDigit(s[0]) {
      assert !HexAt(s, 0);
    } else {
      var r := Strtoul(s, 16);
      HexBehindNumber(s, r.1);
      BytesOverrunIff(s[r.1..], tail, data + [r.0 % 256]);
    }
  }

  // ---------------------------------------------------------------- cells

  /** The characters before the first space. */
  function Word(s: string): (w: string)
    ensures w <= s && ' ' !in w && (|w| < |s| ==> s[|w|] == ' ')
  {
    if s == "" || s[0] == ' ' then "" else [s[0]] + Word(s[1..])
  }

  /** Decimal digits, or 0x and hexadecimal digits. */
  predicate NumberWord(w: string) {
    || (w != "" && forall k :: 0 <= k < |w| ==> IsDigit(w[k]))
    || (|w| > 2 && w[0] == '0' && w[1] == 'x' && forall k :: 2 <= k < |w| ==> IsXDigit(w[k]))
  }

  /** The text is a row of such words, with no space before the first. */
  ghost predicate NumberRow(s: string)
    decreases |s|
  {
    s == "" || (NumberWord(Word(s)) && NumberRow(SkipSpaces(s[|Word(s)|..])))
  }

  /** What the parser takes in turn: numbers, each as far as it goes, and the spaces behind it. */
  ghost predicate Consumed(s: string)
    decreases |s|
  {
    s == "" || (Strtoul(s, 0).1 > 0 && Consumed(SkipSpaces(s[Strtoul(s, 0).1..])))
  }

  lemma NumberStarts(s: string)
    requires s != ""
    ensures Strtoul(s, 0).1 > 0 <==> IsDigit(s[0])
  {
  }

  /** The word behind the first `n` characters of a word is its rest. */
  lemma {:induction false} WordRest(s: string, n: nat)
    requires n <= |Word(s)|
    ensures Word(s[n..]) == Word(s)[n..]
    decreases n
  {
    if n == 0 {
      assert s[0..] == s;
    } else {
      WordRest(s[1..], n - 1);
      assert s[1..][n - 1..] == s[n..];
    }
  }

  /** The digit loop in base 8 or 10 takes digits, and stops before a character that is none or
      is not a zero. */
  lemma {:induction false} DigitsTaken(s: string, base: nat, acc: nat)
    requires base == 8 || base == 10
    ensures
      var n := Digits(s, base, acc).1;
      && (forall k :: 0 <= k < n ==> IsDigit(s[k]))
      && (n < |s| ==> s[n] != '0' && (base == 10 ==> !IsDigit(s[n])))
    decreases |s|
  {
    if s != "" && IsXDigit(s[0]) && DigitValue(s[0]) < base {
      var acc' := (acc * base + DigitValue(s[0])) % U32;
      DigitsTaken(s[1..], base, acc');
      var n := Digits(s[1..], base, acc').1;
      forall k | 0 <= k < n + 1 ensures IsDigit(s[k]) { if k > 0 { assert s[k] == s[1..][k - 1]; } }
    }
  }

  predicate HexPrefix(s: string) { |s| > 2 && s[0] == '0' && s[1] == 'x' && IsXDigit(s[2]) }

  /** A number without 0x takes digits, and stops before something other than a zero. */
  lemma PlainTaken(s: string, n: nat)
    requires s != "" && IsDigit(s[0]) && !HexPrefix(s) && n == Strtoul(s, 0).1
    ensures 0 < n <= |s| && (forall k :: 0 <= k < n ==> IsDigit(s[k])) && (n < |s| ==> s[n] != '0')
  {
    if s[0] == '0' {
      DigitsTaken(s[1..], 8, 0);
      forall k | 0 <= k < n ensures IsDigit(s[k]) { if k > 0 { assert s[k] == s[1..][k - 1]; } }
    } else {
      DigitsTaken(s, 10, 0);
    }
  }

  /** A number with 0x takes all the hexadecimal digits there are. */
  lemma HexTaken(s: string, n: nat)
    requires HexPrefix(s) && n == Strtoul(s, 0).1
    ensures 2 < n <= |s| && (forall k :: 2 <= k < n ==> IsXDigit(s[k])) && (n < |s| ==> !IsXDigit(s[n]))
  {
    DigitRun(s[2..], 0);
    forall k | 2 <= k < n ensures IsXDigit(s[k]) { assert s[k] == s[2..][k - 2]; }
  }

  /** Characters that are no spaces lie in the first word. */
  lemma InWord(s: string, n: nat)
    requires n <= |s| && forall k :: 0 <= k < n ==> s[k] != ' '
    ensures n <= |Word(s)| && (n < |s| ==> (n == |Word(s)| <==> s[n] == ' '))
  {
    var w := Word(s);
    if n < |w| { assert w[n] == s[n]; }
  }

  lemma HexWordIff(s: string, n: nat)
    requires HexPrefix(s) && n == Strtoul(s, 0).1
    ensures n <= |Word(s)| && (NumberWord(Word(s)) <==> n == |Word(s)|)
    ensures n < |Word(s)| ==> s[n] != ' ' && !IsDigit(s[n])
  {
    HexTaken(s, n);
    InWord(s, n);
    var w := Word(s);
    assert w[1] == s[1] == 'x';
    if n < |w| {
      assert w[n] == s[n];
    } else {
      forall k | 2 <= k < |w| ensures IsXDigit(w[k]) { assert w[k] == s[k]; }
    }
  }

  lemma PlainWordIff(s: string, n: nat)
    requires s != "" && IsDigit(s[0]) && !HexPrefix(s) && n == Strtoul(s, 0).1
    ensures 0 < n <= |Word(s)|
    ensures NumberWord(Word(s)) <==> n == |Word(s)| || NumberWord(Word(s)[n..])
    ensures n < |Word(s)| ==> s[n] != ' '
  {
    PlainTaken(s, n);
    InWord(s, n);
    var w := Word(s);
    if |w| > 2 { assert w[0] == s[0] && w[1] == s[1] && w[2] == s[2]; }
    DigitsInWord(s, w, n);
  }

  lemma DigitsInWord(s: string, w: string, n: nat)
    requires w <= s && 0 < n <= |w| && (forall k :: 0 <= k < n ==> IsDigit(s[k])) && (n < |s| ==> s[n] != '0')
    requires !(|w| > 2 && w[0] == '0' && w[1] == 'x' && IsXDigit(w[2]))
    ensures NumberWord(w) <==> n == |w| || NumberWord(w[n..])
  {
    assert forall k :: 0 <= k < |w| ==> w[k] == s[k];
    assert forall k :: n <= k < |w| ==> w[k] == w[n..][k - n];
    if n < |w| {
      assert w[n..][0] == s[n];
      if NumberWord(w) { assert forall k :: 0 <= k < |w| - n ==> w[n..][k] == w[n + k]; }
    }
  }

  /** The parser consumes exactly the rows of numbers. */
  lemma {:induction false} ConsumedIff(s: string)
    ensures Consumed(s) <==> NumberRow(s)
    decreases |s|
  {
    if s != "" {
      NumberStarts(s);
      var n, w := Strtoul(s, 0).1, Word(s);
      if !IsDigit(s[0]) {
        if w != "" { assert w[0] == s[0]; }
      } else if HexPrefix(s) {
        HexWordIff(s, n);
        ConsumedIff(SkipSpaces(s[n..]));
        if n < |w| { StuckAt(s[n..]); }
      } else {
        PlainWordIff(s, n);
        ConsumedIff(SkipSpaces(s[n..]));
        if n < |w| {
          assert SkipSpaces(s[n..]) == s[n..];
          WordRest(s, n);
          assert s[n..][|w| - n..] == s[|w|..];
        }
      }
    }
  }

  /** Nothing is consumed before a character that is neither a space nor a digit. */
  lemma StuckAt(s: string)
    requires s != "" && s[0] != ' ' && !IsDigit(s[0])
    ensures !Consumed(SkipSpaces(s))
  {
    NumberStarts(s);
  }

  /** The cell parser reads behind its arguments exactly when each is a row of numbers, with no
      closing bracket. */
  lemma {:induction false} CellsOverrunIff(h: string, tail: seq<string>, data: seq<byte>)
    ensures ParseCells(h, tail, data) == Overrun <==>
            NumberRow(h) && forall i :: 0 <= i < |tail| ==> NumberRow(tail[i])
    decreases |tail|, |h|
  {
    ConsumedIff(h);
    if h == "" {
      if tail != [] {
        CellsOverrunIff(tail[0], tail[1..], data);
        assert forall i :: 0 < i < |tail| ==> tail[i] == tail[1..][i - 1];
      }
    } else {
      NumberStarts(h);
      var r := Strtoul(h, 0);
      if r.1 > 0 {
        ConsumedIff(SkipSpaces(h[r.1..]));
        CellsOverrunIff(SkipSpaces(h[r.1..]), tail, data + Be32(r.0));
      }
    }
  }

  /** The parser reads behind its last argument exactly when a list of cells or bytes is open
      there. */
  lemma OverrunIff(args: seq<string>)
    requires args != []
    ensures ParseProp(args) == Overrun <==>
      && args[0] != ""
      && ((&& args[0][0] == '<' && NumberRow(args[0][1..])
           && forall i :: 1 <= i < |args| ==> NumberRow(args[i])) ||
          (&& args[0][0] == '[' && HexText(args[0][1..])
           && forall i :: 1 <= i < |args| ==> HexText(args[i])))
  {
    var tail := args[1..];
    assert forall i :: 1 <= i < |args| ==> args[i] == tail[i - 1];
    assert forall i :: 0 <= i < |tail| ==> tail[i] == args[i + 1];
    if args[0] != "" {
      CellsOverrunIff(args[0][1..], tail, []);
      BytesOverrunIff(args[0][1..], tail, []);
    }
  }
}
