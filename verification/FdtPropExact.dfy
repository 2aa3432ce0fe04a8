/** Exactly which property values survive printing and parsing. */
module FdtPropExact {
  import opened Arith
  import opened FdtProp
  import opened FdtPropText
  import opened FdtPropTheorems
  import opened Machine

  // ---------------------------------------------------------------- short numbers

  lemma GrowBound(acc: nat, acc': nat, p: nat)
    requires acc' + 1 <= (acc + 1) * 16
    ensures (acc' + 1) * p <= (acc + 1) * (16 * p)
  {
    MulMonotone(acc' + 1, (acc + 1) * 16, p);
    assert (acc + 1) * 16 * p == (acc + 1) * (16 * p);
  }

  lemma DigitStep(acc: nat, base: nat, d: nat)
    requires d < base <= 16
    ensures (acc * base + d) % U32 + 1 <= (acc + 1) * 16
  {
    assert acc * base <= acc * 16;
    assert (acc * base + d) % U32 <= acc * base + d;
  }

  /** A number read from `n` digits is below 16^n. */
  lemma {:induction false} DigitsBound(s: string, base: nat, acc: nat)
    requires base <= 16
    ensures Digits(s, base, acc).0 < (acc + 1) * Pow16(Digits(s, base, acc).1)
    decreases |s|
  {
    if s != "" && IsXDigit(s[0]) && DigitValue(s[0]) < base {
      var acc' := (acc * base + DigitValue(s[0])) % U32;
      DigitStep(acc, base, DigitValue(s[0]));
      DigitsBound(s[1..], base, acc');
      GrowBound(acc, acc', Pow16(Digits(s[1..], base, acc').1));
    }
  }

  lemma Pow16Below3(n: nat)
    requires n <= 3
    ensures Pow16(n) <= 0x1000
  {
    assert Pow16(3) == 0x1000;
  }

  /** Fewer than four characters make a number below 2^16. */
  lemma ShortNumber(s: string)
    requires Strtoul(s, 0).1 <= 3
    ensures Strtoul(s, 0).0 < 0x1_0000
  {
    if s != "" && s[0] == '0' {
      if |s| > 2 && s[1] == 'x' && IsXDigit(s[2]) {
        DigitsBound(s[2..], 16, 0);
        Pow16Below3(Digits(s[2..], 16, 0).1);
      } else {
        DigitsBound(s[1..], 8, 0);
        Pow16Below3(Digits(s[1..], 8, 0).1);
      }
    } else {
      DigitsBound(s, 10, 0);
      Pow16Below3(Digits(s, 10, 0).1);
    }
  }

  // ---------------------------------------------------------------- text is longer than data

  /** No cell of `d` from byte `from` on starts with two null bytes. */
  ghost predicate Dense(d: seq<byte>, from: nat) {
    forall k :: from <= k < |d| - 1 && k % 4 == 0 ==> d[k] != 0 || d[k + 1] != 0
  }

  /** The first cell of a dense value takes at least four characters. */
  lemma CellIsLong(h: string, data: seq<byte>, d: seq<byte>)
    requires |data| % 4 == 0 && data + Be32(Strtoul(h, 0).0) <= d && Dense(d, |data|)
    ensures Strtoul(h, 0).1 >= 4
  {
    var cell, k := Be32(Strtoul(h, 0).0), |data|;
    assert d[k] == (data + cell)[k] == cell[0] && d[k + 1] == (data + cell)[k + 1] == cell[1];
    if Strtoul(h, 0).1 <= 3 { ShortNumber(h); }
  }

  /** Data that parsing makes of cells extends the data before. */
  lemma {:induction false} CellsExtend(h: string, tail: seq<string>, data: seq<byte>, d: seq<byte>)
    requires ParseCells(h, tail, data) == Ok(d)
    ensures data <= d
    decreases |tail|, |h|
  {
    if h != "" && h[0] == '>' {
    } else if h == "" {
      CellsExtend(tail[0], tail[1..], data, d);
    } else {
      var r := Strtoul(h, 0);
      CellsExtend(SkipSpaces(h[r.1..]), tail, data + Be32(r.0), d);
      PrefixOfPrefix(data, Be32(r.0), d);
    }
  }

  lemma PrefixOfPrefix(a: seq<byte>, b: seq<byte>, d: seq<byte>)
    requires a + b <= d
    ensures a <= d
  {
    assert (a + b)[..|a|] == a;
    assert d[..|a|] == a;
  }

  /** A dense value is never longer than the cell text it is parsed from. */
  lemma {:induction false} CellsNeedText(h: string, tail: seq<string>, data: seq<byte>, d: seq<byte>)
    requires ParseCells(h, tail, data) == Ok(d) && |data| % 4 == 0 && Dense(d, |data|)
    ensures |d| - |data| <= |h| + Total(tail)
    decreases |tail|, |h|
  {
    if h != "" && h[0] == '>' {
    } else if h == "" {
      CellsNeedText(tail[0], tail[1..], data, d);
    } else {
      var r := Strtoul(h, 0);
      var h', data' := SkipSpaces(h[r.1..]), data + Be32(r.0);
      CellsExtend(h', tail, data', d);
      CellIsLong(h, data, d);
      CellsNeedText(h', tail, data', d);
    }
  }

  /** Byte text is at least as long as its data. */
  lemma {:induction false} BytesNeedText(h: string, tail: seq<string>, data: seq<byte>, d: seq<byte>)
    requires ParseBytes(h, tail, data) == Ok(d)
    ensures |d| - |data| <= |h| + Total(tail)
    decreases |tail|, |h|
  {
    var s := SkipSpaces(h);
    if h != "" && h[0] == ']' {
    } else if s == "" {
      BytesNeedText(tail[0], tail[1..], data, d);
    } else if IsXDigit(s[0]) {
      var r := Strtoul(s, 16);
      BytesNeedText(s[r.1..], tail, data + [r.0 % 256], d);
    }
  }

  // ---------------------------------------------------------------- strings

  lemma {:induction false} StringsTotal(v: seq<byte>)
    ensures Total(Strings(v)) <= |v|
    decreases |v|
  {
    if v != [] {
      var rest := v[Min(|StringAt(v)| + 1, |v|)..];
      StringsTotal(rest);
      assert ([StringAt(v)] + Strings(rest))[1..] == Strings(rest);
    }
  }

  /** Copied strings always end in a null byte. */
  lemma {:induction false} CopyEndsInNull(args: seq<string>)
    requires args != []
    ensures CopyStrings(args) != [] && CopyStrings(args)[|CopyStrings(args)| - 1] == 0
    decreases |args|
  {
    if |args| > 1 { CopyEndsInNull(args[1..]); }
  }

  lemma {:induction false} StringAtOfCopy(s: string, rest: seq<byte>)
    requires Bytish(s)
    ensures StringAt(CopyString(s) + [0] + rest) == s
    decreases |s|
  {
    var v := CopyString(s) + [0] + rest;
    if s != "" {
      assert CopyString(s)[0] == s[0] as int;
      assert CopyString(s)[1..] == CopyString(s[1..]);
      assert v[1..] == CopyString(s[1..]) + [0] + rest;
      StringAtOfCopy(s[1..], rest);
      assert s == [s[0]] + s[1..];
    }
  }

  /** Copied strings are the strings of the copy. */
  lemma {:induction false} StringsOfCopy(args: seq<string>)
    requires AllBytish(args)
    ensures Strings(CopyStrings(args)) == args
    decreases |args|
  {
    if args != [] {
      var v, rest := CopyStrings(args), CopyStrings(args[1..]);
      StringAtOfCopy(args[0], rest);
      assert v[|args[0]| + 1..] == rest;
      StringsOfCopy(args[1..]);
    }
  }

  lemma {:induction false} PrintableIsDense(v: seq<byte>, after: byte, i: nat)
    requires i <= |v| && Scan(v, after, i)
    ensures forall k :: i <= k < |v| - 1 ==> v[k] != 0 || v[k + 1] != 0
    decreases |v| - i
  {
    if i < |v| - 1 { PrintableIsDense(v, after, i + 1); }
  }

  /** The text of a value's strings starts as the value does. */
  lemma FirstCharacter(v: seq<byte>)
    requires v != []
    ensures
      var t := Joined(Strings(v));
      && (v[0] != 0 ==> t != "" && t[0] == v[0] as char)
      && (v[0] == 0 ==> t == "" || t[0] == '"')
  {
    assert Strings(v)[0] == StringAt(v);
  }

  /** A string list that starts with a bracket is never parsed to itself. */
  lemma BracketFails(v: seq<byte>, after: byte, args: seq<string>)
    requires IsPrintableString(v, after) && (v[0] == '<' as int || v[0] == '[' as int)
    requires args == Split("", Joined(Strings(v)))
    ensures ParseProp(args) != Ok(v)
  {
    StringsTotal(v);
    ReaderTotal(Strings(v));
    FirstCharacter(v);
    SplitStarts("", Joined(Strings(v)));
    var h, tail := args[0][1..], args[1..];
    assert |h| + Total(tail) < |v|;
    if v[0] == '<' as int {
      PrintableIsDense(v, after, 0);
      if ParseCells(h, tail, []) == Ok(v) { CellsNeedText(h, tail, [], v); }
    } else if ParseBytes(h, tail, []) == Ok(v) {
      BytesNeedText(h, tail, [], v);
    }
  }

  lemma ReadAsStrings(v: seq<byte>, t: string, args: seq<string>)
    requires v != [] && v[0] != '<' as int && v[0] != '[' as int
    requires t == Joined(Strings(v)) && args == Split("", t)
    ensures ParseProp(args) == Ok(CopyStrings(args))
  {
    FirstCharacter(v);
    SplitStarts("", t);
  }

  lemma CopyDiffers(v: seq<byte>, args: seq<string>)
    requires v != [] && args != [] && AllBytish(args) && Splittable(args)
    requires !Splittable(Strings(v)) || v[|v| - 1] == 10
    ensures CopyStrings(args) != v
  {
    CopyEndsInNull(args);
    StringsOfCopy(args);
  }

  lemma ReadIsBytish(v: seq<byte>)
    requires v != []
    ensures AllBytish(Split("", Joined(Strings(v))))
  {
    StringsBytish(v);
    JoinedBytish(Strings(v));
    SplitBytish("", Joined(Strings(v)));
  }

  /** A value that does not start with a bracket is read as strings, and survives only if they
      are splittable and end in a null byte. */
  lemma StringsFail(v: seq<byte>, t: string, args: seq<string>)
    requires v != [] && v[0] != '<' as int && v[0] != '[' as int
    requires t == Joined(Strings(v)) && args == Split("", t)
    requires !Splittable(Strings(v)) || v[|v| - 1] == 10
    ensures ParseProp(args) != Ok(v)
  {
    ReadAsStrings(v, t, args);
    ReadIsBytish(v);
    SplitIsClean("", t);
    CopyDiffers(v, args);
  }

  /** Parsing gives back a printed value exactly when its printed form is not ambiguous. */
  lemma RoundTripIff(v: seq<byte>, after: byte, args: seq<string>)
    requires v != [] && PrintData(v, after).Text? && Retyped(PrintData(v, after).text, args)
    ensures ParseProp(args) == Ok(v) <==> !Ambiguous(v, after)
  {
    if !Ambiguous(v, after) {
      ParseUndoesPrint(v, after, args);
    } else {
      StringsRead(v, after, args);
      if v[0] == '<' as int || v[0] == '[' as int {
        BracketFails(v, after, args);
      } else {
        StringsFail(v, Joined(Strings(v)), args);
      }
    }
  }

  // ---------------------------------------------------------------- texts with two readings

  lemma PrintsAlike(ss: seq<string>, tt: seq<string>)
    requires ss != [] && tt != [] && Joined(ss) == Joined(tt)
    ensures Quoted("\"" + ss[0], ss[1..]) == Quoted("\"" + tt[0], tt[1..])
  {
    QuotedIsJoined("\"", ss);
    QuotedIsJoined("\"", tt);
  }

  /** One string that holds a separator prints like two strings; the reader returns the two. */
  lemma SeparatorInString(one: seq<string>, two: seq<string>)
    requires one == ["a\", \"b"] && two == ["a", "b"]
    ensures Joined(one) == Joined(two) && Splittable(two) && !Splittable(one)
    ensures Quoted("\"" + one[0], one[1..]) == Quoted("\"" + two[0], two[1..])
  {
    assert SepAt(one[0], 1);
    assert two[1..] == ["b"];
    PrintsAlike(one, two);
  }

  lemma ShortText(v: seq<byte>)
    requires v != [] && v[|v| - 1] == 0
    requires forall k :: 0 <= k < |v| - 1 ==> 32 <= v[k] <= 126 || (v[k] == 0 && v[k + 1] != 0)
    ensures IsPrintableString(v, 0)
  {
    forall k | 0 <= k < |v|
      ensures (v[k] == 0 || IsPrint(v[k]) || IsSpace(v[k])) && (k + 1 < |v| ==> v[k] != 0 || v[k + 1] != 0)
    {
      if k < |v| - 1 { assert 32 <= v[k] <= 126 || (v[k] == 0 && v[k + 1] != 0); }
    }
    ScanMeaning(v, 0, 0);
  }

  /** Two values with one printed text: the one with the separator in its string is lost. */
  lemma SeparatorValueFails(v1: seq<byte>, v2: seq<byte>)
    requires v1 == [97, 34, 44, 32, 34, 98, 0] && v2 == [97, 0, 98, 0]
    ensures v1 != v2 && PrintData(v1, 0).Text? && PrintData(v1, 0) == PrintData(v2, 0)
    ensures Ambiguous(v1, 0) && !Ambiguous(v2, 0)
  {
    var one, two := ["a\", \"b"], ["a", "b"];
    ShortText(v1);
    ShortText(v2);
    CopiesOf(v1, v2, one, two);
    StringsOfCopy(one);
    StringsOfCopy(two);
    SeparatorInString(one, two);
  }

  lemma CopiesOf(v1: seq<byte>, v2: seq<byte>, one: seq<string>, two: seq<string>)
    requires v1 == [97, 34, 44, 32, 34, 98, 0] && v2 == [97, 0, 98, 0]
    requires one == ["a\", \"b"] && two == ["a", "b"]
    ensures v1 == CopyStrings(one) && v2 == CopyStrings(two)
  {
    assert one[1..] == [] && two[1..] == ["b"] && two[1..][1..] == [];
    assert CopyString("a") == [97] && CopyString("b") == [98];
    assert CopyString(one[0]) == [97, 34, 44, 32, 34, 98];
  }

  /** Separators that straddle a string end: these lists print alike too, and the reader, which
      splits from the left, returns the second. */
  lemma SeparatorAcrossStrings(left: seq<string>, right: seq<string>)
    requires left == ["a\", ", "b"] && right == ["a", ", \"b"]
    ensures Joined(left) == Joined(right) && Splittable(right) && !Splittable(left)
    ensures Quoted("\"" + left[0], left[1..]) == Quoted("\"" + right[0], right[1..])
  {
    assert EndsOpen(left[0]);
    assert left[1..] == ["b"] && right[1..] == [", \"b"];
    PrintsAlike(left, right);
  }
}
