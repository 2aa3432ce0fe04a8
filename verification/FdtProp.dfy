/** Device-tree property values (uboot/cmd/fdt.c): the printer that guesses a format, and the
    parser of the command line, with `simple_strtoul` of uboot/lib/strto.c. */
module FdtProp {
  import opened Machine

  const CONFIG_CMD_FDT_MAX_DUMP := 64

  /** Hexadecimal digits of a printed cell. */
  const CELL_DIGITS: nat := 8

  // ---------------------------------------------------------------- characters

  predicate IsDigit(c: char) { '0' <= c <= '9' }

  predicate IsXDigit(c: char) { IsDigit(c) || 'a' <= c <= 'f' || 'A' <= c <= 'F' }

  function DigitValue(c: char): nat
    requires IsXDigit(c)
  {
    if IsDigit(c) then (c - '0') as int else if 'a' <= c then (c - 'a') as int + 10 else (c - 'A') as int + 10
  }

  function HexChar(d: nat): char
    requires d < 16
  {
    if d < 10 then '0' + d as char else 'a' + (d - 10) as char
  }

  /** The character classes of uboot/lib/ctype.c. */
  predicate IsPrint(b: byte) { 32 <= b <= 126 || 160 <= b }

  predicate IsSpace(b: byte) { 9 <= b <= 13 || b == 32 || b == 160 }

  // ---------------------------------------------------------------- numbers

  /** The `n` low hexadecimal digits of `v`, highest first. */
  function Nibbles(v: nat, n: nat): (ds: seq<nat>)
    ensures |ds| == n && forall i :: 0 <= i < n ==> ds[i] < 16
  {
    if n == 0 then [] else Nibbles(v / 16, n - 1) + [v % 16]
  }

  function Chars(ds: seq<nat>): (s: string)
    requires forall i :: 0 <= i < |ds| ==> ds[i] < 16
    ensures |s| == |ds| && forall i :: 0 <= i < |ds| ==> s[i] == HexChar(ds[i])
  {
    seq(|ds|, i requires 0 <= i < |ds| => HexChar(ds[i]))
  }

  /** `v` in `n` hexadecimal digits, as %02x and %08x print it. */
  function Hex(v: nat, n: nat): string { Chars(Nibbles(v, n)) }

  /** The digit loop: the value, and the number of characters taken. */
  function Digits(s: string, base: nat, acc: nat): (r: (nat, nat))
    ensures r.1 <= |s|
  {
    if s == "" || !IsXDigit(s[0]) || DigitValue(s[0]) >= base then (acc, 0)
    else
      var r := Digits(s[1..], base, (acc * base + DigitValue(s[0])) % U32);
      (r.0, r.1 + 1)
  }

  /** `simple_strtoul`: value and number of characters taken. */
  function Strtoul(s: string, base: nat): (r: (nat, nat))
    ensures r.1 <= |s|
    ensures s != "" && IsXDigit(s[0]) && base == 16 ==> r.1 > 0
  {
    if s != "" && s[0] == '0' then
      if |s| > 2 && s[1] == 'x' && IsXDigit(s[2]) then
        var r := Digits(s[2..], 16, 0);
        (r.0, r.1 + 2)
      else
        var r := Digits(s[1..], if base == 0 then 8 else base, 0);
        (r.0, r.1 + 1)
    else Digits(s, if base == 0 then 10 else base, 0)
  }

  /** The number in a big-endian cell, and the cell of a number. */
  function CellValue(v: seq<byte>): nat
    requires |v| == 4
  {
    var a: int, b: int, c: int := v[0], v[1], v[2];
    ((a * 256 + b) * 256 + c) * 256 + v[3]
  }

  function Be32(n: nat): seq<byte> { [n / 0x100_0000 % 256, n / 0x1_0000 % 256, n / 0x100 % 256, n % 256] }

  // ---------------------------------------------------------------- printing

  /** The scan of `is_printable_string` from `i` on; `after` is the byte behind the value,
      which the scan of a value that ends in a newline reads. */
  function Scan(v: seq<byte>, after: byte, i: nat): bool
    requires i <= |v|
    decreases |v| - i
  {
    if i == |v| then after == 0
    else if !(v[i] == 0 || IsPrint(v[i]) || IsSpace(v[i])) then false
    else if v[i] == 0 && i == |v| - 1 then true
    else if v[i] == 0 && v[i + 1] == 0 then false
    else Scan(v, after, i + 1)
  }

  function IsPrintableString(v: seq<byte>, after: byte): bool {
    v != [] && (v[|v| - 1] == 0 || v[|v| - 1] == 10) && Scan(v, after, 0)
  }

  method ComputePrintable(v: seq<byte>, after: byte) returns (yes: bool)
    ensures yes == IsPrintableString(v, after)
  {
    if |v| == 0 {
      return false;
    }
    if v[|v| - 1] != 0 && v[|v| - 1] != 10 {
      return false;
    }
    var i := 0;
    while i < |v| && (v[i] == 0 || IsPrint(v[i]) || IsSpace(v[i]))
      invariant 0 <= i <= |v| && Scan(v, after, i) == Scan(v, after, 0)
    {
      if v[i] == 0 {
        if i == |v| - 1 {
          return true;
        }
        if v[i + 1] == 0 {
          return false;
        }
      }
      i := i + 1;
    }
    yes := i == |v| && after == 0;
  }

  /** The values for which the scan says "string", when they end in a null byte: printable,
      with no empty string after the first. */
  lemma {:induction false} ScanMeaning(v: seq<byte>, after: byte, i: nat)
    requires i < |v| && v[|v| - 1] == 0
    ensures Scan(v, after, i) <==>
      forall k :: i <= k < |v| ==>
        (v[k] == 0 || IsPrint(v[k]) || IsSpace(v[k])) && (k + 1 < |v| ==> v[k] != 0 || v[k + 1] != 0)
    decreases |v| - i
  {
    if i + 1 < |v| { ScanMeaning(v, after, i + 1); }
  }

  /** The byte values that text can hold: null, white space and printable characters. */
  predicate TextByte(b: byte) { b == 0 || 9 <= b <= 13 || 32 <= b <= 126 || 160 <= b }

  lemma {:induction false} ScanNewline(v: seq<byte>, after: byte, i: nat)
    requires i <= |v| && v != [] && v[|v| - 1] == 10
    ensures Scan(v, after, i) <==>
      after == 0 && forall k :: i <= k < |v| ==> TextByte(v[k]) && (k + 1 < |v| ==> v[k] != 0 || v[k + 1] != 0)
    decreases |v| - i
  {
    if i < |v| { ScanNewline(v, after, i + 1); }
  }

  /** Exactly which values are taken for strings: text without two null bytes in a row that ends
      in a null byte, or in a newline with a null byte behind the value. */
  lemma PrintableIff(v: seq<byte>, after: byte)
    ensures IsPrintableString(v, after) <==>
      && v != [] && (v[|v| - 1] == 0 || (v[|v| - 1] == 10 && after == 0))
      && forall k :: 0 <= k < |v| ==> TextByte(v[k]) && (k + 1 < |v| ==> v[k] != 0 || v[k + 1] != 0)
  {
    if v != [] && v[|v| - 1] == 0 { ScanMeaning(v, after, 0); }
    if v != [] && v[|v| - 1] == 10 { ScanNewline(v, after, 0); }
  }

  /** Which format is printed: strings in quotes, at most 64 bytes as cells or bytes in brackets,
      and no contents otherwise. */
  lemma FormatChosen(v: seq<byte>, after: byte)
    ensures
      var f := PrintData(v, after);
      && (f.NoData? <==> v == [])
      && (f.Dump? <==> |v| > 64 && !IsPrintableString(v, after))
      && (f.Text? && IsPrintableString(v, after) ==> f.text != "" && f.text[0] == '"')
      && (f.Text? && !IsPrintableString(v, after) ==> f.text != "" && f.text[0] == if |v| % 4 == 0 then '<' else '[')
  {
    if v != [] && IsPrintableString(v, after) { QuotedGrows("\"" + Strings(v)[0], Strings(v)[1..]); }
  }

  lemma {:induction false} QuotedGrows(text: string, ss: seq<string>)
    ensures text <= Quoted(text, ss)
    decreases |ss|
  {
    if ss != [] {
      var text' := text + "\", \"" + ss[0];
      QuotedGrows(text', ss[1..]);
      assert text'[..|text|] == text;
      assert Quoted(text, ss)[..|text|] == text;
    }
  }

  function CellsText(v: seq<byte>): (s: string)
    requires |v| > 0 && |v| % 4 == 0
    decreases |v|
  {
    "0x" + Hex(CellValue(v[..4]), CELL_DIGITS) + (if |v| == 4 then ">" else " " + CellsText(v[4..]))
  }

  function BytesText(v: seq<byte>): (s: string)
    requires |v| > 0
    decreases |v|
  {
    Hex(v[0], 2) + (if |v| == 1 then "]" else " " + BytesText(v[1..]))
  }

  /** The null-terminated strings of a value. */
  function Strings(v: seq<byte>): (ss: seq<string>)
    ensures v != [] ==> |ss| > 0
    decreases |v|
  {
    if v == [] then [] else [StringAt(v)] + Strings(v[Min(|StringAt(v)| + 1, |v|)..])
  }

  function Min(a: nat, b: nat): nat { if a < b then a else b }

  /** What `puts` prints from the start of a value. */
  function StringAt(v: seq<byte>): (s: string)
    ensures |s| <= |v|
  {
    if v == [] || v[0] == 0 then "" else [v[0] as char] + StringAt(v[1..])
  }

  /** `text` followed by the strings, each after the separator `", "`. */
  function Quoted(text: string, ss: seq<string>): string
    decreases |ss|
  {
    if ss == [] then text else Quoted(text + "\", \"" + ss[0], ss[1..])
  }

  datatype Format = NoData | Text(text: string) | Dump

  /** `print_data`; `Dump` stands for the address and length of a value too long to print. */
  function PrintData(v: seq<byte>, after: byte): Format {
    if v == [] then NoData
    else if IsPrintableString(v, after) then Text(Quoted("\"" + Strings(v)[0], Strings(v)[1..]) + "\"")
    else if |v| > CONFIG_CMD_FDT_MAX_DUMP then Dump
    else if |v| % 4 == 0 then Text("<" + CellsText(v))
    else Text("[" + BytesText(v))
  }

  // ---------------------------------------------------------------- parsing

  /** Success, a reported error, or a read of `newval[count]` behind the last argument. */
  datatype Parsed = Ok(data: seq<byte>) | Bad(data: seq<byte>) | Overrun

  function SkipSpaces(s: string): (r: string)
    ensures |r| <= |s| && (r != "" ==> r[0] != ' ')
  {
    if s != "" && s[0] == ' ' then SkipSpaces(s[1..]) else s
  }

  /** Cells, with `h` left of the current argument and `tail` the arguments after it. */
  function ParseCells(h: string, tail: seq<string>, data: seq<byte>): Parsed
    decreases |tail|, |h|
  {
    if h != "" && h[0] == '>' then Ok(data)
    else if h == "" then
      if tail == [] then Overrun else ParseCells(tail[0], tail[1..], data)
    else
      var r := Strtoul(h, 0);
      if r.1 == 0 then Bad(data + Be32(r.0)) else ParseCells(SkipSpaces(h[r.1..]), tail, data + Be32(r.0))
  }

  function ParseBytes(h: string, tail: seq<string>, data: seq<byte>): Parsed
    decreases |tail|, |h|
  {
    if h != "" && h[0] == ']' then Ok(data)
    else
      var s := SkipSpaces(h);
      if s == "" then
        if tail == [] then Overrun else ParseBytes(tail[0], tail[1..], data)
      else if !IsXDigit(s[0]) then
        if s[0] == ']' then Ok(data) else Bad(data)
      else
        var r := Strtoul(s, 16);
        ParseBytes(s[r.1..], tail, data + [r.0 % 256])
  }

  function CopyStrings(args: seq<string>): seq<byte> {
    if args == [] then [] else CopyString(args[0]) + [0] + CopyStrings(args[1..])
  }

  function CopyString(s: string): seq<byte> { seq<byte>(|s|, i requires 0 <= i < |s| => s[i] as int % 256) }

  function ParseProp(args: seq<string>): Parsed
    requires args != []
  {
    if args[0] != "" && args[0][0] == '<' then ParseCells(args[0][1..], args[1..], [])
    else if args[0] != "" && args[0][0] == '[' then ParseBytes(args[0][1..], args[1..], [])
    else Ok(CopyStrings(args))
  }

  // ---------------------------------------------------------------- the loops

  method SkipLoop(s: string, at: nat) returns (i: nat)
    requires at <= |s|
    ensures at <= i <= |s| && s[i..] == SkipSpaces(s[at..])
  {
    i := at;
    while i < |s| && s[i] == ' '
      invariant at <= i <= |s| && SkipSpaces(s[i..]) == SkipSpaces(s[at..])
    {
      i := i + 1;
    }
  }

  method ParseCellsLoop(newval: seq<string>) returns (r: Parsed)
    requires newval != [] && newval[0] != ""
    ensures r == ParseCells(newval[0][1..], newval[1..], [])
  {
    var stridx, newp := 0, 1;
    var data: seq<byte> := [];
    ghost var h, tail := newval[0][1..], newval[1..];
    ghost var all := ParseCells(h, tail, data);
    while true
      invariant 0 <= stridx < |newval| && 0 <= newp <= |newval[stridx]|
      invariant h == newval[stridx][newp..] && tail == newval[stridx + 1..] && ParseCells(h, tail, data) == all
      decreases |newval| - stridx, |newval[stridx]| - newp
    {
      var cur := newval[stridx];
      if newp < |cur| && cur[newp] == '>' {
        return Ok(data);
      }
      if newp == |cur| {
        stridx := stridx + 1;
        if stridx == |newval| {
          return Overrun;
        }
        newp := 0;
        NextArg(newval, stridx, tail);
        h, tail := tail[0], tail[1..];
        continue;
      }
      var number := Strtoul(cur[newp..], 0);
      if number.1 == 0 {
        return Bad(data + Be32(number.0));
      }
      CellTaken(h, tail, data, number);
      DropDrop(cur, newp, number.1);
      data := data + Be32(number.0);
      newp := SkipLoop(cur, newp + number.1);
      h := SkipSpaces(h[number.1..]);
    }
  }

  method ParseBytesLoop(newval: seq<string>) returns (r: Parsed)
    requires newval != [] && newval[0] != ""
    ensures r == ParseBytes(newval[0][1..], newval[1..], [])
  {
    var stridx, newp := 0, 1;
    var data: seq<byte> := [];
    ghost var h, tail := newval[0][1..], newval[1..];
    ghost var all := ParseBytes(h, tail, data);
    while true
      invariant 0 <= stridx < |newval| && 0 <= newp <= |newval[stridx]|
      invariant h == newval[stridx][newp..] && tail == newval[stridx + 1..] && ParseBytes(h, tail, data) == all
      decreases |newval| - stridx, |newval[stridx]| - newp
    {
      var cur := newval[stridx];
      if newp < |cur| && cur[newp] == ']' {
        return Ok(data);
      }
      SpacesDoNotMatter(h, tail, data);
      newp := SkipLoop(cur, newp);
      h := SkipSpaces(h);
      if newp == |cur| {
        stridx := stridx + 1;
        if stridx == |newval| {
          return Overrun;
        }
        newp := 0;
        NextArg(newval, stridx, tail);
        h, tail := tail[0], tail[1..];
        continue;
      }
      if !IsXDigit(cur[newp]) {
        return if cur[newp] == ']' then Ok(data) else Bad(data);
      }
      var number := Strtoul(cur[newp..], 16);
      ByteTaken(h, tail, data, number);
      DropDrop(cur, newp, number.1);
      data := data + [number.0 % 256];
      newp := newp + number.1;
      h := h[number.1..];
    }
  }

  lemma CellTaken(h: string, tail: seq<string>, data: seq<byte>, r: (nat, nat))
    requires h != "" && h[0] != '>' && r == Strtoul(h, 0) && r.1 > 0
    ensures ParseCells(h, tail, data) == ParseCells(SkipSpaces(h[r.1..]), tail, data + Be32(r.0))
  {
  }

  lemma ByteTaken(h: string, tail: seq<string>, data: seq<byte>, r: (nat, nat))
    requires h != "" && h[0] != ' ' && IsXDigit(h[0]) && r == Strtoul(h, 16)
    ensures ParseBytes(h, tail, data) == ParseBytes(h[r.1..], tail, data + [r.0 % 256])
  {
    assert SkipSpaces(h) == h;
  }

  lemma SpacesDoNotMatter(h: string, tail: seq<string>, data: seq<byte>)
    requires h == "" || h[0] != ']'
    ensures ParseBytes(h, tail, data) == ParseBytes(SkipSpaces(h), tail, data)
  {
    SkipTwice(h);
  }

  lemma {:induction false} SkipTwice(h: string)
    ensures SkipSpaces(SkipSpaces(h)) == SkipSpaces(h)
    decreases |h|
  {
    if h != "" && h[0] == ' ' { SkipTwice(h[1..]); }
  }

  lemma NextArg(newval: seq<string>, i: nat, tail: seq<string>)
    requires 0 < i < |newval| && tail == newval[i..]
    ensures tail != [] && tail[0] == newval[i] == newval[i][0..] && tail[1..] == newval[i + 1..]
  {
  }

  lemma DropDrop(s: string, i: nat, n: nat)
    requires i <= |s| && n <= |s| - i
    ensures s[i..][n..] == s[i + n..]
  {
  }

  method ParsePropLoop(newval: seq<string>) returns (r: Parsed)
    requires newval != []
    ensures r == ParseProp(newval)
  {
    if newval[0] != "" && newval[0][0] == '<' {
      r := ParseCellsLoop(newval);
    } else if newval[0] != "" && newval[0][0] == '[' {
      r := ParseBytesLoop(newval);
    } else {
      var data: seq<byte> := [];
      var stridx := 0;
      while stridx < |newval|
        invariant 0 <= stridx <= |newval| && data + CopyStrings(newval[stridx..]) == CopyStrings(newval)
      {
        CopyNext(newval, stridx, data);
        data := data + CopyString(newval[stridx]) + [0];
        stridx := stridx + 1;
      }
      assert newval[stridx..] == [];
      r := Ok(data);
    }
  }

  lemma CopyNext(ss: seq<string>, i: nat, data: seq<byte>)
    requires i < |ss|
    ensures data + CopyStrings(ss[i..]) == data + CopyString(ss[i]) + [0] + CopyStrings(ss[i + 1..])
  {
    assert ss[i..][1..] == ss[i + 1..];
  }

  // ---------------------------------------------------------------- the printing loops

  /** The value from cell `j` on. */
  function FromCell(v: seq<byte>, j: nat): (rest: seq<byte>)
    requires |v| % 4 == 0 && 4 * j <= |v|
    ensures |rest| == |v| - 4 * j && |rest| % 4 == 0
  {
    v[4 * j..]
  }

  /** The text of the cells from number `j` on, and the closing bracket. */
  function TextFrom(v: seq<byte>, j: nat): string
    requires |v| % 4 == 0 && 4 * j <= |v|
  {
    if 4 * j == |v| then ">" else CellsText(FromCell(v, j))
  }

  method PrintCells(v: seq<byte>) returns (text: string)
    requires |v| > 0 && |v| % 4 == 0
    ensures text == "<" + CellsText(v)
  {
    text := "<";
    var j, n := 0, |v| / 4;
    assert FromCell(v, 0) == v;
    while j < n
      invariant 0 <= j <= n && |v| == 4 * n
      invariant text + TextFrom(v, j) == "<" + CellsText(v)
    {
      NextCell(v, j, text);
      text := text + ("0x" + Hex(CellValue(v[4 * j..4 * j + 4]), CELL_DIGITS)) + (if j < n - 1 then " " else "");
      j := j + 1;
    }
    text := text + ">";
  }

  lemma NextCell(v: seq<byte>, j: nat, text: string)
    requires |v| % 4 == 0 && 4 * j < |v|
    ensures 4 * j + 4 <= |v|
    ensures
      text + TextFrom(v, j) ==
      text + ("0x" + Hex(CellValue(v[4 * j..4 * j + 4]), CELL_DIGITS)) + (if 4 * j + 4 == |v| then "" else " ") +
      TextFrom(v, j + 1)
  {
    CellSlices(v, 4 * j);
    assert 4 * (j + 1) == 4 * j + 4;
  }

  lemma CellSlices(v: seq<byte>, at: nat)
    requires at + 4 <= |v|
    ensures v[at..][..4] == v[at..at + 4] && v[at..][4..] == v[at + 4..]
  {
  }

  method PrintBytes(v: seq<byte>) returns (text: string)
    requires |v| > 0
    ensures text == "[" + BytesText(v)
  {
    text := "[";
    var j := 0;
    while j < |v|
      invariant 0 <= j <= |v|
      invariant "[" + BytesText(v) == text + (if j < |v| then BytesText(v[j..]) else "]")
    {
      NextByte(v, j, text);
      text := text + Hex(v[j], 2) + (if j < |v| - 1 then " " else "");
      j := j + 1;
    }
    text := text + "]";
  }

  lemma NextByte(v: seq<byte>, j: nat, text: string)
    requires j < |v|
    ensures
      var last := j + 1 == |v|;
      text + BytesText(v[j..]) ==
      text + Hex(v[j], 2) + (if last then "" else " ") + (if last then "]" else BytesText(v[j + 1..]))
  {
    var rest := v[j..];
    assert rest[0] == v[j] && rest[1..] == v[j + 1..];
  }

  method PrintStrings(v: seq<byte>) returns (text: string)
    requires v != []
    ensures text == Quoted("\"" + Strings(v)[0], Strings(v)[1..]) + "\""
  {
    text := "\"";
    var j := 0;
    ghost var ss := Strings(v);
    assert v[0..] == v;
    while j < |v|
      invariant 0 <= j <= |v|
      invariant j == 0 ==> text == "\""
      invariant j > 0 ==> Quoted(text, Strings(v[j..])) == Quoted("\"" + ss[0], ss[1..])
    {
      var s := StringAt(v[j..]);
      NextString(v, j, s, v[j..], Min(j + |s| + 1, |v|), v[Min(j + |s| + 1, |v|)..]);
      if j > 0 {
        text := text + "\", \"";
      }
      text := text + s;
      j := Min(j + |s| + 1, |v|);
    }
    text := text + "\"";
  }

  lemma NextString(v: seq<byte>, j: nat, s: string, rest: seq<byte>, k: nat, after: seq<byte>)
    requires j < |v| && rest == v[j..] && s == StringAt(rest) && k == Min(j + |s| + 1, |v|) && after == v[k..]
    ensures j < k && Strings(rest)[0] == s && Strings(rest)[1..] == Strings(after)
  {
    DropBytes(v, j, |s| + 1);
    assert |rest| == |v| - j;
    StringsHead(rest, s, after);
  }

  lemma DropBytes(v: seq<byte>, j: nat, n: nat)
    requires j <= |v|
    ensures v[j..][Min(n, |v| - j)..] == v[Min(j + n, |v|)..]
  {
  }

  lemma StringsHead(v: seq<byte>, s: string, after: seq<byte>)
    requires v != [] && s == StringAt(v) && after == v[Min(|s| + 1, |v|)..]
    ensures Strings(v)[0] == s && Strings(v)[1..] == Strings(after)
  {
    assert Strings(v) == [s] + Strings(after);
    assert ([s] + Strings(after))[1..] == Strings(after);
  }

  method PrintDataLoop(v: seq<byte>, after: byte) returns (r: Format)
    ensures r == PrintData(v, after)
  {
    if |v| == 0 {
      return NoData;
    }
    var printable := ComputePrintable(v, after);
    var text;
    if printable {
      text := PrintStrings(v);
    } else if |v| > CONFIG_CMD_FDT_MAX_DUMP {
      return Dump;
    } else if |v| % 4 == 0 {
      text := PrintCells(v);
    } else {
      text := PrintBytes(v);
    }
    r := Text(text);
  }
}
