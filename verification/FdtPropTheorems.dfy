/** Parsing undoes printing for device-tree property values. */
module FdtPropTheorems {
  import opened FdtProp
  import opened FdtPropText
  import opened Machine

  // ---------------------------------------------------------------- numbers

  /** The value the digit loop makes of digits `ds` after `acc`. */
  ghost function Value(acc: nat, ds: seq<nat>): nat
    decreases |ds|
  {
    if ds == [] then acc else Value((acc * 16 + ds[0]) % U32, ds[1..])
  }

  lemma {:induction false} ValueSnoc(acc: nat, ds: seq<nat>, d: nat)
    ensures Value(acc, ds + [d]) == (Value(acc, ds) * 16 + d) % U32
    decreases |ds|
  {
    if ds == [] {
      assert ([] + [d])[1..] == [];
    } else {
      assert (ds + [d])[1..] == ds[1..] + [d];
      ValueSnoc((acc * 16 + ds[0]) % U32, ds[1..], d);
    }
  }

  ghost function Pow16(n: nat): nat { if n == 0 then 1 else 16 * Pow16(n - 1) }

  /** Reading the digits of a number gives the number. */
  lemma {:induction false} ValueOfNibbles(v: nat, n: nat)
    requires v < Pow16(n) && v < U32
    ensures Value(0, Nibbles(v, n)) == v
    decreases n
  {
    if n > 0 {
      ValueOfNibbles(v / 16, n - 1);
      ValueSnoc(0, Nibbles(v / 16, n - 1), v % 16);
    }
  }

  lemma HexCharValue(d: nat)
    requires d < 16
    ensures IsXDigit(HexChar(d)) && DigitValue(HexChar(d)) == d && HexChar(d) != 'x'
  {
  }

  /** The text does not go on with a hexadecimal digit. */
  ghost predicate Stops(t: string) { t == "" || !IsXDigit(t[0]) }

  lemma {:induction false} DigitsOfChars(s: string, ds: seq<nat>, acc: nat)
    requires (forall i :: 0 <= i < |ds| ==> ds[i] < 16) && Chars(ds) <= s && Stops(s[|ds|..])
    ensures Digits(s, 16, acc) == (Value(acc, ds), |ds|)
    decreases |ds|
  {
    if ds != [] {
      HexCharValue(ds[0]);
      assert s[0] == Chars(ds)[0];
      Rest(s, ds);
      DigitsOfChars(s[1..], ds[1..], (acc * 16 + ds[0]) % U32);
    }
  }

  lemma Rest(s: string, ds: seq<nat>)
    requires ds != [] && (forall i :: 0 <= i < |ds| ==> ds[i] < 16) && Chars(ds) <= s
    ensures Chars(ds[1..]) <= s[1..] && s[1..][|ds| - 1..] == s[|ds|..]
  {
  }

  lemma Pow16Of8()
    ensures Pow16(8) == 0x1_0000_0000
  {
    assert Pow16(4) == 0x1_0000;
  }

  lemma CellFits(v: seq<byte>)
    requires |v| == 4
    ensures CellValue(v) < U32 && Be32(CellValue(v)) == v
  {
    var a: int, b: int, c: int, d: int := v[0], v[1], v[2], v[3];
    var n := CellValue(v);
    assert n == a * 0x100_0000 + b * 0x1_0000 + c * 0x100 + d;
    assert n / 0x100 == a * 0x1_0000 + b * 0x100 + c;
    assert n / 0x1_0000 == a * 0x100 + b;
    assert n / 0x100_0000 == a;
  }

  /** `simple_strtoul` reads back a cell printed with %08x after its 0x. */
  lemma StrtoulCell(h: string, v: seq<byte>)
    requires |v| == 4 && "0x" + Hex(CellValue(v), CELL_DIGITS) <= h && Stops(h[10..])
    ensures Strtoul(h, 0) == (CellValue(v), 10)
  {
    var ds := Nibbles(CellValue(v), CELL_DIGITS);
    CellFits(v);
    Pow16Of8();
    ValueOfNibbles(CellValue(v), CELL_DIGITS);
    HexCharValue(ds[0]);
    var s := h[2..];
    After0x(h, Chars(ds));
    DigitsOfChars(s, ds, 0);
  }

  lemma After0x(h: string, t: string)
    requires "0x" + t <= h && t != ""
    ensures h[0] == '0' && h[1] == 'x' && h[2] == t[0] && t <= h[2..] && h[2..][|t|..] == h[2 + |t|..]
  {
    assert h[..2 + |t|] == "0x" + t;
  }

  /** `simple_strtoul` reads back a byte printed with %02x. */
  lemma StrtoulByte(h: string, b: byte)
    requires Hex(b, 2) <= h && Stops(h[2..])
    ensures Strtoul(h, 16) == (b, 2)
  {
    var ds := Nibbles(b, 2);
    assert Pow16(2) == 256;
    ValueOfNibbles(b, 2);
    HexCharValue(ds[0]);
    HexCharValue(ds[1]);
    assert h[0] == HexChar(ds[0]) && h[1] == HexChar(ds[1]);
    DigitsOfChars(h, ds, 0);
    if ds[0] == 0 { LeadingZero(h, ds); }
  }

  /** Taking the leading zero apart changes nothing. */
  lemma LeadingZero(h: string, ds: seq<nat>)
    requires |ds| == 2 && ds[0] == 0 && ds[1] < 16 && Chars(ds) <= h && Stops(h[2..])
    ensures Strtoul(h, 16) == Digits(h, 16, 0)
  {
    HexCharValue(ds[1]);
    Rest(h, ds);
    assert h[0] == '0' && h[1] != 'x';
  }

  // ---------------------------------------------------------------- arguments

  /** The command line that the arguments were split from, at spaces. */
  ghost function Join(h: string, tail: seq<string>): string
    decreases |tail|
  {
    if tail == [] then h else h + " " + Join(tail[0], tail[1..])
  }

  /** A joined line starts with its first argument, and goes on with a space if there is more. */
  lemma JoinHead(h: string, tail: seq<string>, text: string)
    requires Join(h, tail) == text
    ensures |h| <= |text| && forall i :: 0 <= i < |h| ==> h[i] == text[i]
    ensures tail == [] ==> h == text
    ensures tail != [] ==> |h| < |text| && text[|h|] == ' ' && text[|h| + 1..] == Join(tail[0], tail[1..])
  {
    if tail != [] {
      var rest := Join(tail[0], tail[1..]);
      assert text == h + " " + rest;
      assert (h + " " + rest)[|h| + 1..] == rest;
    }
  }

  /** Dropping characters of the first argument drops them from the line. */
  lemma JoinDrop(h: string, tail: seq<string>, n: nat)
    requires n <= |h|
    ensures |Join(h, tail)| >= n && Join(h[n..], tail) == Join(h, tail)[n..]
  {
    if tail != [] {
      var rest := Join(tail[0], tail[1..]);
      assert (h + " " + rest)[n..] == h[n..] + " " + rest;
    }
  }

  // ---------------------------------------------------------------- cells

  lemma HeadTail(t: string, head: string, tail: string)
    requires t == head + tail
    ensures t[..|head|] == head && t[|head|..] == tail
    ensures tail != "" ==> t[|head|] == tail[0] && t[|head| + 1..] == tail[1..]
  {
  }

  lemma NoSpaceInHex(v: nat, n: nat)
    ensures forall i :: 0 <= i < n ==> Hex(v, n)[i] != ' ' && IsXDigit(Hex(v, n)[i])
  {
    forall i | 0 <= i < n ensures Hex(v, n)[i] != ' ' && IsXDigit(Hex(v, n)[i]) { HexCharValue(Nibbles(v, n)[i]); }
  }

  lemma CellHead(value: nat, head: string)
    requires head == "0x" + Hex(value, CELL_DIGITS)
    ensures |head| == 10 && head[0] == '0' && forall i :: 0 <= i < 10 ==> head[i] != ' '
  {
    var hex := Hex(value, CELL_DIGITS);
    NoSpaceInHex(value, CELL_DIGITS);
    forall i | 0 <= i < 10 ensures head[i] != ' ' { if i >= 2 { assert head[i] == hex[i - 2]; } }
  }

  /** The text of the first cell, and what follows it. */
  lemma CellsUnfold(v: seq<byte>, head: string, tail: string)
    requires |v| > 0 && |v| % 4 == 0 && head == "0x" + Hex(CellValue(v[..4]), CELL_DIGITS)
    requires tail == if |v| == 4 then ">" else " " + CellsText(v[4..])
    ensures CellsText(v) == head + tail
  {
  }

  /** Ten characters that are no spaces, and then a closing bracket or a space and more text. */
  ghost predicate CellShape(t: string, head: string, rest: string, last: bool) {
    && |t| >= 11 && head == t[..10] && t[0] == '0' && (forall i :: 0 <= i < 10 ==> t[i] != ' ')
    && (if last then t[10..] == ">" else t[10] == ' ' && t[11..] == rest)
  }

  lemma LastShape(t: string, head: string, rest: string)
    requires t == head + ">" && |head| == 10 && head[0] == '0' && forall i :: 0 <= i < 10 ==> head[i] != ' '
    ensures CellShape(t, head, rest, true)
  {
    assert t[..10] == head && t[10..] == ">";
    assert forall i :: 0 <= i < 10 ==> t[i] == head[i];
  }

  lemma MoreShape(t: string, head: string, rest: string)
    requires t == head + (" " + rest) && |head| == 10 && head[0] == '0' && forall i :: 0 <= i < 10 ==> head[i] != ' '
    ensures CellShape(t, head, rest, false)
  {
    assert t[..10] == head && t[10] == ' ' && t[11..] == rest;
    assert forall i :: 0 <= i < 10 ==> t[i] == head[i];
  }

  lemma CellsTextShape(v: seq<byte>, head: string, rest: string)
    requires |v| > 0 && |v| % 4 == 0 && head == "0x" + Hex(CellValue(v[..4]), CELL_DIGITS)
    requires |v| == 4 || (|v| >= 8 && |v[4..]| % 4 == 0 && rest == CellsText(v[4..]))
    ensures CellShape(CellsText(v), head, rest, |v| == 4)
  {
    CellHead(CellValue(v[..4]), head);
    if |v| == 4 {
      CellsUnfold(v, head, ">");
      LastShape(CellsText(v), head, rest);
    } else {
      CellsUnfold(v, head, " " + rest);
      MoreShape(CellsText(v), head, rest);
    }
  }

  /** The text of the cells after the first, if there are any. */
  ghost function RestText(v: seq<byte>): string
    requires |v| > 0 && |v| % 4 == 0
  {
    FourMore(v);
    if |v| == 4 then "" else CellsText(v[4..])
  }

  lemma CellsShape(v: seq<byte>)
    requires |v| > 0 && |v| % 4 == 0
    ensures CellShape(CellsText(v), "0x" + Hex(CellValue(v[..4]), CELL_DIGITS), RestText(v), |v| == 4)
  {
    FourMore(v);
    CellsTextShape(v, "0x" + Hex(CellValue(v[..4]), CELL_DIGITS), RestText(v));
  }

  lemma SkipOne(h: string)
    requires h != "" && h[0] == ' ' && (|h| > 1 ==> h[1] != ' ')
    ensures SkipSpaces(h) == h[1..]
  {
  }

  /** An argument that begins the cell text begins with its first number. */
  lemma CellsHead(h: string, tail: seq<string>, v: seq<byte>, text: string, head: string)
    requires |v| > 0 && |v| % 4 == 0 && Join(h, tail) == text && text == CellsText(v)
    requires head == "0x" + Hex(CellValue(v[..4]), CELL_DIGITS)
    ensures |text| >= 11 && |h| >= 10 && h[..10] == head && head <= h
    ensures (|h| > 10 ==> h[10] == text[10]) && (|v| == 4 ==> |h| == 11)
    ensures !IsXDigit(text[10]) && h[0] != '>'
  {
    CellsShape(v);
    JoinHead(h, tail, text);
    assert |v| == 4 ==> text[10] == text[10..][0] && |text| == 11;
    assert h[..10] == text[..10];
  }

  /** One number of the cell text is parsed to its cell. */
  lemma CellsStep(h: string, tail: seq<string>, v: seq<byte>, data: seq<byte>)
    requires |v| > 0 && |v| % 4 == 0 && Join(h, tail) == CellsText(v)
    ensures |h| >= 10 && (|h| > 10 ==> |CellsText(v)| > 10 && h[10] == CellsText(v)[10]) && (|v| == 4 ==> |h| == 11)
    ensures ParseCells(h, tail, data) == ParseCells(SkipSpaces(h[10..]), tail, data + v[..4])
  {
    CellsHead(h, tail, v, CellsText(v), "0x" + Hex(CellValue(v[..4]), CELL_DIGITS));
    assert Stops(h[10..]);
    StrtoulCell(h, v[..4]);
    CellFits(v[..4]);
    CellTaken(h, tail, data, (CellValue(v[..4]), 10));
  }

  /** However the cell text is split at its spaces, parsing it gives the cells. */
  lemma {:induction false} CellsParse(h: string, tail: seq<string>, v: seq<byte>, data: seq<byte>)
    requires |v| > 0 && |v| % 4 == 0 && Join(h, tail) == CellsText(v)
    ensures ParseCells(h, tail, data) == Ok(data + v)
    decreases |v|
  {
    CellsStep(h, tail, v, data);
    CellsShape(v);
    JoinHead(h, tail, CellsText(v));
    FourMore(v);
    SameData(data, v, 4);
    if |v| > 4 {
      CellsShape(v[4..]);
      if |h| == 10 {
        CellsParse(tail[0], tail[1..], v[4..], data + v[..4]);
      } else {
        JoinDrop(h, tail, 11);
        JoinHead(h[11..], tail, CellsText(v[4..]));
        SkipOne(h[10..]);
        DropOne(h, 10);
        CellsParse(h[11..], tail, v[4..], data + v[..4]);
      }
    }
  }

  lemma FourMore(v: seq<byte>)
    requires |v| > 0 && |v| % 4 == 0
    ensures |v| == 4 || (|v| >= 8 && |v[4..]| % 4 == 0)
    ensures |v| == 4 ==> v[..4] == v
  {
  }

  lemma DropOne(h: string, n: nat)
    requires n < |h|
    ensures h[n..][1..] == h[n + 1..]
  {
  }

  lemma SameData(data: seq<byte>, v: seq<byte>, n: nat)
    requires n <= |v|
    ensures data + v[..n] + v[n..] == data + v
  {
  }

  // ---------------------------------------------------------------- bytes

  lemma BytesTextShape(v: seq<byte>)
    requires |v| > 0
    ensures
      var t := BytesText(v);
      && |t| >= 3 && Hex(v[0], 2) == t[..2] && IsXDigit(t[0]) && t[1] != ' '
      && (if |v| == 1 then t[2..] == "]" else t[2] == ' ' && t[3..] == BytesText(v[1..]))
  {
    NoSpaceInHex(v[0], 2);
    HeadTail(BytesText(v), Hex(v[0], 2), if |v| == 1 then "]" else " " + BytesText(v[1..]));
  }

  /** One number of the byte text is parsed to its byte. */
  lemma BytesStep(h: string, tail: seq<string>, v: seq<byte>, data: seq<byte>)
    requires |v| > 0 && Join(h, tail) == BytesText(v)
    ensures |h| >= 2 && (|h| > 2 ==> h[2] == BytesText(v)[2]) && (|v| == 1 ==> |h| == 3)
    ensures ParseBytes(h, tail, data) == ParseBytes(h[2..], tail, data + [v[0]])
  {
    var text := BytesText(v);
    BytesTextShape(v);
    JoinHead(h, tail, text);
    assert |v| == 1 ==> text[2] == text[2..][0] && |text| == 3;
    assert h[..2] == text[..2];
    StrtoulByte(h, v[0]);
    assert h[0] == text[0];
    BytesUnfold(h, tail, data, v[0]);
  }

  lemma BytesUnfold(h: string, tail: seq<string>, data: seq<byte>, b: byte)
    requires |h| >= 2 && IsXDigit(h[0]) && Strtoul(h, 16) == (b, 2)
    ensures ParseBytes(h, tail, data) == ParseBytes(h[2..], tail, data + [b])
  {
    assert SkipSpaces(h) == h;
  }

  /** However the byte text is split at its spaces, parsing it gives the bytes. */
  lemma {:induction false} BytesParse(h: string, tail: seq<string>, v: seq<byte>, data: seq<byte>)
    requires |v| > 0 && Join(h, tail) == BytesText(v)
    ensures ParseBytes(h, tail, data) == Ok(data + v)
    decreases |v|
  {
    BytesStep(h, tail, v, data);
    BytesTextShape(v);
    JoinHead(h, tail, BytesText(v));
    SameData(data, v, 1);
    FirstByte(v);
    if |v| > 1 {
      BytesTextShape(v[1..]);
      if |h| == 2 {
        BytesParse(tail[0], tail[1..], v[1..], data + [v[0]]);
      } else {
        JoinDrop(h, tail, 3);
        JoinHead(h[3..], tail, BytesText(v[1..]));
        DropOne(h, 2);
        BytesParse(h[3..], tail, v[1..], data + [v[0]]);
        LeadingSpace(h[2..], tail, data + [v[0]]);
      }
    }
  }

  lemma FirstByte(v: seq<byte>)
    requires v != []
    ensures v[..1] == [v[0]] && (|v| == 1 ==> v == [v[0]])
  {
  }

  /** A space before the next byte does not matter. */
  lemma LeadingSpace(h: string, tail: seq<string>, data: seq<byte>)
    requires |h| > 1 && h[0] == ' ' && h[1] != ' ' && h[1] != ']'
    ensures ParseBytes(h, tail, data) == ParseBytes(h[1..], tail, data)
  {
    SkipOne(h);
    assert SkipSpaces(h[1..]) == h[1..];
  }

  // ---------------------------------------------------------------- strings

  lemma {:induction false} StringAtCopies(v: seq<byte>)
    requires v != [] && v[|v| - 1] == 0
    ensures |StringAt(v)| < |v| && v[|StringAt(v)|] == 0 && CopyString(StringAt(v)) == v[..|StringAt(v)|]
    decreases |v|
  {
    if v[0] != 0 { StringAtCopies(v[1..]); }
  }

  /** Copying the strings of a null-terminated value gives the value. */
  lemma {:induction false} StringsCopy(v: seq<byte>)
    requires v == [] || v[|v| - 1] == 0
    ensures CopyStrings(Strings(v)) == v
    decreases |v|
  {
    if v != [] {
      var s := StringAt(v);
      StringAtCopies(v);
      var rest := v[|s| + 1..];
      StringsCopy(rest);
      StringsCons(s, Strings(rest));
      Reassemble(v, |s|);
    }
  }

  lemma StringsCons(s: string, ss: seq<string>)
    ensures CopyStrings([s] + ss) == CopyString(s) + [0] + CopyStrings(ss)
  {
    assert ([s] + ss)[1..] == ss;
  }

  lemma Reassemble(v: seq<byte>, n: nat)
    requires n < |v| && v[n] == 0
    ensures v[..n] + [0] + v[n + 1..] == v
  {
  }

  // ---------------------------------------------------------------- the round trip

  /** The arguments that a printed text stands for on the command line: the strings between its
      quotes, or the text split at any of its spaces. */
  ghost predicate Retyped(text: string, args: seq<string>) {
    args != [] && text != "" &&
    if text[0] == '"' then args == Unquoted(text) else Join(args[0], args[1..]) == text
  }

  /** A value printed as strings is read back from the text of its strings. */
  lemma StringsRead(v: seq<byte>, after: byte, args: seq<string>)
    requires v != [] && PrintData(v, after).Text? && Retyped(PrintData(v, after).text, args)
    requires IsPrintableString(v, after)
    ensures args == Split("", Joined(Strings(v)))
  {
    ReadsPrinted(Strings(v), PrintData(v, after).text);
  }

  lemma DropMark(h: string, tail: seq<string>, mark: char, body: string)
    requires Join(h, tail) == [mark] + body && mark != ' '
    ensures h != "" && h[0] == mark && Join(h[1..], tail) == body
  {
    JoinHead(h, tail, [mark] + body);
    JoinDrop(h, tail, 1);
    assert ([mark] + body)[1..] == body;
  }

  /** A string list whose printed form is taken for something else: strings that hold a
      separator, a first character that opens cells or bytes, or a newline in place of the last
      null byte. */
  ghost predicate Ambiguous(v: seq<byte>, after: byte) {
    && IsPrintableString(v, after)
    && (!Splittable(Strings(v)) || v[0] == '<' as int || v[0] == '[' as int || v[|v| - 1] == 10)
  }

  /** Parsing what the printer printed gives back the value, byte for byte. */
  lemma ParseUndoesPrint(v: seq<byte>, after: byte, args: seq<string>)
    requires v != [] && PrintData(v, after).Text? && Retyped(PrintData(v, after).text, args)
    requires !Ambiguous(v, after)
    ensures ParseProp(args) == Ok(v)
  {
    if IsPrintableString(v, after) {
      StringsRead(v, after, args);
      SplitJoined(Strings(v));
      StringsCopy(v);
      assert args[0] == StringAt(v);
    } else if |v| % 4 == 0 {
      DropMark(args[0], args[1..], '<', CellsText(v));
      CellsParse(args[0][1..], args[1..], v, []);
      assert [] + v == v;
    } else {
      DropMark(args[0], args[1..], '[', BytesText(v));
      BytesParse(args[0][1..], args[1..], v, []);
      assert [] + v == v;
    }
  }

  /** The string "<" is printed as a string, but what is read from its text is parsed as an
      unfinished list of cells. */
  lemma AngleStringFails(v: seq<byte>, args: seq<string>)
    requires v == ['<' as int, 0]
    requires PrintData(v, 0).Text? ==> Retyped(PrintData(v, 0).text, args)
    ensures PrintData(v, 0).Text? && ParseProp(args) == Overrun
  {
    AngleStrings(v);
    StringsRead(v, 0, args);
    SplitNone("", "<");
    assert "" + "<" == "<" && Joined(["<"]) == "<";
    assert args == ["<"] && "<"[1..] == "" && args[1..] == [];
  }

  lemma AngleStrings(v: seq<byte>)
    requires v == ['<' as int, 0]
    ensures IsPrintableString(v, 0) && Strings(v) == ["<"]
  {
    ScanMeaning(v, 0, 0);
    assert v[1..] == [0];
    assert StringAt(v[1..]) == "";
    assert StringAt(v) == "<";
    assert v[2..] == [] && Strings(v[2..]) == [];
  }
}
