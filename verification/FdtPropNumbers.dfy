/** What numbers in the text of a property mean, in every base. */
module FdtPropNumbers {
  import opened Arith
  import opened FdtProp
  import opened Machine

  const LOWER := "0123456789abcdef"
  const UPPER := "0123456789ABCDEF"

  // ---------------------------------------------------------------- digits

  /** Character `c` is written for digit `d`. */
  predicate Writes(c: char, d: nat) { d < 16 && (c == LOWER[d] || c == UPPER[d]) }

  lemma DigitWritten(c: char, d: nat)
    requires Writes(c, d)
    ensures IsXDigit(c) && DigitValue(c) == d
  {
  }

  lemma DigitRead(c: char)
    requires IsXDigit(c)
    ensures DigitValue(c) < 16 && Writes(c, DigitValue(c))
  {
  }

  /** Digits are printed as characters of the lower-case table. */
  lemma DigitPrinted(d: nat)
    requires d < 16
    ensures HexChar(d) == LOWER[d]
  {
  }

  // ---------------------------------------------------------------- positional value

  ghost function Pow(b: nat, n: nat): nat { if n == 0 then 1 else b * Pow(b, n - 1) }

  /** The sum of the digits times the powers of the base of their places. */
  ghost function Positional(ds: seq<nat>, base: nat): nat {
    if ds == [] then 0 else ds[0] * Pow(base, |ds| - 1) + Positional(ds[1..], base)
  }

  /** The text begins with these digits of the base, and then something else comes. */
  ghost predicate Spells(s: string, ds: seq<nat>, base: nat) {
    && |ds| <= |s| && (forall i :: 0 <= i < |ds| ==> ds[i] < base && Writes(s[i], ds[i]))
    && (|ds| < |s| ==> forall d :: 0 <= d < base ==> !Writes(s[|ds|], d))
  }

  lemma SpellsRest(s: string, ds: seq<nat>, base: nat)
    requires Spells(s, ds, base) && ds != []
    ensures Spells(s[1..], ds[1..], base)
  {
  }

  lemma RemainderKept(x: nat, m: nat, p: nat, q: nat)
    requires m > 0
    ensures (x % m * p + q) % m == (x * p + q) % m
  {
    var k, r := x / m, x % m;
    assert x == m * k + r;
    var y := r * p + q;
    calc {
      x * p + q;
      (m * k + r) * p + q;
      m * k * p + r * p + q;
      (k * p) * m + y;
    }
    ModShift(y, k * p, m);
  }

  lemma ModShift(y: nat, k: nat, m: nat)
    requires m > 0
    ensures (k * m + y) % m == y % m
  {
    var z := k * m + y;
    assert y == y / m * m + y % m;
    assert z == (k + y / m) * m + y % m;
    DivUnique(k + y / m, y % m, m);
  }

  /** One digit more moves the value by a factor of the base. */
  lemma ShiftIn(acc: nat, d: nat, base: nat, p: nat, rest: nat)
    ensures (acc * base + d) * p + rest == acc * (base * p) + (d * p + rest)
  {
    calc {
      (acc * base + d) * p + rest;
      acc * base * p + d * p + rest;
      acc * (base * p) + (d * p + rest);
    }
  }

  lemma ValueStep(acc: nat, ds: seq<nat>, base: nat, acc': nat)
    requires ds != [] && acc' == (acc * base + ds[0]) % U32
    ensures Joined(acc', ds[1..], base) == Joined(acc, ds, base)
  {
    var p, rest := Pow(base, |ds| - 1), Positional(ds[1..], base);
    RemainderKept(acc * base + ds[0], U32, p, rest);
    ShiftIn(acc, ds[0], base, p, rest);
  }

  lemma DigitTaken(s: string, base: nat, acc: nat, d: nat, acc': nat)
    requires s != "" && Writes(s[0], d) && d < base && acc' == (acc * base + d) % U32
    ensures
      var r := Digits(s[1..], base, acc');
      Digits(s, base, acc) == (r.0, r.1 + 1)
  {
    DigitWritten(s[0], d);
  }

  lemma DigitsStop(s: string, base: nat, acc: nat)
    requires base <= 16 && acc < U32 && Spells(s, [], base)
    ensures Digits(s, base, acc) == (acc, 0)
  {
    if s != "" && IsXDigit(s[0]) { DigitRead(s[0]); }
  }

  /** The value that `acc` and the digits behind it make, modulo 2^32. */
  ghost function Joined(acc: nat, ds: seq<nat>, base: nat): nat {
    (acc * Pow(base, |ds|) + Positional(ds, base)) % U32
  }

  /** Taking one digit more, without saying how. */
  lemma TakeDigit(s: string, ds: seq<nat>, base: nat, acc: nat) returns (acc': nat)
    requires ds != [] && Spells(s, ds, base)
    ensures acc' < U32 && Joined(acc', ds[1..], base) == Joined(acc, ds, base)
    ensures
      var r := Digits(s[1..], base, acc');
      Digits(s, base, acc) == (r.0, r.1 + 1)
  {
    acc' := (acc * base + ds[0]) % U32;
    ValueStep(acc, ds, base, acc');
    DigitTaken(s, base, acc, ds[0], acc');
  }

  lemma JoinedNone(acc: nat, base: nat)
    requires acc < U32
    ensures Joined(acc, [], base) == acc
  {
  }

  /** The digit loop computes the positional value in any base, modulo 2^32. */
  lemma {:induction false} DigitsMean(s: string, ds: seq<nat>, base: nat, acc: nat, v: nat)
    requires base <= 16 && acc < U32 && Spells(s, ds, base) && v == Joined(acc, ds, base)
    ensures Digits(s, base, acc) == (v, |ds|)
    decreases |ds|
  {
    if ds == [] {
      DigitsStop(s, base, acc);
      JoinedNone(acc, base);
    } else {
      var acc' := TakeDigit(s, ds, base, acc);
      SpellsRest(s, ds, base);
      DigitsMean(s[1..], ds[1..], base, acc', v);
    }
  }

  /** From nothing the value is that of the digits. */
  lemma DigitsFromZero(s: string, ds: seq<nat>, base: nat)
    requires base <= 16 && Spells(s, ds, base)
    ensures Digits(s, base, 0) == (Positional(ds, base) % U32, |ds|)
  {
    DigitsMean(s, ds, base, 0, Joined(0, ds, base));
  }

  // ---------------------------------------------------------------- numbers

  /** Decimal text means its decimal value. */
  lemma DecimalNumber(s: string, ds: seq<nat>)
    requires ds != [] && ds[0] != 0 && Spells(s, ds, 10)
    ensures Strtoul(s, 0) == (Positional(ds, 10) % U32, |ds|)
  {
    DigitWritten(s[0], ds[0]);
    DigitsFromZero(s, ds, 10);
  }

  /** Text after a leading zero means its octal value. */
  lemma OctalNumber(s: string, ds: seq<nat>)
    requires s != "" && s[0] == '0' && Spells(s[1..], ds, 8) && !(|s| > 2 && s[1] == 'x' && IsXDigit(s[2]))
    ensures Strtoul(s, 0) == (Positional(ds, 8) % U32, |ds| + 1)
  {
    DigitsFromZero(s[1..], ds, 8);
  }

  /** Text after 0x means its hexadecimal value, whatever the base asked for. */
  lemma HexNumber(s: string, ds: seq<nat>, base: nat)
    requires |s| > 2 && s[0] == '0' && s[1] == 'x' && ds != [] && Spells(s[2..], ds, 16)
    ensures Strtoul(s, base) == (Positional(ds, 16) % U32, |ds| + 2)
  {
    DigitWritten(s[2], ds[0]);
    DigitsFromZero(s[2..], ds, 16);
  }

  /** Text without 0x read in base 16 means its hexadecimal value. */
  lemma BareHexNumber(s: string, ds: seq<nat>)
    requires ds != [] && Spells(s, ds, 16) && !(|s| > 2 && s[0] == '0' && s[1] == 'x' && IsXDigit(s[2]))
    ensures Strtoul(s, 16) == (Positional(ds, 16) % U32, |ds|)
  {
    DigitWritten(s[0], ds[0]);
    DigitsFromZero(s, ds, 16);
    BareIsDigits(s);
  }

  lemma BareIsDigits(s: string)
    requires s != "" && !(|s| > 2 && s[0] == '0' && s[1] == 'x' && IsXDigit(s[2]))
    ensures Strtoul(s, 16) == Digits(s, 16, 0)
  {
    if s[0] == '0' { LeadingZero(s, 16, 0); }
  }

  /** Passing over a leading zero changes nothing. */
  lemma LeadingZero(s: string, base: nat, acc: nat)
    requires s != "" && s[0] == '0' && base > 0 && acc == 0
    ensures
      var r := Digits(s[1..], base, acc);
      Digits(s, base, acc) == (r.0, r.1 + 1)
  {
    DigitWritten('0', 0);
    DigitTaken(s, base, acc, 0, acc);
  }

  /** A cell is stored with its highest byte first, and read alike. */
  lemma CellsAreBigEndian(n: nat, v: seq<byte>, a: int, b: int, c: int, d: int)
    requires n < 0x1_0000_0000
    ensures Be32(n) == v <==> v == [n / 0x100_0000, n / 0x1_0000 % 0x100, n / 0x100 % 0x100, n % 0x100]
    ensures |v| == 4 && a == v[0] && b == v[1] && c == v[2] && d == v[3] ==>
      CellValue(v) == a * 0x100_0000 + b * 0x1_0000 + c * 0x100 + d
  {
  }

  /** Only spaces are skipped between numbers. */
  lemma {:induction false} SkipsOnlySpaces(s: string)
    ensures
      var r := SkipSpaces(s);
      r == s[|s| - |r|..] && forall k :: 0 <= k < |s| - |r| ==> s[k] == ' '
    decreases |s|
  {
    if s != "" && s[0] == ' ' {
      var t := s[1..];
      SkipsOnlySpaces(t);
      forall k | 0 <= k < |s| - |SkipSpaces(s)| ensures s[k] == ' ' { if k > 0 { assert t[k - 1] == s[k]; } }
    }
  }

  /** For example, the cell 10 is ten. */
  lemma TenIsTen(args: seq<string>)
    requires args == ["<10>"]
    ensures ParseProp(args) == Ok([0, 0, 0, 10])
  {
    var h, ds := "10>", [1, 0];
    assert args[0][1..] == h && args[1..] == [];
    DigitWritten('1', 1);
    DigitWritten('0', 0);
    assert Pow(10, 1) == 10 && Positional([0], 10) == 0 && ds[1..] == [0];
    assert Positional(ds, 10) == 10;
    assert Spells(h, ds, 10);
    DecimalNumber(h, ds);
    assert SkipSpaces(h[2..]) == ">";
    assert [] + Be32(10) == [0, 0, 0, 10];
  }
}
