/** Image footer checksum (uboot/cmd/armflash.c): 32-bit end-around-carry sum, complemented. */
module Checksum {
  import opened Machine

  /** 2^32 - 1: the modulus of end-around-carry arithmetic, and the all-ones word. */
  const ONES: nat := 0xFFFF_FFFF

  type word = x: int | 0 <= x < 0x1_0000_0000

  function Complement(x: word): word { ONES - x }

  /** The words read by `readl` at start, start + 4, ..., start + len - 4. */
  function Words(memory: map<nat, word>, start: nat, len: nat): seq<word> {
    seq<word>(len / 4, k requires 0 <= k < len / 4 => Readl(memory, start + 4 * k))
  }

  function Readl(memory: map<nat, word>, addr: nat): word { if addr in memory then memory[addr] else 0 }

  // ---------------------------------------------------------------- reference

  ghost function Sum(s: seq<word>): nat {
    if s == [] then 0 else Sum(s[..|s| - 1]) + s[|s| - 1]
  }

  /** The word that stands for a plain sum in end-around-carry arithmetic: congruent to it
      modulo 2^32 - 1, and zero only for zero. */
  ghost function Fold(sum: nat): word { if sum == 0 then 0 else (sum - 1) % ONES + 1 }

  /** `Fold` is the only word with that property. */
  lemma FoldUnique(sum: nat, x: word)
    ensures x == Fold(sum) <==> x % ONES == sum % ONES && (x == 0 <==> sum == 0)
  {
  }

  /** One round of the loop is end-around-carry addition. */
  lemma AddFolds(sum: nat, val: word)
    ensures
      var acc := Fold(sum);
      var carried := if val > Complement(acc) then (acc + 1) % U32 else acc;
      (carried + val) % U32 == Fold(sum + val)
  {
  }

  /** The sum of the memory cells at start, start + 4, ..., start + 4 * (n - 1). */
  ghost function CellSum(memory: map<nat, word>, start: nat, n: nat): nat {
    if n == 0 then 0
    else
      var at := start + 4 * (n - 1);
      CellSum(memory, start, n - 1) + (if at in memory then memory[at] else 0)
  }

  /** The word that makes a sum a multiple of 2^32 - 1, and is all ones only for the sum 0. */
  ghost predicate Negates(crc: word, sum: nat) {
    var c: int := crc;
    (c + sum) % 0xFFFF_FFFF == 0 && (crc == 0xFFFF_FFFF <==> sum == 0)
  }

  lemma ComplementNegates(sum: nat)
    ensures Negates(Complement(Fold(sum)), sum)
  {
    FoldUnique(sum, Fold(sum));
  }

  lemma {:induction false} WordsSum(memory: map<nat, word>, start: nat, len: nat, n: nat)
    requires n <= len / 4
    ensures Sum(Words(memory, start, len)[..n]) == CellSum(memory, start, n)
    ensures n == len / 4 ==> Words(memory, start, len)[..n] == Words(memory, start, len)
    decreases n
  {
    if n > 0 {
      WordsSum(memory, start, len, n - 1);
      PrefixSum(Words(memory, start, len), n - 1);
    }
  }

  // ---------------------------------------------------------------- the loop

  method ComputeCrc(memory: map<nat, word>, start: nat, len: nat) returns (crc: word)
    ensures crc == if len % 4 != 0 then 0 else Complement(Fold(Sum(Words(memory, start, len))))
    ensures len % 4 == 0 ==> Negates(crc, CellSum(memory, start, len / 4))
  {
    if len % 4 != 0 {
      return 0;
    }
    var sum: word := 0;
    var i := 0;
    ghost var words, n := Words(memory, start, len), 0;
    while i < len
      invariant 0 <= n <= |words| && i == 4 * n
      invariant sum == Fold(Sum(words[..n]))
    {
      var val := Readl(memory, start + i);
      assert val == words[n];
      PrefixSum(words, n);
      AddFolds(Sum(words[..n]), val);
      if val > Complement(sum) {
        sum := (sum + 1) % U32;
      }
      sum := (sum + val) % U32;
      i, n := i + 4, n + 1;
    }
    assert words[..n] == words;
    crc := Complement(sum);
    WordsSum(memory, start, len, |words|);
    ComplementNegates(Sum(words));
  }

  lemma PrefixSum(s: seq<word>, n: nat)
    requires n < |s|
    ensures Sum(s[..n + 1]) == Sum(s[..n]) + s[n]
  {
    assert s[..n + 1][..n] == s[..n];
  }

  // ---------------------------------------------------------------- properties

  ghost function Crc(s: seq<word>): word { Complement(Fold(Sum(s))) }

  lemma {:induction false} SumConcat(s: seq<word>, t: seq<word>)
    ensures Sum(s + t) == Sum(s) + Sum(t)
    decreases |t|
  {
    if t == [] { assert s + t == s; } else {
      var n := |t| - 1;
      assert (s + t)[..|s + t| - 1] == s + t[..n];
      SumConcat(s, t[..n]);
    }
  }

  lemma SumMiddle(l: seq<word>, x: word, r: seq<word>)
    ensures Sum(l + [x] + r) == Sum(l + r) + x
  {
    SumConcat(l + [x], r);
    SumConcat(l, [x]);
    SumConcat(l, r);
  }

  lemma SplitAt(s: seq<word>, k: nat)
    requires k < |s|
    ensures s == s[..k] + [s[k]] + s[k + 1..]
  {
  }

  lemma SumSplit(s: seq<word>, k: nat)
    requires k < |s|
    ensures Sum(s) == Sum(Without(s, k)) + s[k]
  {
    SumMiddle(s[..k], s[k], s[k + 1..]);
    SplitAt(s, k);
  }

  function Without(s: seq<word>, k: nat): seq<word>
    requires k < |s|
  {
    s[..k] + s[k + 1..]
  }

  /** The checksum does not depend on the order of the words. */
  lemma {:induction false} SumPermutes(s: seq<word>, t: seq<word>)
    requires multiset(s) == multiset(t)
    ensures Sum(s) == Sum(t)
    decreases |s|
  {
    if s == [] { assert |multiset(t)| == 0; } else {
      assert s[0] in multiset(t);
      var k :| 0 <= k < |t| && t[k] == s[0];
      RemoveOne(s, 0);
      RemoveOne(t, k);
      SumPermutes(Without(s, 0), Without(t, k));
      SumSplit(s, 0);
      SumSplit(t, k);
    }
  }

  lemma RemoveOne(s: seq<word>, k: nat)
    requires k < |s|
    ensures multiset(Without(s, k)) == multiset(s) - multiset{s[k]}
  {
    SplitAt(s, k);
  }

  lemma CrcPermutes(s: seq<word>, t: seq<word>)
    requires multiset(s) == multiset(t)
    ensures Crc(s) == Crc(t)
  {
    SumPermutes(s, t);
  }

  /** A table whose word `k` holds the checksum of the others checks to zero. */
  lemma StoredChecksumVerifies(s: seq<word>, k: nat)
    requires k < |s| && s[k] == Crc(Without(s, k))
    ensures Crc(s) == 0
  {
    SumSplit(s, k);
    FoldComplement(Sum(Without(s, k)));
  }

  lemma FoldComplement(rest: nat)
    ensures Fold(rest + Complement(Fold(rest))) == ONES
  {
    FoldUnique(rest, Fold(rest));
    FoldUnique(rest + Complement(Fold(rest)), ONES);
  }

  /** Changing one word goes unnoticed exactly when it turns 0 into all-ones or back among
      words that are not all zero. */
  lemma OneWordChange(s: seq<word>, k: nat, x: word)
    requires k < |s| && x != s[k]
    ensures Crc(s[k := x]) == Crc(s) <==> {x, s[k]} == {0, ONES} && Sum(Without(s, k)) != 0
  {
    var t, rest := s[k := x], Sum(Without(s, k));
    SumSplit(s, k);
    SumSplit(t, k);
    assert Without(t, k) == Without(s, k);
    FoldChange(rest, s[k], x);
  }

  /** Sums less than 2^32 apart with the same residue are equal or 2^32 - 1 apart. */
  lemma SameResidue(a: nat, b: nat)
    requires a % ONES == b % ONES && a <= b <= a + ONES
    ensures b == a || b == a + ONES
  {
  }

  lemma FoldEqual(rest: nat, x: word, y: word)
    requires x < y
    ensures Fold(rest + x) == Fold(rest + y) <==> x == 0 && y == ONES && rest != 0
  {
    FoldUnique(rest + x, Fold(rest + x));
    FoldUnique(rest + y, Fold(rest + y));
    if rest != 0 { FoldAddsOnes(rest); }
    if Fold(rest + x) == Fold(rest + y) { SameResidue(rest + x, rest + y); }
  }

  /** Adding all-ones to a sum that is not zero changes nothing. */
  lemma FoldAddsOnes(rest: nat)
    requires rest != 0
    ensures Fold(rest + ONES) == Fold(rest)
  {
    FoldUnique(rest, Fold(rest));
    FoldUnique(rest + ONES, Fold(rest));
  }

  lemma FoldChange(rest: nat, x: word, y: word)
    requires x != y
    ensures Fold(rest + x) == Fold(rest + y) <==> {x, y} == {0, ONES} && rest != 0
  {
    if x < y { FoldEqual(rest, x, y); } else { FoldEqual(rest, y, x); }
    PairIs(x, y);
  }

  lemma PairIs(x: word, y: word)
    requires x != y
    ensures {x, y} == {0, ONES} <==> (x == 0 && y == ONES) || (x == ONES && y == 0)
  {
    if {x, y} == {0, ONES} { assert x in {0, ONES} && y in {0, ONES}; }
  }
}
