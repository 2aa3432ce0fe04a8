/** The table built from an EFI memory map means the same as the map, and is canonical. */
module EfiTheorems {
  import opened Efi

  // ---------------------------------------------------------------- sums over descriptors

  ghost function Sum(s: seq<MemDesc>, weight: MemDesc -> int): int {
    if s == [] then 0 else Sum(s[..|s| - 1], weight) + weight(s[|s| - 1])
  }

  lemma SumSnoc(s: seq<MemDesc>, d: MemDesc, weight: MemDesc -> int)
    ensures Sum(s + [d], weight) == Sum(s, weight) + weight(d)
  {
    assert (s + [d])[..|s|] == s;
  }

  lemma {:induction false} SumConcat(s: seq<MemDesc>, t: seq<MemDesc>, weight: MemDesc -> int)
    ensures Sum(s + t, weight) == Sum(s, weight) + Sum(t, weight)
    decreases |t|
  {
    if t == [] { assert s + t == s; } else {
      var n := |t| - 1;
      assert s + t == (s + t[..n]) + [t[n]];
      SumConcat(s, t[..n], weight);
      SumSnoc(s + t[..n], t[n], weight);
    }
  }

  /** Takes one occurrence of `d` out of a sum. */
  lemma SumWithout(t: seq<MemDesc>, d: MemDesc, weight: MemDesc -> int) returns (rest: seq<MemDesc>)
    requires d in multiset(t)
    ensures multiset(rest) == multiset(t) - multiset{d}
    ensures Sum(t, weight) == Sum(rest, weight) + weight(d)
  {
    var k :| 0 <= k < |t| && t[k] == d;
    var l, r := t[..k], t[k + 1..];
    rest := l + r;
    assert t == l + [d] + r;
    assert multiset(t) == multiset(l) + multiset{d} + multiset(r);
    SumConcat(l, r, weight);
    SumConcat(l + [d], r, weight);
    SumSnoc(l, d, weight);
  }

  /** A sum does not depend on the order of the descriptors. */
  lemma {:induction false} SumPerm(s: seq<MemDesc>, t: seq<MemDesc>, weight: MemDesc -> int)
    requires multiset(s) == multiset(t)
    ensures Sum(s, weight) == Sum(t, weight)
    decreases |s|
  {
    if s == [] { assert |multiset(t)| == 0; } else {
      var init, d := s[..|s| - 1], s[|s| - 1];
      assert s == init + [d];
      assert multiset(s) == multiset(init) + multiset{d};
      var rest := SumWithout(t, d, weight);
      assert multiset(init) == multiset(s) - multiset{d};
      SumPerm(init, rest, weight);
    }
  }

  // ---------------------------------------------------------------- meaning

  predicate Contains(d: MemDesc, a: int) { d.start <= a < d.start + d.pages * PAGE }

  /** 1 for a descriptor that gives address `a` the type `kind`. */
  ghost function Gives(a: int, kind: nat, skipBs: bool): MemDesc -> int {
    (d: MemDesc) => if Contains(d, a) && Retype(d, skipBs).kind == kind then 1 else 0
  }

  ghost function Pages(): MemDesc -> int { (d: MemDesc) => d.pages }

  /** How often the descriptors give address `a` the type `kind`, with boot-services and loader
      memory counted as conventional when `skipBs`. */
  ghost function Coverage(s: seq<MemDesc>, a: int, kind: nat, skipBs: bool): int { Sum(s, Gives(a, kind, skipBs)) }

  lemma LastEntryEnds(out: seq<MemDesc>, before: MemDesc, d: MemDesc, skipBs: bool)
    requires Fits(before) && Fits(d) && Tail(out, before)
    ensures Tail(Append(out, before, d, skipBs), d)
    ensures Merges(out, before, d, skipBs) ==>
      Append(out, before, d, skipBs)[|out| - 1].pages == out[|out| - 1].pages + d.pages
  {
    if Merges(out, before, d, skipBs) {
      var last := out[|out| - 1];
      assert last.start + (last.pages + d.pages) * PAGE == d.start + d.pages * PAGE;
    }
  }

  /** The last entry of the table ends where the last descriptor read ends. */
  ghost predicate Tail(out: seq<MemDesc>, before: MemDesc) {
    out != [] ==>
      var last := out[|out| - 1];
      Fits(last) && last.start + last.pages * PAGE == before.start + before.pages * PAGE
  }

  lemma {:induction false} CompactTail(s: seq<MemDesc>, skipBs: bool)
    requires AllFit(s) && s != []
    ensures Tail(Compact(s, skipBs), s[|s| - 1])
  {
    var n := |s| - 1;
    if n > 0 { CompactTail(s[..n], skipBs); }
    LastEntryEnds(Compact(s[..n], skipBs), s[if n > 0 then n - 1 else 0], s[n], skipBs);
  }

  /** One step of the compaction adds what the new descriptor gives. */
  lemma AppendGives(out: seq<MemDesc>, before: MemDesc, d: MemDesc, skipBs: bool, a: int, kind: nat)
    requires Fits(before) && Fits(d) && Tail(out, before)
    ensures Coverage(Append(out, before, d, skipBs), a, kind, false) ==
            Coverage(out, a, kind, false) + Gives(a, kind, skipBs)(d)
    ensures Sum(Append(out, before, d, skipBs), Pages()) == Sum(out, Pages()) + d.pages
  {
    LastEntryEnds(out, before, d, skipBs);
    if Merges(out, before, d, skipBs) {
      var n, last := |out| - 1, out[|out| - 1];
      assert out == out[..n] + [last];
      var grown := Grow(last, d.pages);
      SumSnoc(out[..n], last, Gives(a, kind, false));
      SumSnoc(out[..n], grown, Gives(a, kind, false));
      SumSnoc(out[..n], last, Pages());
      SumSnoc(out[..n], grown, Pages());
      assert Contains(grown, a) <==> Contains(last, a) || Contains(d, a);
      assert !(Contains(last, a) && Contains(d, a));
    } else {
      SumSnoc(out, Retype(d, skipBs), Gives(a, kind, false));
      SumSnoc(out, Retype(d, skipBs), Pages());
    }
  }

  lemma {:induction false} CompactKeepsMeaning(s: seq<MemDesc>, n: nat, skipBs: bool, a: int, kind: nat)
    requires AllFit(s) && n <= |s|
    ensures Coverage(Compact(s[..n], skipBs), a, kind, false) == Coverage(s[..n], a, kind, skipBs)
    ensures Sum(Compact(s[..n], skipBs), Pages()) == Sum(s[..n], Pages())
    decreases n
  {
    if n > 0 {
      var init, k := s[..n - 1], n - 1;
      CompactKeepsMeaning(s, k, skipBs, a, kind);
      var out, before := Compact(init, skipBs), s[if k > 0 then k - 1 else 0];
      assert Tail(out, before) by { if k > 0 { CompactTail(init, skipBs); } }
      CompactAddsLast(init, s[k], before, out, skipBs, a, kind);
      CompactStep(s, k, skipBs);
      TakeSnoc(s, k);
    }
  }

  lemma TakeSnoc(s: seq<MemDesc>, k: nat)
    requires k < |s|
    ensures s[..k + 1] == s[..k] + [s[k]]
  {
  }

  lemma CompactAddsLast(
      init: seq<MemDesc>, d: MemDesc, before: MemDesc, out: seq<MemDesc>, skipBs: bool, a: int, kind: nat)
    requires Fits(before) && Fits(d) && Tail(out, before)
    requires Coverage(out, a, kind, false) == Coverage(init, a, kind, skipBs)
    requires Sum(out, Pages()) == Sum(init, Pages())
    ensures Coverage(Append(out, before, d, skipBs), a, kind, false) == Coverage(init + [d], a, kind, skipBs)
    ensures Sum(Append(out, before, d, skipBs), Pages()) == Sum(init + [d], Pages())
  {
    AppendGives(out, before, d, skipBs, a, kind);
    SumSnoc(init, d, Gives(a, kind, skipBs));
    SumSnoc(init, d, Pages());
  }

  lemma AllFitPerm(s: seq<MemDesc>, t: seq<MemDesc>)
    requires multiset(s) == multiset(t) && AllFit(s)
    ensures AllFit(t)
  {
    forall i | 0 <= i < |t| ensures Fits(t[i]) { assert t[i] in multiset(s); }
  }

  /** Compacting any arrangement of the descriptors keeps their meaning. */
  lemma ArrangedKeepsMeaning(descs: seq<MemDesc>, q: seq<MemDesc>, skipBs: bool, a: int, kind: nat)
    requires AllFit(descs) && multiset(q) == multiset(descs)
    ensures Coverage(Compact(q, skipBs), a, kind, false) == Coverage(descs, a, kind, skipBs)
    ensures Sum(Compact(q, skipBs), Pages()) == Sum(descs, Pages())
  {
    AllFitPerm(descs, q);
    CompactKeepsMeaning(q, |q|, skipBs, a, kind);
    assert q[..|q|] == q;
    SumPerm(descs, q, Gives(a, kind, skipBs));
    SumPerm(descs, q, Pages());
  }

  /** The built table gives every address the same type, exactly as often, as the map it was
      built from, and has the same number of pages. */
  lemma TableKeepsMeaning(descs: seq<MemDesc>, skipBs: bool, a: int, kind: nat)
    requires AllFit(descs)
    ensures Coverage(Compact(SortedTable(descs), skipBs), a, kind, false) == Coverage(descs, a, kind, skipBs)
    ensures Sum(Compact(SortedTable(descs), skipBs), Pages()) == Sum(descs, Pages())
  {
    TableIsSortedPermutation(descs);
    ArrangedKeepsMeaning(descs, SortedTable(descs), skipBs, a, kind);
  }

  // ---------------------------------------------------------------- meaning by type numbers

  /** 1 for a descriptor of type number `kind` that holds address `a`, by its pages of 4096
      bytes. */
  ghost function OfKind(a: int, kind: int): MemDesc -> int {
    (d: MemDesc) => if d.kind == kind && d.start <= a < d.start + d.pages * 4096 then 1 else 0
  }

  /** How many descriptors of type number `kind` hold address `a`. */
  ghost function Held(s: seq<MemDesc>, a: int, kind: int): int { Sum(s, OfKind(a, kind)) }

  lemma {:induction false} SumSame(s: seq<MemDesc>, f: MemDesc -> int, g: MemDesc -> int)
    requires forall d :: f(d) == g(d)
    ensures Sum(s, f) == Sum(s, g)
  {
    if s != [] { SumSame(s[..|s| - 1], f, g); }
  }

  lemma {:induction false} SumZero(s: seq<MemDesc>, f: MemDesc -> int)
    requires forall d :: f(d) == 0
    ensures Sum(s, f) == 0
  {
    if s != [] { SumZero(s[..|s| - 1], f); }
  }

  ghost function Both(f: MemDesc -> int, g: MemDesc -> int): MemDesc -> int { (d: MemDesc) => f(d) + g(d) }

  lemma {:induction false} SumBoth(s: seq<MemDesc>, f: MemDesc -> int, g: MemDesc -> int)
    ensures Sum(s, Both(f, g)) == Sum(s, f) + Sum(s, g)
  {
    if s != [] { SumBoth(s[..|s| - 1], f, g); }
  }

  /** Without retyping, coverage is by type number. */
  lemma PlainCoverage(s: seq<MemDesc>, a: int, kind: nat)
    ensures Coverage(s, a, kind, false) == Held(s, a, kind)
  {
    SumSame(s, Gives(a, kind, false), OfKind(a, kind));
  }

  /** With retyping, type 7 covers what types 1, 2, 3, 4 and 7 hold, and those four cover
      nothing. */
  lemma RetypedCoverage(s: seq<MemDesc>, a: int, kind: nat)
    ensures Coverage(s, a, 7, true) ==
            Held(s, a, 1) + Held(s, a, 2) + Held(s, a, 3) + Held(s, a, 4) + Held(s, a, 7)
    ensures 1 <= kind <= 4 ==> Coverage(s, a, kind, true) == 0
    ensures kind < 1 || 4 < kind != 7 ==> Coverage(s, a, kind, true) == Held(s, a, kind)
  {
    var k12, k34 := Both(OfKind(a, 1), OfKind(a, 2)), Both(OfKind(a, 3), OfKind(a, 4));
    var k1234 := Both(k12, k34);
    SumBoth(s, OfKind(a, 1), OfKind(a, 2));
    SumBoth(s, OfKind(a, 3), OfKind(a, 4));
    SumBoth(s, k12, k34);
    SumBoth(s, k1234, OfKind(a, 7));
    SumSame(s, Gives(a, 7, true), Both(k1234, OfKind(a, 7)));
    if 1 <= kind <= 4 { SumZero(s, Gives(a, kind, true)); }
    if kind < 1 || 4 < kind != 7 { SumSame(s, Gives(a, kind, true), OfKind(a, kind)); }
  }

  /** What the built table says about an address, by type numbers: with `skipBs` type 7 holds what
      types 1, 2, 3, 4 and 7 held, types 1 to 4 hold nothing, and every other type holds what it
      held; without it every type does. */
  lemma TableByNumbers(descs: seq<MemDesc>, a: int, kind: nat)
    requires AllFit(descs)
    ensures
      var table := Compact(SortedTable(descs), true);
      && Held(table, a, 7) ==
         Held(descs, a, 1) + Held(descs, a, 2) + Held(descs, a, 3) + Held(descs, a, 4) + Held(descs, a, 7)
      && (1 <= kind <= 4 ==> Held(table, a, kind) == 0)
      && (kind < 1 || 4 < kind != 7 ==> Held(table, a, kind) == Held(descs, a, kind))
    ensures Held(Compact(SortedTable(descs), false), a, kind) == Held(descs, a, kind)
  {
    var table, plain := Compact(SortedTable(descs), true), Compact(SortedTable(descs), false);
    TableKeepsMeaning(descs, true, a, 7);
    TableKeepsMeaning(descs, true, a, kind);
    TableKeepsMeaning(descs, false, a, kind);
    PlainCoverage(table, a, 7);
    PlainCoverage(table, a, kind);
    PlainCoverage(plain, a, kind);
    PlainCoverage(descs, a, kind);
    RetypedCoverage(descs, a, kind);
  }

  // ---------------------------------------------------------------- canonical form

  ghost predicate StrictlySorted(s: seq<MemDesc>) { forall i, j :: 0 <= i < j < |s| ==> s[i].start < s[j].start }

  /** No entry continues conventional memory of the entry before it, and none is boot services. */
  ghost predicate Canonical(s: seq<MemDesc>) {
    && (forall i :: 0 <= i < |s| ==> !IsBootServices(s[i].kind))
    && forall i :: 0 < i < |s| ==>
         !(s[i].kind == EFI_CONVENTIONAL_MEMORY && s[i - 1].kind == EFI_CONVENTIONAL_MEMORY &&
           s[i].start == EndAddr(s[i - 1]))
  }

  lemma {:induction false} CompactCanonical(s: seq<MemDesc>)
    requires AllFit(s)
    ensures Canonical(Compact(s, true))
  {
    if s != [] {
      var n := |s| - 1;
      var out, before := Compact(s[..n], true), s[if n > 0 then n - 1 else 0];
      CompactCanonical(s[..n]);
      if n > 0 { CompactTail(s[..n], true); }
      AppendCanonical(out, before, s[n]);
    }
  }

  lemma AppendCanonical(out: seq<MemDesc>, before: MemDesc, d: MemDesc)
    requires Canonical(out) && Tail(out, before) && Fits(before)
    ensures Canonical(Append(out, before, d, true))
  {
    var r := Append(out, before, d, true);
    forall i | 0 <= i < |r| ensures !IsBootServices(r[i].kind) {
      if i < |out| { assert r[i].kind == out[i].kind; }
    }
    forall i | 0 < i < |r|
      ensures !(r[i].kind == EFI_CONVENTIONAL_MEMORY && r[i - 1].kind == EFI_CONVENTIONAL_MEMORY &&
                r[i].start == EndAddr(r[i - 1]))
    {
      assert r[i - 1] == out[i - 1];
      if i < |out| {
        assert r[i].start == out[i].start && r[i].kind == out[i].kind;
      } else {
        assert EndAddr(out[i - 1]) == EndAddr(before);
      }
    }
  }

  /** The same by numbers: no type 1 to 4, and no two neighbours of type 7 of which the second
      starts where the pages of the first end. */
  ghost predicate CanonicalByNumbers(s: seq<MemDesc>) {
    && (forall i :: 0 <= i < |s| ==> s[i].kind == 0 || s[i].kind > 4)
    && forall i :: 0 < i < |s| ==>
         !(s[i].kind == 7 && s[i - 1].kind == 7 && s[i].start == s[i - 1].start + s[i - 1].pages * 4096)
  }

  lemma {:induction false} CompactFits(s: seq<MemDesc>, skipBs: bool)
    requires AllFit(s)
    ensures AllFit(Compact(s, skipBs))
  {
    if s != [] {
      var n := |s| - 1;
      var out, before := Compact(s[..n], skipBs), s[if n > 0 then n - 1 else 0];
      CompactFits(s[..n], skipBs);
      if n > 0 { CompactTail(s[..n], skipBs); }
      AppendFits(out, before, s[n], skipBs);
    }
  }

  lemma AppendFits(out: seq<MemDesc>, before: MemDesc, d: MemDesc, skipBs: bool)
    requires AllFit(out) && Fits(before) && Fits(d) && Tail(out, before)
    ensures AllFit(Append(out, before, d, skipBs))
  {
    LastEntryEnds(out, before, d, skipBs);
    var r := Append(out, before, d, skipBs);
    forall i | 0 <= i < |r| ensures Fits(r[i]) {
      if i < |r| - 1 { assert r[i] == out[i]; }
    }
  }

  /** The compaction leaves no boot-services type and nothing that could still be merged. */
  lemma CompactIsCanonicalByNumbers(s: seq<MemDesc>)
    requires AllFit(s)
    ensures CanonicalByNumbers(Compact(s, true))
  {
    CompactCanonical(s);
    CompactFits(s, true);
    var t := Compact(s, true);
    forall i | 0 < i < |t|
      ensures !(t[i].kind == 7 && t[i - 1].kind == 7 && t[i].start == t[i - 1].start + t[i - 1].pages * 4096)
    {
      EndIsExact(t[i - 1]);
    }
  }

  lemma EndIsExact(d: MemDesc)
    requires Fits(d)
    ensures EndAddr(d) == d.start + d.pages * 4096
  {
  }

  lemma AppendAscends(out: seq<MemDesc>, before: MemDesc, d: MemDesc, skipBs: bool)
    requires StrictlySorted(out) && (out != [] ==> out[|out| - 1].start < d.start)
    ensures
      var r := Append(out, before, d, skipBs);
      StrictlySorted(r) && r[|r| - 1].start <= d.start
  {
    var r := Append(out, before, d, skipBs);
    assert forall i :: 0 <= i < |out| ==> r[i].start == out[i].start;
    assert forall i :: 0 <= i < |out| ==> out[i].start <= out[|out| - 1].start;
  }

  /** The entries of the table keep the ascending order of the descriptors. */
  lemma {:induction false} CompactAscends(s: seq<MemDesc>, skipBs: bool)
    requires StrictlySorted(s)
    ensures StrictlySorted(Compact(s, skipBs))
    ensures s != [] ==> Compact(s, skipBs)[|Compact(s, skipBs)| - 1].start <= s[|s| - 1].start
  {
    if s != [] {
      var n := |s| - 1;
      CompactAscends(s[..n], skipBs);
      AppendAscends(Compact(s[..n], skipBs), s[if n > 0 then n - 1 else 0], s[n], skipBs);
    }
  }

  lemma CanonicalInit(s: seq<MemDesc>, n: nat)
    requires Canonical(s) && n <= |s|
    ensures Canonical(s[..n])
  {
  }

  lemma CanonicalAppends(s: seq<MemDesc>, n: nat)
    requires Canonical(s) && n < |s|
    ensures Append(s[..n], s[if n > 0 then n - 1 else 0], s[n], true) == s[..n] + [s[n]]
  {
    if n > 0 { assert s[..n][n - 1] == s[n - 1]; }
  }

  /** Compacting a canonical table changes nothing. */
  lemma {:induction false} CanonicalFixed(s: seq<MemDesc>)
    requires Canonical(s)
    ensures Compact(s, true) == s
  {
    if s != [] {
      var n := |s| - 1;
      CanonicalInit(s, n);
      CanonicalFixed(s[..n]);
      CanonicalAppends(s, n);
      TakeSnoc(s, n);
      assert s[..n + 1] == s;
    }
  }

  lemma {:induction false} NoSkipKeepsAll(s: seq<MemDesc>)
    ensures Compact(s, false) == s
  {
    if s != [] {
      NoSkipKeepsAll(s[..|s| - 1]);
      assert s == s[..|s| - 1] + [s[|s| - 1]];
    }
  }

  lemma SameLast(s: seq<MemDesc>, t: seq<MemDesc>, n: nat)
    requires multiset(s) == multiset(t) && StrictlySorted(s) && Sorted(t) && |s| == |t| == n + 1
    ensures s[n] == t[n]
  {
    assert s[n] in multiset(t) && t[n] in multiset(s);
    var i :| 0 <= i < |s| && s[i] == t[n];
    var j :| 0 <= j < |t| && t[j] == s[n];
    assert t[j].start <= t[n].start;
  }

  lemma DropLast(s: seq<MemDesc>, n: nat)
    requires |s| == n + 1
    ensures s == s[..n] + [s[n]] && multiset(s[..n]) == multiset(s) - multiset{s[n]}
    ensures Sorted(s) ==> Sorted(s[..n])
    ensures StrictlySorted(s) ==> StrictlySorted(s[..n])
  {
    assert s == s[..n] + [s[n]];
  }

  /** A strictly sorted table is the only sorted arrangement of its entries. */
  lemma {:induction false} SortedUnique(s: seq<MemDesc>, t: seq<MemDesc>)
    requires multiset(s) == multiset(t) && StrictlySorted(s) && Sorted(t)
    ensures s == t
    decreases |s|
  {
    assert |s| == |multiset(s)| == |multiset(t)| == |t|;
    if s != [] {
      var n := |s| - 1;
      SameLast(s, t, n);
      DropLast(s, n);
      DropLast(t, n);
      var s', t' := s[..n], t[..n];
      SortedUnique(s', t');
    }
  }

  /** No address lies in two descriptors, and none is empty. */
  ghost predicate Disjoint(s: seq<MemDesc>) {
    (forall i :: 0 <= i < |s| ==> s[i].pages > 0) &&
    forall a :: Sum(s, Holding(a)) <= 1
  }

  ghost function Holding(a: int): MemDesc -> int { (d: MemDesc) => if Contains(d, a) then 1 else 0 }

  lemma SumPositive(s: seq<MemDesc>, a: int)
    ensures Sum(s, Holding(a)) >= 0
    ensures forall i :: 0 <= i < |s| && Contains(s[i], a) ==> Sum(s, Holding(a)) >= 1
  {
  }

  lemma DisjointAscends(s: seq<MemDesc>)
    requires Disjoint(s) && Sorted(s)
    ensures StrictlySorted(s)
  {
    forall i, j | 0 <= i < j < |s| ensures s[i].start < s[j].start {
      var a := s[j].start;
      if s[i].start == a {
        assert s == s[..j] + s[j..];
        SumConcat(s[..j], s[j..], Holding(a));
        SumPositive(s[..j], a);
        SumPositive(s[j..], a);
        assert Contains(s[..j][i], a) && Contains(s[j..][0], a);
      }
    }
  }

  lemma DisjointPerm(s: seq<MemDesc>, t: seq<MemDesc>)
    requires multiset(s) == multiset(t) && Disjoint(s)
    ensures Disjoint(t)
  {
    forall i | 0 <= i < |t| ensures t[i].pages > 0 { assert t[i] in multiset(s); }
    forall a ensures Sum(t, Holding(a)) <= 1 { SumPerm(s, t, Holding(a)); }
  }

  /** For a map of disjoint regions the table is strictly ascending; with `skipBs` it is
      canonical and building a table from it again gives the same table, and without it is the
      sorted map itself. */
  lemma TableIsCanonical(descs: seq<MemDesc>)
    requires AllFit(descs) && Comparable(descs) && Disjoint(descs)
    ensures
      var q := SortedTable(descs);
      var table := Compact(q, true);
      && StrictlySorted(table) && Canonical(table) && Compact(SortedTable(table), true) == table
      && Compact(q, false) == q && StrictlySorted(q) && multiset(q) == multiset(descs)
  {
    var q := SortedTable(descs);
    var table := Compact(q, true);
    TableIsSortedPermutation(descs);
    AllFitPerm(descs, q);
    DisjointPerm(descs, q);
    DisjointAscends(q);
    CompactCanonical(q);
    CompactAscends(q, true);
    NoSkipKeepsAll(q);
    ComparablePerm(descs, q);
    TableComparable(q);
    TableIsSortedPermutation(table);
    SortedUnique(table, SortedTable(table));
    CanonicalFixed(table);
  }

  /** Entry `e` is descriptor `d`, but for its pages and a type number that became 7. */
  ghost predicate Comes(e: MemDesc, d: MemDesc, skipBs: bool) {
    && e.start == d.start && e.virt == d.virt && e.attr == d.attr
    && (e.kind == d.kind || (skipBs && e.kind == 7))
  }

  lemma AppendComes(out: seq<MemDesc>, before: MemDesc, d: MemDesc, skipBs: bool, i: nat)
    requires i < |Append(out, before, d, skipBs)|
    ensures
      var r := Append(out, before, d, skipBs);
      if i < |out| then
        && r[i].start == out[i].start && r[i].virt == out[i].virt
        && r[i].attr == out[i].attr && r[i].kind == out[i].kind
      else Comes(r[i], d, skipBs)
  {
  }

  /** Every entry of the table has the start, virtual address and attributes of some descriptor,
      and its type number or 7. */
  lemma {:induction false} EntriesKept(s: seq<MemDesc>, skipBs: bool, i: nat) returns (k: nat)
    requires i < |Compact(s, skipBs)|
    ensures k < |s| && Comes(Compact(s, skipBs)[i], s[k], skipBs)
  {
    var n := |s| - 1;
    var out := Compact(s[..n], skipBs);
    AppendComes(out, s[if n > 0 then n - 1 else 0], s[n], skipBs, i);
    if i < |out| { k := EntriesKept(s[..n], skipBs, i); } else { k := n; }
  }

  lemma TableComparable(s: seq<MemDesc>)
    requires Comparable(s)
    ensures Comparable(Compact(s, true))
  {
    var t := Compact(s, true);
    forall i, j | 0 <= i < |t| && 0 <= j < |t| ensures t[i].start - t[j].start < U64 / 2 {
      var k := EntriesKept(s, true, i);
      var m := EntriesKept(s, true, j);
    }
  }
}
