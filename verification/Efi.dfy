/** EFI memory-map builder (uboot/cmd/efi.c, with the shell sort of uboot/lib/qsort.c): sorts
    the descriptors, then compacts them in place with a read and a write cursor. */
module Efi {

  const U64: nat := 0x1_0000_0000_0000_0000
  const PAGE: nat := 4096

  const EFI_LOADER_CODE := 1
  const EFI_LOADER_DATA := 2
  const EFI_BOOT_SERVICES_CODE := 3
  const EFI_BOOT_SERVICES_DATA := 4
  const EFI_CONVENTIONAL_MEMORY := 7
  const EFI_TABLE_END := 15

  datatype MemDesc = MemDesc(kind: nat, start: nat, virt: nat, pages: nat, attr: nat)

  /** The fields fit their words and the region ends below 2^64. */
  ghost predicate Fits(d: MemDesc) { d.start + d.pages * PAGE < U64 }

  ghost predicate AllFit(s: seq<MemDesc>) { forall i :: 0 <= i < |s| ==> Fits(s[i]) }

  predicate IsBootServices(kind: nat) {
    kind == EFI_LOADER_CODE || kind == EFI_LOADER_DATA ||
    kind == EFI_BOOT_SERVICES_CODE || kind == EFI_BOOT_SERVICES_DATA
  }

  /** Address after a region, in 64-bit arithmetic. */
  function EndAddr(d: MemDesc): nat { (d.start + d.pages * PAGE % U64) % U64 }

  /** The descriptor comparison: the sign of the 64-bit difference of the starts. */
  function CmpEntry(d1: MemDesc, d2: MemDesc): int {
    var wrapped := (d1.start - d2.start) % U64;
    var diff := if wrapped < U64 / 2 then wrapped else wrapped - U64;
    if diff < 0 then -1 else if diff > 0 then 1 else 0
  }

  /** The comparison orders two 64-bit starts as numbers exactly when they are less than 2^63
      apart (or d1 lies exactly 2^63 below d2). */
  lemma CmpIsNumericIff(d1: MemDesc, d2: MemDesc)
    requires d1.start < 0x1_0000_0000_0000_0000 && d2.start < 0x1_0000_0000_0000_0000
    ensures (CmpEntry(d1, d2) <= 0 <==> d1.start <= d2.start) <==>
            -0x8000_0000_0000_0000 <= d1.start - d2.start < 0x8000_0000_0000_0000
  {
  }

  /** Beyond that the comparison is not even transitive. */
  lemma CmpNotTransitive()
    ensures exists a: MemDesc, b: MemDesc, c: MemDesc ::
      && a.start < U64 && b.start < U64 && c.start < U64
      && CmpEntry(a, b) < 0 && CmpEntry(b, c) < 0 && CmpEntry(c, a) < 0
  {
    var third := 0x5555_5555_5555_5555;
    var a, b, c := MemDesc(0, 0, 0, 0, 0), MemDesc(0, third, 0, 0, 0), MemDesc(0, 2 * third, 0, 0, 0);
    assert CmpEntry(a, b) < 0 && CmpEntry(b, c) < 0 && CmpEntry(c, a) < 0;
  }

  // ---------------------------------------------------------------- sorting

  ghost predicate Sorted(s: seq<MemDesc>) { forall i, j :: 0 <= i < j < |s| ==> s[i].start <= s[j].start }

  /** No two starts are 2^63 or more apart, so that the comparison is the numeric one. */
  ghost predicate Comparable(s: seq<MemDesc>) {
    forall i, j :: 0 <= i < |s| && 0 <= j < |s| ==> s[i].start - s[j].start < U64 / 2
  }

  lemma SwapKeepsMultiset<T>(s: seq<T>, i: nat, j: nat)
    requires i < |s| && j < |s|
    ensures multiset(s[i := s[j]][j := s[i]]) == multiset(s)
  {
  }

  /** Comparability only depends on the elements. */
  lemma ComparablePerm(s: seq<MemDesc>, t: seq<MemDesc>)
    requires multiset(s) == multiset(t) && Comparable(s)
    ensures Comparable(t)
  {
    forall i, j | 0 <= i < |t| && 0 <= j < |t| ensures t[i].start - t[j].start < U64 / 2 {
      assert t[i] in multiset(s) && t[j] in multiset(s);
    }
  }

  /** The first elements of the array are `s`. */
  ghost predicate Is(a: array<MemDesc>, s: seq<MemDesc>)
    reads a
  {
    |s| <= a.Length && forall k :: 0 <= k < |s| ==> a[k] == s[k]
  }

  /** Element `j` sinks by steps of `gap` until it is not less than the one before it. */
  function SinkSeq(s: seq<MemDesc>, j: nat, gap: nat): (r: seq<MemDesc>)
    requires 1 <= gap <= j < |s|
    ensures |r| == |s|
    decreases j
  {
    if CmpEntry(s[j - gap], s[j]) <= 0 then s
    else
      var t := s[j - gap := s[j]][j := s[j - gap]];
      if j - gap < gap then t else SinkSeq(t, j - gap, gap)
  }

  /** One pass of the shell sort, from element `i` on. */
  function PassSeq(s: seq<MemDesc>, i: nat, gap: nat): (r: seq<MemDesc>)
    requires 1 <= gap <= i
    ensures |r| == |s|
    decreases |s| - i
  {
    if i >= |s| then s else PassSeq(SinkSeq(s, i, gap), i + 1, gap)
  }

  /** The passes with gaps `gap`, (gap - 1) / 3, ..., 1. */
  function ShellSeq(s: seq<MemDesc>, gap: nat): (r: seq<MemDesc>)
    ensures |r| == |s|
    decreases gap
  {
    if gap == 0 then s else ShellSeq(PassSeq(s, gap, gap), (gap - 1) / 3)
  }

  function FirstGap(n: nat, gap: nat): nat
    decreases n - gap
  {
    if gap < (n - 1) / 3 then FirstGap(n, 3 * gap + 1) else gap
  }

  /** What `qsort` makes of a table of descriptors. */
  function SortedTable(s: seq<MemDesc>): seq<MemDesc> {
    if |s| > 1 then ShellSeq(s, FirstGap(|s|, 1)) else s
  }

  method Sink(a: array<MemDesc>, i: nat, gap: nat, ghost s: seq<MemDesc>)
    requires Is(a, s) && 1 <= gap <= i < |s|
    modifies a
    ensures Is(a, SinkSeq(s, i, gap))
  {
    var j := i;
    ghost var cur := s;
    while true
      invariant gap <= j <= i && |cur| == |s| && Is(a, cur)
      invariant SinkSeq(cur, j, gap) == SinkSeq(s, i, gap)
      decreases j
    {
      j := j - gap;
      if CmpEntry(a[j], a[j + gap]) <= 0 {
        break;
      }
      cur := cur[j := cur[j + gap]][j + gap := cur[j]];
      a[j], a[j + gap] := a[j + gap], a[j];
      if j < gap {
        break;
      }
    }
  }

  method QSort(a: array<MemDesc>, nel: nat)
    requires nel <= a.Length
    modifies a
    ensures Is(a, SortedTable(old(a[..nel])))
  {
    if nel > 1 {
      ghost var s := a[..nel];
      var wgap := 1;
      while wgap < (nel - 1) / 3
        invariant 1 <= wgap < nel && FirstGap(nel, wgap) == FirstGap(nel, 1)
        decreases nel - wgap
      {
        wgap := 3 * wgap + 1;
      }
      while wgap != 0
        invariant 0 <= wgap < nel && |s| == nel && Is(a, s)
        invariant ShellSeq(s, wgap) == SortedTable(old(a[..nel]))
        decreases wgap
      {
        ghost var s0 := s;
        var i := wgap;
        while i < nel
          invariant wgap <= i <= nel && |s| == nel && Is(a, s)
          invariant PassSeq(s, i, wgap) == PassSeq(s0, wgap, wgap)
        {
          Sink(a, i, wgap, s);
          s := SinkSeq(s, i, wgap);
          i := i + 1;
        }
        wgap := (wgap - 1) / 3;
      }
    }
  }

  lemma {:induction false} SinkPerm(s: seq<MemDesc>, j: nat, gap: nat)
    requires 1 <= gap <= j < |s|
    ensures multiset(SinkSeq(s, j, gap)) == multiset(s)
    decreases j
  {
    if CmpEntry(s[j - gap], s[j]) > 0 {
      SwapKeepsMultiset(s, j - gap, j);
      if j - gap >= gap { SinkPerm(s[j - gap := s[j]][j := s[j - gap]], j - gap, gap); }
    }
  }

  lemma {:induction false} PassPerm(s: seq<MemDesc>, i: nat, gap: nat)
    requires 1 <= gap <= i
    ensures multiset(PassSeq(s, i, gap)) == multiset(s)
    decreases |s| - i
  {
    if i < |s| { SinkPerm(s, i, gap); PassPerm(SinkSeq(s, i, gap), i + 1, gap); }
  }

  /** Elements 0..i are in order, except that number `j` may be less than those before it. */
  ghost predicate OrderedBut(s: seq<MemDesc>, i: nat, j: nat) {
    i < |s| && forall p, q :: 0 <= p < q <= i && q != j ==> s[p].start <= s[q].start
  }

  lemma SwapOrdered(s: seq<MemDesc>, i: nat, j: nat)
    requires 1 <= j <= i && OrderedBut(s, i, j) && s[j - 1].start > s[j].start
    ensures OrderedBut(s[j - 1 := s[j]][j := s[j - 1]], i, j - 1)
  {
    var t := s[j - 1 := s[j]][j := s[j - 1]];
    forall p, q | 0 <= p < q <= i && q != j - 1 ensures t[p].start <= t[q].start {
      if p == j - 1 { assert s[j - 1].start <= s[q].start || q == j; }
    }
  }

  lemma InOrderAlready(s: seq<MemDesc>, i: nat, j: nat)
    requires 1 <= j <= i && OrderedBut(s, i, j) && s[j - 1].start <= s[j].start
    ensures OrderedBut(s, i, 0)
  {
    forall p, q | 0 <= p < q <= i ensures s[p].start <= s[q].start {
      if q == j && p < j - 1 { assert s[p].start <= s[j - 1].start; }
    }
  }

  lemma CmpNear(d1: MemDesc, d2: MemDesc)
    requires d1.start - d2.start < U64 / 2 && d2.start - d1.start < U64 / 2
    ensures CmpEntry(d1, d2) <= 0 <==> d1.start <= d2.start
  {
  }

  lemma {:induction false} SinkSorts(s: seq<MemDesc>, i: nat, j: nat)
    requires Comparable(s) && 1 <= j <= i && OrderedBut(s, i, j)
    ensures OrderedBut(SinkSeq(s, j, 1), i, 0)
    decreases j
  {
    CmpNear(s[j - 1], s[j]);
    if s[j - 1].start <= s[j].start {
      InOrderAlready(s, i, j);
    } else {
      SwapOrdered(s, i, j);
      if j > 1 {
        var t := s[j - 1 := s[j]][j := s[j - 1]];
        SwapKeepsMultiset(s, j - 1, j);
        ComparablePerm(s, t);
        SinkSorts(t, i, j - 1);
      }
    }
  }

  lemma {:induction false} PassSorts(s: seq<MemDesc>, i: nat)
    requires Comparable(s) && 1 <= i
    requires forall p, q :: 0 <= p < q < i && q < |s| ==> s[p].start <= s[q].start
    ensures Sorted(PassSeq(s, i, 1))
    decreases |s| - i
  {
    if i < |s| {
      SinkSorts(s, i, i);
      SinkPerm(s, i, 1);
      ComparablePerm(s, SinkSeq(s, i, 1));
      PassSorts(SinkSeq(s, i, 1), i + 1);
    }
  }

  /** Gaps of the sequence 1, 4, 13, 40, ..., which step down to 1. */
  predicate KnuthGap(gap: nat) {
    gap == 1 || (gap >= 4 && gap % 3 == 1 && KnuthGap((gap - 1) / 3))
  }

  /** The first gap is the least of these that is not below (n - 1) / 3. */
  lemma {:induction false} FirstGapIsKnuth(n: nat, gap: nat)
    requires KnuthGap(gap) && (gap == 1 || (gap - 1) / 3 < (n - 1) / 3)
    ensures
      var g := FirstGap(n, gap);
      KnuthGap(g) && (n - 1) / 3 <= g && (g == 1 || (g - 1) / 3 < (n - 1) / 3)
    decreases n - gap
  {
    if gap < (n - 1) / 3 { FirstGapIsKnuth(n, 3 * gap + 1); }
  }

  lemma {:induction false} ShellSorts(s: seq<MemDesc>, gap: nat)
    ensures multiset(ShellSeq(s, gap)) == multiset(s)
    ensures KnuthGap(gap) && Comparable(s) ==> Sorted(ShellSeq(s, gap))
    decreases gap
  {
    if gap > 0 {
      var t := PassSeq(s, gap, gap);
      PassPerm(s, gap, gap);
      ShellSorts(t, (gap - 1) / 3);
      if Comparable(s) {
        ComparablePerm(s, t);
        if gap == 1 { PassSorts(s, 1); }
      }
    }
  }

  /** The sort keeps the descriptors, and orders them by start whenever they are comparable. */
  lemma TableIsSortedPermutation(s: seq<MemDesc>)
    ensures multiset(SortedTable(s)) == multiset(s) && |SortedTable(s)| == |s|
    ensures Comparable(s) ==> Sorted(SortedTable(s))
  {
    if |s| > 1 {
      FirstGapIsKnuth(|s|, 1);
      ShellSorts(s, FirstGap(|s|, 1));
    }
  }

  lemma SortTwo(a: MemDesc, b: MemDesc)
    ensures SortedTable([a, b]) == if CmpEntry(a, b) <= 0 then [a, b] else [b, a]
  {
    var s := [a, b];
    var t := SinkSeq(s, 1, 1);
    assert FirstGap(2, 1) == 1;
    assert t == if CmpEntry(a, b) <= 0 then [a, b] else [b, a];
    assert PassSeq(s, 1, 1) == PassSeq(t, 2, 1) == t;
    assert ShellSeq(t, 0) == t;
  }

  /** Two regions are sorted exactly when the first is less than 2^63 above the second and not
      more than 2^63 below it. */
  lemma TwoEntriesSortIff(a: MemDesc, b: MemDesc)
    requires a.start < U64 && b.start < U64
    ensures Sorted(SortedTable([a, b])) <==> -(U64 / 2) <= a.start - b.start < U64 / 2
  {
    SortTwo(a, b);
    CmpIsNumericIff(a, b);
    var r := SortedTable([a, b]);
    assert Sorted(r) <==> r[0].start <= r[1].start;
  }

  /** Sinking an element keeps the order of any two others. */
  lemma {:induction false} SinkKeepsOrder(s: seq<MemDesc>, j: nat, p: nat, q: nat) returns (p': nat, q': nat)
    requires 1 <= j < |s| && p < q < |s| && p != j && q != j
    ensures p' < q' < |s| && SinkSeq(s, j, 1)[p'] == s[p] && SinkSeq(s, j, 1)[q'] == s[q]
    ensures q' <= if q < j then j else q
    decreases j
  {
    p', q' := p, q;
    if CmpEntry(s[j - 1], s[j]) > 0 {
      var t := s[j - 1 := s[j]][j := s[j - 1]];
      p', q' := if p == j - 1 then j else p, if q == j - 1 then j else q;
      if j > 1 { p', q' := SinkKeepsOrder(t, j - 1, p', q'); }
    }
  }

  lemma {:induction false} PassKeepsOrder(s: seq<MemDesc>, i: nat, p: nat, q: nat) returns (p': nat, q': nat)
    requires p < q < i && q < |s|
    ensures p' < q' < |s| && PassSeq(s, i, 1)[p'] == s[p] && PassSeq(s, i, 1)[q'] == s[q]
    decreases |s| - i
  {
    p', q' := p, q;
    if i < |s| {
      p', q' := SinkKeepsOrder(s, i, p, q);
      p', q' := PassKeepsOrder(SinkSeq(s, i, 1), i + 1, p', q');
    }
  }

  /** Up to six regions are sorted in one pass, which leaves a region 2^63 or more above the one
      behind it where it is. */
  lemma FarApartStays(t: seq<MemDesc>)
    requires 2 <= |t| <= 6 && t[0].start < U64 && t[0].start - t[1].start >= U64 / 2
    ensures !Sorted(SortedTable(t))
  {
    assert FirstGap(|t|, 1) == 1;
    assert CmpEntry(t[0], t[1]) <= 0;
    assert SinkSeq(t, 1, 1) == t;
    var r := PassSeq(t, 2, 1);
    assert PassSeq(t, 1, 1) == r && ShellSeq(r, 0) == r;
    var p, q := PassKeepsOrder(t, 2, 0, 1);
  }

  /** Moves elements `i` and `j` to the front. */
  lemma BringToFront(s: seq<MemDesc>, i: nat, j: nat) returns (t: seq<MemDesc>)
    requires i < |s| && j < |s| && i != j
    ensures |t| == |s| && multiset(t) == multiset(s) && t[0] == s[i] && t[1] == s[j]
  {
    var u := s[0 := s[i]][i := s[0]];
    SwapKeepsMultiset(s, 0, i);
    var k := if j == 0 then i else j;
    t := u[1 := u[k]][k := u[1]];
    SwapKeepsMultiset(u, 1, k);
  }

  /** However its descriptors are arranged, the table comes out ascending. */
  ghost predicate AlwaysSorts(s: seq<MemDesc>) {
    forall t :: multiset(t) == multiset(s) ==> Sorted(SortedTable(t))
  }

  /** Up to six regions always come out ascending exactly when they are comparable. */
  lemma SmallTablesSortIff(s: seq<MemDesc>)
    requires |s| <= 6 && forall i :: 0 <= i < |s| ==> s[i].start < U64
    ensures AlwaysSorts(s) <==> Comparable(s)
  {
    if Comparable(s) {
      forall t | multiset(t) == multiset(s) ensures Sorted(SortedTable(t)) {
        ComparablePerm(s, t);
        TableIsSortedPermutation(t);
      }
    } else {
      var i, j :| 0 <= i < |s| && 0 <= j < |s| && s[i].start - s[j].start >= U64 / 2;
      var t := BringToFront(s, i, j);
      FarApartStays(t);
    }
  }

  /** Without comparable starts the sort can leave even two regions out of order. */
  lemma FarApartNotSorted(low: MemDesc, high: MemDesc)
    requires low.start == 0 && high.start == U64 / 2 + 1
    ensures SortedTable([low, high]) == [high, low] && !Sorted(SortedTable([low, high]))
  {
    SortTwo(low, high);
    TwoEntriesSortIff(low, high);
  }

  // ---------------------------------------------------------------- compaction

  /** A descriptor with boot-services memory counted as conventional. */
  function Retype(d: MemDesc, skipBs: bool): MemDesc {
    if skipBs && IsBootServices(d.kind) then d.(kind := EFI_CONVENTIONAL_MEMORY) else d
  }

  function Grow(d: MemDesc, pages: nat): MemDesc { d.(pages := (d.pages + pages) % U64) }

  /** Adds descriptor `d`, read after `before`, to the table: conventional memory that
      continues `before` is added to the last entry. */
  function Append(out: seq<MemDesc>, before: MemDesc, d: MemDesc, skipBs: bool): seq<MemDesc> {
    if Merges(out, before, d, skipBs) then out[..|out| - 1] + [Grow(out[|out| - 1], d.pages)]
    else out + [Retype(d, skipBs)]
  }

  predicate Merges(out: seq<MemDesc>, before: MemDesc, d: MemDesc, skipBs: bool) {
    && skipBs && out != [] && d.start == EndAddr(before)
    && Retype(d, skipBs).kind == EFI_CONVENTIONAL_MEMORY && out[|out| - 1].kind == EFI_CONVENTIONAL_MEMORY
  }

  /** The compaction, descriptor by descriptor. */
  function Compact(s: seq<MemDesc>, skipBs: bool): (r: seq<MemDesc>)
    ensures |r| <= |s| && (r == [] <==> s == [])
  {
    if s == [] then []
    else
      var n := |s| - 1;
      Append(Compact(s[..n], skipBs), s[if n > 0 then n - 1 else 0], s[n], skipBs)
  }

  lemma CompactStep(q: seq<MemDesc>, k: nat, skipBs: bool)
    requires k < |q|
    ensures Compact(q[..k + 1], skipBs) ==
            Append(Compact(q[..k], skipBs), q[if k > 0 then k - 1 else 0], q[k], skipBs)
  {
    assert q[..k + 1][..k] == q[..k];
  }

  /** Array elements from..n-1 still are those of `q`. */
  ghost predicate Unread(a: array<MemDesc>, from: nat, q: seq<MemDesc>)
    reads a
  {
    |q| <= a.Length && forall k :: from <= k < |q| ==> a[k] == q[k]
  }

  /** One round of the loop: reads descriptor `desc`, writes at `dest`, where entry dest - 1 is
      the last one written. */
  method PlaceDesc(base: array<MemDesc>, dest: nat, desc: nat, addr: nat, skipBs: bool,
                   ghost out: seq<MemDesc>, ghost before: MemDesc, ghost q: seq<MemDesc>)
      returns (dest': nat, addr': nat)
    requires dest == |out| <= desc < |q| < base.Length && Is(base, out) && Unread(base, desc, q)
    requires out != [] ==> addr == EndAddr(before)
    modifies base
    ensures Is(base, Append(out, before, q[desc], skipBs)) && Unread(base, desc + 1, q)
    ensures dest' == |Append(out, before, q[desc], skipBs)|
    ensures addr' == EndAddr(q[desc])
  {
    var kind := if skipBs && IsBootServices(base[desc].kind) then EFI_CONVENTIONAL_MEMORY else base[desc].kind;
    CopyTo(base, dest, desc, kind, out, q);
    var merge := skipBs && dest > 0 && base[desc].start == addr &&
                 kind == EFI_CONVENTIONAL_MEMORY && base[dest - 1].kind == EFI_CONVENTIONAL_MEMORY;
    assert merge == Merges(out, before, q[desc], skipBs);
    dest' := dest;
    if merge {
      GrowAt(base, dest - 1, base[desc].pages, out, desc + 1, q);
    } else {
      dest' := dest + 1;
    }
    addr' := (base[desc].start + base[desc].pages * PAGE % U64) % U64;
  }

  /** Compacts the first `count` descriptors in place and marks the end; the table never
      overtakes the descriptors still to be read, and the end marker fits. */
  method CompactInPlace(base: array<MemDesc>, count: nat, skipBs: bool, ghost q: seq<MemDesc>) returns (dest: nat)
    requires base.Length == count + 1 && |q| == count && Is(base, q)
    modifies base
    ensures dest == |Compact(q, skipBs)| <= count && Is(base, Compact(q, skipBs))
    ensures base[dest].kind == EFI_TABLE_END
  {
    var addr := 0;
    dest := 0;
    var desc := 0;
    ghost var out: seq<MemDesc> := [];
    while desc < count
      invariant 0 <= desc <= count && dest == |out| <= desc
      invariant out == Compact(q[..desc], skipBs)
      invariant Is(base, out) && Unread(base, desc, q)
      invariant desc > 0 ==> addr == EndAddr(q[desc - 1])
    {
      ghost var before := q[if desc > 0 then desc - 1 else 0];
      CompactStep(q, desc, skipBs);
      dest, addr := PlaceDesc(base, dest, desc, addr, skipBs, out, before, q);
      out := Append(out, before, q[desc], skipBs);
      desc := desc + 1;
    }
    assert q[..count] == q;
    base[dest] := base[dest].(kind := EFI_TABLE_END);
  }

  /** Copies descriptor `desc` to the write cursor with its new type. */
  method CopyTo(base: array<MemDesc>, dest: nat, desc: nat, kind: nat, ghost out: seq<MemDesc>, ghost q: seq<MemDesc>)
    requires dest == |out| <= desc < |q| < base.Length && Is(base, out) && Unread(base, desc, q)
    modifies base
    ensures Is(base, out + [q[desc].(kind := kind)]) && Unread(base, desc + 1, q)
    ensures base[desc].start == q[desc].start && base[desc].pages == q[desc].pages
  {
    base[dest] := base[desc];
    base[dest] := base[dest].(kind := kind);
  }

  /** Adds pages to the last table entry. */
  method GrowAt(
      base: array<MemDesc>, prev: nat, pages: nat, ghost out: seq<MemDesc>, ghost from: nat, ghost q: seq<MemDesc>)
    requires prev + 1 == |out| <= from <= |q| && Is(base, out) && Unread(base, from, q)
    modifies base
    ensures Is(base, out[..prev] + [Grow(out[prev], pages)]) && Unread(base, from, q)
    ensures forall k :: prev < k < base.Length ==> base[k] == old(base[k])
  {
    base[prev] := base[prev].(pages := (base[prev].pages + pages) % U64);
  }

  method BuildMemTable(descs: seq<MemDesc>, skipBs: bool) returns (base: array<MemDesc>, entries: nat)
    ensures fresh(base) && base.Length == |descs| + 1
    ensures entries == |Compact(SortedTable(descs), skipBs)| <= |descs|
    ensures Is(base, Compact(SortedTable(descs), skipBs)) && base[entries].kind == 15
  {
    var count := |descs|;
    base := new MemDesc[count + 1](i => if 0 <= i < |descs| then descs[i] else MemDesc(0, 0, 0, 0, 0));
    assert base[..count] == descs;
    QSort(base, count);
    TableIsSortedPermutation(descs);
    entries := CompactInPlace(base, count, skipBs, SortedTable(descs));
  }
}
