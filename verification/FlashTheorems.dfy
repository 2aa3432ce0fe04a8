/** What a flash plan touches, when a range is accepted, and how `start +len` composes
    with the planner. */
module FlashTheorems {
  import opened Flash
  import opened Machine

  // ---------------------------------------------------------------- sectors and addresses

  /** A sector holds the addresses up to the next sector's start, and the last one those up to
      the size of the bank. */
  lemma SectorAddresses(banks: seq<Bank>, k: int, s: int, a: int)
    requires ValidBanks(banks) && IsSector(banks, k, s)
    ensures
      var b := banks[k];
      var next := if s + 1 < |b.start| then b.start[s + 1] else b.start[0] + b.size;
      && (Holds(banks, k, s, a) <==> b.start[s] <= a < next)
      && (EndsAt(b, a, s) <==> a + 1 == next)
  {
  }

  /** The sectors of a bank hold exactly as many addresses from its start as its size says. */
  lemma BankAddresses(b: Bank, a: int)
    requires ValidBank(b) && b.known
    ensures (exists s :: Holds([b], 0, s, a)) <==> b.start[0] <= a < b.start[0] + b.size
  {
    if s :| Holds([b], 0, s, a) { SectorsAscend(b, s, s); }
    if b.start[0] <= a < b.start[0] + b.size {
      var s := RangeHolds(b, 0, |b.start| - 1, a);
      assert Holds([b], 0, s, a);
    }
  }

  // ---------------------------------------------------------------- any geometry

  lemma StartSectorIs(b: Bank, a: int, s: int)
    requires ValidBank(b) && StartsAt(b, a, s)
    ensures StartSector(b, a) == s
  {
    var r := StartSector(b, a);
    if r < s { SectorsAscend(b, r, s); } else if s < r { SectorsAscend(b, s, r); }
  }

  /** The "end sector precedes start sector" branch of the planner is never taken. */
  lemma EndNeverPrecedesStart(b: Bank, first: int, last: int)
    requires ValidBank(b) && first <= last
    requires StartSector(b, first) >= 0 && EndSector(b, last) >= 0
    ensures StartSector(b, first) <= EndSector(b, last)
  {
    var i, j := StartSector(b, first), EndSector(b, last);
    if j < i { SectorsAscend(b, j, i); }
  }

  /** The sectors i..j of one bank hold exactly the addresses from start[i] to the end of j. */
  lemma RangeHolds(b: Bank, i: int, j: int, a: int) returns (s: int)
    requires ValidBank(b) && 0 <= i <= j < |b.start|
    requires b.start[i] <= a <= b.SectEnd(j)
    ensures i <= s <= j && b.start[s] <= a <= b.SectEnd(s)
    decreases j - i
  {
    if i == j || a <= b.SectEnd(i) { s := i; } else { s := RangeHolds(b, i + 1, j, a); }
  }

  lemma SectorUnique(b: Bank, s: int, s': int, a: int)
    requires ValidBank(b) && 0 <= s < |b.start| && 0 <= s' < |b.start|
    requires b.start[s] <= a <= b.SectEnd(s) && b.start[s'] <= a <= b.SectEnd(s')
    ensures s == s'
  {
    if s < s' { SectorsAscend(b, s, s'); } else if s' < s { SectorsAscend(b, s', s); }
  }

  /** An accepted bank step takes sectors from `first` up to just below `next`. */
  lemma StepTakes(b: Bank, first: int, last: int)
    requires ValidBank(b) && first <= last && PlanBank(b, first, last).Accept?
    ensures
      var p := PlanBank(b, first, last);
      && (p.range.NoSectors? ==> p.next == first)
      && (p.range.Sectors? ==>
            && 0 <= p.range.first <= p.range.last < |b.start|
            && b.start[p.range.first] == first
            && b.SectEnd(p.range.last) + 1 == p.next
            && first < p.next <= last + 1)
  {
    var p := PlanBank(b, first, last);
    if p.range.Sectors? { SectorsAscend(b, p.range.first, p.range.last); }
  }

  lemma PlannedTail(r: Range, rest: seq<Range>, k: int, s: int)
    ensures k > 0 ==> (Planned([r] + rest, k, s) <==> Planned(rest, k - 1, s))
    ensures Planned([r] + rest, 0, s) <==> r.Sectors? && r.first <= s <= r.last
  {
    if k > 0 && k - 1 < |rest| { assert ([r] + rest)[k] == rest[k - 1]; }
  }

  /** Every planned sector is a real one inside [first, next), and the plan never passes `last`. */
  lemma {:induction false} PlannedInside(banks: seq<Bank>, first: int, last: int, k: int, s: int)
    requires ValidBanks(banks)
    requires PlanFrom(banks, first, last).rcode == 0
    ensures first <= PlanFrom(banks, first, last).next
    ensures first <= last ==> PlanFrom(banks, first, last).next <= last + 1
    ensures Planned(PlanFrom(banks, first, last).ranges, k, s) ==>
      IsSector(banks, k, s) && first <= banks[k].start[s] <= banks[k].SectEnd(s) < PlanFrom(banks, first, last).next
    decreases |banks|
  {
    if banks != [] && first <= last {
      var p := PlanBank(banks[0], first, last);
      StepTakes(banks[0], first, last);
      PlannedInside(banks[1..], p.next, last, k - 1, s);
      var rest := PlanFrom(banks[1..], p.next, last);
      PlannedTail(p.range, rest.ranges, k, s);
      if k == 0 && p.range.Sectors? && p.range.first <= s <= p.range.last {
        SectorsAscend(banks[0], p.range.first, s);
        SectorsAscend(banks[0], s, p.range.last);
      }
    }
  }

  /** No gap: every address in [first, next) lies in a planned sector. */
  lemma {:induction false} PlanCovers(banks: seq<Bank>, first: int, last: int, a: int) returns (k: int, s: int)
    requires ValidBanks(banks)
    requires PlanFrom(banks, first, last).rcode == 0
    requires first <= a < PlanFrom(banks, first, last).next
    ensures Planned(PlanFrom(banks, first, last).ranges, k, s) && Holds(banks, k, s, a)
    decreases |banks|
  {
    var p := PlanBank(banks[0], first, last);
    StepTakes(banks[0], first, last);
    var rest := PlanFrom(banks[1..], p.next, last);
    if a < p.next {
      s := RangeHolds(banks[0], p.range.first, p.range.last, a);
      k := 0;
    } else {
      k, s := PlanCovers(banks[1..], p.next, last, a);
      PlannedTail(p.range, rest.ranges, k + 1, s);
      k := k + 1;
    }
  }

  lemma PlannedApart(banks: seq<Bank>, first: int, last: int, s: int, k': int, s': int, a: int)
    requires ValidBanks(banks) && banks != [] && first <= last
    requires PlanFrom(banks, first, last).rcode == 0
    requires Planned(PlanFrom(banks, first, last).ranges, 0, s) && Holds(banks, 0, s, a)
    requires Planned(PlanFrom(banks, first, last).ranges, k', s') && k' > 0
    ensures !Holds(banks, k', s', a)
  {
    var p := PlanBank(banks[0], first, last);
    StepTakes(banks[0], first, last);
    PlannedTail(p.range, PlanFrom(banks[1..], p.next, last).ranges, k', s');
    PlannedInside(banks[1..], p.next, last, k' - 1, s');
    SectorsAscend(banks[0], s, p.range.last);
    assert a < p.next;
  }

  /** The plan of a list of banks is the head's range before the plan of the rest. */
  lemma PlanHead(banks: seq<Bank>, first: int, last: int, plan: Plan) returns (range: Range, next: int, rest: Plan)
    requires ValidBanks(banks) && banks != [] && first <= last
    requires plan == PlanFrom(banks, first, last) && plan.rcode == 0
    ensures PlanBank(banks[0], first, last) == Accept(range, next)
    ensures rest == PlanFrom(banks[1..], next, last) && rest.rcode == 0 && plan.ranges == [range] + rest.ranges
  {
    var step := PlanBank(banks[0], first, last);
    range, next := step.range, step.next;
    rest := PlanFrom(banks[1..], next, last);
  }

  /** No overlap: an address lies in at most one planned sector. */
  lemma {:induction false} PlanDisjoint(
      banks: seq<Bank>, first: int, last: int, plan: Plan, k: int, s: int, k': int, s': int, a: int)
    requires ValidBanks(banks) && first <= last && plan == PlanFrom(banks, first, last) && plan.rcode == 0
    requires Planned(plan.ranges, k, s) && Holds(banks, k, s, a)
    requires Planned(plan.ranges, k', s') && Holds(banks, k', s', a)
    ensures k == k' && s == s'
    decreases |banks|
  {
    if k == 0 && k' == 0 {
      SectorUnique(banks[0], s, s', a);
    } else if k == 0 {
      PlannedApart(banks, first, last, s, k', s', a);
    } else if k' == 0 {
      PlannedApart(banks, first, last, s', k, s, a);
    } else {
      var range, next, rest := PlanHead(banks, first, last, plan);
      PlannedTail(range, rest.ranges, k, s);
      PlannedTail(range, rest.ranges, k', s');
      if next <= last { PlanDisjoint(banks[1..], next, last, rest, k - 1, s, k' - 1, s', a); }
    }
  }

  /** The (bank, sector) pairs of one bank's range, and of a whole plan. */
  ghost function Row(k: int, r: Range): set<(int, int)> { set s | r.Lo() <= s <= r.Hi() && r.Sectors? :: (k, s) }

  ghost function PlannedSet(ranges: seq<Range>): set<(int, int)> {
    set k, s | 0 <= k < |ranges| && ranges[k].Lo() <= s <= ranges[k].Hi() && ranges[k].Sectors? :: (k, s)
  }

  lemma RowSize(k: int, i: nat, j: int)
    requires i <= j + 1
    ensures |(set s | i <= s <= j :: (k, s))| == j - i + 1
    decreases j - i + 1
  {
    var all := set s | i <= s <= j :: (k, s);
    if i <= j {
      var most := set s | i <= s <= j - 1 :: (k, s);
      assert all == most + {(k, j)};
      RowSize(k, i, j - 1);
    }
  }

  lemma PlannedSetSnoc(init: seq<Range>, r: Range)
    ensures PlannedSet(init + [r]) == PlannedSet(init) + Row(|init|, r)
    ensures PlannedSet(init) !! Row(|init|, r)
  {
    var all := init + [r];
    forall x | x in PlannedSet(all) ensures x in PlannedSet(init) + Row(|init|, r) {
      if x.0 < |init| { assert all[x.0] == init[x.0]; }
    }
    forall x | x in PlannedSet(init) + Row(|init|, r) ensures x in PlannedSet(all) {
      if x.0 < |init| { assert all[x.0] == init[x.0]; } else { assert all[x.0] == r; }
    }
  }

  /** `s_count` is the number of planned sectors. */
  lemma {:induction false} CountIsCardinality(ranges: seq<Range>)
    requires forall k :: 0 <= k < |ranges| && ranges[k].Sectors? ==> ranges[k].first <= ranges[k].last
    ensures |PlannedSet(ranges)| == Count(ranges)
  {
    if ranges != [] {
      var n := |ranges| - 1;
      var init, r := ranges[..n], ranges[n];
      assert ranges == init + [r];
      CountIsCardinality(init);
      CountSnoc(init, r);
      PlannedSetSnoc(init, r);
      if r.Sectors? {
        assert Row(n, r) == set s | r.first <= s <= r.last :: (n, s);
        RowSize(n, r.first, r.last);
      }
    }
  }

  /** Some planned sector holds address `a`. */
  ghost predicate InPlan(banks: seq<Bank>, ranges: seq<Range>, a: int) {
    exists k, s :: Planned(ranges, k, s) && Holds(banks, k, s, a)
  }

  /** No two planned sectors share an address. */
  ghost predicate NoOverlap(banks: seq<Bank>, ranges: seq<Range>) {
    forall k, s, k', s', a ::
      (Planned(ranges, k, s) && Holds(banks, k, s, a) && Planned(ranges, k', s') && Holds(banks, k', s', a))
      ==> k == k' && s == s'
  }

  /** A successful plan tiles one interval that starts at the requested first address and
      does not pass the requested last one: an address is in that interval exactly when a
      planned sector holds it, no two planned sectors overlap, and `s_count` counts them. */
  lemma PlanIsOneInterval(banks: seq<Bank>, first: int, last: int)
    requires ValidBanks(banks) && first <= last
    requires PlanFrom(banks, first, last).rcode == 0
    ensures
      var p := PlanFrom(banks, first, last);
      && first <= p.next <= last + 1
      && (forall a :: InPlan(banks, p.ranges, a) <==> first <= a < p.next)
      && NoOverlap(banks, p.ranges)
      && Count(p.ranges) == |PlannedSet(p.ranges)|
  {
    var p := PlanFrom(banks, first, last);
    PlannedInside(banks, first, last, 0, 0);
    forall a ensures InPlan(banks, p.ranges, a) <==> first <= a < p.next {
      if first <= a < p.next {
        var k, s := PlanCovers(banks, first, last, a);
      } else if InPlan(banks, p.ranges, a) {
        var k, s :| Planned(p.ranges, k, s) && Holds(banks, k, s, a);
        PlannedInside(banks, first, last, k, s);
      }
    }
    forall k, s, k', s', a | Planned(p.ranges, k, s) && Holds(banks, k, s, a) &&
                             Planned(p.ranges, k', s') && Holds(banks, k', s', a)
      ensures k == k' && s == s'
    {
      PlanDisjoint(banks, first, last, p, k, s, k', s', a);
    }
    RangesOrdered(banks, first, last);
    CountIsCardinality(p.ranges);
  }

  // ---------------------------------------------------------------- what erase touches

  /** Some erase call of the log covers sector `s` of bank `k`. */
  ghost predicate Erased(log: seq<EraseCall>, k: int, s: int) {
    exists i :: 0 <= i < |log| && log[i].bank == k && log[i].first <= s <= log[i].last
  }

  lemma ErasedSnoc(log: seq<EraseCall>, c: EraseCall, k: int, s: int)
    ensures Erased(log + [c], k, s) <==> Erased(log, k, s) || (c.bank == k && c.first <= s <= c.last)
  {
    var all := log + [c];
    if Erased(log, k, s) {
      var i :| 0 <= i < |log| && log[i].bank == k && log[i].first <= s <= log[i].last;
      assert all[i] == log[i];
    }
    assert all[|log|] == c;
  }

  /** The driver succeeds on every planned bank from `from` up to but not including `to`. */
  ghost predicate DriverGood(ranges: seq<Range>, driver: nat -> int, from: nat, to: int) {
    forall j :: from <= j < to && j < |ranges| && ranges[j].Sectors? ==> driver(j) == 0
  }

  /** Erase reports success exactly when the driver succeeds on every planned bank, and it
      erases exactly the planned sectors of the banks up to the first that fails. */
  lemma {:induction false} EraseRunTouches(
      ranges: seq<Range>, driver: nat -> int, from: nat, log: seq<EraseCall>, k: int, s: int)
    ensures
      var r := EraseRun(ranges, driver, from, log);
      && (r.rcode == 0 <==> DriverGood(ranges, driver, from, |ranges|))
      && (Erased(r.log, k, s) <==>
            Erased(log, k, s) || (from <= k && Planned(ranges, k, s) && DriverGood(ranges, driver, from, k)))
    decreases |ranges| - from
  {
    if from < |ranges| {
      if ranges[from].NoSectors? {
        EraseRunTouches(ranges, driver, from + 1, log, k, s);
      } else {
        var c := EraseCall(from, ranges[from].first, ranges[from].last);
        ErasedSnoc(log, c, k, s);
        if driver(from) == 0 { EraseRunTouches(ranges, driver, from + 1, log + [c], k, s); }
      }
    }
  }

  /** The erase calls follow the banks in ascending order, each for the planned sectors of its
      bank; the result is 0, or that of the last call. */
  lemma {:induction false} EraseRunOrder(ranges: seq<Range>, driver: nat -> int, from: nat, log: seq<EraseCall>)
    requires forall i :: 0 <= i < |log| ==> log[i].bank < from
    requires forall i, j :: 0 <= i < j < |log| ==> log[i].bank < log[j].bank
    ensures
      var r := EraseRun(ranges, driver, from, log);
      && log <= r.log && (forall i, j :: 0 <= i < j < |r.log| ==> r.log[i].bank < r.log[j].bank)
      && (forall i :: |log| <= i < |r.log| ==> CallOfPlan(ranges, r.log[i]))
      && (r.rcode == 0 || (|r.log| > |log| && r.rcode == driver(r.log[|r.log| - 1].bank)))
    decreases |ranges| - from
  {
    if from < |ranges| {
      if ranges[from].NoSectors? {
        EraseRunOrder(ranges, driver, from + 1, log);
      } else {
        var log' := log + [EraseCall(from, ranges[from].first, ranges[from].last)];
        if driver(from) == 0 {
          EraseRunOrder(ranges, driver, from + 1, log');
          PrefixOfLog(log, log', EraseRun(ranges, driver, from, log).log);
        }
      }
    }
  }

  /** The call erases the planned sectors of its bank. */
  ghost predicate CallOfPlan(ranges: seq<Range>, c: EraseCall) {
    c.bank < |ranges| && ranges[c.bank] == Sectors(c.first, c.last)
  }

  lemma PrefixOfLog(a: seq<EraseCall>, b: seq<EraseCall>, c: seq<EraseCall>)
    requires a <= b <= c
    ensures a <= c && forall i :: |a| <= i < |b| ==> c[i] == b[i]
  {
  }

  // ---------------------------------------------------------------- gap-free ascending banks

  /** The known banks, in listed order, tile the addresses from `base` on without gaps. */
  ghost predicate Tiled(banks: seq<Bank>, base: int)
    requires ValidBanks(banks)
  {
    banks == [] ||
    if banks[0].known then banks[0].start[0] == base && Tiled(banks[1..], banks[0].End() + 1)
    else Tiled(banks[1..], base)
  }

  /** First address after the last tiled bank. */
  ghost function Top(banks: seq<Bank>, base: int): int
    requires ValidBanks(banks)
  {
    if banks == [] then base
    else Top(banks[1..], if banks[0].known then banks[0].End() + 1 else base)
  }

  /** Size of all known banks together. */
  ghost function TotalSize(banks: seq<Bank>): int {
    if banks == [] then 0 else (if banks[0].known then banks[0].size else 0) + TotalSize(banks[1..])
  }

  /** Gap-free banks end where their sizes add up to. */
  lemma {:induction false} TopIsTotalSize(banks: seq<Bank>, base: int)
    requires ValidBanks(banks) && Tiled(banks, base)
    ensures Top(banks, base) == base + TotalSize(banks)
    decreases |banks|
  {
    if banks != [] { TopIsTotalSize(banks[1..], if banks[0].known then banks[0].End() + 1 else base); }
  }

  /** The condition a caller can check before erasing or protecting [first, last]. */
  ghost predicate Aligned(banks: seq<Bank>, base: int, first: int, last: int)
    requires ValidBanks(banks)
  {
    first <= last && StartsSector(banks, first) && (EndsSector(banks, last) || last >= Top(banks, base))
  }

  lemma SuffixSectors(banks: seq<Bank>, k: int, s: int)
    requires banks != []
    ensures k > 0 ==> (IsSector(banks, k, s) <==> IsSector(banks[1..], k - 1, s))
    ensures k > 0 && IsSector(banks, k, s) ==> banks[k] == banks[1..][k - 1]
  {
  }

  /** Splits the sector-boundary tests at the head bank. */
  lemma BoundariesSplit(banks: seq<Bank>, a: int)
    requires ValidBanks(banks) && banks != []
    ensures StartsSector(banks, a) <==> StartSector(banks[0], a) >= 0 || StartsSector(banks[1..], a)
    ensures EndsSector(banks, a) <==> EndSector(banks[0], a) >= 0 || EndsSector(banks[1..], a)
  {
    if StartsSector(banks, a) {
      var k, s :| IsSector(banks, k, s) && banks[k].start[s] == a;
      if k > 0 { SuffixSectors(banks, k, s); } else { assert StartsAt(banks[0], a, s); }
    }
    if EndsSector(banks, a) {
      var k, s :| IsSector(banks, k, s) && banks[k].SectEnd(s) == a;
      if k > 0 { SuffixSectors(banks, k, s); } else { assert EndsAt(banks[0], a, s); }
    }
    if StartSector(banks[0], a) >= 0 { assert IsSector(banks, 0, StartSector(banks[0], a)); }
    if EndSector(banks[0], a) >= 0 { assert IsSector(banks, 0, EndSector(banks[0], a)); }
    if StartsSector(banks[1..], a) {
      var k, s :| IsSector(banks[1..], k, s) && banks[1..][k].start[s] == a;
      SuffixSectors(banks, k + 1, s);
    }
    if EndsSector(banks[1..], a) {
      var k, s :| IsSector(banks[1..], k, s) && banks[1..][k].SectEnd(s) == a;
      SuffixSectors(banks, k + 1, s);
    }
  }

  /** All sectors of tiled banks lie in [base, Top). */
  lemma {:induction false} TiledBounds(banks: seq<Bank>, base: int, k: int, s: int)
    requires ValidBanks(banks) && Tiled(banks, base)
    ensures base <= Top(banks, base)
    ensures IsSector(banks, k, s) ==>
      base <= banks[k].start[s] <= banks[k].SectEnd(s) < Top(banks, base)
    decreases |banks|
  {
    if banks != [] {
      if banks[0].known { SectorsAscend(banks[0], 0, 0); }
      TiledBounds(banks[1..], if banks[0].known then banks[0].End() + 1 else base, k - 1, s);
      if k == 0 && IsSector(banks, 0, s) { SectorsAscend(banks[0], s, s); }
      if k > 0 && IsSector(banks, k, s) { SuffixSectors(banks, k, s); }
    }
  }

  lemma TiledBoundaries(banks: seq<Bank>, base: int, a: int)
    requires ValidBanks(banks) && Tiled(banks, base)
    ensures StartsSector(banks, a) ==> base <= a < Top(banks, base)
    ensures EndsSector(banks, a) ==> base <= a < Top(banks, base)
  {
    if StartsSector(banks, a) {
      var k, s :| IsSector(banks, k, s) && banks[k].start[s] == a;
      TiledBounds(banks, base, k, s);
    }
    if EndsSector(banks, a) {
      var k, s :| IsSector(banks, k, s) && banks[k].SectEnd(s) == a;
      TiledBounds(banks, base, k, s);
    }
  }

  /** Every tiled address lies in a sector. */
  lemma {:induction false} TiledCovers(banks: seq<Bank>, base: int, a: int) returns (k: int, s: int)
    requires ValidBanks(banks) && Tiled(banks, base) && base <= a < Top(banks, base)
    ensures Holds(banks, k, s, a)
    decreases |banks|
  {
    if banks[0].known && a <= banks[0].End() {
      s := RangeHolds(banks[0], 0, |banks[0].start| - 1, a);
      k := 0;
    } else {
      k, s := TiledCovers(banks[1..], if banks[0].known then banks[0].End() + 1 else base, a);
      SuffixSectors(banks, k + 1, s);
      k := k + 1;
    }
  }

  /** Tiled sectors do not overlap. */
  lemma {:induction false} TiledDisjoint(banks: seq<Bank>, base: int, k: int, s: int, k': int, s': int, a: int)
    requires ValidBanks(banks) && Tiled(banks, base)
    requires Holds(banks, k, s, a) && Holds(banks, k', s', a)
    ensures k == k' && s == s'
    decreases |banks|
  {
    if k == 0 && k' == 0 {
      SectorUnique(banks[0], s, s', a);
    } else if k > 0 && k' > 0 {
      SuffixSectors(banks, k, s);
      SuffixSectors(banks, k', s');
      TiledDisjoint(banks[1..], if banks[0].known then banks[0].End() + 1 else base, k - 1, s, k' - 1, s', a);
    } else {
      SectorsAscend(banks[0], if k == 0 then s else s', |banks[0].start| - 1);
      SuffixSectors(banks, k, s);
      SuffixSectors(banks, k', s');
      TiledBounds(banks[1..], banks[0].End() + 1, if k == 0 then k' - 1 else k - 1, if k == 0 then s' else s);
    }
  }

  /** Once the walk stands on the first byte of the remaining banks, it ends well exactly when
      `last` ends a sector or lies past the flash, and it then reaches as far as it can. */
  lemma {:induction false} WalkFromBase(banks: seq<Bank>, base: int, last: int)
    requires ValidBanks(banks) && Tiled(banks, base) && base <= last
    ensures
      var p := PlanFrom(banks, base, last);
      && (p.rcode == 0 <==> EndsSector(banks, last) || last >= Top(banks, base))
      && (p.rcode == 0 ==> p.next == if last >= Top(banks, base) then Top(banks, base) else last + 1)
    decreases |banks|
  {
    TiledBoundaries(banks, base, last);
    if banks == [] { return; }
    BoundariesSplit(banks, last);
    var b, rest := banks[0], banks[1..];
    if !b.known {
      assert EndSector(b, last) == -1;
      WalkFromBase(rest, base, last);
    } else {
      StartSectorIs(b, base, 0);
      TiledBoundaries(rest, b.End() + 1, last);
      TiledBounds(rest, b.End() + 1, 0, 0);
      if last > b.End() {
        PastBank(b, last);
        WalkFromBase(rest, b.End() + 1, last);
      } else {
        HeadStep(b, base, last);
      }
    }
  }

  lemma PastBank(b: Bank, a: int)
    requires ValidBank(b) && b.known && a > b.End()
    ensures StartSector(b, a) == -1 && EndSector(b, a) == -1
  {
    var i, j := StartSector(b, a), EndSector(b, a);
    if i >= 0 { SectorsAscend(b, i, i); }
    if j >= 0 { SectorsAscend(b, j, j); }
  }

  lemma HeadStep(b: Bank, first: int, last: int)
    requires ValidBank(b) && b.known && first <= last <= b.End() && StartSector(b, first) >= 0
    ensures
      var p := PlanBank(b, first, last);
      if EndSector(b, last) >= 0 then p.Accept? && p.range.Sectors? && p.next == last + 1 else p.Reject?
  {
    if EndSector(b, last) >= 0 { EndNeverPrecedesStart(b, first, last); }
  }

  /** A walk that starts below the remaining banks plans nothing. */
  lemma {:induction false} WalkFromBelow(banks: seq<Bank>, base: int, first: int, last: int)
    requires ValidBanks(banks) && Tiled(banks, base) && first < base
    ensures Count(PlanFrom(banks, first, last).ranges) == 0
    decreases |banks|
  {
    CountNone(|banks|);
    if banks != [] && first <= last {
      var b, rest := banks[0], banks[1..];
      if StartSector(b, first) >= 0 { SectorsAscend(b, 0, StartSector(b, first)); }
      if PlanBank(b, first, last).Accept? {
        WalkFromBelow(rest, if b.known then b.End() + 1 else base, first, last);
        var tail := PlanFrom(rest, first, last).ranges;
        assert ([NoSectors] + tail)[1..] == tail;
      }
    }
  }

  lemma CountCons(r: Range, rest: seq<Range>)
    ensures Count([r] + rest) == (if r.Sectors? then r.last - r.first + 1 else 0) + Count(rest)
  {
    assert ([r] + rest)[1..] == rest;
  }

  lemma {:induction false} CountNonNegative(banks: seq<Bank>, first: int, last: int)
    requires ValidBanks(banks)
    ensures Count(PlanFrom(banks, first, last).ranges) >= 0
  {
    RangesOrdered(banks, first, last);
    CountIsCardinality(PlanFrom(banks, first, last).ranges);
  }

  /** On gap-free banks erase and protect get past their checks exactly on aligned ranges;
      the plan then reaches `last`, or the end of flash when `last` lies beyond it. */
  lemma {:induction false} AcceptsIffAligned(banks: seq<Bank>, base: int, first: int, last: int)
    requires ValidBanks(banks) && Tiled(banks, base)
    ensures Accepts(banks, first, last) <==> Aligned(banks, base, first, last)
    ensures Accepts(banks, first, last) ==>
      PlanFrom(banks, first, last).next == if last >= Top(banks, base) then Top(banks, base) else last + 1
    decreases |banks|
  {
    TiledBoundaries(banks, base, first);
    TiledBoundaries(banks, base, last);
    CountNone(|banks|);
    if banks == [] || first > last { return; }
    BoundariesSplit(banks, first);
    BoundariesSplit(banks, last);
    var b, rest := banks[0], banks[1..];
    var base' := if b.known then b.End() + 1 else base;
    TiledBoundaries(rest, base', first);
    TiledBoundaries(rest, base', last);
    TiledBounds(rest, base', 0, 0);
    if first < base {
      WalkFromBelow(banks, base, first, last);
    } else if !b.known || first > b.End() {
      if b.known { PastBank(b, first); PastBank(b, last); }
      AcceptsIffAligned(rest, base', first, last);
      CountCons(NoSectors, PlanFrom(rest, first, last).ranges);
    } else if StartSector(b, first) >= 0 {
      AcceptsFromHead(banks, base, first, last);
    } else if PlanBank(b, first, last).Accept? {
      WalkFromBelow(rest, base', first, last);
      CountCons(NoSectors, PlanFrom(rest, first, last).ranges);
    }
  }

  lemma AcceptsFromHead(banks: seq<Bank>, base: int, first: int, last: int)
    requires ValidBanks(banks) && Tiled(banks, base) && banks != [] && banks[0].known && first <= last
    requires StartSector(banks[0], first) >= 0
    ensures Accepts(banks, first, last) <==> EndsSector(banks, last) || last >= Top(banks, base)
    ensures Accepts(banks, first, last) ==>
      PlanFrom(banks, first, last).next == if last >= Top(banks, base) then Top(banks, base) else last + 1
  {
    var b, rest := banks[0], banks[1..];
    BoundariesSplit(banks, last);
    TiledBoundaries(rest, b.End() + 1, last);
    TiledBounds(rest, b.End() + 1, 0, 0);
    var p := PlanBank(b, first, last);
    if last > b.End() {
      PastBank(b, last);
      WalkFromBase(rest, b.End() + 1, last);
    } else {
      HeadStep(b, first, last);
    }
    if p.Accept? {
      StepTakes(b, first, last);
      CountNonNegative(rest, p.next, last);
      CountCons(p.range, PlanFrom(rest, p.next, last).ranges);
    }
  }

  /** An accepted range plans exactly the sectors that meet it. */
  lemma AcceptedPlansWhatMeets(banks: seq<Bank>, base: int, first: int, last: int)
    requires ValidBanks(banks) && Tiled(banks, base) && Accepts(banks, first, last)
    ensures forall k, s :: Planned(PlanFrom(banks, first, last).ranges, k, s) <==> Meets(banks, k, s, first, last)
  {
    AcceptsIffAligned(banks, base, first, last);
    var p := PlanFrom(banks, first, last);
    forall k, s ensures Planned(p.ranges, k, s) <==> Meets(banks, k, s, first, last) {
      if Planned(p.ranges, k, s) {
        PlannedInside(banks, first, last, k, s);
      } else if Meets(banks, k, s, first, last) {
        TiledBounds(banks, base, k, s);
        var a := if first <= banks[k].start[s] then banks[k].start[s] else first;
        var k', s' := PlanCovers(banks, first, last, a);
        TiledDisjoint(banks, base, k, s, k', s', a);
      }
    }
  }

  /** A whole bank, given by its first address and its size, is accepted, and all its sectors
      are planned. */
  lemma WholeBankAccepted(b: Bank)
    requires ValidBank(b) && b.known
    ensures Accepts([b], b.start[0], b.start[0] + b.size - 1)
    ensures PlanFrom([b], b.start[0], b.start[0] + b.size - 1).ranges == [Sectors(0, |b.start| - 1)]
  {
    var banks, base, last := [b], b.start[0], b.start[0] + b.size - 1;
    assert banks[1..] == [];
    assert IsSector(banks, 0, 0) && IsSector(banks, 0, |b.start| - 1);
    SectorAddresses(banks, 0, |b.start| - 1, last);
    SectorsAscend(b, 0, |b.start| - 1);
    AcceptsIffAligned(banks, base, base, last);
    AcceptedPlansWhatMeets(banks, base, base, last);
    RangesOrdered(banks, base, last);
    assert Meets(banks, 0, 0, base, last) && Meets(banks, 0, |b.start| - 1, base, last);
  }

  // ---------------------------------------------------------------- start +len

  /** Rounding an end address up to its sector end meets no further sector. */
  lemma RoundingMeetsSame(banks: seq<Bank>, base: int, start: int, end: int, last: int)
    requires ValidBanks(banks) && Tiled(banks, base) && start <= end && RoundsTo(banks, end, last)
    ensures end <= last && EndsSector(banks, last)
    ensures forall k, s :: Meets(banks, k, s, start, last) <==> Meets(banks, k, s, start, end)
  {
    var k1, s1 :| Holds(banks, k1, s1, end) && banks[k1].SectEnd(s1) == last;
    forall k, s | Meets(banks, k, s, start, last) ensures Meets(banks, k, s, start, end) {
      if banks[k].start[s] > end {
        TiledBounds(banks, base, k, s);
        TiledDisjoint(banks, base, k, s, k1, s1, banks[k].start[s]);
      }
    }
  }

  /** `start +len` on an aligned start inside the flash: rounding succeeds, the planner accepts,
      and the plan is exactly the whole sectors that [start, start+len) touches. */
  lemma PlusLenPlansCover(banks: seq<Bank>, base: int, start: nat, len: nat, last: int)
    requires ValidBanks(banks) && Tiled(banks, base) && StartsSector(banks, start)
    requires 0 < len && start + len <= Top(banks, base) <= U32
    ensures InFlash(banks, LastOf(start, len))
    ensures RoundsTo(banks, LastOf(start, len), last) ==>
      && Accepts(banks, start, last)
      && forall k, s :: Planned(PlanFrom(banks, start, last).ranges, k, s) <==>
        Meets(banks, k, s, start, start + len - 1)
  {
    var end := start + len - 1;
    assert LastOf(start, len) == end;
    TiledBoundaries(banks, base, start);
    var k0, s0 := TiledCovers(banks, base, end);
    if RoundsTo(banks, end, last) {
      RoundingMeetsSame(banks, base, start, end, last);
      AcceptsIffAligned(banks, base, start, last);
      AcceptedPlansWhatMeets(banks, base, start, last);
    }
  }

  /** When `start + len` overflows, or `len` is 0, nothing is ever touched. */
  lemma PlusLenOverflowRejected(banks: seq<Bank>, base: int, start: nat, len: nat, last: int)
    requires ValidBanks(banks) && Tiled(banks, base)
    requires start < U32 && len < U32
    requires len == 0 || start + len > U32
    requires RoundsTo(banks, LastOf(start, len), last)
    ensures !Accepts(banks, start, last)
  {
    AcceptsIffAligned(banks, base, start, last);
    EndsBeforeStart(banks, base, start, LastOf(start, len), last);
  }

  lemma EndsBeforeStart(banks: seq<Bank>, base: int, start: int, end: int, last: int)
    requires ValidBanks(banks) && Tiled(banks, base) && RoundsTo(banks, end, last)
    requires end < start || end == U32 - 1
    ensures !StartsSector(banks, start) || last < start
  {
    var k, s :| Holds(banks, k, s, end) && banks[k].SectEnd(s) == last;
    SectorsAscend(banks[k], s, s);
    if StartsSector(banks, start) && start <= last {
      var k', s' :| IsSector(banks, k', s') && banks[k'].start[s'] == start;
      TiledBounds(banks, base, k', s');
      TiledDisjoint(banks, base, k, s, k', s', start);
    }
  }

  // ---------------------------------------------------------------- boundary cases

  /** A walk that starts below the remaining banks fails exactly when `last` ends a sector. */
  lemma {:induction false} MissedStart(banks: seq<Bank>, base: int, first: int, last: int)
    requires ValidBanks(banks) && Tiled(banks, base) && first < base && first <= last
    ensures PlanFrom(banks, first, last).rcode == if EndsSector(banks, last) then 1 else 0
    decreases |banks|
  {
    if banks != [] {
      var b, rest := banks[0], banks[1..];
      BoundariesSplit(banks, last);
      if StartSector(b, first) >= 0 { SectorsAscend(b, 0, StartSector(b, first)); }
      if PlanBank(b, first, last).Accept? { MissedStart(rest, if b.known then b.End() + 1 else base, first, last); }
    }
  }

  /** A start inside the head bank that starts no sector, on the bank's last byte. */
  lemma LastByteOfHead(banks: seq<Bank>, base: int, first: int, last: int)
    requires ValidBanks(banks) && Tiled(banks, base) && banks != [] && banks[0].known
    requires first == banks[0].End() <= last && StartSector(banks[0], first) == -1
    ensures PlanFrom(banks, first, last).rcode == if EndsSector(banks, last) then 1 else 0
  {
    var b, rest := banks[0], banks[1..];
    BoundariesSplit(banks, last);
    if EndSector(b, last) < 0 { MissedStart(rest, b.End() + 1, first, last); }
  }

  /** The range check of the planner misses a start on a bank's last byte: on gap-free banks
      such a plan has an error exactly when `last` ends a sector, and otherwise only the
      `planned == 0` test of the callers refuses it. */
  lemma {:induction false} LastByteCaughtByCount(banks: seq<Bank>, base: int, k: nat, last: int)
    requires ValidBanks(banks) && Tiled(banks, base) && k < |banks| && banks[k].known
    requires StartSector(banks[k], banks[k].End()) == -1 && banks[k].End() <= last
    ensures PlanFrom(banks, banks[k].End(), last).rcode == if EndsSector(banks, last) then 1 else 0
    ensures !Accepts(banks, banks[k].End(), last)
    decreases |banks|
  {
    var first := banks[k].End();
    NoSectorStarts(banks, base, k, first);
    AcceptsIffAligned(banks, base, first, last);
    if k == 0 {
      LastByteOfHead(banks, base, first, last);
    } else {
      var b, rest := banks[0], banks[1..];
      var base' := if b.known then b.End() + 1 else base;
      TiledBounds(rest, base', k - 1, |banks[k].start| - 1);
      if b.known { PastBank(b, first); PastBank(b, last); }
      BoundariesSplit(banks, last);
      LastByteCaughtByCount(rest, base', k - 1, last);
    }
  }

  /** An address of a bank that starts no sector there starts none anywhere. */
  lemma NoSectorStarts(banks: seq<Bank>, base: int, k: nat, a: int)
    requires ValidBanks(banks) && Tiled(banks, base) && k < |banks| && banks[k].known
    requires a == banks[k].End() && StartSector(banks[k], a) == -1
    ensures !StartsSector(banks, a)
  {
    if StartsSector(banks, a) {
      var k', s' :| IsSector(banks, k', s') && banks[k'].start[s'] == a;
      SectorsAscend(banks[k'], s', s');
      SectorsAscend(banks[k], |banks[k].start| - 1, |banks[k].start| - 1);
      TiledDisjoint(banks, base, k, |banks[k].start| - 1, k', s', a);
      assert StartsAt(banks[k], a, s');
    }
  }

  /** A range that runs past the end of flash is not refused: it is silently shortened. */
  lemma PastEndIsShortened()
    ensures
      var banks := [Bank(true, [0, 0x1_0000], 0x2_0000)];
      && ValidBanks(banks) && Tiled(banks, 0)
      && Accepts(banks, 0, 0x2_5555) && !EndsSector(banks, 0x2_5555)
  {
    var b := Bank(true, [0, 0x1_0000], 0x2_0000);
    var banks := [b];
    assert banks[1..] == [];
    assert ValidBank(b);
    assert IsSector(banks, 0, 0) && banks[0].start[0] == 0;
    AcceptsIffAligned(banks, 0, 0, 0x2_5555);
    TiledBoundaries(banks, 0, 0x2_5555);
  }
}
