/** NOR flash range planner (uboot/cmd/flash.c): banks of unevenly sized sectors, the
    planner that turns an address range into per-bank sector ranges, and the erase,
    protect and `start +len` operations built on it. */
module Flash {
  import opened Machine

  /** One flash bank: `start[s]` is the first address of sector s, `size` the bank size in bytes. */
  datatype Bank = Bank(known: bool, start: seq<nat>, size: nat) {
    /** Last address of the bank. */
    function End(): int
      requires |start| > 0
    {
      start[0] + size - 1
    }

    /** Last address of sector `s`. */
    function SectEnd(s: nat): int
      requires s < |start|
    {
      if s == |start| - 1 then End() else (var next: int := start[s + 1]; next - 1)
    }
  }

  /** Probed banks have ascending sectors and end below the top of the address space;
      unknown banks have none. */
  ghost predicate ValidBank(b: Bank) {
    && (b.known <==> |b.start| > 0)
    && |b.start| <= 0x8000
    && (forall i, j :: 0 <= i < j < |b.start| ==> b.start[i] < b.start[j])
    && (b.known ==> b.start[|b.start| - 1] <= b.End() && b.End() + 1 < U32)
  }

  ghost predicate ValidBanks(banks: seq<Bank>) {
    forall k :: 0 <= k < |banks| ==> ValidBank(banks[k])
  }

  // ---------------------------------------------------------------- sectors and addresses

  ghost predicate IsSector(banks: seq<Bank>, k: int, s: int) {
    0 <= k < |banks| && 0 <= s < |banks[k].start|
  }

  /** Address `a` lies in sector `s` of bank `k`. */
  ghost predicate Holds(banks: seq<Bank>, k: int, s: int, a: int) {
    IsSector(banks, k, s) && banks[k].start[s] <= a <= banks[k].SectEnd(s)
  }

  ghost predicate StartsSector(banks: seq<Bank>, a: int) {
    exists k, s :: IsSector(banks, k, s) && banks[k].start[s] == a
  }

  ghost predicate EndsSector(banks: seq<Bank>, a: int) {
    exists k, s :: IsSector(banks, k, s) && banks[k].SectEnd(s) == a
  }

  /** Sector `s` of bank `k` has an address in [first, last]. */
  ghost predicate Meets(banks: seq<Bank>, k: int, s: int, first: int, last: int) {
    IsSector(banks, k, s) && banks[k].start[s] <= last && first <= banks[k].SectEnd(s)
  }

  ghost predicate StartsAt(b: Bank, a: int, s: int) { 0 <= s < |b.start| && b.start[s] == a }

  ghost predicate EndsAt(b: Bank, a: int, s: int) { 0 <= s < |b.start| && b.SectEnd(s) == a }

  /** The sector of `b` that starts at `a`, or -1. */
  ghost function StartSector(b: Bank, a: int): (r: int)
    ensures r == -1 || StartsAt(b, a, r)
    ensures (exists s :: StartsAt(b, a, s)) ==> r >= 0
  {
    if exists s :: StartsAt(b, a, s) then var s :| StartsAt(b, a, s); s else -1
  }

  /** The sector of `b` that ends at `a`, or -1. */
  ghost function EndSector(b: Bank, a: int): (r: int)
    ensures r == -1 || EndsAt(b, a, r)
    ensures (exists s :: EndsAt(b, a, s)) ==> r >= 0
  {
    if exists s :: EndsAt(b, a, s) then var s :| EndsAt(b, a, s); s else -1
  }

  lemma SectorsAscend(b: Bank, i: int, j: int)
    requires ValidBank(b) && 0 <= i <= j < |b.start|
    ensures b.start[0] <= b.start[i] <= b.start[j] <= b.SectEnd(j) <= b.End()
    ensures i < j ==> b.SectEnd(i) < b.start[j]
  {
    if i < j { assert b.start[i + 1] <= b.start[j]; }
    if j < |b.start| - 1 { assert b.start[j + 1] <= b.start[|b.start| - 1]; }
  }

  // ---------------------------------------------------------------- specification of the plan

  datatype Range = NoSectors | Sectors(first: nat, last: nat) {
    function Lo(): int { if Sectors? then first else -1 }
    function Hi(): int { if Sectors? then last else -1 }
  }

  datatype Plan = Plan(rcode: int, ranges: seq<Range>, next: int)

  datatype Step = Reject | Accept(range: Range, next: int)

  /** What one bank contributes to covering [first, last]. */
  ghost function PlanBank(b: Bank, first: int, last: int): (r: Step)
    requires ValidBank(b)
    ensures r.Accept? && r.range.Sectors? ==> r.range.first < |b.start| && r.range.last < |b.start|
  {
    if !b.known then Accept(NoSectors, first) else
      var sf, sl := StartSector(b, first), EndSector(b, last);
      if sf >= 0 then
        if sl >= 0 then (if sl < sf then Reject else Accept(Sectors(sf, sl), b.SectEnd(sl) + 1))
        else if last > b.End() then Accept(Sectors(sf, |b.start| - 1), b.End() + 1)
        else Reject
      else if b.start[0] <= first < b.End() || sl >= 0 then Reject
      else Accept(NoSectors, first)
  }

  ghost function PlanFrom(banks: seq<Bank>, first: int, last: int): (r: Plan)
    requires ValidBanks(banks)
    ensures |r.ranges| == |banks| && (r.rcode == 0 || r.rcode == 1)
  {
    if banks == [] || first > last then Plan(0, seq(|banks|, _ => NoSectors), first)
    else
      match PlanBank(banks[0], first, last)
      case Reject => Plan(1, seq(|banks|, _ => NoSectors), first)
      case Accept(range, next) =>
        var r := PlanFrom(banks[1..], next, last);
        r.(ranges := [range] + r.ranges)
  }

  /** Sector `s` of bank `k` is in the plan. */
  ghost predicate Planned(ranges: seq<Range>, k: int, s: int) {
    0 <= k < |ranges| && ranges[k].Sectors? && ranges[k].first <= s <= ranges[k].last
  }

  function Count(ranges: seq<Range>): int {
    if ranges == [] then 0
    else (if ranges[0].Sectors? then ranges[0].last - ranges[0].first + 1 else 0) + Count(ranges[1..])
  }

  /** The planning checks of erase and protect pass. */
  ghost predicate Accepts(banks: seq<Bank>, first: int, last: int)
    requires ValidBanks(banks)
  {
    var p := PlanFrom(banks, first, last);
    p.rcode == 0 && Count(p.ranges) != 0
  }

  // ---------------------------------------------------------------- the planner

  function Prepend(done: seq<Range>, p: Plan): Plan { p.(ranges := done + p.ranges) }

  /** The two arrays hold `ranges`, bank by bank, with -1 where a bank takes no part, and -1
      for every bank after those. */
  ghost predicate Encodes(sFirst: array<int>, sLast: array<int>, ranges: seq<Range>)
    reads sFirst, sLast
  {
    |ranges| <= sFirst.Length == sLast.Length && sFirst != sLast &&
    (forall k :: 0 <= k < |ranges| ==> sFirst[k] == ranges[k].Lo() && sLast[k] == ranges[k].Hi()) &&
    (forall k :: |ranges| <= k < sFirst.Length ==> sFirst[k] == -1 && sLast[k] == -1)
  }

  lemma PlanStep(banks: seq<Bank>, done: seq<Range>, k: nat, first: int, last: int)
    requires ValidBanks(banks) && k < |banks| && first <= last
    ensures
      var rest := PlanFrom(banks[k..], first, last);
      match PlanBank(banks[k], first, last)
      case Reject => rest.rcode == 1
      case Accept(range, next) =>
        Prepend(done, rest) == Prepend(done + [range], PlanFrom(banks[k + 1..], next, last))
  {
    assert banks[k..][1..] == banks[k + 1..];
    var step := PlanBank(banks[k], first, last);
    if step.Accept? {
      var r := PlanFrom(banks[k + 1..], step.next, last);
      assert done + ([step.range] + r.ranges) == done + [step.range] + r.ranges;
    }
  }

  lemma CountSnoc(done: seq<Range>, r: Range)
    ensures Count(done + [r]) == Count(done) + (if r.Sectors? then r.last - r.first + 1 else 0)
  {
    if done != [] {
      assert (done + [r])[1..] == done[1..] + [r];
      CountSnoc(done[1..], r);
    }
  }

  /** Once the walk is over, the banks not reached hold nothing. */
  lemma PlanEnd(banks: seq<Bank>, done: seq<Range>, k: nat, first: int, last: int)
    requires ValidBanks(banks) && k == |done| <= |banks|
    requires k == |banks| || first > last
    ensures
      var p := Prepend(done, PlanFrom(banks[k..], first, last));
      && p.rcode == 0 && p.next == first && Count(p.ranges) == Count(done) && |p.ranges| == |banks|
      && forall i :: 0 <= i < |banks| ==> p.ranges[i] == if i < k then done[i] else NoSectors
  {
    CountConcat(done, seq(|banks| - k, _ => NoSectors));
    CountNone(|banks| - k);
  }

  lemma CountNone(n: nat)
    ensures Count(seq(n, _ => NoSectors)) == 0
  {
    if n > 0 { assert seq(n, _ => NoSectors)[1..] == seq(n - 1, _ => NoSectors); CountNone(n - 1); }
  }

  lemma CountConcat(a: seq<Range>, b: seq<Range>)
    ensures Count(a + b) == Count(a) + Count(b)
  {
    if a == [] { assert a + b == b; } else {
      assert (a + b)[1..] == a[1..] + b;
      CountConcat(a[1..], b);
    }
  }

  /** The sector loop of the planner for one bank. */
  method ScanBank(info: Bank, addrFirst: int, addrLast: int) returns (sf: int, sl: int)
    requires ValidBank(info) && info.known && addrFirst <= addrLast
    ensures sf == StartSector(info, addrFirst)
    ensures sl == EndSector(info, addrLast)
  {
    sf, sl := -1, -1;
    var bEnd, sEnd := info.start[0] + info.size - 1, |info.start| - 1;
    var sect := 0;
    while sect < |info.start|
      invariant 0 <= sect <= |info.start|
      invariant sf == -1 || StartsAt(info, addrFirst, sf)
      invariant sl == -1 || EndsAt(info, addrLast, sl)
      invariant forall s :: 0 <= s < sect && StartsAt(info, addrFirst, s) ==> sf == s
      invariant forall s :: 0 <= s < sect && EndsAt(info, addrLast, s) ==> sl == s
      invariant sf < sect && sl < sect
    {
      var end := if sect == sEnd then bEnd else info.start[sect + 1] - 1;
      SectorsAscend(info, sect, sect);
      if !(addrFirst > end) && !(addrLast < info.start[sect]) {
        if addrFirst == info.start[sect] {
          if sf >= 0 { SectorsAscend(info, sf, sect); }
          sf := sect;
        }
        if addrLast == end {
          if sl >= 0 { SectorsAscend(info, sl, sect); }
          sl := sect;
        }
      }
      sect := sect + 1;
    }
  }

  /** One bank of the planner: its sector range, whether the walk stops here, and the next
      address to cover. */
  method FillBank(info: Bank, addrFirst: int, addrLast: int) returns (rcode: int, sf: int, sl: int, next: int)
    requires ValidBank(info) && addrFirst <= addrLast
    ensures rcode == if PlanBank(info, addrFirst, addrLast).Reject? then 1 else 0
    ensures rcode == 0 ==> sf >= -1 && (sf >= 0 ==> sl >= 0)
    ensures rcode == 0 ==>
      PlanBank(info, addrFirst, addrLast) == Accept(if sf >= 0 then Sectors(sf, sl) else NoSectors, next)
    ensures rcode == 0 && sf < 0 ==> sl == -1
  {
    rcode, sf, sl, next := 0, -1, -1, addrFirst;
    if !info.known {
      return;
    }
    var bEnd, sEnd := info.start[0] + info.size - 1, |info.start| - 1;
    sf, sl := ScanBank(info, addrFirst, addrLast);
    if sf >= 0 {
      if sl < 0 {
        if addrLast > bEnd {
          sl := sEnd;
        } else {
          return 1, sf, sl, next;
        }
      }
      if sl < sf {
        return 1, sf, sl, next;
      }
      next := if sl == sEnd then bEnd + 1 else info.start[sl + 1];
    } else if addrFirst >= info.start[0] && addrFirst < bEnd {
      rcode := 1;
    } else if sl >= 0 {
      rcode := 1;
    }
  }

  method ClearRanges(sFirst: array<int>, sLast: array<int>)
    requires sFirst.Length == sLast.Length && sFirst != sLast
    modifies sFirst, sLast
    ensures Encodes(sFirst, sLast, [])
  {
    for bank := 0 to sFirst.Length
      invariant forall k :: 0 <= k < bank ==> sFirst[k] == -1 && sLast[k] == -1
    {
      sFirst[bank] := -1;
      sLast[bank] := -1;
    }
  }

  method StoreRange(sFirst: array<int>, sLast: array<int>, bank: nat, sf: int, sl: int, ghost done: seq<Range>)
    requires Encodes(sFirst, sLast, done) && bank == |done| < sFirst.Length
    modifies sFirst, sLast
    ensures forall r: Range :: sf == r.Lo() && sl == r.Hi() ==> Encodes(sFirst, sLast, done + [r])
  {
    sFirst[bank] := sf;
    sLast[bank] := sl;
  }

  method FillSectRanges(banks: seq<Bank>, addrFirst0: nat, addrLast: nat, sFirst: array<int>, sLast: array<int>)
      returns (rcode: int, sCount: int)
    requires ValidBanks(banks)
    requires sFirst.Length == |banks| && sLast.Length == |banks| && sFirst != sLast
    modifies sFirst, sLast
    ensures rcode == PlanFrom(banks, addrFirst0, addrLast).rcode
    ensures rcode == 0 ==> Encodes(sFirst, sLast, PlanFrom(banks, addrFirst0, addrLast).ranges)
    ensures rcode == 0 ==> sCount == Count(PlanFrom(banks, addrFirst0, addrLast).ranges)
  {
    ClearRanges(sFirst, sLast);
    rcode, sCount := 0, 0;
    var addrFirst: int := addrFirst0;
    ghost var done: seq<Range> := [];
    ghost var plan := PlanFrom(banks, addrFirst0, addrLast);
    assert banks[0..] == banks;
    var bank := 0;
    while bank < |banks| && addrFirst <= addrLast
      invariant 0 <= bank <= |banks| && |done| == bank
      invariant rcode == 0 && sCount == Count(done)
      invariant plan == Prepend(done, PlanFrom(banks[bank..], addrFirst, addrLast))
      invariant Encodes(sFirst, sLast, done)
    {
      PlanStep(banks, done, bank, addrFirst, addrLast);
      var rc, sf, sl, next := FillBank(banks[bank], addrFirst, addrLast);
      StoreRange(sFirst, sLast, bank, sf, sl, done);
      if rc != 0 {
        return 1, sCount;
      }
      if sf >= 0 {
        sCount := sCount + (sl - sf + 1);
      }
      ghost var range := if sf >= 0 then Sectors(sf, sl) else NoSectors;
      CountSnoc(done, range);
      done := done + [range];
      addrFirst := next;
      bank := bank + 1;
    }
    PlanEnd(banks, done, bank, addrFirst, addrLast);
  }

  // ---------------------------------------------------------------- commands built on the plan

  /** A call of the chip driver's erase routine: sectors first..last of one bank. */
  datatype EraseCall = EraseCall(bank: nat, first: nat, last: nat)

  datatype EraseOutcome = EraseOutcome(log: seq<EraseCall>, rcode: int)

  /** Erasing banks k.. of a plan: one call per range in bank order, appended to `log`, up to
      and including the first call whose driver result is not zero; that result is returned. */
  ghost function EraseRun(ranges: seq<Range>, driver: nat -> int, k: nat, log: seq<EraseCall>): EraseOutcome
    decreases |ranges| - k
  {
    if k >= |ranges| then EraseOutcome(log, 0)
    else if ranges[k].NoSectors? then EraseRun(ranges, driver, k + 1, log)
    else
      var log' := log + [EraseCall(k, ranges[k].first, ranges[k].last)];
      if driver(k) != 0 then EraseOutcome(log', driver(k)) else EraseRun(ranges, driver, k + 1, log')
  }

  /** Outcome of `flash_sect_roundb`: `rounded` ends the sector that holds `a`. */
  ghost predicate RoundsTo(banks: seq<Bank>, a: int, rounded: int) {
    exists k, s :: Holds(banks, k, s, a) && banks[k].SectEnd(s) == rounded
  }

  ghost predicate InFlash(banks: seq<Bank>, a: int) { exists k, s :: Holds(banks, k, s, a) }

  method SectRoundb(banks: seq<Bank>, addr: int) returns (rc: int, rounded: int)
    requires ValidBanks(banks)
    ensures rc == if InFlash(banks, addr) then 0 else 1
    ensures if rc == 0 then RoundsTo(banks, addr, rounded) else rounded == addr
  {
    rounded := addr;
    var found := false;
    var bank := 0;
    while bank < |banks| && !found
      invariant 0 <= bank <= |banks|
      invariant found ==> InFlash(banks, addr) && RoundsTo(banks, addr, rounded)
      invariant !found ==> rounded == addr && forall k, s :: k < bank ==> !Holds(banks, k, s, addr)
    {
      var info := banks[bank];
      var i := 0;
      while i < |info.start| && !found
        invariant 0 <= i <= |info.start|
        invariant found ==> InFlash(banks, addr) && RoundsTo(banks, addr, rounded)
        invariant !found ==> rounded == addr
        invariant !found ==> forall k, s :: k < bank || (k == bank && s < i) ==> !Holds(banks, k, s, addr)
      {
        var sectorEnd: int := if i == |info.start| - 1 then info.start[0] + info.size - 1 else info.start[i + 1] - 1;
        assert sectorEnd == info.SectEnd(i);
        if addr <= sectorEnd && addr >= info.start[i] {
          found := true;
          assert Holds(banks, bank, i, addr);
          if addr < sectorEnd {
            rounded := sectorEnd;
          }
        }
        i := i + 1;
      }
      bank := bank + 1;
    }
    rc := if found then 0 else 1;
  }

  /** `addr_spec` after its numbers are parsed; `lenUsed` tells the `start +len` form. */
  method AddrSpec(banks: seq<Bank>, addrFirst: nat, second: nat, lenUsed: bool) returns (rc: int, addrLast: int)
    requires ValidBanks(banks) && addrFirst < U32 && second < U32
    ensures !lenUsed ==> rc == 1 && addrLast == second
    ensures lenUsed ==> rc == if InFlash(banks, LastOf(addrFirst, second)) then 1 else -1
    ensures lenUsed && rc == 1 ==> RoundsTo(banks, LastOf(addrFirst, second), addrLast)
  {
    rc, addrLast := 1, second;
    if lenUsed {
      addrLast := LastOf(addrFirst, second);
      var r;
      r, addrLast := SectRoundb(banks, addrLast);
      if r > 0 {
        rc := -1;
      }
    }
  }

  /** Last address of `start +len`, in unsigned arithmetic. */
  function LastOf(start: nat, len: nat): nat { (start + len - 1) % U32 }

  class FlashChips {
    const banks: seq<Bank>
    /** `flash_erase` of the driver, as its result for each bank. */
    const driver: nat -> int
    /** Software protection flags, per bank and sector. */
    var protect: seq<seq<int>>
    /** The erase calls issued to the driver. */
    var erased: seq<EraseCall>

    constructor (banks: seq<Bank>, driver: nat -> int)
      requires ValidBanks(banks)
      ensures Valid() && this.banks == banks && this.driver == driver && erased == []
    {
      this.banks, this.driver, erased := banks, driver, [];
      protect := seq(|banks|, k requires 0 <= k < |banks| => seq(|banks[k].start|, _ => 0));
    }

    ghost predicate Valid()
      reads this
    {
      ValidBanks(banks) && |protect| == |banks| &&
      forall k :: 0 <= k < |banks| ==> |protect[k]| == |banks[k].start|
    }

    /** The bank loop of erase: stops at the first driver error. */
    method EraseBanks(sFirst: array<int>, sLast: array<int>, ghost ranges: seq<Range>) returns (rcode: int)
      requires Encodes(sFirst, sLast, ranges) && |ranges| == sFirst.Length
      modifies this`erased
      ensures EraseOutcome(erased, rcode) == EraseRun(ranges, driver, 0, old(erased))
    {
      rcode := 0;
      var bank := 0;
      while bank < sFirst.Length && rcode == 0
        invariant 0 <= bank <= sFirst.Length
        invariant EraseRun(ranges, driver, 0, old(erased)) ==
                  if rcode == 0 then EraseRun(ranges, driver, bank, erased) else EraseOutcome(erased, rcode)
      {
        if sFirst[bank] >= 0 {
          erased := erased + [EraseCall(bank, sFirst[bank], sLast[bank])];
          rcode := driver(bank);
        }
        bank := bank + 1;
      }
    }

    method SectErase(addrFirst: nat, addrLast: nat) returns (rcode: int)
      requires Valid()
      modifies this`erased
      ensures !Accepts(banks, addrFirst, addrLast) ==> rcode == 1 && erased == old(erased)
      ensures Accepts(banks, addrFirst, addrLast) ==>
        EraseOutcome(erased, rcode) ==
        EraseRun(PlanFrom(banks, addrFirst, addrLast).ranges, driver, 0, old(erased))
    {
      var sFirst, sLast := new int[|banks|], new int[|banks|];
      var planned;
      rcode, planned := FillSectRanges(banks, addrFirst, addrLast, sFirst, sLast);
      if planned != 0 && rcode == 0 {
        rcode := EraseBanks(sFirst, sLast, PlanFrom(banks, addrFirst, addrLast).ranges);
      } else if rcode == 0 {
        rcode := 1;
      }
    }

    /** Sets the flags of sectors first..last of one bank. */
    method ProtectRange(p: int, bank: nat, first: nat, last: nat)
      requires Valid() && bank < |banks| && first <= last < |banks[bank].start|
      modifies this`protect
      ensures Valid()
      ensures forall k, s :: IsSector(banks, k, s) ==>
        protect[k][s] == if k == bank && first <= s <= last then p else old(protect)[k][s]
    {
      var i := first;
      while i <= last
        invariant first <= i <= last + 1 && Valid()
        invariant forall k, s :: IsSector(banks, k, s) ==>
          protect[k][s] == if k == bank && first <= s < i then p else old(protect)[k][s]
      {
        protect := protect[bank := protect[bank][i := p]];
        i := i + 1;
      }
    }

    /** The bank loop of protect. */
    method ProtectBanks(p: int, sFirst: array<int>, sLast: array<int>, ghost ranges: seq<Range>)
      requires Valid() && |ranges| == |banks| && sFirst.Length == |banks| && Encodes(sFirst, sLast, ranges)
      requires forall k :: 0 <= k < |ranges| && ranges[k].Sectors? ==>
        banks[k].known && ranges[k].first <= ranges[k].last < |banks[k].start|
      modifies this`protect
      ensures Valid()
      ensures forall k, s :: IsSector(banks, k, s) ==>
        protect[k][s] == if Planned(ranges, k, s) then p else old(protect)[k][s]
    {
      var bank := 0;
      while bank < |banks|
        invariant 0 <= bank <= |banks| && Valid()
        invariant forall k, s :: IsSector(banks, k, s) ==>
          protect[k][s] == if k < bank && Planned(ranges, k, s) then p else old(protect)[k][s]
      {
        if banks[bank].known && sFirst[bank] >= 0 && sFirst[bank] <= sLast[bank] {
          ProtectRange(p, bank, sFirst[bank], sLast[bank]);
        }
        bank := bank + 1;
      }
    }

    /** Software protection: exactly the planned sectors get flag `p`. */
    method SectProtect(p: int, addrFirst: nat, addrLast: nat) returns (rcode: int)
      requires Valid()
      modifies this`protect
      ensures Valid()
      ensures rcode == if Accepts(banks, addrFirst, addrLast) then 0 else 1
      ensures forall k, s :: IsSector(banks, k, s) ==>
        protect[k][s] == if rcode == 0 && Planned(PlanFrom(banks, addrFirst, addrLast).ranges, k, s)
                         then p else old(protect)[k][s]
    {
      var sFirst, sLast := new int[|banks|], new int[|banks|];
      var planned;
      rcode, planned := FillSectRanges(banks, addrFirst, addrLast, sFirst, sLast);
      if planned != 0 && rcode == 0 {
        RangesOrdered(banks, addrFirst, addrLast);
        ProtectBanks(p, sFirst, sLast, PlanFrom(banks, addrFirst, addrLast).ranges);
      } else if rcode == 0 {
        rcode := 1;
      }
    }
  }

  /** The range an accepted bank step takes is a non-empty run of its sectors. */
  lemma {:induction false} RangesOrdered(banks: seq<Bank>, first: int, last: int)
    requires ValidBanks(banks)
    ensures
      var ranges := PlanFrom(banks, first, last).ranges;
      forall k :: 0 <= k < |ranges| && ranges[k].Sectors? ==>
        banks[k].known && ranges[k].first <= ranges[k].last < |banks[k].start|
    decreases |banks|
  {
    if banks != [] && first <= last && PlanBank(banks[0], first, last).Accept? {
      RangesOrdered(banks[1..], PlanBank(banks[0], first, last).next, last);
    }
  }
}
