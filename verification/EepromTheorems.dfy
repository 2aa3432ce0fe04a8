/** Chunked EEPROM transfers have the effect of one flat transfer. */
module EepromTheorems {
  import opened Arith
  import opened Eeprom
  import opened Machine

  // ---------------------------------------------------------------- chip selection

  lemma {:induction false} OrOfDisjoint(a: nat, b: nat)
    requires And(a, b) == 0
    ensures Or(a, b) == a + b
    decreases a
  {
    if a > 0 { OrOfDisjoint(a / 2, b / 2); }
  }

  lemma {:induction false} OrBound(a: nat, b: nat, n: nat)
    requires a < Pow2(n) && b < Pow2(n)
    ensures Or(a, b) < Pow2(n)
    decreases n
  {
    if a > 0 { OrBound(a / 2, b / 2, n - 1); }
  }

  /** Bit `k` of a number. */
  ghost function Bit(x: nat, k: nat): nat { x / Pow2(k) % 2 }

  lemma HalfDivided(x: nat, p: nat)
    requires p > 0
    ensures x / (2 * p) == x / 2 / p
  {
    var q, r := x / 2 / p, x / 2 % p;
    Divided(x / 2, p);
    assert x == q * (2 * p) + (2 * r + x % 2);
    DivUnique(q, 2 * r + x % 2, 2 * p);
  }

  lemma BitOfHalf(x: nat, k: nat)
    requires k > 0
    ensures Bit(x, k) == Bit(x / 2, k - 1)
  {
    HalfDivided(x, Pow2(k - 1));
  }

  lemma BitZero(x: nat)
    ensures Bit(x, 0) == x % 2
  {
  }

  lemma {:induction false} OrHalf(a: nat, b: nat)
    ensures Or(a, b) / 2 == Or(a / 2, b / 2) && (Or(a, b) % 2 == 1 <==> a % 2 == 1 || b % 2 == 1)
  {
  }

  lemma {:induction false} AndHalf(a: nat, b: nat)
    ensures And(a, b) / 2 == And(a / 2, b / 2) && (And(a, b) % 2 == 1 <==> a % 2 == 1 && b % 2 == 1)
  {
  }

  /** `Or` is bitwise or. */
  lemma {:induction false} OrIsBitwise(a: nat, b: nat, k: nat)
    ensures Bit(Or(a, b), k) == 1 <==> Bit(a, k) == 1 || Bit(b, k) == 1
    decreases k
  {
    OrHalf(a, b);
    if k == 0 {
      BitZero(a);
      BitZero(b);
      BitZero(Or(a, b));
    } else {
      OrIsBitwise(a / 2, b / 2, k - 1);
      BitOfHalf(a, k);
      BitOfHalf(b, k);
      BitOfHalf(Or(a, b), k);
    }
  }

  /** `And` is bitwise and. */
  lemma {:induction false} AndIsBitwise(a: nat, b: nat, k: nat)
    ensures Bit(And(a, b), k) == 1 <==> Bit(a, k) == 1 && Bit(b, k) == 1
    decreases k
  {
    AndHalf(a, b);
    if k == 0 {
      BitZero(a);
      BitZero(b);
      BitZero(And(a, b));
    } else {
      AndIsBitwise(a / 2, b / 2, k - 1);
      BitOfHalf(a, k);
      BitOfHalf(b, k);
      BitOfHalf(And(a, b), k);
    }
  }

  /** Page sizes by the number of page bits. */
  lemma PageSizes(c: Config)
    requires c.pageBits <= 8
    ensures c.PageSize() == [1, 2, 4, 8, 16, 32, 64, 128, 256][c.pageBits]
  {
    assert Pow2(3) == 8 && Pow2(6) == 64;
  }

  /** Which chip and which address in it an offset denotes, with one and with two address bytes. */
  lemma LocateByNumbers(w: Chips, offset: nat)
    ensures w.c.addrLen == 1 ==> Locate(w, offset) == Loc(Or(offset / 0x100 % 0x100, w.dev) % 0x100, offset % 0x100)
    ensures w.c.addrLen == 2 ==>
      Locate(w, offset) == Loc(Or(offset / 0x1_0000 % 0x100, w.dev) % 0x100, offset % 0x1_0000)
  {
  }

  /** Offsets of the first block lie on the device itself. */
  lemma {:induction false} FirstBlock(w: Chips, offset: nat)
    ensures w.c.addrLen == 1 && offset < 0x100 ==> Locate(w, offset) == Loc(w.dev, offset)
    ensures w.c.addrLen == 2 && offset < 0x1_0000 ==> Locate(w, offset) == Loc(w.dev, offset)
  {
    LocateByNumbers(w, offset);
  }

  /** The offset's block number fits the chip address and shares no bit with the device address. */
  ghost predicate Selectable(w: Chips, offset: nat) {
    offset / w.c.BlockSize() < 256 && And(offset / w.c.BlockSize(), w.dev) == 0
  }

  lemma Pow2Of8()
    ensures Pow2(8) == 256
  {
    assert Pow2(4) == 16;
  }

  lemma OrOfBytes(a: nat, b: nat)
    requires a < 256 && b < 256 && And(a, b) == 0
    ensures Or(a, b) == a + b < 256
  {
    OrOfDisjoint(a, b);
    Pow2Of8();
    OrBound(a, b, 8);
  }

  lemma ChipOf(w: Chips, offset: nat)
    requires Selectable(w, offset)
    ensures Chip(w, offset) == offset / w.c.BlockSize() + w.dev
  {
    ChipByte(offset / w.c.BlockSize(), w.dev);
  }

  lemma ChipByte(block: nat, dev: byte)
    requires block < 256 && And(block, dev) == 0
    ensures Or(block % 256, dev) % 256 == block + dev
  {
    LowByte(block);
    OrOfBytes(block, dev);
    LowByte(Or(block, dev));
  }

  lemma LowByte(x: nat)
    requires x < 256
    ensures x % 256 == x
  {
  }

  /** Different selectable offsets are different cells. */
  lemma LocateInjective(w: Chips, i: nat, j: nat)
    requires Selectable(w, i) && Selectable(w, j)
    requires Locate(w, i) == Locate(w, j)
    ensures i == j
  {
    ChipOf(w, i);
    ChipOf(w, j);
    Divided(i, w.c.BlockSize());
    Divided(j, w.c.BlockSize());
  }

  // ---------------------------------------------------------------- chunks and pages

  lemma PageDivides(c: Config) returns (m: nat)
    requires c.Valid()
    ensures c.PageSize() * m == 256 && m > 0
  {
    var b := c.pageBits;
    m := if b == 0 then 256 else if b == 1 then 128 else if b == 2 then 64 else if b == 3 then 32
         else if b == 4 then 16 else if b == 5 then 8 else if b == 6 then 4 else if b == 7 then 2 else 1;
    assert Pow2(2) == 4;
    assert Pow2(4) == 16;
    assert Pow2(6) == 64;
    assert Pow2(8) == 256;
  }

  lemma Regroup(q: nat, page: nat, m: nat, p: nat)
    ensures q * (page * m) + p * page == (q * m + p) * page
  {
    calc {
      q * (page * m) + p * page;
      (q * m) * page + p * page;
      (q * m + p) * page;
    }
  }

  lemma PageParts(x: nat, q: nat, p: nat, r: nat, page: nat, m: nat)
    requires r < page && p < m && x == q * (page * m) + (p * page + r)
    ensures x % page == r
    ensures p * page + page <= page * m
  {
    Regroup(q, page, m, p);
    DivUnique(q * m + p, r, page);
    MulMonotone(p + 1, m, page);
  }

  lemma Divided(x: nat, d: nat)
    requires d > 0
    ensures x == (x / d) * d + x % d && x / d >= 0
  {
  }

  /** A page inside a larger aligned area: the remainder modulo the area determines the
      remainder modulo the page, and the rest of the page lies in the area. */
  lemma PageInArea(x: nat, page: nat, m: nat, area: nat)
    requires page > 0 && page * m == area && area > 0
    ensures x % area % page == x % page
    ensures x % area + (page - x % page) <= area
  {
    var q, a := x / area, x % area;
    Divided(x, area);
    var p, r := a / page, a % page;
    Divided(a, page);
    DivBound(a, page, m);
    PageParts(x, q, p, r, page, m);
  }

  /** The page of an offset lies inside its 256-byte block and its chip-select block. */
  lemma PageFacts(c: Config, offset: nat)
    requires c.Valid()
    ensures offset % 256 % c.PageSize() == offset % c.PageSize()
    ensures offset % c.BlockSize() % c.PageSize() == offset % c.PageSize()
    ensures offset % c.BlockSize() + (c.PageSize() - offset % c.PageSize()) <= c.BlockSize()
  {
    var m := PageDivides(c);
    PageInArea(offset, c.PageSize(), m, 256);
    if c.addrLen == 2 {
      assert c.PageSize() * (m * 256) == c.PageSize() * m * 256;
      PageInArea(offset, c.PageSize(), m * 256, c.BlockSize());
    }
  }

  /** A chunk crosses neither a page nor a chip-select block. */
  lemma ChunkStays(w: Chips, offset: nat, left: nat, k: nat)
    requires w.c.Valid() && k < Len(w.c, offset, left)
    ensures offset % w.c.PageSize() + Len(w.c, offset, left) <= w.c.PageSize()
    ensures offset % w.c.BlockSize() % w.c.PageSize() == offset % w.c.PageSize()
    ensures (offset + k) / w.c.PageSize() == offset / w.c.PageSize()
    ensures Locate(w, offset + k) == Loc(Chip(w, offset), offset % w.c.BlockSize() + k)
  {
    PageFacts(w.c, offset);
    Advance(offset, k, w.c.BlockSize());
    Advance(offset, k, w.c.PageSize());
  }

  lemma Advance(x: nat, k: nat, d: nat)
    requires d > 0 && x % d + k < d
    ensures (x + k) / d == x / d && (x + k) % d == x % d + k
  {
    Divided(x, d);
    DivUnique(x / d, x % d + k, d);
  }

  lemma CounterStays(start: nat, k: nat, page: nat)
    requires page > 0 && start % page + k < page
    ensures Counter(start, k, page) == start + k
  {
    DivUnique(0, start % page + k, page);
  }

  /** The address counter stays in the page and goes round in it. */
  lemma CounterWraps(start: nat, k: nat, page: nat)
    requires page > 0
    ensures Counter(start, k, page) / page == start / page
    ensures Counter(start, k, page) % page == (start % page + k) % page
  {
    Divided(start, page);
    DivUnique(start / page, (start % page + k) % page, page);
  }

  /** Within a page, storing bytes changes exactly the cells they are for. */
  lemma {:induction false} StoreEffect(
      cells: map<Loc, byte>, chip: nat, start: nat, page: nat, data: seq<byte>, k: nat, l: Loc)
    requires page > 0 && start % page + |data| <= page && k <= |data|
    ensures Cell(Store(cells, chip, start, page, data, k), l) ==
            if l.chip == chip && start + k <= l.addr < start + |data| then data[l.addr - start] else Cell(cells, l)
    decreases |data| - k
  {
    if k < |data| {
      CounterStays(start, k, page);
      StoreEffect(cells[Loc(chip, start + k) := data[k]], chip, start, page, data, k + 1, l);
    }
  }

  // ---------------------------------------------------------------- flat effect

  /** Cell `l` is that of an offset in [offset, offset + n). */
  ghost predicate InRange(w: Chips, offset: nat, n: nat, l: Loc) {
    exists j: nat :: offset <= j < offset + n && Locate(w, j) == l
  }

  /** A chunk starts where its page has room for it. */
  lemma ChunkStart(w: Chips, offset: nat, left: nat)
    requires w.c.Valid() && Len(w.c, offset, left) > 0
    ensures offset % w.c.BlockSize() % w.c.PageSize() + Len(w.c, offset, left) <= w.c.PageSize()
  {
    ChunkStays(w, offset, left, 0);
  }

  lemma StorePrefix(cells: map<Loc, byte>, chip: nat, start: nat, page: nat, chunk: seq<byte>, n: nat, l: Loc)
    requires page > 0 && n <= |chunk| && start % page + |chunk| <= page
    ensures Cell(Store(cells, chip, start, page, chunk[..n], 0), l) ==
            if l.chip == chip && start <= l.addr < start + n then chunk[l.addr - start] else Cell(cells, l)
  {
    StoreEffect(cells, chip, start, page, chunk[..n], 0, l);
  }

  /** What one chunk does to one cell. */
  lemma ChunkEffect(w: Chips, bus: Bus, offset: nat, chunk: seq<byte>, left: nat, l: Loc)
    requires w.c.Valid() && |chunk| == Len(w.c, offset, left) > 0
    ensures
      var after, start := I2cWrite(w, bus, offset, chunk).0, offset % w.c.BlockSize();
      Cell(after.cells, l) ==
      if l.chip == Chip(w, offset) && start <= l.addr < start + Moved(bus.accepts, bus.xfers, |chunk|)
      then chunk[l.addr - start] else Cell(bus.cells, l)
  {
    ChunkStart(w, offset, left);
    var n := Moved(bus.accepts, bus.xfers, |chunk|);
    StorePrefix(bus.cells, Chip(w, offset), offset % w.c.BlockSize(), w.c.PageSize(), chunk, n, l);
  }

  lemma ChunkOutside(w: Chips, bus: Bus, offset: nat, chunk: seq<byte>, left: nat, l: Loc)
    requires w.c.Valid() && |chunk| == Len(w.c, offset, left) > 0 && !InRange(w, offset, |chunk|, l)
    ensures Cell(I2cWrite(w, bus, offset, chunk).0.cells, l) == Cell(bus.cells, l)
  {
    ChunkEffect(w, bus, offset, chunk, left, l);
    var k := l.addr - offset % w.c.BlockSize();
    if 0 <= k < |chunk| { ChunkStays(w, offset, left, k); }
  }

  lemma ChunkInside(w: Chips, bus: Bus, offset: nat, chunk: seq<byte>, left: nat, k: nat)
    requires w.c.Valid() && |chunk| == Len(w.c, offset, left) > 0
    requires k < |chunk| == Moved(bus.accepts, bus.xfers, |chunk|)
    ensures Cell(I2cWrite(w, bus, offset, chunk).0.cells, Locate(w, offset + k)) == chunk[k]
  {
    ChunkEffect(w, bus, offset, chunk, left, Locate(w, offset + k));
    ChunkStays(w, offset, left, k);
  }

  /** A write, whatever transfers fail, changes no cell outside its range. */
  lemma {:induction false} WriteTouchesOnlyRange(
      w: Chips, bus: Bus, offset: nat, data: seq<byte>, at: nat, rc: int, l: Loc)
    requires w.c.Valid() && at <= |data| && !InRange(w, offset + at, |data| - at, l)
    ensures Cell(WriteFrom(w, bus, offset, data, at, rc).0.cells, l) == Cell(bus.cells, l)
    decreases |data| - at
  {
    if at < |data| {
      var len := Len(w.c, offset + at, |data| - at);
      var chunk := data[at..at + len];
      var r := I2cWrite(w, bus, offset + at, chunk);
      ChunkOutside(w, bus, offset + at, chunk, |data| - at, l);
      WriteTouchesOnlyRange(w, r.0, offset, data, at + len, r.1, l);
    }
  }

  /** Every transfer from now on moves all its bytes. */
  ghost predicate Healthy(bus: Bus) {
    forall k :: bus.xfers <= k < |bus.accepts| ==> bus.accepts[k] >= I2C_RXTX_LEN
  }

  ghost predicate AllSelectable(w: Chips, offset: nat, n: nat) {
    forall j: nat :: offset <= j < offset + n ==> Selectable(w, j)
  }

  /** No two offsets of the range denote the same cell. */
  ghost predicate Distinct(w: Chips, offset: nat, n: nat) {
    forall i: nat, j: nat :: offset <= i < j < offset + n ==> Locate(w, i) != Locate(w, j)
  }

  lemma SelectableDistinct(w: Chips, offset: nat, n: nat)
    requires AllSelectable(w, offset, n)
    ensures Distinct(w, offset, n)
  {
    forall i: nat, j: nat | offset <= i < j < offset + n ensures Locate(w, i) != Locate(w, j) {
      if Locate(w, i) == Locate(w, j) { LocateInjective(w, i, j); }
    }
  }

  lemma {:induction false} WriteSucceeds(w: Chips, bus: Bus, offset: nat, data: seq<byte>, at: nat, rc: int)
    requires Healthy(bus) && at <= |data|
    ensures
      var r := WriteFrom(w, bus, offset, data, at, rc);
      (r.1 == if at == |data| then rc else 0) && Healthy(r.0)
    decreases |data| - at
  {
    if at < |data| {
      var len := Len(w.c, offset + at, |data| - at);
      var r := I2cWrite(w, bus, offset + at, data[at..at + len]);
      WriteSucceeds(w, r.0, offset, data, at + len, r.1);
    }
  }

  /** The chunk at `at`: where it ends, and the bus and result after it. */
  lemma {:induction false} WriteUnfolds(w: Chips, bus: Bus, offset: nat, data: seq<byte>, at: nat, rc: int)
      returns (next: nat, r: (Bus, int))
    requires at < |data|
    ensures at < next <= |data| && next == at + Len(w.c, offset + at, |data| - at)
    ensures r.0.xfers == bus.xfers + 1 && r.0.accepts == bus.accepts
    ensures r == I2cWrite(w, bus, offset + at, data[at..next])
    ensures WriteFrom(w, bus, offset, data, at, rc) == WriteFrom(w, r.0, offset, data, next, r.1)
  {
    next := at + Len(w.c, offset + at, |data| - at);
    r := I2cWrite(w, bus, offset + at, data[at..next]);
  }

  /** Later chunks leave the bytes before them alone. */
  lemma {:induction false} LaterChunksKeep(
      w: Chips, bus: Bus, offset: nat, data: seq<byte>, at: nat, rc: int, i: nat, l: Loc)
    requires w.c.Valid() && Distinct(w, offset, |data|) && i < at <= |data| && l == Locate(w, offset + i)
    ensures Cell(WriteFrom(w, bus, offset, data, at, rc).0.cells, l) == Cell(bus.cells, l)
  {
    NotLater(w, offset, at, |data|, i);
    WriteTouchesOnlyRange(w, bus, offset, data, at, rc, l);
  }

  /** The bytes of the next chunk are stored. */
  lemma {:induction false} NextChunkStored(w: Chips, bus: Bus, offset: nat, data: seq<byte>, at: nat, i: nat, next: nat)
    requires w.c.Valid() && Healthy(bus) && at < |data|
    requires next == at + Len(w.c, offset + at, |data| - at) && at <= i < next
    ensures Cell(I2cWrite(w, bus, offset + at, data[at..next]).0.cells, Locate(w, offset + i)) == data[i]
  {
    ChunkInside(w, bus, offset + at, data[at..next], |data| - at, i - at);
  }

  /** The next chunk stores byte `i`, or byte `i` is left to the chunks after it. */
  lemma {:induction false} WriteStep(
      w: Chips, bus: Bus, offset: nat, data: seq<byte>, at: nat, rc: int, i: nat, l: Loc, all: (Bus, int))
      returns (next: nat, bus': Bus, rc': int)
    requires w.c.Valid() && Healthy(bus) && Distinct(w, offset, |data|) && at <= i < |data|
    requires l == Locate(w, offset + i) && all == WriteFrom(w, bus, offset, data, at, rc)
    ensures at < next <= |data| && Healthy(bus')
    ensures i < next ==> Cell(all.0.cells, l) == data[i]
    ensures all == WriteFrom(w, bus', offset, data, next, rc')
  {
    var r;
    next, r := WriteUnfolds(w, bus, offset, data, at, rc);
    bus', rc' := r.0, r.1;
    if i < next {
      NextChunkStored(w, bus, offset, data, at, i, next);
      LaterChunksKeep(w, bus', offset, data, next, rc', i, l);
    }
  }

  /** The write of the bytes from `at` on ends in `all`, which holds byte `i` in its cell `l`. */
  lemma {:induction false} WriteStoresByte(
      w: Chips, bus: Bus, offset: nat, data: seq<byte>, at: nat, rc: int, i: nat, l: Loc, all: (Bus, int))
    requires w.c.Valid() && Healthy(bus) && Distinct(w, offset, |data|) && at <= i < |data|
    requires l == Locate(w, offset + i) && all == WriteFrom(w, bus, offset, data, at, rc)
    ensures Cell(all.0.cells, l) == data[i]
    decreases |data| - at
  {
    var next, bus', rc' := WriteStep(w, bus, offset, data, at, rc, i, l, all);
    if next <= i { WriteStoresByte(w, bus', offset, data, next, rc', i, l, all); }
  }

  /** A write on a healthy bus has the effect of one flat write of the bytes it handles. */
  lemma WriteStores(w: Chips, bus: Bus, offset: nat, data: seq<byte>, i: nat)
    requires w.c.Valid() && Healthy(bus) && Distinct(w, offset, |data|) && i < Handled(offset, |data|)
    ensures Cell(WriteCall(w, bus, offset, data).0.cells, Locate(w, offset + i)) == data[i]
  {
    assert data[..|data|] == data;
    WriteStoresByte(w, bus, offset, data, 0, 0, i, Locate(w, offset + i), WriteFrom(w, bus, offset, data, 0, 0));
  }

  lemma NotLater(w: Chips, offset: nat, len: nat, n: nat, i: nat)
    requires Distinct(w, offset, n) && i < len <= n
    ensures !InRange(w, offset + len, n - len, Locate(w, offset + i))
  {
  }

  lemma ChunkFetched(w: Chips, bus: Bus, offset: nat, buf: seq<byte>, left: nat, k: nat)
    requires w.c.Valid() && |buf| == Len(w.c, offset, left) && k < |buf| == Moved(bus.accepts, bus.xfers, |buf|)
    ensures I2cRead(w, bus, offset, buf).1[k] == Cell(bus.cells, Locate(w, offset + k))
    ensures I2cRead(w, bus, offset, buf).2 == 0
  {
    ChunkStays(w, offset, left, k);
    CounterStays(offset % w.c.BlockSize(), k, w.c.PageSize());
  }

  lemma {:induction false} ReadSucceeds(w: Chips, bus: Bus, offset: nat, buf: seq<byte>, at: nat, rc: int)
    requires Healthy(bus) && at <= |buf|
    ensures
      var r := ReadFrom(w, bus, offset, buf, at, rc);
      && (r.2 == if at == |buf| then rc else 0) && r.0.cells == bus.cells
      && forall k :: 0 <= k < at ==> r.1[k] == buf[k]
    decreases |buf| - at
  {
    if at < |buf| {
      var len := Len(w.c, offset + at, |buf| - at);
      var r := I2cRead(w, bus, offset + at, buf[at..at + len]);
      ReadSucceeds(w, r.0, offset, Splice(buf, at, r.1), at + len, r.2);
    }
  }

  lemma {:induction false} ReadUnfolds(w: Chips, bus: Bus, offset: nat, buf: seq<byte>, at: nat, rc: int)
      returns (next: nat, r: (Bus, seq<byte>, int))
    requires at < |buf|
    ensures at < next <= |buf| && next == at + Len(w.c, offset + at, |buf| - at) && r.0 == bus.(xfers := bus.xfers + 1)
    ensures r == I2cRead(w, bus, offset + at, buf[at..next]) && |r.1| == next - at
    ensures ReadFrom(w, bus, offset, buf, at, rc) == ReadFrom(w, r.0, offset, Splice(buf, at, r.1), next, r.2)
  {
    next := at + Len(w.c, offset + at, |buf| - at);
    r := I2cRead(w, bus, offset + at, buf[at..next]);
  }

  /** Later chunks leave the bytes before them alone. */
  lemma {:induction false} LaterReadsKeep(
      w: Chips, bus: Bus, offset: nat, buf: seq<byte>, at: nat, rc: int, i: nat, all: (Bus, seq<byte>, int))
    requires Healthy(bus) && i < at <= |buf| && all == ReadFrom(w, bus, offset, buf, at, rc)
    ensures all.1[i] == buf[i]
  {
    ReadSucceeds(w, bus, offset, buf, at, rc);
  }

  /** The next chunk brings the cells it is for. */
  lemma {:induction false} NextChunkRead(w: Chips, bus: Bus, offset: nat, buf: seq<byte>, at: nat, i: nat, next: nat)
    requires w.c.Valid() && Healthy(bus) && at < |buf|
    requires next == at + Len(w.c, offset + at, |buf| - at) && at <= i < next
    ensures I2cRead(w, bus, offset + at, buf[at..next]).1[i - at] == Cell(bus.cells, Locate(w, offset + i))
  {
    ChunkFetched(w, bus, offset + at, buf[at..next], |buf| - at, i - at);
  }

  /** The next chunk brings byte `i`, or byte `i` is left to the chunks after it. */
  lemma {:induction false} ReadStep(
      w: Chips, bus: Bus, offset: nat, buf: seq<byte>, at: nat, rc: int, i: nat, b: byte, all: (Bus, seq<byte>, int))
      returns (next: nat, bus': Bus, buf': seq<byte>, rc': int)
    requires w.c.Valid() && Healthy(bus) && at <= i < |buf|
    requires b == Cell(bus.cells, Locate(w, offset + i)) && all == ReadFrom(w, bus, offset, buf, at, rc)
    ensures at < next <= |buf| == |buf'| && Healthy(bus') && bus'.cells == bus.cells
    ensures i < next ==> all.1[i] == b
    ensures all == ReadFrom(w, bus', offset, buf', next, rc')
  {
    var r;
    next, r := ReadUnfolds(w, bus, offset, buf, at, rc);
    bus', buf', rc' := r.0, Splice(buf, at, r.1), r.2;
    if i < next {
      NextChunkRead(w, bus, offset, buf, at, i, next);
      LaterReadsKeep(w, bus', offset, buf', next, rc', i, all);
    }
  }

  lemma {:induction false} ReadReturnsByte(
      w: Chips, bus: Bus, offset: nat, buf: seq<byte>, at: nat, rc: int, i: nat, b: byte, all: (Bus, seq<byte>, int))
    requires w.c.Valid() && Healthy(bus) && at <= i < |buf|
    requires b == Cell(bus.cells, Locate(w, offset + i)) && all == ReadFrom(w, bus, offset, buf, at, rc)
    ensures all.1[i] == b
    decreases |buf| - at
  {
    var next, bus', buf', rc' := ReadStep(w, bus, offset, buf, at, rc, i, b, all);
    if next <= i { ReadReturnsByte(w, bus', offset, buf', next, rc', i, b, all); }
  }

  /** A read on a healthy bus returns the cells of the bytes it handles in order, and leaves the
      rest of the buffer as it was. */
  lemma ReadReturns(w: Chips, bus: Bus, offset: nat, buf: seq<byte>, i: nat)
    requires w.c.Valid() && Healthy(bus) && i < |buf|
    ensures ReadCall(w, bus, offset, buf).1[i] ==
            if i < Handled(offset, |buf|) then Cell(bus.cells, Locate(w, offset + i)) else buf[i]
  {
    if i < Handled(offset, |buf|) {
      assert buf[..|buf|] == buf;
      ReadReturnsByte(w, bus, offset, buf, 0, 0, i, Cell(bus.cells, Locate(w, offset + i)),
                      ReadFrom(w, bus, offset, buf, 0, 0));
    }
  }

  /** Reading a range back after writing it gives the written bytes. */
  lemma WriteReadRoundTrip(w: Chips, bus: Bus, offset: nat, data: seq<byte>, buf: seq<byte>)
    requires w.c.Valid() && Healthy(bus) && Distinct(w, offset, |data|) && |buf| == |data|
    requires offset + |data| < U32
    ensures
      var (bus', rc) := WriteCall(w, bus, offset, data);
      rc == 0 && ReadCall(w, bus', offset, buf).1 == data
  {
    var (bus', rc) := WriteCall(w, bus, offset, data);
    var back := ReadCall(w, bus', offset, buf).1;
    WriteSucceeds(w, bus, offset, data[..Handled(offset, |data|)], 0, 0);
    forall i | 0 <= i < |data| ensures back[i] == data[i] {
      WriteStores(w, bus, offset, data, i);
      ReadReturns(w, bus', offset, buf, i);
    }
  }
}
