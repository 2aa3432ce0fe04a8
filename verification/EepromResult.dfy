/** What the result of a chunked EEPROM transfer says about the transfer. */
module EepromResult {
  import opened Eeprom
  import opened EepromTheorems
  import opened Machine

  // ---------------------------------------------------------------- the deciding transfer

  /** Number of transfers for bytes at..n of a range, and where the last of them starts. */
  ghost function Chunks(c: Config, offset: nat, n: nat, at: nat): nat
    requires at <= n
    decreases n - at
  {
    if at == n then 0 else 1 + Chunks(c, offset, n, at + Len(c, offset + at, n - at))
  }

  ghost function LastStart(c: Config, offset: nat, n: nat, at: nat): (r: nat)
    requires at < n
    ensures at <= r < n
    decreases n - at
  {
    var next := at + Len(c, offset + at, n - at);
    if next == n then at else LastStart(c, offset, n, next)
  }

  /** The transfer numbered `k` moves fewer than `n` bytes. */
  predicate Short(bus: Bus, k: nat, n: nat) { Moved(bus.accepts, k, n) < n }

  lemma ChunkAhead(c: Config, offset: nat, n: nat, at: nat, next: nat)
    requires at < next <= n && next == at + Len(c, offset + at, n - at)
    ensures Chunks(c, offset, n, at) == 1 + Chunks(c, offset, n, next)
    ensures LastStart(c, offset, n, at) == if next == n then at else LastStart(c, offset, n, next)
    ensures next < n ==> Chunks(c, offset, n, next) > 0
    ensures next == n ==> Chunks(c, offset, n, next) == 0
  {
  }

  /** The number of the last transfer of a range. */
  ghost function LastNumber(c: Config, bus: Bus, offset: nat, n: nat, at: nat): (k: int)
    requires at <= n
  {
    bus.xfers + Chunks(c, offset, n, at) - 1
  }

  /** The result of a write is that of its last transfer alone: 1 exactly when the entry of the
      schedule for that transfer, whose number is known from the range, stops it short. */
  lemma {:induction false} ResultIsLastTransfer(w: Chips, bus: Bus, offset: nat, data: seq<byte>, at: nat, rc: int)
    requires at < |data|
    ensures
      var last, k := LastStart(w.c, offset, |data|, at), LastNumber(w.c, bus, offset, |data|, at);
      k >= bus.xfers && WriteFrom(w, bus, offset, data, at, rc).1 == if Short(bus, k, |data| - last) then 1 else 0
    decreases |data| - at
  {
    var next, r := WriteUnfolds(w, bus, offset, data, at, rc);
    ChunkAhead(w.c, offset, |data|, at, next);
    if next < |data| { ResultIsLastTransfer(w, r.0, offset, data, next, r.1); }
  }

  /** The same for a read. */
  lemma {:induction false} ReadResultIsLastTransfer(w: Chips, bus: Bus, offset: nat, buf: seq<byte>, at: nat, rc: int)
    requires at < |buf|
    ensures
      var last, k := LastStart(w.c, offset, |buf|, at), LastNumber(w.c, bus, offset, |buf|, at);
      k >= bus.xfers && ReadFrom(w, bus, offset, buf, at, rc).2 == if Short(bus, k, |buf| - last) then 1 else 0
    decreases |buf| - at
  {
    var next, r := ReadUnfolds(w, bus, offset, buf, at, rc);
    ChunkAhead(w.c, offset, |buf|, at, next);
    if next < |buf| { ReadResultIsLastTransfer(w, r.0, offset, Splice(buf, at, r.1), next, r.2); }
  }

  // ---------------------------------------------------------------- masked errors

  /** The bus after one more transfer is free of faults. */
  ghost predicate HealthyAfterNext(bus: Bus) { Healthy(bus.(xfers := bus.xfers + 1)) }

  /** A chunk stopped short leaves the cells of the bytes it did not move. */
  lemma KeptByShortWrite(w: Chips, bus: Bus, offset: nat, chunk: seq<byte>, left: nat, k: nat, l: Loc)
    requires w.c.Valid() && |chunk| == Len(w.c, offset, left)
    requires Moved(bus.accepts, bus.xfers, |chunk|) <= k < |chunk| && l == Locate(w, offset + k)
    ensures Cell(I2cWrite(w, bus, offset, chunk).0.cells, l) == Cell(bus.cells, l)
  {
    ChunkStays(w, offset, left, k);
    ChunkEffect(w, bus, offset, chunk, left, l);
  }

  /** Whenever a chunk that is not the last is stopped short and the later ones are not, the
      write reports success, and the bytes the chunk did not move are not stored. */
  lemma {:induction false} EarlyErrorIsMasked(
      w: Chips, bus: Bus, offset: nat, data: seq<byte>, at: nat, rc: int, len: nat, i: nat)
    requires w.c.Valid() && Distinct(w, offset, |data|) && HealthyAfterNext(bus)
    requires at < |data| && len == Len(w.c, offset + at, |data| - at) < |data| - at
    requires at + Moved(bus.accepts, bus.xfers, len) <= i < at + len
    ensures
      var r, l := WriteFrom(w, bus, offset, data, at, rc), Locate(w, offset + i);
      r.1 == 0 && Cell(r.0.cells, l) == Cell(bus.cells, l)
  {
    var l := Locate(w, offset + i);
    var next, r := WriteUnfolds(w, bus, offset, data, at, rc);
    KeptByShortWrite(w, bus, offset + at, data[at..next], |data| - at, i - at, l);
    LaterWritesFine(w, r.0, offset, data, next, r.1, i, l, WriteFrom(w, bus, offset, data, at, rc));
  }

  /** On a healthy bus the rest of a write succeeds and leaves the cells before it alone. */
  lemma {:induction false} LaterWritesFine(
      w: Chips, bus: Bus, offset: nat, data: seq<byte>, at: nat, rc: int, i: nat, l: Loc, all: (Bus, int))
    requires w.c.Valid() && Distinct(w, offset, |data|) && Healthy(bus) && i < at < |data|
    requires l == Locate(w, offset + i) && all == WriteFrom(w, bus, offset, data, at, rc)
    ensures all.1 == 0 && Cell(all.0.cells, l) == Cell(bus.cells, l)
  {
    LaterChunksKeep(w, bus, offset, data, at, rc, i, l);
    WriteSucceeds(w, bus, offset, data, at, rc);
  }

  lemma KeptInSplice(buf: seq<byte>, at: nat, next: nat, got: seq<byte>, i: nat)
    requires at <= i < next <= |buf| && |got| == next - at && got[i - at] == buf[at..next][i - at]
    ensures Splice(buf, at, got)[i] == buf[i]
  {
  }

  lemma StaleByte(w: Chips, bus: Bus, offset: nat, buf: seq<byte>, next: nat, at: nat, i: nat, r: (Bus, seq<byte>, int))
    requires at < next <= |buf| && at + Moved(bus.accepts, bus.xfers, next - at) <= i < next
    requires r == I2cRead(w, bus, offset + at, buf[at..next])
    ensures Splice(buf, at, r.1)[i] == buf[i]
  {
    KeptByShortRead(w, bus, offset + at, buf[at..next], i - at);
    KeptInSplice(buf, at, next, r.1, i);
  }

  /** The same for a read: the buffer keeps its stale bytes and success is reported. */
  lemma {:induction false} EarlyReadErrorIsMasked(
      w: Chips, bus: Bus, offset: nat, buf: seq<byte>, at: nat, rc: int, len: nat, i: nat)
    requires HealthyAfterNext(bus)
    requires at < |buf| && len == Len(w.c, offset + at, |buf| - at) < |buf| - at
    requires at + Moved(bus.accepts, bus.xfers, len) <= i < at + len
    ensures
      var r := ReadFrom(w, bus, offset, buf, at, rc);
      r.2 == 0 && r.1[i] == buf[i]
  {
    var next, r := ReadUnfolds(w, bus, offset, buf, at, rc);
    StaleByte(w, bus, offset, buf, next, at, i, r);
    LaterReadsFine(w, r.0, offset, Splice(buf, at, r.1), next, r.2, i, ReadFrom(w, bus, offset, buf, at, rc));
  }

  /** On a healthy bus the rest of a read succeeds and leaves the bytes before it alone. */
  lemma {:induction false} LaterReadsFine(
      w: Chips, bus: Bus, offset: nat, buf: seq<byte>, at: nat, rc: int, i: nat, all: (Bus, seq<byte>, int))
    requires Healthy(bus) && i < at < |buf| && all == ReadFrom(w, bus, offset, buf, at, rc)
    ensures all.2 == 0 && all.1[i] == buf[i]
  {
    ReadSucceeds(w, bus, offset, buf, at, rc);
  }

  lemma KeptByShortRead(w: Chips, bus: Bus, offset: nat, buf: seq<byte>, k: nat)
    requires Moved(bus.accepts, bus.xfers, |buf|) <= k < |buf|
    ensures I2cRead(w, bus, offset, buf).1[k] == buf[k]
  {
  }

  lemma TinyPages(w: Chips)
    requires w.c == Config(1, 0)
    ensures w.c.Valid() && Len(w.c, 0, 2) == 1 && Distinct(w, 0, 2)
  {
    assert w.c.PageSize() == 1;
    forall j: nat | j < 2 ensures Selectable(w, j) { assert And(0, w.dev) == 0; }
    SelectableDistinct(w, 0, 2);
  }

  /** A chunk that moves nothing and is not the last is lost. */
  lemma ChunkLost(w: Chips, bus: Bus, offset: nat, data: seq<byte>, at: nat, rc: int, l: Loc, r: (Bus, int))
    requires w.c.Valid() && Distinct(w, offset, |data|)
    requires at < |data| && Len(w.c, offset + at, |data| - at) < |data| - at
    requires HealthyAfterNext(bus) && bus.xfers < |bus.accepts| && bus.accepts[bus.xfers] == 0
    requires l == Locate(w, offset + at) && r == WriteFrom(w, bus, offset, data, at, rc)
    ensures r.1 == 0 && Cell(r.0.cells, l) == Cell(bus.cells, l)
  {
    EarlyErrorIsMasked(w, bus, offset, data, at, rc, Len(w.c, offset + at, |data| - at), at);
  }

  /** Such writes exist: two bytes on one-byte pages, with a fault in the first transfer. */
  lemma MaskedErrorExists(w: Chips, bus: Bus, offset: nat, data: seq<byte>)
    requires w.c == Config(1, 0) && bus == Bus(map[], 0, [0]) && offset == 0 && data == [1, 2]
    ensures
      var r := WriteFrom(w, bus, offset, data, 0, 0);
      r.1 == 0 && Cell(r.0.cells, Locate(w, offset)) == 0xFF
  {
    TinyPages(w);
    ChunkLost(w, bus, offset, data, 0, 0, Locate(w, offset), WriteFrom(w, bus, offset, data, 0, 0));
  }

  // ---------------------------------------------------------------- when success can be trusted

  ghost predicate Stored(w: Chips, cells: map<Loc, byte>, offset: nat, data: seq<byte>) {
    forall i :: 0 <= i < |data| ==> Cell(cells, Locate(w, offset + i)) == data[i]
  }

  /** Whatever the bus does, a reported success means that the data was written. */
  ghost predicate WriteHonest(w: Chips, offset: nat, data: seq<byte>) {
    forall bus ::
      var r := WriteCall(w, bus, offset, data);
      r.1 == 0 ==> Stored(w, r.0.cells, offset, data)
  }

  /** Whatever the bus does, a reported success means that `n` bytes were read. */
  ghost predicate ReadHonest(w: Chips, offset: nat, n: nat) {
    forall bus, buf: seq<byte> :: |buf| == n ==>
      var r := ReadCall(w, bus, offset, buf);
      r.2 == 0 ==> Stored(w, bus.cells, offset, r.1)
  }

  /** A range that leaves 32 bits: no byte is moved, and success is reported. */
  lemma WrappedMovesNothing(w: Chips, bus: Bus, offset: nat, data: seq<byte>)
    requires offset + |data| >= U32
    ensures WriteCall(w, bus, offset, data) == (bus, 0) && ReadCall(w, bus, offset, data) == (bus, data, 0)
  {
    assert data[..0] == [] && [] + data[0..] == data;
  }

  /** A range inside 32 bits is handled as a whole. */
  lemma InsideIsWhole(w: Chips, bus: Bus, offset: nat, data: seq<byte>)
    requires offset + |data| < U32
    ensures WriteCall(w, bus, offset, data) == WriteFrom(w, bus, offset, data, 0, 0)
    ensures ReadCall(w, bus, offset, data) == ReadFrom(w, bus, offset, data, 0, 0)
  {
    assert data[..|data|] == data;
    var got := ReadFrom(w, bus, offset, data, 0, 0).1;
    assert got + data[|data|..] == got;
  }

  /** The last byte of the address space is neither written nor read, and success is reported. */
  lemma LastAddressFails(w: Chips, bus: Bus, offset: nat, data: seq<byte>)
    requires offset == 0xFFFF_FFFF && bus == Bus(map[], 0, []) && data == [0]
    ensures WriteCall(w, bus, offset, data).1 == 0 && !Stored(w, WriteCall(w, bus, offset, data).0.cells, offset, data)
    ensures ReadCall(w, bus, offset, data).2 == 0 && !Stored(w, bus.cells, offset, ReadCall(w, bus, offset, data).1)
  {
    WrappedMovesNothing(w, bus, offset, data);
    assert Cell(bus.cells, Locate(w, offset + 0)) == 0xFF != data[0];
  }

  lemma OneChunkStores(w: Chips, bus: Bus, offset: nat, data: seq<byte>)
    requires w.c.Valid() && 0 < |data| == Len(w.c, offset, |data|)
    ensures
      var r := WriteFrom(w, bus, offset, data, 0, 0);
      r.1 == 0 ==> Stored(w, r.0.cells, offset, data)
  {
    var next, r := WriteUnfolds(w, bus, offset, data, 0, 0);
    assert data[0..next] == data;
    if r.1 == 0 {
      forall i | 0 <= i < |data| ensures Cell(r.0.cells, Locate(w, offset + i)) == data[i] {
        ChunkInside(w, bus, offset, data, |data|, i);
      }
    }
  }

  lemma ReadIsOneChunk(w: Chips, bus: Bus, offset: nat, buf: seq<byte>)
    requires 0 < |buf| == Len(w.c, offset, |buf|)
    ensures ReadFrom(w, bus, offset, buf, 0, 0) == I2cRead(w, bus, offset, buf)
  {
    var next, r := ReadUnfolds(w, bus, offset, buf, 0, 0);
    assert buf[0..next] == buf && Splice(buf, 0, r.1) == r.1;
  }

  lemma OneChunkReads(w: Chips, bus: Bus, offset: nat, buf: seq<byte>, r: (Bus, seq<byte>, int))
    requires w.c.Valid() && 0 < |buf| == Len(w.c, offset, |buf|)
    requires r == I2cRead(w, bus, offset, buf) && r.2 == 0
    ensures Stored(w, bus.cells, offset, r.1)
  {
    forall i | 0 <= i < |buf| ensures Cell(bus.cells, Locate(w, offset + i)) == r.1[i] {
      ChunkFetched(w, bus, offset, buf, |buf|, i);
    }
  }

  /** On a bus whose first transfer moves nothing, the first byte of several chunks is lost. */
  lemma ManyChunksLose(w: Chips, offset: nat, data: seq<byte>, l: Loc, bus: Bus)
    requires w.c.Valid() && Distinct(w, offset, |data|) && Len(w.c, offset, |data|) < |data|
    requires l == Locate(w, offset + 0) && Cell(bus.cells, l) != data[0] && bus.xfers == 0 && bus.accepts == [0]
    ensures
      var r := WriteFrom(w, bus, offset, data, 0, 0);
      r.1 == 0 && !Stored(w, r.0.cells, offset, data)
  {
    ChunkLost(w, bus, offset, data, 0, 0, l, WriteFrom(w, bus, offset, data, 0, 0));
  }

  /** Success of a write call can be trusted exactly when the range stays below 2^32 and is one
      chunk, that is, lies in one page and is at most 128 bytes long. */
  lemma WriteHonestIff(w: Chips, offset: nat, data: seq<byte>)
    requires w.c.Valid() && data != [] && (Distinct(w, offset, |data|) || offset + |data| >= U32)
    ensures WriteHonest(w, offset, data) <==> offset + |data| < U32 && Len(w.c, offset, |data|) == |data|
  {
    var l := Locate(w, offset + 0);
    var first: int := data[0];
    var bus := Bus(map[l := (first + 1) % 256], 0, [0]);
    assert Cell(bus.cells, l) != data[0];
    if offset + |data| >= U32 {
      WrappedMovesNothing(w, bus, offset, data);
      assert !Stored(w, bus.cells, offset, data);
    } else if Len(w.c, offset, |data|) == |data| {
      forall bus
        ensures
          var r := WriteCall(w, bus, offset, data);
          r.1 == 0 ==> Stored(w, r.0.cells, offset, data)
      {
        InsideIsWhole(w, bus, offset, data);
        OneChunkStores(w, bus, offset, data);
      }
    } else {
      InsideIsWhole(w, bus, offset, data);
      ManyChunksLose(w, offset, data, l, bus);
    }
  }

  lemma ManyChunksStale(w: Chips, offset: nat, bus: Bus, buf: seq<byte>)
    requires |buf| > Len(w.c, offset, |buf|) && bus == Bus(map[], 0, [0]) && buf[0] == 0
    ensures
      var r := ReadFrom(w, bus, offset, buf, 0, 0);
      r.2 == 0 && !Stored(w, bus.cells, offset, r.1)
  {
    EarlyReadErrorIsMasked(w, bus, offset, buf, 0, 0, Len(w.c, offset, |buf|), 0);
    assert Cell(bus.cells, Locate(w, offset + 0)) == 0xFF;
  }

  /** Success of a read call can be trusted exactly when the range stays below 2^32 and is one
      chunk. */
  lemma ReadHonestIff(w: Chips, offset: nat, n: nat)
    requires w.c.Valid() && n > 0
    ensures ReadHonest(w, offset, n) <==> offset + n < U32 && Len(w.c, offset, n) == n
  {
    var stale := seq<byte>(n, _ => 0);
    var bus := Bus(map[], 0, [0]);
    if offset + n >= U32 {
      WrappedMovesNothing(w, bus, offset, stale);
      assert Cell(bus.cells, Locate(w, offset + 0)) == 0xFF != stale[0];
      assert !Stored(w, bus.cells, offset, stale);
    } else if Len(w.c, offset, n) == n {
      forall bus, buf: seq<byte> | |buf| == n
        ensures
          var r := ReadCall(w, bus, offset, buf);
          r.2 == 0 ==> Stored(w, bus.cells, offset, r.1)
      {
        InsideIsWhole(w, bus, offset, buf);
        ReadIsOneChunk(w, bus, offset, buf);
        var r := I2cRead(w, bus, offset, buf);
        if r.2 == 0 { OneChunkReads(w, bus, offset, buf, r); }
      }
    } else {
      InsideIsWhole(w, bus, offset, stale);
      ManyChunksStale(w, offset, bus, stale);
    }
  }

  // ---------------------------------------------------------------- when the round trip holds

  /** On every bus without faults, whatever is written to the range is read back. */
  ghost predicate RoundTrips(w: Chips, offset: nat, n: nat) {
    forall bus, data: seq<byte>, buf: seq<byte> :: Healthy(bus) && |data| == |buf| == n ==>
      ReadCall(w, WriteCall(w, bus, offset, data).0, offset, buf).1 == data
  }

  /** Two offsets that share a cell read alike. */
  lemma SharedCell(w: Chips, bus: Bus, offset: nat, buf: seq<byte>, i: nat, j: nat)
    requires w.c.Valid() && Healthy(bus) && i < j < |buf| && offset + |buf| < U32
    requires Locate(w, offset + i) == Locate(w, offset + j)
    ensures ReadCall(w, bus, offset, buf).1[i] == ReadCall(w, bus, offset, buf).1[j]
  {
    ReadReturns(w, bus, offset, buf, i);
    ReadReturns(w, bus, offset, buf, j);
  }

  lemma AliasLoses(w: Chips, bus: Bus, offset: nat, data: seq<byte>, buf: seq<byte>, i: nat, j: nat)
    requires w.c.Valid() && Healthy(bus) && i < j < |data| == |buf| && offset + |data| < U32 && data[i] != data[j]
    requires Locate(w, offset + i) == Locate(w, offset + j)
    ensures ReadCall(w, WriteCall(w, bus, offset, data).0, offset, buf).1 != data
  {
    WriteSucceeds(w, bus, offset, data[..Handled(offset, |data|)], 0, 0);
    SharedCell(w, WriteCall(w, bus, offset, data).0, offset, buf, i, j);
  }

  /** A bus without faults, and `n` bytes of which only that at `i` is marked. */
  lemma MarkedBytes(n: nat, i: nat) returns (bus: Bus, data: seq<byte>)
    ensures Healthy(bus) && |data| == n && forall k :: 0 <= k < n ==> data[k] == if k == i then 1 else 0
  {
    bus, data := Bus(map[], 0, []), seq<byte>(n, k => if k == i then 1 else 0);
  }

  lemma AliasBreaks(w: Chips, offset: nat, n: nat, i: nat, j: nat)
    requires w.c.Valid() && i < j < n && offset + n < U32 && Locate(w, offset + i) == Locate(w, offset + j)
    ensures !RoundTrips(w, offset, n)
  {
    var bus, data := MarkedBytes(n, i);
    AliasLoses(w, bus, offset, data, data, i, j);
  }

  lemma WrapBreaks(w: Chips, offset: nat, n: nat)
    requires n > 0 && offset + n >= U32
    ensures !RoundTrips(w, offset, n)
  {
    var data, buf := seq<byte>(n, _ => 1), seq<byte>(n, _ => 0);
    var bus := Bus(map[], 0, []);
    WrappedMovesNothing(w, bus, offset, data);
    WrappedMovesNothing(w, bus, offset, buf);
    assert Healthy(bus) && data[0] != buf[0];
  }

  /** Every write to a range can be read back exactly when the range stays below 2^32 and no two
      of its offsets denote the same cell. */
  lemma RoundTripIff(w: Chips, offset: nat, n: nat)
    requires w.c.Valid() && n > 0
    ensures RoundTrips(w, offset, n) <==> offset + n < U32 && Distinct(w, offset, n)
  {
    if offset + n >= U32 {
      WrapBreaks(w, offset, n);
    } else if Distinct(w, offset, n) {
      forall bus, data: seq<byte>, buf: seq<byte> | Healthy(bus) && |data| == |buf| == n
        ensures ReadCall(w, WriteCall(w, bus, offset, data).0, offset, buf).1 == data
      {
        WriteReadRoundTrip(w, bus, offset, data, buf);
      }
    } else {
      var i: nat, j: nat :| offset <= i < j < offset + n && Locate(w, i) == Locate(w, j);
      AliasBreaks(w, offset, n, i - offset, j - offset);
    }
  }

  /** Offsets 0 and 0x100 of a device at address 1 with one address byte are one cell, because
      the block number is or-ed into the device address. */
  lemma BlocksAlias(w: Chips)
    requires w.c.addrLen == 1 && w.dev == 1
    ensures Locate(w, 0) == Locate(w, 0x100) && !Distinct(w, 0, 0x101)
  {
    assert Or(1, 1) == 1 && Or(0, 1) == 1;
  }

  // ---------------------------------------------------------------- the length of a chunk

  lemma SamePage(x: nat, n: nat, d: nat)
    requires d > 0 && n > 0
    ensures (x + n - 1) / d == x / d <==> x % d + n <= d
  {
    if x % d + n <= d {
      Advance(x, n - 1, d);
    } else if (x + n - 1) / d == x / d {
      Divided(x, d);
      Divided(x + n - 1, d);
    }
  }

  /** A chunk is as long as can be: no longer than what is left, than the bus takes in one
      transfer, or than to the end of the page of its offset. */
  lemma LenIsLargest(c: Config, offset: nat, left: nat, n: nat)
    requires c.Valid() && n > 0
    ensures n <= Len(c, offset, left) <==>
            n <= left && n <= 128 && (offset + n - 1) / c.PageSize() == offset / c.PageSize()
  {
    PageFacts(c, offset);
    SamePage(offset, n, c.PageSize());
  }
}
