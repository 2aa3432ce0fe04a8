/** EEPROM access over I2C (uboot/cmd/eeprom.c): page-limited chunks to chips whose address
    counter wraps inside a page. */
module Eeprom {
  import opened Machine

  type pos = n: nat | n > 0 witness 1

  const I2C_RXTX_LEN := 128

  /** CONFIG_SYS_I2C_EEPROM_ADDR_LEN and CONFIG_SYS_EEPROM_PAGE_WRITE_BITS. */
  datatype Config = Config(addrLen: nat, pageBits: nat) {
    ghost predicate Valid() { 1 <= addrLen <= 2 && pageBits <= 8 }

    function PageSize(): pos { Pow2(pageBits) }

    /** Bytes behind one chip select. */
    function BlockSize(): nat { if addrLen == 1 then 0x100 else 0x1_0000 }
  }

  function Pow2(n: nat): (r: nat)
    ensures r > 0
  {
    if n == 0 then 1 else 2 * Pow2(n - 1)
  }

  function Min(a: nat, b: nat): nat { if a < b then a else b }

  /** Bitwise or, and bitwise and, of natural numbers. */
  function Or(a: nat, b: nat): nat {
    if a == 0 then b else (if a % 2 == 1 || b % 2 == 1 then 1 else 0) + 2 * Or(a / 2, b / 2)
  }

  function And(a: nat, b: nat): nat {
    if a == 0 then 0 else (if a % 2 == 1 && b % 2 == 1 then 1 else 0) + 2 * And(a / 2, b / 2)
  }

  // ---------------------------------------------------------------- the chips

  /** A cell: the I2C chip address and the address inside the chip. */
  datatype Loc = Loc(chip: nat, addr: nat)

  /** Contents of the cells, 0xFF where nothing was ever stored; the number of bus transfers so
      far; and the schedule of faults: how many bytes each transfer moves at most. */
  datatype Bus = Bus(cells: map<Loc, byte>, xfers: nat, accepts: seq<nat>)

  /** An EEPROM on the bus: how it is built, and its device address. */
  datatype Chips = Chips(c: Config, dev: byte)

  function Cell(cells: map<Loc, byte>, l: Loc): byte { if l in cells then cells[l] else 0xFF }

  /** Where the address counter stands after `k` bytes: it wraps inside the page of `start`. */
  function Counter(start: nat, k: nat, page: nat): nat
    requires page > 0
  {
    start - start % page + (start % page + k) % page
  }

  /** The chip stores bytes k.. of a transfer that started at `start`. */
  function Store(cells: map<Loc, byte>, chip: nat, start: nat, page: nat, data: seq<byte>, k: nat): map<Loc, byte>
    requires page > 0
    decreases |data| - k
  {
    if k >= |data| then cells
    else Store(cells[Loc(chip, Counter(start, k, page)) := data[k]], chip, start, page, data, k + 1)
  }

  function Fetch(cells: map<Loc, byte>, chip: nat, start: nat, page: nat, n: nat): seq<byte>
    requires page > 0
  {
    seq<byte>(n, k requires 0 <= k < n => Cell(cells, Loc(chip, Counter(start, k, page))))
  }

  /** Chip address byte for an offset: the block number or-ed into the device address. */
  function Chip(w: Chips, offset: nat): nat { Or(offset / w.c.BlockSize() % 256, w.dev) % 256 }

  /** The cell an offset denotes. */
  function Locate(w: Chips, offset: nat): Loc { Loc(Chip(w, offset), offset % w.c.BlockSize()) }

  /** Bytes from an offset to the end of its page. */
  function Room(c: Config, offset: nat): pos {
    var blkOff := offset % 256;
    c.PageSize() - blkOff % c.PageSize()
  }

  /** Bytes the k-th transfer moves, out of `n`, before the chip stops acknowledging: all of
      them where the fault schedule says nothing. */
  function Moved(accepts: seq<nat>, k: nat, n: nat): (r: nat)
    ensures r <= n
  {
    if k < |accepts| && accepts[k] < n then accepts[k] else n
  }

  /** The bus write of one chunk; the result is 1 unless the chip took all its bytes. */
  function I2cWrite(w: Chips, bus: Bus, offset: nat, data: seq<byte>): (Bus, int) {
    var n := Moved(bus.accepts, bus.xfers, |data|);
    var cells := Store(bus.cells, Chip(w, offset), offset % w.c.BlockSize(), w.c.PageSize(), data[..n], 0);
    (Bus(cells, bus.xfers + 1, bus.accepts), if n < |data| then 1 else 0)
  }

  /** The bus read of one chunk into `buf`, which keeps its bytes after a failure. */
  function I2cRead(w: Chips, bus: Bus, offset: nat, buf: seq<byte>): (r: (Bus, seq<byte>, int))
    ensures |r.1| == |buf|
  {
    var n := Moved(bus.accepts, bus.xfers, |buf|);
    var got := Fetch(bus.cells, Chip(w, offset), offset % w.c.BlockSize(), w.c.PageSize(), n);
    (bus.(xfers := bus.xfers + 1), got + buf[n..], if n < |buf| then 1 else 0)
  }

  // ---------------------------------------------------------------- the chunker

  /** Length of the next chunk. */
  function Len(c: Config, offset: nat, left: nat): (len: nat)
    ensures len <= left && (left > 0 ==> len > 0)
  {
    var maxlen := Room(c, offset);
    Min(left, if maxlen > I2C_RXTX_LEN then I2C_RXTX_LEN else maxlen)
  }

  /** Writing data[at..] at offset + at, chunk by chunk: the final bus, and the result of the
      last chunk. */
  function WriteFrom(w: Chips, bus: Bus, offset: nat, data: seq<byte>, at: nat, rc: int): (Bus, int)
    requires at <= |data|
    decreases |data| - at
  {
    if at == |data| then (bus, rc)
    else
      var len := Len(w.c, offset + at, |data| - at);
      var (bus', rc') := I2cWrite(w, bus, offset + at, data[at..at + len]);
      WriteFrom(w, bus', offset, data, at + len, rc')
  }

  /** Reading into buf[at..] from offset + at, chunk by chunk: the bus, the whole buffer and the
      result of the last chunk. */
  function ReadFrom(w: Chips, bus: Bus, offset: nat, buf: seq<byte>, at: nat, rc: int): (r: (Bus, seq<byte>, int))
    requires at <= |buf|
    ensures |r.1| == |buf|
    decreases |buf| - at
  {
    if at == |buf| then (bus, buf, rc)
    else
      var len := Len(w.c, offset + at, |buf| - at);
      var (bus', got, rc') := I2cRead(w, bus, offset + at, buf[at..at + len]);
      ReadFrom(w, bus', offset, Splice(buf, at, got), at + len, rc')
  }

  /** `buf` with the bytes from `at` on replaced by `got`. */
  function Splice(buf: seq<byte>, at: nat, got: seq<byte>): (r: seq<byte>)
    requires at + |got| <= |buf|
    ensures |r| == |buf|
    ensures forall k :: 0 <= k < |buf| ==> r[k] == if at <= k < at + |got| then got[k - at] else buf[k]
  {
    buf[..at] + got + buf[at + |got|..]
  }

  /** Bytes the loop handles: none when offset + cnt leaves the 32-bit range. */
  function Handled(offset: nat, cnt: nat): nat { if offset + cnt < U32 then cnt else 0 }

  /** A call that writes `data` at `offset`, and one that reads into `buf` from there: the bytes
      that are not handled stay as they are, and the result is 0 when none is. */
  function WriteCall(w: Chips, bus: Bus, offset: nat, data: seq<byte>): (Bus, int) {
    WriteFrom(w, bus, offset, data[..Handled(offset, |data|)], 0, 0)
  }

  function ReadCall(w: Chips, bus: Bus, offset: nat, buf: seq<byte>): (r: (Bus, seq<byte>, int))
    ensures |r.1| == |buf|
  {
    var n := Handled(offset, |buf|);
    var r := ReadFrom(w, bus, offset, buf[..n], 0, 0);
    (r.0, r.1 + buf[n..], r.2)
  }

  lemma EndOfRange(offset: nat, cnt: nat)
    requires offset < U32 && cnt < U32
    ensures
      var end, n := (offset + cnt) % U32, Handled(offset, cnt);
      if n > 0 then end == offset + n else end <= offset
  {
  }

  class Driver {
    const c: Config
    var bus: Bus

    constructor (c: Config, bus: Bus)
      ensures this.c == c && this.bus == bus
    {
      this.c, this.bus := c, bus;
    }

    /** The loop over the chunks of `buffer`, which ends at `end`. */
    method WriteLoop(dev: byte, offset0: nat, end: nat, buffer: seq<byte>) returns (rcode: int)
      requires end == offset0 + |buffer|
      modifies this`bus
      ensures (bus, rcode) == WriteFrom(Chips(c, dev), old(bus), offset0, buffer, 0, 0)
    {
      var offset, at := offset0, 0;
      rcode := 0;
      ghost var all := WriteFrom(Chips(c, dev), bus, offset0, buffer, 0, 0);
      while offset < end
        invariant offset == offset0 + at <= end
        invariant WriteFrom(Chips(c, dev), bus, offset0, buffer, at, rcode) == all
      {
        var len;
        len, rcode := WriteChunk(dev, offset0, offset, buffer, at, end - offset, rcode);
        at, offset := at + len, offset + len;
      }
    }

    /** Writes the chunk of the buffer at `at` to `offset`. */
    method WriteChunk(dev: byte, ghost offset0: nat, offset: nat, buffer: seq<byte>, at: nat, left: nat, ghost rc: int)
        returns (len: nat, rcode: int)
      requires offset == offset0 + at && left == |buffer| - at > 0
      modifies this`bus
      ensures 0 < len <= left
      ensures WriteFrom(Chips(c, dev), bus, offset0, buffer, at + len, rcode) ==
        WriteFrom(Chips(c, dev), old(bus), offset0, buffer, at, rc)
    {
      len := Len(c, offset, left);
      var r := I2cWrite(Chips(c, dev), bus, offset, buffer[at..at + len]);
      bus, rcode := r.0, r.1;
    }

    method Write(dev: byte, offset: nat, buffer: seq<byte>) returns (rcode: int)
      requires offset < U32 && |buffer| < U32
      modifies this`bus
      ensures (bus, rcode) == WriteCall(Chips(c, dev), old(bus), offset, buffer)
    {
      var end := (offset + |buffer|) % U32;
      EndOfRange(offset, |buffer|);
      assert Handled(offset, |buffer|) == |buffer| ==> buffer[..Handled(offset, |buffer|)] == buffer;
      rcode := WriteLoop(dev, offset, if offset <= end then end else offset, if offset <= end then buffer else []);
    }

    method ReadLoop(dev: byte, offset0: nat, end: nat, buffer: array<byte>, ghost buf0: seq<byte>) returns (rcode: int)
      requires end == offset0 + |buf0| && Is(buffer, buf0)
      modifies this`bus, buffer
      ensures
        var r := ReadFrom(Chips(c, dev), old(bus), offset0, buf0, 0, 0);
        bus == r.0 && rcode == r.2 && Is(buffer, r.1)
      ensures forall k :: |buf0| <= k < buffer.Length ==> buffer[k] == old(buffer[k])
    {
      var offset, at := offset0, 0;
      rcode := 0;
      ghost var buf, all := buf0, ReadFrom(Chips(c, dev), bus, offset0, buf0, 0, 0);
      while offset < end
        invariant offset == offset0 + at <= end && |buf| == |buf0| && Is(buffer, buf)
        invariant forall k :: |buf0| <= k < buffer.Length ==> buffer[k] == old(buffer[k])
        invariant ReadFrom(Chips(c, dev), bus, offset0, buf, at, rcode) == all
      {
        var len;
        len, rcode, buf := ReadChunk(dev, offset0, offset, buffer, at, end - offset, buf, rcode);
        at, offset := at + len, offset + len;
      }
    }

    /** Reads the chunk at `offset` into the buffer at `at`. */
    method ReadChunk(
        dev: byte, ghost offset0: nat, offset: nat, buffer: array<byte>, at: nat, left: nat, ghost buf: seq<byte>,
        ghost rc: int)
        returns (len: nat, rcode: int, ghost buf': seq<byte>)
      requires Is(buffer, buf) && offset == offset0 + at && left == |buf| - at > 0
      modifies this`bus, buffer
      ensures 0 < len <= left && |buf'| == |buf| && Is(buffer, buf')
      ensures forall k :: |buf| <= k < buffer.Length ==> buffer[k] == old(buffer[k])
      ensures ReadFrom(Chips(c, dev), bus, offset0, buf', at + len, rcode) ==
        ReadFrom(Chips(c, dev), old(bus), offset0, buf, at, rc)
    {
      len := Len(c, offset, left);
      var chunk := buffer[at..at + len];
      assert chunk == buf[at..at + len];
      var r := I2cRead(Chips(c, dev), bus, offset, chunk);
      bus, rcode, buf' := r.0, r.2, Splice(buf, at, r.1);
      CopyIn(buffer, at, r.1);
    }

    method Read(dev: byte, offset: nat, buffer: array<byte>, cnt: nat) returns (rcode: int)
      requires offset < U32 && cnt < U32 && cnt <= buffer.Length
      modifies this`bus, buffer
      ensures
        var r := ReadCall(Chips(c, dev), old(bus), offset, old(buffer[..cnt]));
        bus == r.0 && rcode == r.2 && Is(buffer, r.1)
      ensures forall k :: cnt <= k < buffer.Length ==> buffer[k] == old(buffer[k])
    {
      var end := (offset + cnt) % U32;
      ghost var n, buf := Handled(offset, cnt), buffer[..cnt];
      EndOfRange(offset, cnt);
      assert buf[..n] == buffer[..n];
      rcode := ReadLoop(dev, offset, if offset <= end then end else offset, buffer, buf[..n]);
    }

    static method CopyIn(buffer: array<byte>, at: nat, got: seq<byte>)
      requires at + |got| <= buffer.Length
      modifies buffer
      ensures forall k :: 0 <= k < buffer.Length ==>
        buffer[k] == if at <= k < at + |got| then got[k - at] else old(buffer[k])
    {
      for i := 0 to |got|
        invariant forall k :: 0 <= k < buffer.Length ==>
          buffer[k] == if at <= k < at + i then got[k - at] else old(buffer[k])
      {
        buffer[at + i] := got[i];
      }
    }
  }

  /** The buffer starts with `s`. */
  ghost predicate Is(buffer: array<byte>, s: seq<byte>)
    reads buffer
  {
    |s| <= buffer.Length && forall k :: 0 <= k < |s| ==> buffer[k] == s[k]
  }
}
