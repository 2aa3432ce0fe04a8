/** Floppy read engine (uboot/cmd/fdc.c): block number to cylinder/head/sector split, command
    build, and the read loop with its two levels of retries, against a controller that
    streams sector bytes and may inject a transfer error at any byte. */
module Fdc {
  import opened Arith
  import opened Machine

  const FDC_CMD_READ: byte := 0x06
  const FDC_CMD_RECALIBRATE: byte := 0x07
  const FDC_CMD_SENSE_INT: byte := 0x08
  const FDC_CMD_SEEK: byte := 0x0F
  const FDC_CMD_CONFIGURE: byte := 0x13
  const FDC_CMD_SPECIFY: byte := 0x03
  const FDC_CMD_READ_ID: byte := 0x0A
  const FDC_CMD_DUMP_REG: byte := 0x0E
  const FDC_CONFIGURE: byte := 0x4C
  const FDC_RW_RETRIES := 3
  const FDC_CAL_RETRIES := 3

  /** The commands of the driver, and those of them with an immediate result. */
  const COMMANDS: set<byte> := {
    FDC_CMD_READ, FDC_CMD_RECALIBRATE, FDC_CMD_SENSE_INT, FDC_CMD_SEEK,
    FDC_CMD_CONFIGURE, FDC_CMD_SPECIFY, FDC_CMD_READ_ID, FDC_CMD_DUMP_REG}
  const WITH_RESULT: set<byte> := {FDC_CMD_SENSE_INT, FDC_CMD_READ_ID, FDC_CMD_DUMP_REG}

  // cmd indexes
  const COMMAND := 0
  const DRIVE := 1
  const CONFIG0 := 1
  const SPEC_HUTSRT := 1
  const TRACK := 2
  const CONFIG1 := 2
  const SPEC_HLT := 2
  const HEAD := 3
  const CONFIG2 := 3
  const SECTOR := 4
  const SECTOR_SIZE := 5
  const LAST_TRACK := 6
  const GAP := 7
  const DTL := 8

  // ---------------------------------------------------------------- geometry

  /** Sectors per track side, heads, tracks, sector size code, gap length, stepping rate and head
      load time of a disk format. */
  datatype Geometry =
    Geometry(sect: nat, head: nat, track: nat, sectCode: byte, gap: byte, spec1: byte, hlt: byte)

  ghost predicate ValidGeometry(g: Geometry) {
    1 <= g.sect <= 255 && 1 <= g.head <= 2 && 1 <= g.track <= 256 && g.sectCode <= 7
  }

  function SectSize(code: nat): (r: nat)
    ensures r >= 128
  {
    if code == 0 then 0x80 else 2 * SectSize(code - 1)
  }

  /** The sector sizes of the codes a disk can have. */
  lemma SectSizes(code: nat)
    requires code < 8
    ensures SectSize(code) == [128, 256, 512, 1024, 2048, 4096, 8192, 16384][code]
  {
    assert SectSize(3) == 1024 && SectSize(5) == 4096;
  }

  function Total(g: Geometry): nat { g.sect * g.head * g.track }

  /** Cylinder, head and 1-based sector of a block. */
  datatype Chs = Chs(track: nat, head: nat, sect: nat)

  function Split(g: Geometry, blnr: nat): Chs
    requires g.sect > 0 && g.head > 0
  {
    MulPositive(g.sect, g.head);
    var k: nat := g.sect * g.head;
    var rest: nat := blnr % k;
    Chs(blnr / k, rest / g.sect, rest % g.sect + 1)
  }

  /** Flat number of the sector at a position of the disk. */
  function Flat(g: Geometry, p: Chs): int { (p.track * g.head + p.head) * g.sect + p.sect - 1 }

  ghost predicate OnDisk(g: Geometry, p: Chs) { p.track < g.track && p.head < g.head && 1 <= p.sect <= g.sect }

  lemma Regroup(t: nat, h: nat, p: nat, s: nat)
    ensures (t * h + p) * s == t * (s * h) + p * s
  {
    calc {
      (t * h + p) * s;
      (t * h) * s + p * s;
      t * (h * s) + p * s;
    }
  }

  lemma TotalRegroup(g: Geometry)
    ensures Total(g) == g.track * (g.sect * g.head)
  {
  }

  /** A block number is its cylinder, head and sector written in mixed base. */
  lemma SplitParts(g: Geometry, blnr: nat)
    requires ValidGeometry(g)
    ensures
      var p, k := Split(g, blnr), g.sect * g.head;
      && k > 0 && p.track == blnr / k && p.head < g.head && 1 <= p.sect <= g.sect
      && blnr == p.track * k + (p.head * g.sect + (p.sect - 1))
  {
    var k := g.sect * g.head;
    MulPositive(g.sect, g.head);
    DivBound(blnr % k, g.sect, g.head);
  }

  /** Splitting a block number and flattening the result gives the block back, in range. */
  lemma SplitFlat(g: Geometry, blnr: nat)
    requires ValidGeometry(g)
    ensures Flat(g, Split(g, blnr)) == blnr
    ensures Split(g, blnr).head < g.head && 1 <= Split(g, blnr).sect <= g.sect
    ensures Split(g, blnr).sect == blnr % g.sect + 1
    ensures blnr < Total(g) ==> OnDisk(g, Split(g, blnr))
  {
    var p, k := Split(g, blnr), g.sect * g.head;
    SplitParts(g, blnr);
    Regroup(p.track, g.head, p.head, g.sect);
    DivUnique(p.track * g.head + p.head, p.sect - 1, g.sect);
    TotalRegroup(g);
    if blnr < Total(g) { DivBound(blnr, k, g.track); }
  }

  /** The cylinder of a block on the disk fits the command byte. */
  lemma PlaceFits(g: Geometry, blnr: nat)
    requires ValidGeometry(g) && blnr < Total(g)
    ensures
      var p := Split(g, blnr);
      p.track % 256 == p.track && p.(track := p.track % 256) == p
  {
    SplitFlat(g, blnr);
  }

  lemma SplitSum(g: Geometry, t: nat, h: nat, c: nat, rest: nat, blnr: nat)
    requires ValidGeometry(g) && h < g.head && c < g.sect
    requires rest == h * g.sect + c && blnr == t * (g.sect * g.head) + rest
    ensures Split(g, blnr) == Chs(t, h, c + 1)
  {
    MulMonotone(h + 1, g.head, g.sect);
    DivUnique(t, rest, g.sect * g.head);
    DivUnique(h, c, g.sect);
  }

  /** Flattening a position and splitting the result gives the position back. */
  lemma FlatSplit(g: Geometry, p: Chs)
    requires ValidGeometry(g) && OnDisk(g, p)
    ensures 0 <= Flat(g, p) < Total(g)
    ensures Split(g, Flat(g, p)) == p
  {
    Regroup(p.track, g.head, p.head, g.sect);
    FlatBound(g, p);
    SplitSum(g, p.track, p.head, p.sect - 1, p.head * g.sect + (p.sect - 1), Flat(g, p));
  }

  lemma Turned(a: nat, b: nat, c: nat)
    ensures c * b * a == a * b * c
  {
    assert c * b * a == a * (b * c);
  }

  lemma FlatBound(g: Geometry, p: Chs)
    requires OnDisk(g, p)
    ensures 0 <= Flat(g, p) < Total(g)
  {
    var row, rows := p.track * g.head + p.head, g.track * g.head;
    MulMonotone(p.track + 1, g.track, g.head);
    MulMonotone(row + 1, rows, g.sect);
    Turned(g.sect, g.head, g.track);
    assert (row + 1) * g.sect == row * g.sect + g.sect;
  }

  // ---------------------------------------------------------------- the controller

  /** A read command in execution: the drive, the flat position of its first byte, the bytes
      from there to the end of the track side, and the number of bytes delivered so far. */
  datatype Transfer = Idle | Reading(drive: nat, start: nat, left: nat, pos: nat)

  datatype Event = Data(value: byte) | TransferError

  /** Controller state: cylinder under the heads of each of the four drives, and the transfer. */
  datatype Device = Device(heads: seq<nat>, xfer: Transfer)

  /** What the controller does with a complete command; a read on a cylinder where the heads
      are not, with the motor off, or without the disk's recording mode and sector size, finds
      no sector. */
  function Accept(g: Geometry, d: Device, cmd: seq<byte>, cmdlen: nat, motors: set<nat>): Device
    requires |d.heads| == 4 && |cmd| == 16
  {
    var op, drive, side := cmd[COMMAND] % 32, cmd[DRIVE] % 4, cmd[DRIVE] / 4 % 2;
    if op == FDC_CMD_SEEK && cmdlen == 3 then
      Device(d.heads[drive := cmd[TRACK]], Idle)
    else if op == FDC_CMD_RECALIBRATE && cmdlen == 2 then
      Device(d.heads[drive := 0], Idle)
    else if op == FDC_CMD_READ && cmdlen == 9 && drive in motors && cmd[TRACK] == d.heads[drive] && cmd[HEAD] == side &&
            cmd[COMMAND] / 64 % 2 == 1 && cmd[SECTOR_SIZE] == g.sectCode then
      Device(d.heads, Stream(g, drive, Chs(cmd[TRACK], side, cmd[SECTOR]), cmd[LAST_TRACK]))
    else Device(d.heads, Idle)
  }

  /** The bytes of sectors p.sect..eot of one track side, if that is a place on the disk. */
  function Stream(g: Geometry, drive: nat, p: Chs, eot: nat): Transfer {
    if p.track < g.track && p.head < g.head && 1 <= p.sect <= eot <= g.sect then
      FlatBound(g, p);
      Reading(drive, Flat(g, p) * SectSize(g.sectCode), (eot + 1 - p.sect) * SectSize(g.sectCode), 0)
    else Idle
  }

  /** Reading a block starts at its flat position, and a chunk that does not cross the end of
      the block's track side lies within the transfer and the disk. */
  lemma StreamOfBlock(g: Geometry, drive: nat, blnr: nat, readblk: nat)
    requires ValidGeometry(g) && blnr < Total(g) && readblk <= g.sect - blnr % g.sect
    ensures
      var x, size := Stream(g, drive, Split(g, blnr), g.sect), SectSize(g.sectCode);
      && x.Reading? && x.drive == drive && x.pos == 0
      && x.start == blnr * size && readblk * size <= x.left
      && x.start + x.left <= Total(g) * size
  {
    SplitFlat(g, blnr);
    var p, size := Split(g, blnr), SectSize(g.sectCode);
    MulMonotone(readblk, g.sect + 1 - p.sect, size);
    var end := p.(sect := g.sect);
    FlatBound(g, end);
    assert Flat(g, end) == blnr + (g.sect - p.sect);
    SumTimes(blnr, g.sect + 1 - p.sect, Total(g), size);
  }

  lemma SumTimes(a: nat, b: nat, c: nat, size: nat)
    requires a + b <= c
    ensures a * size + b * size <= c * size
  {
    MulMonotone(a + b, c, size);
  }

  /** Number of injected faults among the polls numbered from..to-1. */
  ghost function Faults(fault: nat -> bool, from: nat, to: nat): nat {
    if to <= from then 0 else Faults(fault, from, to - 1) + (if fault(to - 1) then 1 else 0)
  }

  /** Number of polls before the first fault among `len` polls from number `from` on, or `len`. */
  ghost function FirstFault(fault: nat -> bool, from: nat, len: nat): (i: nat)
    ensures i <= len
    decreases len
  {
    if len == 0 || fault(from) then 0 else 1 + FirstFault(fault, from + 1, len - 1)
  }

  /** The first fault is where no poll before has one and this one does. */
  lemma {:induction false} FirstFaultIs(fault: nat -> bool, from: nat, len: nat, i: nat)
    requires i <= len && (forall k :: from <= k < from + i ==> !fault(k)) && (i < len ==> fault(from + i))
    ensures FirstFault(fault, from, len) == i
    ensures Faults(fault, from, from + i) == 0 && (i < len ==> Faults(fault, from, from + i + 1) == 1)
    decreases len
  {
    NoFaultsIn(fault, from, from + i);
    if i > 0 { FirstFaultIs(fault, from + 1, len - 1, i - 1); }
  }

  lemma {:induction false} NoFaultsIn(fault: nat -> bool, from: nat, end: nat)
    requires forall k :: from <= k < end ==> !fault(k)
    ensures Faults(fault, from, end) == 0
    decreases end
  {
    if from < end { NoFaultsIn(fault, from, end - 1); }
  }

  // ---------------------------------------------------------------- the driver

  function MotorBit(drive: nat): bv8
    requires drive < 4
  {
    1 << (4 + drive)
  }

  /** The motor bits of the four drives are the upper half of the register. */
  lemma MotorBits(drive: nat)
    requires drive < 4
    ensures MotorBit(drive) == [0x10, 0x20, 0x40, 0x80][drive]
  {
  }

  /** The drives whose motor bit is set in the digital output register. */
  function MotorsOf(dor: bv8): set<nat> { set d: nat | 0 <= d < 4 && dor & MotorBit(d) != 0 }

  /** The register with the motor and select bits of a drive cleared. */
  function Stopped(dor: bv8, drive: nat): bv8
    requires drive < 4
  {
    dor & !(MotorBit(drive) | (drive as bv8))
  }

  lemma StoppedBits(dor: bv8, drive: nat)
    requires drive < 4
    ensures Stopped(dor, drive) == dor & [0xEF, 0xDE, 0xBD, 0x7C][drive]
  {
  }

  lemma StoppedMotor(dor: bv8, drive: nat, d: nat)
    requires drive < 4 && d < 4
    ensures Stopped(dor, drive) & MotorBit(d) != 0 <==> d != drive && dor & MotorBit(d) != 0
  {
  }

  lemma StoppedMotors(dor: bv8, drive: nat)
    requires drive < 4
    ensures MotorsOf(Stopped(dor, drive)) == MotorsOf(dor) - {drive}
  {
    forall d: nat | d < 4 ensures d in MotorsOf(Stopped(dor, drive)) <==> d != drive && d in MotorsOf(dor) {
      StoppedMotor(dor, drive, d);
    }
  }

  /** How a read call ended, or that it still runs. */
  datatype Exit = Running | Done | FirstSeek | CommandTimeout | TooManyErrors | ReseekStatus

  /** Blocks to read in one go: up to the end of the track side, but not more than remain. */
  function ChunkLen(g: Geometry, n: nat, blocks: nat): nat
    requires g.sect > 0
  {
    if g.sect - n % g.sect > blocks then blocks else g.sect - n % g.sect
  }

  /** Number of chunks that a request for `blocks` blocks from block `n` on takes. */
  function Chunks(g: Geometry, n: nat, blocks: nat): (r: nat)
    requires g.sect > 0
    ensures r > 0
    decreases blocks
  {
    var len := ChunkLen(g, n, blocks);
    if len == blocks then 1 else 1 + Chunks(g, n + len, blocks - len)
  }

  /** Recalibrations made for a number of transfer errors: one for every fifth, but the last
      error allowed is followed by none. */
  function RecalsFor(errors: nat): nat { if errors == 25 then 4 else errors / 5 }

  /** What became of one attempt at a chunk. */
  datatype Outcome = NotIssued | Failed | LastDone | MoreToDo

  /** The locals of the read loop. */
  datatype ReadState = ReadState(offset: nat, blocks: nat, readblk: nat, retriesrw: nat, retriescal: nat)

  /** How many commands were issued, results read and bytes polled, and how many of the commands
      were recalibrations. */
  datatype Counters = Counters(cmds: nat, senses: nat, polls: nat, recals: nat)

  /** Where a read call started: its request, the counters of the hardware, the buffer, and
      whether the schedules make a seek before a later chunk fail. */
  datatype Origin = Origin(drive: nat, blnr: nat, blocks: nat, c: Counters, buf: seq<byte>, fails: bool)

  /** The status byte says that a seek has ended. */
  predicate SeekEnd(status: byte) { status / 32 % 2 == 1 }

  lemma HighBits(b: bv8)
    ensures (b >> 5) as int == (b as int) / 32
  {
  }

  lemma LowBit(b: bv8)
    ensures (b & 1) as int == (b as int) % 2
  {
  }

  /** It is bit 5 of the status byte that says so. */
  lemma SeekEndIsBit5(status: byte)
    ensures SeekEnd(status) <==> (status as bv8) & 0x20 != 0
  {
    var b := status as bv8;
    HighBits(b);
    LowBit(b >> 5);
    assert b & 0x20 != 0 <==> (b >> 5) & 1 != 0;
  }

  /** The lengths of a named command and of its immediate result. */
  predicate Lengths(op: byte, cmdlen: nat, resultlen: nat) {
    match op
    case 0x06 => cmdlen == 9 && resultlen == 0
    case 0x0F => cmdlen == 3 && resultlen == 0
    case 0x13 => cmdlen == 4 && resultlen == 0
    case 0x03 => cmdlen == 3 && resultlen == 0
    case 0x0E => cmdlen == 1 && resultlen == 10
    case 0x0A => cmdlen == 2 && resultlen == 7
    case 0x07 => cmdlen == 2 && resultlen == 0
    case _ => cmdlen == 1 && resultlen == 2
  }

  /** The bytes of the command named in cmd0[0], for position `p`, by their places. */
  ghost predicate Built(g: Geometry, drive: nat, dma: bool, p: Chs, cmd0: seq<byte>, cmd: seq<byte>)
    requires |cmd0| == |cmd| == 16
  {
    var track := p.track % 256;
    match cmd0[0]
    case 0x06 =>
      cmd[..9] == [0x46, 4 * p.head + drive, track, p.head, p.sect, g.sectCode, g.sect, g.gap, 0xFF]
    case 0x0F => cmd[..3] == [0x0F, 4 * p.head + drive, track]
    case 0x07 => cmd[..2] == [0x07, drive]
    case 0x08 => cmd[0] == 0x08
    case 0x13 => cmd[..4] == [0x13, 0, 0x4C, 0]
    case 0x03 => cmd[..3] == [0x03, g.spec1, 2 * g.hlt % 256 + (if dma then 0 else 1)]
    case 0x0A => cmd[..2] == [0x4A, 4 * p.head + drive]
    case 0x0E => cmd[0] == 0x0E
    case _ => false
  }

  /** The controller's state after it has accepted the command `op` for position `p`. */
  ghost predicate Accepting(g: Geometry, drive: nat, motors: set<nat>, p: Chs, op: byte, d: Device, d': Device)
    requires |d.heads| == 4 && drive < 4
  {
    var track := p.track % 256;
    if op == FDC_CMD_READ then
      && d'.heads == d.heads
      && d'.xfer == if drive in motors && d.heads[drive] == track
                    then Stream(g, drive, p.(track := track), g.sect) else Idle
    else if op == FDC_CMD_SEEK then d'.heads == d.heads[drive := track]
    else if op == FDC_CMD_RECALIBRATE then d'.heads == d.heads[drive := 0]
    else d'.heads == d.heads
  }

  /** The controller takes a built command for what it is. */
  lemma BuiltIsAccepted(
      g: Geometry, drive: nat, dma: bool, p: Chs, cmd0: seq<byte>, cmd: seq<byte>, n: nat, m: nat,
      motors: set<nat>, d: Device)
    requires ValidGeometry(g) && drive < 4 && p.head < 2 && p.sect < 256 && |d.heads| == 4 && |cmd0| == |cmd| == 16
    requires cmd0[COMMAND] in COMMANDS && Built(g, drive, dma, p, cmd0, cmd) && Lengths(cmd0[COMMAND], n, m)
    ensures Accepting(g, drive, motors, p, cmd0[COMMAND], d, Accept(g, d, cmd, n, motors))
  {
    if cmd0[0] == 0x06 {
      assert cmd[0] == cmd[..9][0] && cmd[1] == cmd[..9][1] && cmd[2] == cmd[..9][2] && cmd[3] == cmd[..9][3];
      assert cmd[4] == cmd[..9][4] && cmd[5] == cmd[..9][5] && cmd[6] == cmd[..9][6];
    } else if cmd0[0] == 0x0F {
      assert cmd[0] == cmd[..3][0] && cmd[1] == cmd[..3][1] && cmd[2] == cmd[..3][2];
    } else if cmd0[0] == 0x07 {
      assert cmd[0] == cmd[..2][0] && cmd[1] == cmd[..2][1];
    } else if cmd0[0] == 0x13 {
      assert cmd[0] == cmd[..4][0];
    } else if cmd0[0] == 0x03 {
      assert cmd[0] == cmd[..3][0];
    } else if cmd0[0] == 0x0A {
      assert cmd[0] == cmd[..2][0];
    }
  }

  class Floppy {
    const geo: Geometry
    /** The flat contents of the disk in each drive. */
    const disks: seq<seq<byte>>
    /** Hardware schedules: whether the k-th command is accepted, the first byte of the k-th
        result (the status of a sense-interrupt), and whether the k-th polled byte is a
        transfer error. */
    const cmdOk: nat -> bool
    const st0: nat -> byte
    const fault: nat -> bool

    // FDC_COMMAND_STRUCT
    var blnr: nat
    var drive: nat
    var dma: bool
    var cmd: seq<byte>
    var cmdlen: nat
    var resultlen: nat
    var result: seq<byte>

    // hardware
    var dev: Device
    var dor: bv8
    var interrupts: bool
    var cmds: nat
    var senses: nat
    var polls: nat
    var recals: nat

    constructor (geo: Geometry, disks: seq<seq<byte>>, cmdOk: nat -> bool, st0: nat -> byte, fault: nat -> bool)
      requires ValidGeometry(geo) && |disks| == 4
      requires forall d :: 0 <= d < 4 ==> |disks[d]| == Total(geo) * SectSize(geo.sectCode)
      ensures Valid() && this.geo == geo && this.disks == disks && blnr == 0 && interrupts
      ensures this.cmdOk == cmdOk && this.st0 == st0 && this.fault == fault
      ensures cmds == 0 && senses == 0 && polls == 0
    {
      this.geo, this.disks, this.cmdOk, this.st0, this.fault := geo, disks, cmdOk, st0, fault;
      blnr, drive, dma, cmdlen, resultlen := 0, 0, false, 0, 0;
      cmd, result := seq<byte>(16, _ => 0), seq<byte>(11, _ => 0);
      dev, dor, interrupts := Device([0, 0, 0, 0], Idle), 0, true;
      cmds, senses, polls, recals := 0, 0, 0, 0;
    }

    ghost predicate Valid()
      reads this
    {
      && ValidGeometry(geo) && drive < 4 && |cmd| == 16 && |result| == 11 && |dev.heads| == 4
      && |disks| == 4 && forall d :: 0 <= d < 4 ==> |disks[d]| == Total(geo) * SectSize(geo.sectCode)
    }

    /** Bytes in `n` blocks, which is also the flat position of block `n`. */
    function Bytes(n: nat): nat { n * SectSize(geo.sectCode) }

    function Motors(): set<nat>
      reads this
    {
      MotorsOf(dor)
    }

    /** Switches the motor on, unless it runs already; other motors then stop. */
    method SelectDrive()
      requires Valid()
      modifies this`dor
      ensures drive in Motors() && (dor == old(dor) || Motors() == {drive})
      ensures dor == old(dor) || dor == [0x1C, 0x2D, 0x4E, 0x8F][drive]
    {
      var val: bv8 := MotorBit(drive) | (drive as bv8) | 0xC;
      if dor & val != val {
        dor := val;
      }
      assert dor & val == val;
    }

    /** Switches the motor off, and no other. */
    method StopDrive()
      requires Valid()
      modifies this`dor
      ensures Motors() == old(Motors()) - {drive}
      ensures dor == old(dor) & [0xEF, 0xDE, 0xBD, 0x7C][drive]
    {
      StoppedMotors(dor, drive);
      StoppedBits(dor, drive);
      var val: bv8 := MotorBit(drive) | (drive as bv8);
      dor := dor & !val;
    }

    /** Sets drive, side and cylinder of a command for position `p`. */
    method SetPlace(p: Chs)
      requires Valid() && p.head < 2
      modifies this`cmd
      ensures |cmd| == 16 && cmd == old(cmd)[DRIVE := cmd[DRIVE]][TRACK := p.track % 256][HEAD := p.head]
      ensures cmd[DRIVE] % 4 == drive && cmd[DRIVE] / 4 == p.head
    {
      if p.head != 0 {
        cmd := cmd[DRIVE := drive + 4][HEAD := p.head];
      } else {
        cmd := cmd[DRIVE := drive][HEAD := p.head];
      }
      cmd := cmd[TRACK := p.track % 256];
    }

    /** Builds the command in `cmd[COMMAND]` for position `p`. */
    method BuildCmd(p: Chs)
      requires Valid() && p.head < 2 && p.sect < 256 && cmd[COMMAND] in COMMANDS
      modifies this`cmd, this`cmdlen, this`resultlen
      ensures |cmd| == 16 && Built(geo, drive, dma, p, old(cmd), cmd)
      ensures Lengths(old(cmd)[COMMAND], cmdlen, resultlen)
    {
      SetPlace(p);
      match cmd[COMMAND] {
        case 0x06 =>
          cmd := cmd[SECTOR := p.sect][SECTOR_SIZE := geo.sectCode][LAST_TRACK := geo.sect];
          cmd := cmd[GAP := geo.gap][DTL := 0xFF];
          cmd := cmd[COMMAND := FDC_CMD_READ + 64];
          cmdlen, resultlen := 9, 0;
        case 0x0F =>
          cmdlen, resultlen := 3, 0;
        case 0x13 =>
          cmd := cmd[CONFIG0 := 0][CONFIG1 := FDC_CONFIGURE][CONFIG2 := 0];
          cmdlen, resultlen := 4, 0;
        case 0x03 =>
          cmd := cmd[SPEC_HUTSRT := geo.spec1][SPEC_HLT := 2 * geo.hlt % 256];
          if !dma {
            cmd := cmd[SPEC_HLT := cmd[SPEC_HLT] + 1];
          }
          cmdlen, resultlen := 3, 0;
        case 0x0E =>
          cmdlen, resultlen := 1, 10;
        case 0x0A =>
          cmd := cmd[COMMAND := FDC_CMD_READ_ID + 64];
          cmdlen, resultlen := 2, 7;
        case 0x07 =>
          cmd := cmd[DRIVE := cmd[DRIVE] % 4];
          cmdlen, resultlen := 2, 0;
        case _ =>
          cmdlen, resultlen := 1, 2;
      }
    }

    /** Reads the immediate result of a command, if it has one. */
    method ReadResult()
      requires Valid() && resultlen <= 10
      modifies this`result, this`senses
      ensures Valid() && senses == old(senses) + (if resultlen > 0 then 1 else 0)
      ensures resultlen > 0 ==> result[0] == st0(old(senses))
      ensures result[resultlen..] == old(result)[resultlen..]
    {
      if resultlen > 0 {
        var first := st0(senses);
        ghost var some := seq<byte>(resultlen, _ => first);
        assert |some| == resultlen && some[0] == first;
        var bytes: seq<byte> :| |bytes| == resultlen && bytes[0] == first;
        result := bytes + result[resultlen..];
        senses := senses + 1;
      }
    }

    /** What a command for position `p` has done. */
    ghost predicate Effect(p: Chs, op: byte, ok: bool, dev0: Device, senses0: nat)
      requires Valid() && |dev0.heads| == 4
      reads this
    {
      && senses == senses0 + (if ok && op in WITH_RESULT then 1 else 0)
      && (ok && op in WITH_RESULT ==> result[0] == st0(senses0))
      && if ok then Accepting(geo, drive, Motors(), p, op, dev0, dev) else dev == dev0
    }

    method SendCmd(p: Chs) returns (ok: bool)
      requires Valid() && p.head < 2 && p.sect < 256 && cmd[COMMAND] in COMMANDS
      modifies this`cmd, this`cmdlen, this`resultlen, this`result, this`dev, this`cmds, this`senses
      ensures Valid() && ok == cmdOk(old(cmds)) && cmds == old(cmds) + 1
      ensures Effect(p, old(cmd)[COMMAND], ok, old(dev), old(senses))
    {
      BuildCmd(p);
      BuiltIsAccepted(geo, drive, dma, p, old(cmd), cmd, cmdlen, resultlen, Motors(), dev);
      ok := cmdOk(cmds);
      cmds := cmds + 1;
      if ok {
        dev := Accept(geo, dev, cmd, cmdlen, Motors());
        ReadResult();
      }
    }

    /** Issues the command in `cmd[COMMAND]` for the current block. */
    method IssueCmd() returns (ok: bool)
      requires Valid() && cmd[COMMAND] in COMMANDS
      modifies this`cmd, this`cmdlen, this`resultlen, this`result, this`dev, this`cmds, this`senses
      ensures Valid() && ok == cmdOk(old(cmds)) && cmds == old(cmds) + 1
      ensures Effect(Split(geo, blnr), old(cmd)[COMMAND], ok, old(dev), old(senses))
    {
      SplitFlat(geo, blnr);
      ok := SendCmd(Split(geo, blnr));
    }

    ghost predicate Accepted(from: nat, to: nat) { forall k :: from <= k < to ==> cmdOk(k) }

    /** A command without parameters followed by a sense-interrupt. */
    method IssueAndSense(op: byte) returns (ok: bool)
      requires Valid() && op in {FDC_CMD_SEEK, FDC_CMD_RECALIBRATE}
      modifies this`cmd, this`cmdlen, this`resultlen, this`result, this`dev, this`cmds, this`senses
      ensures Valid() && old(cmds) < cmds && (ok <==> Accepted(old(cmds), cmds)) && old(senses) <= senses
      ensures (ok <==> cmdOk(old(cmds)) && cmdOk(old(cmds) + 1)) && (ok ==> cmds == old(cmds) + 2)
      ensures ok ==> senses == old(senses) + 1 && result[0] == st0(old(senses))
      ensures ok ==> dev.heads == old(dev).heads[drive :=
        if op == FDC_CMD_SEEK then Split(geo, blnr).track % 256 else 0]
    {
      cmd := cmd[COMMAND := op];
      ok := IssueCmd();
      if !ok {
        return;
      }
      cmd := cmd[COMMAND := FDC_CMD_SENSE_INT];
      ok := IssueCmd();
    }

    /** Moves the heads to the cylinder of the current block and reads the status. */
    method Seek() returns (ok: bool)
      requires Valid() && blnr < Total(geo)
      modifies this`cmd, this`cmdlen, this`resultlen, this`result, this`dev, this`cmds, this`senses
      ensures Valid() && old(cmds) < cmds && (ok <==> Accepted(old(cmds), cmds)) && old(senses) <= senses
      ensures (ok <==> cmdOk(old(cmds)) && cmdOk(old(cmds) + 1)) && (ok ==> cmds == old(cmds) + 2)
      ensures ok ==> senses == old(senses) + 1 && result[0] == st0(old(senses))
      ensures ok ==> dev.heads == old(dev).heads[drive := Split(geo, blnr).track]
    {
      PlaceFits(geo, blnr);
      ok := IssueAndSense(FDC_CMD_SEEK);
    }

    /** Moves the heads to cylinder 0 and reads the status. */
    method Recalibrate() returns (ok: bool)
      requires Valid()
      modifies this`cmd, this`cmdlen, this`resultlen, this`result, this`dev, this`cmds, this`senses, this`recals
      ensures Valid() && old(cmds) < cmds && (ok <==> Accepted(old(cmds), cmds)) && old(senses) <= senses
      ensures (ok <==> cmdOk(old(cmds)) && cmdOk(old(cmds) + 1)) && (ok ==> cmds == old(cmds) + 2)
      ensures ok ==> senses == old(senses) + 1 && result[0] == st0(old(senses))
      ensures ok ==> dev.heads == old(dev).heads[drive := 0]
      ensures recals == old(recals) + 1
    {
      recals := recals + 1;
      ok := IssueAndSense(FDC_CMD_RECALIBRATE);
    }

    /** One step of the controller: the next byte of the transfer, or an error that ends it. */
    method Poll() returns (e: Event)
      requires Valid() && (dev.xfer.Reading? ==> InDisk(dev.xfer))
      modifies this`dev, this`polls
      ensures Valid() && polls == old(polls) + 1 && dev.heads == old(dev).heads
      ensures
        var x := old(dev).xfer;
        if fault(old(polls)) || x.Idle? || x.pos == x.left then e.TransferError?
        else e == Data(disks[x.drive][x.start + x.pos]) && dev.xfer == x.(pos := x.pos + 1)
    {
      var x := dev.xfer;
      if fault(polls) || x.Idle? || x.pos == x.left {
        e := TransferError;
        dev := dev.(xfer := Idle);
      } else {
        e := Data(disks[x.drive][x.start + x.pos]);
        dev := dev.(xfer := x.(pos := x.pos + 1));
      }
      polls := polls + 1;
    }

    ghost predicate InDisk(x: Transfer)
      requires x.Reading?
      reads this
    {
      x.drive < |disks| && x.pos <= x.left && x.start + x.left <= |disks[x.drive]|
    }

    /** Keeps the last seven bytes before a transfer error as the result, if there are so many. */
    method NoteError(buffer: array<byte>, offset: nat, i: nat)
      requires Valid() && offset + i <= buffer.Length
      modifies this`result
      ensures |result| == 11
      ensures if i > 6 then result[..7] == buffer[offset + i - 7..offset + i] else result == old(result)
    {
      if i > 6 {
        result := buffer[offset + i - 7..offset + i] + result[7..];
      }
    }

    /** Takes the next byte of the transfer into the buffer, unless there is an error. */
    method TakeByte(buffer: array<byte>, at: nat) returns (ok: bool)
      requires Valid() && dev.xfer.Reading? && InDisk(dev.xfer) && dev.xfer.pos < dev.xfer.left && at < buffer.Length
      modifies this`dev, this`polls, buffer
      ensures Valid() && polls == old(polls) + 1 && dev.heads == old(dev).heads && ok == !fault(old(polls))
      ensures forall j :: 0 <= j < buffer.Length && (j != at || !ok) ==> buffer[j] == old(buffer[j])
      ensures ok ==>
        var x := old(dev).xfer;
        dev.xfer == x.(pos := x.pos + 1) && buffer[at] == disks[x.drive][x.start + x.pos]
    {
      var e := Poll();
      ok := e.Data?;
      if ok {
        buffer[at] := e.value;
      }
    }

    /** The byte loop for one chunk; returns how many bytes came before the first error. */
    method ReadChunk(buffer: array<byte>, offset: nat, len: nat) returns (i: nat)
      requires Valid() && dev.xfer.Reading? && InDisk(dev.xfer) && dev.xfer.pos == 0
      requires len <= dev.xfer.left && offset + len <= buffer.Length
      modifies this`dev, this`polls, this`result, buffer
      ensures Valid() && dev.heads == old(dev).heads && i <= len
      ensures Faults(fault, old(polls), polls) == if i < len then 1 else 0
      ensures i == FirstFault(fault, old(polls), len) && polls == old(polls) + i + (if i < len then 1 else 0)
      ensures forall j :: 0 <= j < offset || offset + len <= j < buffer.Length ==> buffer[j] == old(buffer[j])
      ensures forall j :: offset <= j < offset + i ==>
        buffer[j] == disks[old(dev).xfer.drive][old(dev).xfer.start + (j - offset)]
    {
      ghost var x, from := dev.xfer, polls;
      i := 0;
      while i < len
        invariant 0 <= i <= len && Valid() && dev.heads == old(dev).heads && dev.xfer == x.(pos := i)
        invariant polls == from + i && forall k :: from <= k < from + i ==> !fault(k)
        invariant forall j :: 0 <= j < offset || offset + len <= j < buffer.Length ==> buffer[j] == old(buffer[j])
        invariant forall j :: offset <= j < offset + i ==> buffer[j] == disks[x.drive][x.start + (j - offset)]
      {
        var ok := TakeByte(buffer, offset + i);
        if !ok {
          FirstFaultIs(fault, from, len, i);
          NoteError(buffer, offset, i);
          return;
        }
        i := i + 1;
      }
      FirstFaultIs(fault, from, len, i);
    }

    /** One attempt at a chunk: issue the read and take its bytes. */
    method ReadTrack(buffer: array<byte>, offset: nat, readblk: nat, len: nat) returns (issued: bool, i: nat)
      requires Valid() && blnr < Total(geo) && drive in Motors()
      requires dev.heads[drive] == Split(geo, blnr).track
      requires len == Bytes(readblk) && readblk <= geo.sect - blnr % geo.sect
      requires offset + len <= buffer.Length
      modifies this`cmd, this`cmdlen, this`resultlen, this`result, this`dev, this`cmds, this`senses, this`polls, buffer
      ensures Valid() && cmds == old(cmds) + 1 && issued == cmdOk(old(cmds)) && senses == old(senses)
      ensures dev.heads == old(dev).heads && old(polls) <= polls && i <= len
      ensures Faults(fault, old(polls), polls) == if issued && i < len then 1 else 0
      ensures Now() == AfterChunk(old(Now()), len) && (issued ==> i == FirstFault(fault, old(polls), len))
      ensures forall j :: 0 <= j < offset || offset + len <= j < buffer.Length ==> buffer[j] == old(buffer[j])
      ensures issued ==> HoldsDisk(buffer, drive, offset, i, Bytes(blnr))
    {
      i := 0;
      issued := IssueRead(readblk);
      if issued {
        i := ReadChunk(buffer, offset, len);
      }
    }

    /** Issues a read of the current block. */
    method IssueRead(ghost readblk: nat) returns (issued: bool)
      requires Valid() && blnr < Total(geo) && drive in Motors() && readblk <= geo.sect - blnr % geo.sect
      requires dev.heads[drive] == Split(geo, blnr).track
      modifies this`cmd, this`cmdlen, this`resultlen, this`result, this`dev, this`cmds, this`senses
      ensures Valid() && cmds == old(cmds) + 1 && issued == cmdOk(old(cmds)) && senses == old(senses)
      ensures dev.heads == old(dev).heads
      ensures issued ==>
        var x := dev.xfer;
        && x.Reading? && InDisk(x) && x.drive == drive && x.pos == 0 && x.start == Bytes(blnr)
        && Bytes(readblk) <= x.left
    {
      PlaceFits(geo, blnr);
      StreamOfBlock(geo, drive, blnr, readblk);
      cmd := cmd[COMMAND := FDC_CMD_READ];
      issued := IssueCmd();
    }

    /** `n` bytes of the buffer at `offset` are the bytes at `from` of the disk in drive `d`. */
    ghost predicate HoldsDisk(buffer: array<byte>, d: nat, offset: nat, n: nat, from: nat)
      reads buffer
    {
      && d < |disks| && offset + n <= buffer.Length && from + n <= |disks[d]|
      && forall j :: offset <= j < offset + n ==> buffer[j] == disks[d][from + (j - offset)]
    }

    // -------------------------------------------------------------- the read loop

    function Now(): Counters
      reads this
    {
      Counters(cmds, senses, polls, recals)
    }

    /** The counters after a read command for `len` bytes. */
    ghost function AfterChunk(c: Counters, len: nat): Counters {
      if !cmdOk(c.cmds) then c.(cmds := c.cmds + 1)
      else
        var i := FirstFault(fault, c.polls, len);
        c.(cmds := c.cmds + 1, polls := c.polls + i + (if i < len then 1 else 0))
    }

    /** The counters after a seek or recalibration whose two commands are accepted. */
    function AfterSense(c: Counters): Counters { c.(cmds := c.cmds + 2, senses := c.senses + 1) }

    predicate BothOk(c: Counters) { cmdOk(c.cmds) && cmdOk(c.cmds + 1) }

    /** Numbers of the results that are the status of a seek before a later chunk, as long as all
        of those end: from the loop's top at block `n` with the given retry counters, from before
        a seek, and from after a transfer error. They depend on the fault and command schedules
        alone. */
    ghost function SeeksAhead(n: nat, blocks: nat, rw: nat, cal: nat, c: Counters): seq<nat>
      requires geo.sect > 0 && rw <= 4 && cal <= 4
      decreases 25 - 5 * cal - rw, blocks, 1
    {
      var len := ChunkLen(geo, n, blocks);
      if !cmdOk(c.cmds) then []
      else if FirstFault(fault, c.polls, Bytes(len)) < Bytes(len) then
        AheadAfterError(n, blocks, rw, cal, AfterChunk(c, Bytes(len)))
      else if len == blocks then []
      else AheadOfSeek(n + len, blocks - len, rw, cal, AfterChunk(c, Bytes(len)))
    }

    ghost function AheadOfSeek(n: nat, blocks: nat, rw: nat, cal: nat, c: Counters): seq<nat>
      requires geo.sect > 0 && rw <= 4 && cal <= 4
      decreases 25 - 5 * cal - rw, blocks, 2
    {
      if BothOk(c) then [c.senses] + SeeksAhead(n, blocks, rw, cal, AfterSense(c)) else []
    }

    ghost function AheadAfterError(n: nat, blocks: nat, rw: nat, cal: nat, c: Counters): seq<nat>
      requires geo.sect > 0 && rw <= 4 && cal <= 4
      decreases 25 - 5 * cal - rw, blocks, 0
    {
      if rw < 4 then SeeksAhead(n, blocks, rw + 1, cal, c)
      else if cal == 4 || !BothOk(c) then []
      else AheadOfSeek(n, blocks, 0, cal + 1, AfterSense(c).(recals := c.recals + 1))
    }

    /** Some of these seeks does not end. */
    ghost predicate SomeFails(seeks: seq<nat>) { exists k :: k in seeks && !SeekEnd(st0(k)) }

    /** The schedules make a seek before a later chunk of the request fail. */
    ghost predicate FailsLater(n: nat, blocks: nat, c: Counters)
      requires geo.sect > 0
    {
      BothOk(c) && SeekEnd(st0(c.senses)) && SomeFails(SeeksAhead(n, blocks, 0, 0, AfterSense(c)))
    }

    lemma SomeFailsCons(k: nat, rest: seq<nat>)
      ensures SomeFails([k] + rest) <==> !SeekEnd(st0(k)) || SomeFails(rest)
    {
      if j :| j in rest && !SeekEnd(st0(j)) { assert j in [k] + rest; }
      if !SeekEnd(st0(k)) { assert k in [k] + rest; }
    }

    /** The seeks ahead in a state of the loop, with `due` seeks or `extra` errors outstanding. */
    ghost function Ahead(st: ReadState, c: Counters, n: nat, due: nat, extra: nat): seq<nat>
      requires geo.sect > 0 && st.retriesrw <= 4 && st.retriescal <= 4
    {
      if extra > 0 then AheadAfterError(n, st.blocks, st.retriesrw, st.retriescal, c)
      else if due > 0 then AheadOfSeek(n, st.blocks, st.retriesrw, st.retriescal, c)
      else SeeksAhead(n, st.blocks, st.retriesrw, st.retriescal, c)
    }

    /** From now on every command is accepted and every seek ends. */
    ghost predicate Healthy(c: Counters) {
      (forall k :: c.cmds <= k ==> cmdOk(k)) && (forall k :: c.senses <= k ==> SeekEnd(st0(k)))
    }

    /** From now on every command is accepted and no byte is a transfer error. */
    ghost predicate Undisturbed(c: Counters) {
      (forall k :: c.cmds <= k ==> cmdOk(k)) && (forall k :: c.polls <= k ==> !fault(k))
    }

    /** The buffer behind the request is as it was. */
    ghost predicate Behind(buffer: array<byte>, o: Origin)
      reads buffer
    {
      |o.buf| == buffer.Length && forall j :: Bytes(o.blocks) <= j < buffer.Length ==> buffer[j] == o.buf[j]
    }

    /** The first blocks are in the buffer, and the rest remain to be read from block `n` on, up
        to the end of its track side next. */
    ghost predicate Placed(buffer: array<byte>, o: Origin, st: ReadState, n: nat)
      requires geo.sect > 0
      reads buffer
    {
      && o.blnr <= n < Total(geo) && n + st.blocks == o.blnr + o.blocks <= Total(geo)
      && st.readblk == ChunkLen(geo, n, st.blocks)
      && HoldsDisk(buffer, o.drive, 0, st.offset, Bytes(o.blnr)) && Bytes(o.blnr) + st.offset == Bytes(n)
      && Bytes(o.blocks) <= buffer.Length && Behind(buffer, o)
    }

    /** All the requested blocks are in the buffer, in order, and the block number `n` has moved
        on; the rest of the buffer is as it was. */
    ghost predicate Complete(buffer: array<byte>, o: Origin, n: nat)
      reads buffer
    {
      n == o.blnr + o.blocks && HoldsDisk(buffer, o.drive, 0, Bytes(o.blocks), Bytes(o.blnr)) && Behind(buffer, o)
    }

    /** The state in which the read loop starts. */
    method FirstChunk(buffer: array<byte>, blocks: nat, ghost o: Origin) returns (st: ReadState)
      requires Valid() && o.drive == drive
      requires blnr < Total(geo) && blnr + blocks <= Total(geo) && Bytes(blocks) <= buffer.Length
      requires o.blnr == blnr && o.blocks == blocks && Behind(buffer, o)
      ensures Placed(buffer, o, st, blnr) && st.retriesrw == st.retriescal == 0 && st.blocks == blocks
    {
      MulMonotone(blnr, Total(geo), SectSize(geo.sectCode));
      var readblk := geo.sect - blnr % geo.sect;
      if readblk > blocks {
        readblk := blocks;
      }
      st := ReadState(0, blocks, readblk, 0, 0);
    }

    /** Reads one chunk and, if all its bytes arrive, moves on to the next one. */
    method TakeChunk(buffer: array<byte>, st: ReadState, ghost o: Origin)
        returns (issued: bool, good: bool, next: ReadState)
      requires Valid() && o.drive == drive && drive in Motors() && Placed(buffer, o, st, blnr) && o.c.polls <= polls
      requires dev.heads[drive] == Split(geo, blnr).track
      modifies this`cmd, this`cmdlen, this`resultlen, this`result, this`dev, this`cmds, this`senses, this`polls,
               this`blnr, buffer
      ensures Valid() && issued == cmdOk(old(cmds))
      ensures OneCommand(o, old(Now()), Now(), if issued && !good then 1 else 0)
      ensures ChunkTaken(old(blnr), st.blocks, old(Now()), Now(), good)
      ensures next.retriesrw == st.retriesrw && next.retriescal == st.retriescal && Behind(buffer, o)
      ensures !(issued && good) ==> next == st && Placed(buffer, o, st, blnr)
      ensures !(issued && good) ==> blnr == old(blnr) && dev.heads == old(dev).heads
      ensures issued && good ==> Moved(buffer, old(blnr), st, next, o, blnr)
    {
      var len := Bytes(st.readblk);
      var i;
      ChunkFits(o.blnr, o.blocks, blnr, st.readblk, SectSize(geo.sectCode));
      issued, i := ReadTrack(buffer, st.offset, st.readblk, len);
      FaultsAdd(fault, o.c.polls, old(polls), polls);
      good, next := i == len, st;
      assert ChunkTaken(blnr, st.blocks, old(Now()), Now(), good);
      if issued && good {
        next := Advance(buffer, st, len, o);
      }
    }

    /** One more command was issued, and `errors` more errors were polled. */
    ghost predicate OneCommand(o: Origin, c: Counters, c': Counters, errors: nat) {
      && c' == c.(cmds := c.cmds + 1, polls := c'.polls) && o.c.polls <= c.polls <= c'.polls
      && Faults(fault, o.c.polls, c'.polls) == Faults(fault, o.c.polls, c.polls) + errors
    }

    /** The counters moved by one attempt at the chunk at block `n`; `good` if it had no fault. */
    ghost predicate ChunkTaken(n: nat, blocks: nat, c: Counters, c': Counters, good: bool)
      requires geo.sect > 0
    {
      var len := Bytes(ChunkLen(geo, n, blocks));
      c' == AfterChunk(c, len) && (cmdOk(c.cmds) ==> (good <==> FirstFault(fault, c.polls, len) == len))
    }

    /** The loop has moved from block `n` past one chunk to `n'`, or to the end. */
    ghost predicate Moved(buffer: array<byte>, n: nat, st: ReadState, next: ReadState, o: Origin, n': nat)
      requires geo.sect > 0
      reads buffer
    {
      if next.blocks > 0 then
        && next.blocks < st.blocks && Placed(buffer, o, next, n')
        && Chunks(geo, n, st.blocks) == 1 + Chunks(geo, n', next.blocks) && Follows(st, n, next, n')
      else Complete(buffer, o, n') && Chunks(geo, n, st.blocks) == 1 && ChunkLen(geo, n, st.blocks) == st.blocks
    }

    /** Moves past a chunk whose bytes are all in the buffer. */
    method Advance(buffer: array<byte>, st: ReadState, len: nat, ghost o: Origin) returns (next: ReadState)
      requires Valid() && o.drive == drive && Placed(buffer, o, st, blnr)
      requires len == Bytes(st.readblk) && HoldsDisk(buffer, drive, st.offset, len, Bytes(blnr))
      modifies this`blnr
      ensures Valid() && next.retriesrw == st.retriesrw && next.retriescal == st.retriescal
      ensures Moved(buffer, old(blnr), st, next, o, blnr)
    {
      NextChunk(geo, blnr, st.readblk, st.blocks, SectSize(geo.sectCode));
      Distribute(o.blnr, o.blocks, SectSize(geo.sectCode));
      blnr := blnr + st.readblk;
      next := st.(offset := st.offset + len, blocks := st.blocks - st.readblk);
      assert HoldsDisk(buffer, o.drive, 0, next.offset, Bytes(o.blnr));
      if next.blocks != 0 {
        next := next.(readblk := if geo.sect > next.blocks then next.blocks else geo.sect);
      }
    }

    /** The counters account for every transfer error, recalibration and result so far, with
        `due` seeks still to be made before the chunk at block `n` and `extra` errors not yet
        noted. */
    ghost predicate Counted(st: ReadState, o: Origin, c: Counters, n: nat, due: nat, extra: nat)
      requires geo.sect > 0
    {
      var left, all := Chunks(geo, n, st.blocks), Chunks(geo, o.blnr, o.blocks);
      && st.retriesrw <= 4 && st.retriescal <= 4 && c.recals == o.c.recals + st.retriescal
      && o.c.polls <= c.polls && Faults(fault, o.c.polls, c.polls) == 5 * st.retriescal + st.retriesrw + extra
      && left <= all && c.senses + due + left == o.c.senses + 1 + all + 2 * st.retriescal
      && o.c.cmds <= c.cmds && Accepted(o.c.cmds, c.cmds) && o.c.senses < c.senses
      && (st.retriescal == 0 ==> SeeksEnded(o.c.senses, c.senses))
    }

    /** The counters are accounted for, and so are the seeks ahead. */
    ghost predicate Account(st: ReadState, o: Origin, c: Counters, n: nat, due: nat, extra: nat)
      requires geo.sect > 0
    {
      Counted(st, o, c, n, due, extra) && (o.fails <==> SomeFails(Ahead(st, c, n, due, extra)))
    }

    /** The results numbered from..to-1 are those of seeks that ended. */
    ghost predicate SeeksEnded(from: nat, to: int) { forall k :: from <= k < to ==> SeekEnd(st0(k)) }

    /** The last status was that of a seek that ended. */
    ghost predicate OnTrack()
      requires Valid()
      reads this
    {
      dev.heads[drive] == Split(geo, blnr).track && senses > 0 && SeekEnd(st0(senses - 1))
    }

    /** The state at the top of the read loop, and that before a seek on the way there. */
    ghost predicate AtTop(buffer: array<byte>, st: ReadState, o: Origin)
      requires Valid()
      reads this, buffer
    {
      Placed(buffer, o, st, blnr) && Account(st, o, Now(), blnr, 0, 0) && OnTrack()
    }

    ghost predicate BeforeSeek(buffer: array<byte>, st: ReadState, o: Origin)
      requires Valid()
      reads this, buffer
    {
      Placed(buffer, o, st, blnr) && Account(st, o, Now(), blnr, 1, 0)
    }

    /** The state after a transfer error that is not noted yet. */
    ghost predicate AfterBad(buffer: array<byte>, st: ReadState, o: Origin)
      requires Valid()
      reads this, buffer
    {
      Placed(buffer, o, st, blnr) && Account(st, o, Now(), blnr, 0, 1) && OnTrack()
    }

    /** The state when the loop has been left. */
    ghost predicate Left(exit: Exit, buffer: array<byte>, o: Origin)
      requires Valid()
      reads this, buffer
    {
      && exit != Running && exit != FirstSeek && Behind(buffer, o) && Ended(exit, o, Now())
      && (exit == Done ==> Complete(buffer, o, blnr))
    }

    /** What the counters and schedules say when the loop has ended. */
    ghost predicate Ended(exit: Exit, o: Origin, c: Counters)
      requires geo.sect > 0
    {
      var faults, recalibrated := Faults(fault, o.c.polls, c.polls), c.recals - o.c.recals;
      && o.c.polls <= c.polls && faults <= 25 && 0 <= recalibrated <= 4 && 5 * recalibrated <= faults
      && (exit == TooManyErrors <==> faults == 25)
      && (exit == Done || exit == TooManyErrors ==> recalibrated == RecalsFor(faults))
      && (exit == CommandTimeout <==> !Accepted(o.c.cmds, c.cmds))
      && (exit != CommandTimeout ==> c.senses > o.c.senses)
      && (exit == ReseekStatus <==> ReseekFailed(o.c, c)) && (exit == ReseekStatus <==> o.fails)
      && (exit == Done ==> c.senses == o.c.senses + Chunks(geo, o.blnr, o.blocks) + 2 * recalibrated)
      && (exit == ReseekStatus ==> c.senses <= o.c.senses + Chunks(geo, o.blnr, o.blocks) + 2 * recalibrated)
      && (exit != CommandTimeout && recalibrated == 0 ==> SeeksEnded(o.c.senses, c.senses - 1))
    }

    /** All commands were accepted, and the last result, after a first one, is that of a seek
        that did not end. */
    ghost predicate ReseekFailed(c0: Counters, c: Counters) {
      Accepted(c0.cmds, c.cmds) && c.senses > c0.senses + 1 && !SeekEnd(st0(c.senses - 1))
    }

    /** The seek before the next chunk. */
    method Reseek(buffer: array<byte>, st: ReadState, ghost o: Origin) returns (status: Exit)
      requires Valid() && o.drive == drive && BeforeSeek(buffer, st, o)
      modifies this`cmd, this`cmdlen, this`resultlen, this`result, this`dev, this`cmds, this`senses
      ensures Valid() && status in {Running, CommandTimeout, ReseekStatus}
      ensures if status == Running then AtTop(buffer, st, o) else Left(status, buffer, o)
    {
      var sought := Seek();
      ghost var before, now := old(Now()), Now();
      if !sought {
        CountNoSeek(st, o, before, now, blnr);
        return CommandTimeout;
      }
      CountSeek(st, o, before, now, blnr);
      if !SeekEnd(result[0]) {
        return ReseekStatus;
      }
      return Running;
    }

    /** The recalibration after every fifth transfer error but the last. */
    method TryRecalibrate(buffer: array<byte>, st: ReadState, ghost o: Origin) returns (next: ReadState, status: Exit)
      requires Valid() && o.drive == drive && AfterBad(buffer, st, o) && st.retriesrw == 4 && st.retriescal < 4
      modifies this`cmd, this`cmdlen, this`resultlen, this`result, this`dev, this`cmds, this`senses, this`recals
      ensures Valid() && next.blocks == st.blocks
      ensures if status == Running then BeforeSeek(buffer, next, o) else Left(status, buffer, o)
    {
      var recalibrated := Recalibrate();
      CountRecal(st, o, old(Now()), Now(), blnr, recalibrated);
      next := st.(retriesrw := 0, retriescal := st.retriescal + 1);
      status := if recalibrated then Running else CommandTimeout;
    }

    /** After a transfer error: retry, or recalibrate and then seek, or give up. */
    method AfterError(buffer: array<byte>, st: ReadState, ghost o: Origin)
        returns (next: ReadState, status: Exit, seek: bool)
      requires Valid() && o.drive == drive && AfterBad(buffer, st, o)
      modifies this`cmd, this`cmdlen, this`resultlen, this`result, this`dev, this`cmds, this`senses, this`recals
      ensures Valid() && next.blocks == st.blocks
      ensures if status != Running then Left(status, buffer, o)
              else if seek then BeforeSeek(buffer, next, o) else AtTop(buffer, next, o)
    {
      next, status, seek := st.(retriesrw := st.retriesrw + 1), Running, false;
      if next.retriesrw - 1 > FDC_RW_RETRIES {
        if next.retriescal > FDC_CAL_RETRIES {
          CountTooMany(st, o, Now(), blnr);
          status := TooManyErrors;
        } else {
          next, status := TryRecalibrate(buffer, st, o);
          seek := true;
        }
      } else {
        CountRetry(st, o, Now(), blnr);
      }
    }

    /** The state after an attempt at the chunk of `st`. */
    ghost predicate Attempted(outcome: Outcome, buffer: array<byte>, st: ReadState, next: ReadState, o: Origin)
      requires Valid()
      reads this, buffer
    {
      match outcome
      case NotIssued => Left(CommandTimeout, buffer, o)
      case LastDone => Left(Done, buffer, o)
      case MoreToDo => next.blocks < st.blocks && BeforeSeek(buffer, next, o)
      case Failed => next == st && AfterBad(buffer, st, o)
    }

    /** One attempt at the next chunk, with the counters kept. */
    method Attempt(buffer: array<byte>, st: ReadState, ghost o: Origin) returns (outcome: Outcome, next: ReadState)
      requires Valid() && o.drive == drive && drive in Motors() && AtTop(buffer, st, o)
      modifies this`cmd, this`cmdlen, this`resultlen, this`result, this`dev, this`cmds, this`senses, this`polls,
               this`blnr, buffer
      ensures Valid() && Attempted(outcome, buffer, st, next, o)
      ensures OneCommand(o, old(Now()), Now(), if outcome == Failed then 1 else 0)
    {
      ghost var n, before := blnr, Now();
      var issued, good;
      issued, good, next := TakeChunk(buffer, st, o);
      ghost var now := Now();
      if !issued {
        CountTimeout(st, o, before, now, n);
        outcome := NotIssued;
      } else if !good {
        CountFailed(st, o, before, now, n);
        outcome := Failed;
      } else if next.blocks == 0 {
        CountDone(st, o, before, now, n);
        outcome := LastDone;
      } else {
        CountMore(st, o, before, now, n, next, blnr);
        outcome := MoreToDo;
      }
    }

    lemma CountTimeout(st: ReadState, o: Origin, c: Counters, c': Counters, n: nat)
      requires geo.sect > 0 && Account(st, o, c, n, 0, 0) && OneCommand(o, c, c', 0) && !cmdOk(c.cmds)
      ensures Ended(CommandTimeout, o, c')
    {
    }

    lemma CountFailed(st: ReadState, o: Origin, c: Counters, c': Counters, n: nat)
      requires geo.sect > 0 && Account(st, o, c, n, 0, 0) && OneCommand(o, c, c', 1) && cmdOk(c.cmds)
      requires ChunkTaken(n, st.blocks, c, c', false)
      ensures Account(st, o, c', n, 0, 1)
    {
      AheadFailed(st, c, c', n);
    }

    lemma AheadFailed(st: ReadState, c: Counters, c': Counters, n: nat)
      requires geo.sect > 0 && st.retriesrw <= 4 && st.retriescal <= 4 && cmdOk(c.cmds)
      requires ChunkTaken(n, st.blocks, c, c', false)
      ensures Ahead(st, c, n, 0, 0) == Ahead(st, c', n, 0, 1)
    {
    }

    lemma CountFirst(st: ReadState, o: Origin, c: Counters)
      requires geo.sect > 0 && st.blocks == o.blocks && st.retriesrw == st.retriescal == 0
      requires c == AfterSense(o.c) && BothOk(o.c) && SeekEnd(st0(o.c.senses))
      requires o.fails <==> FailsLater(o.blnr, o.blocks, o.c)
      ensures Account(st, o, c, o.blnr, 0, 0)
    {
    }

    lemma CountDone(st: ReadState, o: Origin, c: Counters, c': Counters, n: nat)
      requires geo.sect > 0 && Account(st, o, c, n, 0, 0) && OneCommand(o, c, c', 0) && cmdOk(c.cmds)
      requires ChunkTaken(n, st.blocks, c, c', true) && ChunkLen(geo, n, st.blocks) == st.blocks
      requires Chunks(geo, n, st.blocks) == 1 && c.senses > 0 && SeekEnd(st0(c.senses - 1))
      ensures Ended(Done, o, c')
    {
      assert Ahead(st, c, n, 0, 0) == [];
    }

    /** The two commands of a seek or recalibration were both accepted, or not. */
    ghost predicate Issued(c: Counters, c': Counters, ok: bool) {
      && c.cmds < c'.cmds && (ok <==> Accepted(c.cmds, c'.cmds)) && c'.polls == c.polls
      && (ok <==> BothOk(c)) && (ok ==> c'.cmds == c.cmds + 2 && c'.senses == c.senses + 1)
    }

    lemma CountNoSeek(st: ReadState, o: Origin, c: Counters, c': Counters, n: nat)
      requires geo.sect > 0 && Account(st, o, c, n, 1, 0) && Issued(c, c', false) && c'.recals == c.recals
      ensures Ended(CommandTimeout, o, c')
    {
      assert !Accepted(o.c.cmds, c'.cmds);
    }

    lemma CountSeek(st: ReadState, o: Origin, c: Counters, c': Counters, n: nat)
      requires geo.sect > 0 && Account(st, o, c, n, 1, 0) && Issued(c, c', true) && c'.recals == c.recals
      ensures if SeekEnd(st0(c.senses)) then Account(st, o, c', n, 0, 0) else Ended(ReseekStatus, o, c')
    {
      AheadSought(st, c, c', n);
    }

    lemma AheadSought(st: ReadState, c: Counters, c': Counters, n: nat)
      requires geo.sect > 0 && st.retriesrw <= 4 && st.retriescal <= 4 && BothOk(c) && c' == AfterSense(c)
      ensures SomeFails(Ahead(st, c, n, 1, 0)) <==> !SeekEnd(st0(c.senses)) || SomeFails(Ahead(st, c', n, 0, 0))
    {
      SomeFailsCons(c.senses, Ahead(st, c', n, 0, 0));
    }

    lemma CountTooMany(st: ReadState, o: Origin, c: Counters, n: nat)
      requires geo.sect > 0 && Account(st, o, c, n, 0, 1) && st.retriesrw == 4 && st.retriescal == 4
      requires SeekEnd(st0(c.senses - 1))
      ensures Ended(TooManyErrors, o, c)
    {
      assert Ahead(st, c, n, 0, 1) == [];
    }

    lemma CountRetry(st: ReadState, o: Origin, c: Counters, n: nat)
      requires geo.sect > 0 && Account(st, o, c, n, 0, 1) && st.retriesrw < 4
      ensures Account(st.(retriesrw := st.retriesrw + 1), o, c, n, 0, 0)
    {
      assert Ahead(st, c, n, 0, 1) == Ahead(st.(retriesrw := st.retriesrw + 1), c, n, 0, 0);
    }

    lemma CountRecal(st: ReadState, o: Origin, c: Counters, c': Counters, n: nat, ok: bool)
      requires geo.sect > 0 && Account(st, o, c, n, 0, 1) && st.retriesrw == 4 && st.retriescal < 4
      requires Issued(c, c', ok) && c'.recals == c.recals + 1
      ensures if ok then Account(st.(retriesrw := 0, retriescal := st.retriescal + 1), o, c', n, 1, 0)
              else Ended(CommandTimeout, o, c')
    {
      if ok {
        assert c' == AfterSense(c).(recals := c.recals + 1);
        assert Ahead(st, c, n, 0, 1) == Ahead(st.(retriesrw := 0, retriescal := st.retriescal + 1), c', n, 1, 0);
      } else {
        assert !Accepted(o.c.cmds, c'.cmds);
        assert Ahead(st, c, n, 0, 1) == [];
      }
    }

    lemma CountMore(st: ReadState, o: Origin, c: Counters, c': Counters, n: nat, next: ReadState, n': nat)
      requires geo.sect > 0 && Account(st, o, c, n, 0, 0) && OneCommand(o, c, c', 0) && cmdOk(c.cmds)
      requires ChunkTaken(n, st.blocks, c, c', true) && Follows(st, n, next, n')
      requires Chunks(geo, n, st.blocks) == 1 + Chunks(geo, n', next.blocks)
      ensures Account(next, o, c', n', 1, 0)
    {
      CountedMore(st, o, c, c', n, next, n');
      AheadMore(st, c, c', n, next, n');
    }

    lemma CountedMore(st: ReadState, o: Origin, c: Counters, c': Counters, n: nat, next: ReadState, n': nat)
      requires geo.sect > 0 && Counted(st, o, c, n, 0, 0) && OneCommand(o, c, c', 0) && cmdOk(c.cmds)
      requires Chunks(geo, n, st.blocks) == 1 + Chunks(geo, n', next.blocks)
      requires next.retriesrw == st.retriesrw && next.retriescal == st.retriescal
      ensures Counted(next, o, c', n', 1, 0)
    {
    }

    /** The state after the chunk at block `n`, when there is more to read. */
    ghost predicate Follows(st: ReadState, n: nat, next: ReadState, n': nat)
      requires geo.sect > 0
    {
      var len := ChunkLen(geo, n, st.blocks);
      && n' == n + len && next.blocks == st.blocks - len > 0
      && next.retriesrw == st.retriesrw && next.retriescal == st.retriescal
    }

    lemma AheadMore(st: ReadState, c: Counters, c': Counters, n: nat, next: ReadState, n': nat)
      requires geo.sect > 0 && st.retriesrw <= 4 && st.retriescal <= 4 && cmdOk(c.cmds)
      requires ChunkTaken(n, st.blocks, c, c', true) && Follows(st, n, next, n')
      ensures Ahead(st, c, n, 0, 0) == Ahead(next, c', n', 1, 0)
    {
    }

    /** From the loop's top to its next round or its exit. */
    method Round(buffer: array<byte>, st: ReadState, ghost o: Origin) returns (next: ReadState, status: Exit)
      requires Valid() && o.drive == drive && drive in Motors() && AtTop(buffer, st, o)
      modifies this`cmd, this`cmdlen, this`resultlen, this`result, this`dev, this`cmds, this`senses, this`polls,
               this`blnr, this`recals, buffer
      ensures Valid() && if status == Running then AtTop(buffer, next, o) else Left(status, buffer, o)
      ensures status == Running ==>
        || Faults(fault, o.c.polls, polls) > Faults(fault, o.c.polls, old(polls))
        || (next.blocks < st.blocks && Faults(fault, o.c.polls, polls) == Faults(fault, o.c.polls, old(polls)))
    {
      var outcome;
      outcome, next := Attempt(buffer, st, o);
      match outcome {
        case NotIssued =>
          return next, CommandTimeout;
        case LastDone =>
          return next, Done;
        case Failed =>
          var seek;
          next, status, seek := AfterError(buffer, next, o);
          if status != Running || !seek {
            return;
          }
        case MoreToDo =>
      }
      status := Reseek(buffer, next, o);
    }

    /** The read loop. */
    method ReadLoop(buffer: array<byte>, st0: ReadState, ghost o: Origin) returns (exit: Exit)
      requires Valid() && o.drive == drive && drive in Motors() && AtTop(buffer, st0, o)
      modifies this`cmd, this`cmdlen, this`resultlen, this`result, this`dev, this`cmds, this`senses, this`polls,
               this`blnr, this`recals, buffer
      ensures Valid() && Left(exit, buffer, o)
    {
      var st := st0;
      exit := Running;
      while exit == Running
        invariant Valid() && if exit == Running then AtTop(buffer, st, o) else Left(exit, buffer, o)
        decreases exit == Running, 25 - Faults(fault, o.c.polls, polls), st.blocks
      {
        st, exit := Round(buffer, st, o);
      }
    }

    // -------------------------------------------------------------- the call

    method Finish(flags: bool)
      requires Valid()
      modifies this`dor, this`interrupts
      ensures Motors() == old(Motors()) - {drive} && interrupts == (old(interrupts) || flags)
    {
      StopDrive();
      if flags {
        interrupts := true;
      }
    }

    /** Switches the drive on and makes the first seek. */
    method Begin() returns (ready: bool)
      requires Valid() && blnr < Total(geo)
      modifies this`cmd, this`cmdlen, this`resultlen, this`result, this`dev, this`cmds, this`senses, this`dor
      ensures Valid() && drive in Motors() && (Motors() == old(Motors()) || Motors() == {drive})
      ensures old(cmds) <= cmds && (ready <==> Accepted(old(cmds), cmds) && SeekEnd(st0(old(senses))))
      ensures Accepted(old(cmds), cmds) ==> Now() == AfterSense(old(Now()))
      ensures ready ==> OnTrack()
      ensures Accepted(old(cmds), cmds) <==> BothOk(old(Now()))
    {
      SelectDrive();
      var sought := Seek();
      ready := sought && SeekEnd(result[0]);
    }

    /** The seek before some chunk but the first does not end, after a first one that does. */
    ghost predicate LaterSeekFails(senses0: nat, chunks: nat) {
      SeekEnd(st0(senses0)) && exists k :: senses0 < k < senses0 + chunks && !SeekEnd(st0(k))
    }

    /** How the exit follows from the schedules: for all of them, and in terms of the request
        alone when nothing but a seek goes wrong. */
    ghost predicate Explained(exit: Exit, o: Origin, c: Counters)
      requires geo.sect > 0
    {
      var chunks := Chunks(geo, o.blnr, o.blocks);
      && (exit == FirstSeek ==> !(Accepted(o.c.cmds, c.cmds) && SeekEnd(st0(o.c.senses))))
      && (exit == CommandTimeout ==> !Accepted(o.c.cmds, c.cmds))
      && (exit == ReseekStatus <==> ReseekFailed(o.c, c)) && (exit == ReseekStatus <==> o.fails)
      && (exit == Done ==> c.senses == o.c.senses + chunks + 2 * (c.recals - o.c.recals))
      && (Healthy(o.c) ==> exit == Done || exit == TooManyErrors)
      && (Undisturbed(o.c) ==> (exit == ReseekStatus <==> LaterSeekFails(o.c.senses, chunks)))
    }

    lemma Explain(exit: Exit, o: Origin, c: Counters)
      requires geo.sect > 0 && exit != Running && exit != FirstSeek && Ended(exit, o, c)
      ensures Explained(exit, o, c)
    {
      if Undisturbed(o.c) {
        NoFaultsIn(fault, o.c.polls, c.polls);
        assert Accepted(o.c.cmds, c.cmds);
        if exit == ReseekStatus {
          assert SeekEnd(st0(o.c.senses));
          assert o.c.senses < c.senses - 1 < o.c.senses + Chunks(geo, o.blnr, o.blocks);
        } else {
          assert SeeksEnded(o.c.senses + 1, c.senses);
        }
      }
    }

    lemma ExplainFirst(o: Origin, c: Counters)
      requires geo.sect > 0 && !(Accepted(o.c.cmds, c.cmds) && SeekEnd(st0(o.c.senses)))
      requires Accepted(o.c.cmds, c.cmds) ==> c.senses == o.c.senses + 1
      requires o.fails <==> FailsLater(o.blnr, o.blocks, o.c)
      requires BothOk(o.c) ==> Accepted(o.c.cmds, c.cmds)
      ensures Explained(FirstSeek, o, c)
    {
      if Healthy(o.c) || Undisturbed(o.c) { assert Accepted(o.c.cmds, c.cmds); }
    }

    /** What a call has done when it is over, but for the motor and the interrupts. */
    ghost predicate Over(exit: Exit, buffer: array<byte>, o: Origin, c: Counters, n: nat)
      requires geo.sect > 0
      reads buffer
    {
      var faults := Faults(fault, o.c.polls, c.polls);
      && exit != Running && Behind(buffer, o) && (exit == Done ==> Complete(buffer, o, n))
      && o.c.polls <= c.polls && faults <= 25 && c.recals <= o.c.recals + 4
      && (exit == TooManyErrors <==> faults == 25)
      && (exit == Done || exit == TooManyErrors ==> c.recals == o.c.recals + RecalsFor(faults))
      && Explained(exit, o, c)
    }

    /** The call between switching the motor on and off. */
    method ReadBody(buffer: array<byte>, blocks0: nat, ghost o: Origin) returns (exit: Exit)
      requires Valid() && blnr < Total(geo) && blnr + blocks0 <= Total(geo) && Bytes(blocks0) <= buffer.Length
      requires o == Origin(drive, blnr, blocks0, Now(), o.buf, FailsLater(blnr, blocks0, Now())) && Behind(buffer, o)
      modifies this`cmd, this`cmdlen, this`resultlen, this`result, this`dev, this`cmds, this`senses, this`polls,
               this`blnr, this`recals, this`dor, buffer
      ensures Valid() && Over(exit, buffer, o, Now(), blnr)
      ensures Motors() == old(Motors()) || Motors() == {drive}
    {
      var ready := Begin();
      if !ready {
        ExplainFirst(o, Now());
        return FirstSeek;
      }
      var st := FirstChunk(buffer, blocks0, o);
      CountFirst(st, o, Now());
      exit := ReadLoop(buffer, st, o);
      Explain(exit, o, Now());
    }

    /** Where a call that reads `blocks` blocks starts. */
    ghost function Start(buffer: array<byte>, blocks: nat): Origin
      requires Valid()
      reads this, buffer
    {
      Origin(drive, blnr, blocks, Now(), buffer[..], FailsLater(blnr, blocks, Now()))
    }

    /** Reads `blocks` blocks from the current one on. */
    method ReadData(buffer: array<byte>, blocks: nat) returns (ok: bool, exit: Exit)
      requires Valid() && blnr < Total(geo) && blnr + blocks <= Total(geo) && Bytes(blocks) <= buffer.Length
      modifies this, buffer
      ensures Valid() && drive == old(drive) && (ok <==> exit == Done)
      ensures Over(exit, buffer, old(Start(buffer, blocks)), Now(), blnr)
      ensures Motors() == {} || Motors() == old(Motors()) - {drive}
      ensures interrupts <==> old(interrupts) && exit != ReseekStatus
      ensures interrupts <==> old(interrupts) && !ReseekFailed(old(Now()), Now())
      ensures interrupts <==> old(interrupts && !FailsLater(blnr, blocks, Now()))
    {
      ghost var o := Start(buffer, blocks);
      var flags := interrupts;
      interrupts := false;
      exit := ReadBody(buffer, blocks, o);
      ok := exit == Done;
      if exit == ReseekStatus {
        StopDrive();
      } else {
        Finish(flags);
      }
    }
  }

  /** With every command accepted, no fault, and bit 5 in every status byte, a read succeeds. */
  method ReadsWhenHealthy(f: Floppy, buffer: array<byte>, blocks: nat) returns (ok: bool)
    requires f.Valid() && f.blnr < Total(f.geo) && f.blnr + blocks <= Total(f.geo) && f.Bytes(blocks) <= buffer.Length
    requires forall k :: f.cmdOk(k) && !f.fault(k) && (f.st0(k) as bv8) & 0x20 != 0
    modifies f, buffer
    ensures f.Valid() && ok && f.Complete(buffer, old(f.Start(buffer, blocks)), f.blnr)
  {
    forall k ensures SeekEnd(f.st0(k)) { SeekEndIsBit5(f.st0(k)); }
    assert f.Healthy(f.Now());
    ghost var from := f.polls;
    var exit;
    ok, exit := f.ReadData(buffer, blocks);
    NoFaultsIn(f.fault, from, f.polls);
  }

  lemma TwoSides(g: Geometry)
    requires g.sect == 1 && g.head == 2 && g.track == 1 && g.sectCode == 0
    ensures ValidGeometry(g) && Total(g) == 2 && SectSize(g.sectCode) == 128 && Chunks(g, 0, 2) == 2
  {
    assert Chunks(g, 1, 1) == 1;
  }

  /** Two blocks on two track sides, with a second seek that does not end: interrupts, which were
      on before the call, are off after it. */
  method InterruptsStayOff() returns (before: bool, after: bool)
    ensures before && !after
  {
    var geo := Geometry(1, 2, 1, 0, 0, 0, 0);
    TwoSides(geo);
    var disk := seq<byte>(256, _ => 0);
    var f := new Floppy(geo, [disk, disk, disk, disk], _ => true, k => if k == 0 then 0x20 else 0, _ => false);
    var buffer := new byte[256];
    before := f.interrupts;
    assert f.LaterSeekFails(0, 2) by { assert !SeekEnd(f.st0(1)); }
    assert f.Undisturbed(f.Now());
    var _, _ := f.ReadData(buffer, 2);
    after := f.interrupts;
  }

  lemma FaultsAdd(fault: nat -> bool, a: nat, b: nat, c: nat)
    requires a <= b <= c
    ensures Faults(fault, a, c) == Faults(fault, a, b) + Faults(fault, b, c)
  {
    if b < c { FaultsAdd(fault, a, b, c - 1); }
  }

  lemma Distribute(a: nat, b: nat, size: nat)
    ensures (a + b) * size == a * size + b * size
  {
  }

  lemma ChunkFits(n0: nat, blocks0: nat, n: nat, readblk: nat, size: nat)
    requires n0 <= n && n + readblk <= n0 + blocks0
    ensures n * size - n0 * size + readblk * size <= blocks0 * size
  {
    SumTimes(n, readblk, n0 + blocks0, size);
    Distribute(n0, blocks0, size);
  }

  /** After a chunk that ran to the end of its track side the next block starts a track side. */
  lemma NextChunk(g: Geometry, n: nat, readblk: nat, blocks: nat, size: nat)
    requires ValidGeometry(g)
    requires readblk == ChunkLen(g, n, blocks)
    ensures (n + readblk) * size == n * size + readblk * size
    ensures readblk < blocks ==> (n + readblk) % g.sect == 0
  {
    if readblk < blocks {
      DivUnique(n / g.sect + 1, 0, g.sect);
      assert n + readblk == (n / g.sect + 1) * g.sect;
    }
  }
}
