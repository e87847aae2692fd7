/**
 The NOR flash chip that the driver programs, seen from the bus.

 Bus writes walk a JEDEC command decoder; bus reads return array data when the
 chip is idle and a status byte whose bit 6 toggles on every read while it is
 busy. Everything the driver cannot know in advance (whether an erase takes,
 what a program really stores, how long the chip stays busy, the other status
 bits) is an oracle, so a statement for all oracles is a statement for all runs.
 */
module FlashChip {
  import opened Arith

  type Byte = bv8

  const KB: nat := 1024
  const ERASED: Byte := 0xFF
  const SECTOR_SIZE: nat := 4 * KB
  const BLOCK_SIZE: nat := 64 * KB
  const IMAGE_SIZE: nat := 256 * KB

  datatype EraseMethod = Sector | Block | ChipWide

  /** Commands are numbered from 0; every oracle may depend on that number. */
  datatype Oracle = Oracle(
    clears: (nat, EraseMethod) -> bool,       // does this erase clear its unit?
    eraseTime: (nat, EraseMethod) -> nat,     // busy reads after an erase
    programmed: (nat, Byte, Byte) -> Byte,    // what programming data over a cell stores
    programTime: nat -> nat,                  // busy reads after a program
    noise: (nat, nat) -> Byte)                // status bits other than bit 6

  datatype Decoder =
    | Ready | Unlocking | Unlocked | ProgramCycle
    | EraseSetup | EraseUnlocking | EraseUnlocked

  /** `small` says that the sector erase command works on 4KB, not 64KB.
      `hazards` counts data reads and bus writes that hit the chip while busy. */
  datatype Chip = Chip(
    mem: seq<Byte>, small: bool, decoder: Decoder,
    busy: nat, toggle: bool, commands: nat, hazards: nat, oracle: Oracle)

  /** Programming can only turn 1 bits into 0 bits, and does so exactly. */
  ghost predicate ProgramsIdeally(o: Oracle) {
    forall k, was, data :: o.programmed(k, was, data) == was & data
  }

  // ---- erase units -------------------------------------------------------

  predicate IsUnit(size: nat) {
    size == SECTOR_SIZE || size == BLOCK_SIZE || size == IMAGE_SIZE
  }

  /** `a & ~(unit - 1)`, spelt out for the three power-of-two unit sizes. */
  function AlignDown(a: nat, unit: nat): (r: nat)
    requires IsUnit(unit)
    ensures r <= a < r + unit
  {
    if unit == SECTOR_SIZE then a - a % SECTOR_SIZE
    else if unit == BLOCK_SIZE then a - a % BLOCK_SIZE
    else a - a % IMAGE_SIZE
  }

  lemma AlignDownInWindow(off: nat, a: nat, unit: nat)
    requires IsUnit(unit) && AlignDown(off, unit) <= a < AlignDown(off, unit) + unit
    ensures AlignDown(a, unit) == AlignDown(off, unit)
  {
    if unit == SECTOR_SIZE {
      ModInUnit(off, a, SECTOR_SIZE);
    } else if unit == BLOCK_SIZE {
      ModInUnit(off, a, BLOCK_SIZE);
    } else {
      ModInUnit(off, a, IMAGE_SIZE);
    }
  }

  /** The half-open range of cells that erasing `a` with method `m` clears. */
  function UnitLow(m: EraseMethod, small: bool, a: nat): nat {
    match m
    case Sector => AlignDown(a, if small then SECTOR_SIZE else BLOCK_SIZE)
    case Block => AlignDown(a, BLOCK_SIZE)
    case ChipWide => 0
  }

  function UnitHigh(m: EraseMethod, small: bool, a: nat, length: nat): nat {
    match m
    case Sector => UnitLow(m, small, a) + (if small then SECTOR_SIZE else BLOCK_SIZE)
    case Block => UnitLow(m, small, a) + BLOCK_SIZE
    case ChipWide => length
  }

  function Filled(mem: seq<Byte>, lo: nat, hi: nat): (r: seq<Byte>)
    ensures |r| == |mem|
    ensures forall i :: 0 <= i < |mem| ==> r[i] == if lo <= i < hi then ERASED else mem[i]
  {
    seq(|mem|, i requires 0 <= i < |mem| => if lo <= i < hi then ERASED else mem[i])
  }

  // ---- commands ----------------------------------------------------------

  function Erase(c: Chip, m: EraseMethod, a: nat): Chip {
    var k := c.commands;
    c.(decoder := Ready, commands := k + 1, busy := c.oracle.eraseTime(k, m),
       mem := if c.oracle.clears(k, m)
              then Filled(c.mem, UnitLow(m, c.small, a), UnitHigh(m, c.small, a, |c.mem|))
              else c.mem)
  }

  function Program(c: Chip, a: nat, data: Byte): Chip
    requires a < |c.mem|
  {
    var k := c.commands;
    c.(decoder := Ready, commands := k + 1, busy := c.oracle.programTime(k),
       mem := c.mem[a := c.oracle.programmed(k, c.mem[a], data)])
  }

  // ---- the bus -----------------------------------------------------------

  const UNLOCK1: nat := 0x5555
  const UNLOCK2: nat := 0x2AAA

  function BusWrite(c: Chip, a: nat, data: Byte): (r: Chip)
    requires a < |c.mem|
    ensures |r.mem| == |c.mem|
  {
    if c.busy > 0 then c.(hazards := c.hazards + 1)
    else match c.decoder
      case Ready =>
        c.(decoder := if a == UNLOCK1 && data == 0xAA then Unlocking else Ready)
      case Unlocking =>
        c.(decoder := if a == UNLOCK2 && data == 0x55 then Unlocked else Ready)
      case Unlocked =>
        c.(decoder := if a == UNLOCK1 && data == 0xA0 then ProgramCycle
                      else if a == UNLOCK1 && data == 0x80 then EraseSetup else Ready)
      case ProgramCycle => Program(c, a, data)
      case EraseSetup =>
        c.(decoder := if a == UNLOCK1 && data == 0xAA then EraseUnlocking else Ready)
      case EraseUnlocking =>
        c.(decoder := if a == UNLOCK2 && data == 0x55 then EraseUnlocked else Ready)
      case EraseUnlocked =>
        if data == 0x30 then Erase(c, Sector, a)
        else if data == 0x50 then Erase(c, Block, a)
        else if a == UNLOCK1 && data == 0x10 then Erase(c, ChipWide, a)
        else c.(decoder := Ready)
  }

  function StatusByte(toggle: bool, noise: Byte): Byte {
    (noise & 0xBF) | (if toggle then 0x40 else 0)
  }

  predicate Bit6(b: Byte) {
    b & 0x40 != 0
  }

  lemma StatusBit6(toggle: bool, noise: Byte)
    ensures Bit6(StatusByte(toggle, noise)) == toggle
  {
  }

  datatype ReadResult = ReadResult(byte: Byte, chip: Chip)

  function BusRead(c: Chip, a: nat): (r: ReadResult)
    requires a < |c.mem|
    ensures r.chip.mem == c.mem && r.chip.oracle == c.oracle && r.chip.small == c.small && r.chip.decoder == c.decoder
  {
    if c.busy > 0 then
      ReadResult(StatusByte(c.toggle, c.oracle.noise(c.commands, c.busy)),
                 c.(busy := c.busy - 1, toggle := !c.toggle))
    else ReadResult(c.mem[a], c)
  }

  /** A bus read whose result is used as data. */
  function DataRead(c: Chip, a: nat): (r: ReadResult)
    requires a < |c.mem|
    ensures r.chip.mem == c.mem && r.chip.oracle == c.oracle && r.chip.small == c.small && r.chip.decoder == c.decoder
    ensures c.busy == 0 ==> r == ReadResult(c.mem[a], c)
    ensures c.busy > 0 ==> r.chip.hazards > c.hazards
  {
    var r := BusRead(c, a);
    if c.busy > 0 then r.(chip := r.chip.(hazards := c.hazards + 1)) else r
  }

  datatype SpanResult = SpanResult(bytes: seq<Byte>, chip: Chip)

  /** `n` data reads from consecutive addresses. */
  function ReadSpan(c: Chip, a: nat, n: nat): (r: SpanResult)
    requires a + n <= |c.mem|
    ensures |r.bytes| == n && r.chip.mem == c.mem && r.chip.oracle == c.oracle && r.chip.small == c.small && r.chip.decoder == c.decoder
    ensures c.busy == 0 ==> r == SpanResult(c.mem[a..a + n], c)
  {
    if n == 0 then SpanResult([], c)
    else
      var s := ReadSpan(c, a, n - 1);
      var r := DataRead(s.chip, a + n - 1);
      assert c.mem[a..a + n] == c.mem[a..a + n - 1] + [c.mem[a + n - 1]];
      SpanResult(s.bytes + [r.byte], r.chip)
  }
}
