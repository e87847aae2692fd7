/**
 Sector addressing of the IDE driver (drivers/ide/BootIde.c): from a block
 number to the command-block registers, and what the device makes of them.
 */
module AtaAddress {
  import opened Arith
  import opened Types

  type Short = x: int | 0 <= x < 0x1_0000
  type UInt = x: int | 0 <= x < 0x1_0000_0000

  const LBA28_LIMIT: nat := 0x1000_0000

  /** What tsaHarddiskInfo says about a drive. */
  datatype Geometry = Geometry(chs: bool, heads: nat, sectorsPerTrack: nat)

  /** tsIdeCommandParams, without the unused precompensation byte. */
  datatype Params = Params(
    countSector: Octet, sector: Octet, cylinder: Short, drivehead: Octet,
    countSectorExt: Octet, sectorExt: Octet, cylinderExt: Short)

  /** A task-file register remembers the value written before the last one. */
  datatype Register = Register(cur: Octet, prev: Octet) {
    function Write(v: Octet): Register { Register(v, cur) }
  }

  datatype TaskFile = TaskFile(count: Register, low: Register, mid: Register, high: Register, device: Octet)

  /** The geometry a CHS drive can have: byte-sized track length, 4-bit head number. */
  predicate ValidGeometry(g: Geometry) {
    g.chs ==> 1 <= g.sectorsPerTrack <= 255 && 1 <= g.heads <= 16
  }

  // ---- the driver --------------------------------------------------------

  /** The drive and addressing bits of the device register; the or-ed bits are disjoint. */
  function DriveHead(base: Octet, nibble: nat, index: nat, lba: bool): Octet
    requires nibble < 16 && (base == 0 || base == 0xA0)
  {
    base + nibble + (if index % 2 != 0 then 0x10 else 0) + (if lba then 0x40 else 0)
  }

  /** The 48-bit form used for blocks that need it. */
  function Encode48(block: UInt, count: Octet, index: nat): Params {
    Params(count, block % 0x100, block / 0x100 % 0x1_0000, DriveHead(0, 0, index, true),
           0, block / 0x100_0000 % 0x100, 0)
  }

  /** The 28-bit form, or cylinder, head and sector on a drive without LBA. */
  function Encode28(block: UInt, count: Octet, index: nat, g: Geometry): Params
    requires ValidGeometry(g)
  {
    if g.chs then
      var track := block / g.sectorsPerTrack;
      Params(count, (1 + block % g.sectorsPerTrack) % 0x100, track / g.heads % 0x1_0000,
             DriveHead(0xA0, track % g.heads % 16, index, false), 0, 0, 0)
    else
      Params(count, block % 0x100, block / 0x100 % 0x1_0000,
             DriveHead(0xA0, block / 0x100_0000 % 16, index, true), 0, 0, 0)
  }

  /** A command and its parameters; `ext` commands take the 48-bit form. */
  datatype Command = Command(params: Params, ext: bool)

  /** BootIdeReadSector and BootIdeWriteSector */
  function EncodeSector(block: UInt, index: nat, g: Geometry): Command
    requires ValidGeometry(g)
  {
    if block >= LBA28_LIMIT then Command(Encode48(block, 1, index), true)
    else Command(Encode28(block, 1, index, g), false)
  }

  /** The test of BootIdeWriteMultiple for 48-bit commands; its sum is 32 bits wide. */
  predicate Takes48(start: UInt, len: Short) {
    (start + len) % 0x1_0000_0000 >= LBA28_LIMIT
  }

  /** BootIdeWriteMultiple */
  function EncodeMultiple(start: UInt, len: Short, index: nat, g: Geometry): Command
    requires ValidGeometry(g)
  {
    if Takes48(start, len) then Command(Encode48(start, len % 0x100, index), true)
    else Command(Encode28(start, len % 0x100, index, g), false)
  }

  /** BootIdeIssueAtaCommand: the extension bytes first, then the low ones. */
  function Latched(t: TaskFile, p: Params): TaskFile {
    TaskFile(t.count.Write(p.countSectorExt).Write(p.countSector),
             t.low.Write(p.sectorExt).Write(p.sector),
             t.mid.Write(p.cylinderExt % 0x100).Write(p.cylinder % 0x100),
             t.high.Write(p.cylinderExt / 0x100).Write(p.cylinder / 0x100),
             p.drivehead)
  }

  class TaskFilePort {
    var file: TaskFile

    method Out(register: nat, v: Octet)
      requires 2 <= register <= 6
      modifies this
      ensures file == match register
                      case 2 => old(file).(count := old(file).count.Write(v))
                      case 3 => old(file).(low := old(file).low.Write(v))
                      case 4 => old(file).(mid := old(file).mid.Write(v))
                      case 5 => old(file).(high := old(file).high.Write(v))
                      case _ => old(file).(device := v)
    {
      match register {
        case 2 => file := file.(count := file.count.Write(v));
        case 3 => file := file.(low := file.low.Write(v));
        case 4 => file := file.(mid := file.mid.Write(v));
        case 5 => file := file.(high := file.high.Write(v));
        case _ => file := file.(device := v);
      }
    }

    /** The register writes of BootIdeIssueAtaCommand. */
    method Issue(p: Params)
      modifies this
      ensures file == Latched(old(file), p)
    {
      Out(2, p.countSectorExt);
      Out(3, p.sectorExt);
      Out(4, p.cylinderExt % 0x100);
      Out(5, p.cylinderExt / 0x100);
      Out(2, p.countSector);
      Out(3, p.sector);
      Out(4, p.cylinder % 0x100);
      Out(5, p.cylinder / 0x100);
      Out(6, p.drivehead);
    }
  }

  // ---- the device --------------------------------------------------------

  /** Section 6.2 of ATA/ATAPI-5 (CHS and 28-bit) and section 6.20 of
      ATA/ATAPI-6 (48-bit): the block that the latched registers address. */
  function Addressed(t: TaskFile, ext: bool, g: Geometry): int {
    if ext then
      t.low.cur + 0x100 * t.mid.cur + 0x1_0000 * t.high.cur
        + 0x100_0000 * t.low.prev + 0x1_0000_0000 * t.mid.prev + 0x100_0000_0000 * t.high.prev
    else if t.device / 0x40 % 2 == 1 then
      t.low.cur + 0x100 * t.mid.cur + 0x1_0000 * t.high.cur + 0x100_0000 * (t.device % 16)
    else
      ((t.mid.cur + 0x100 * t.high.cur) * g.heads + t.device % 16) * g.sectorsPerTrack + t.low.cur - 1
  }

  /** How many sectors the latched count announces, in the same sections: 8 bits
      where 0 stands for 256, or 16 bits where 0 stands for 65536. */
  function Announced(count: Register, ext: bool): nat {
    var cur: int, prev: int := count.cur, count.prev;
    if ext then (if cur + 0x100 * prev == 0 then 0x1_0000 else cur + 0x100 * prev)
    else if cur == 0 then 256 else cur
  }

  /** What a multiple-sector write of `len` sectors announces: the high count byte is 0. */
  function Expected(start: UInt, len: Short): nat {
    Announced(Register(len % 0x100, 0), Takes48(start, len))
  }

  // ---- decoding undoes encoding ------------------------------------------

  lemma Decodes48(t: TaskFile, block: UInt, count: Octet, index: nat, g: Geometry)
    ensures Addressed(Latched(t, Encode48(block, count, index)), true, g) == block
  {
  }

  lemma DeviceBits(nibble: nat, index: nat, lba: bool)
    requires nibble < 16
    ensures var d := DriveHead(0xA0, nibble, index, lba);
      d % 16 == nibble && (d / 0x40 % 2 == 1 <==> lba)
  {
  }

  /** Whatever the command, the device register selects the drive that was meant. */
  lemma SelectsDrive(t: TaskFile, block: UInt, len: Short, index: nat, g: Geometry)
    requires ValidGeometry(g)
    ensures Latched(t, EncodeSector(block, index, g).params).device / 16 % 2 == index % 2
    ensures Latched(t, EncodeMultiple(block, len, index, g).params).device / 16 % 2 == index % 2
  {
    hide DriveHead;
    DriveBit(0, 0, index, true);
    if g.chs {
      DriveBit(0xA0, block / g.sectorsPerTrack % g.heads % 16, index, false);
    } else {
      DriveBit(0xA0, block / 0x100_0000 % 16, index, true);
    }
  }

  lemma DriveBit(base: Octet, nibble: nat, index: nat, lba: bool)
    requires nibble < 16 && (base == 0 || base == 0xA0)
    ensures DriveHead(base, nibble, index, lba) / 16 % 2 == index % 2
  {
  }

  /** A 28-bit number is its three bytes and a nibble. */
  lemma Bytes28(block: UInt)
    ensures var c := block / 0x100 % 0x1_0000;
      block % 0x100 + 0x100 * (c % 0x100) + 0x1_0000 * (c / 0x100) + 0x100_0000 * (block / 0x100_0000 % 16)
        == block % LBA28_LIMIT
  {
    var low, rest := block % 0x100, block / 0x100;
    var c, top := rest % 0x1_0000, rest / 0x1_0000;
    assert block == low + 0x100 * rest && rest == c + 0x1_0000 * top;
    assert top == block / 0x100_0000;
    assert top == top % 16 + 16 * (top / 16) && c == c % 0x100 + 0x100 * (c / 0x100);
    DivModUnique(block, LBA28_LIMIT, top / 16, low + 0x100 * c + 0x100_0000 * (top % 16));
  }

  lemma Decodes28(t: TaskFile, block: UInt, count: Octet, index: nat, g: Geometry)
    requires !g.chs
    ensures Addressed(Latched(t, Encode28(block, count, index, g)), false, g) == block % LBA28_LIMIT
  {
    hide DriveHead;
    DeviceBits(block / 0x100_0000 % 16, index, true);
    Bytes28(block);
  }

  /** The cylinder number that a block falls on. */
  function Cylinder(block: nat, g: Geometry): int
    requires g.chs && ValidGeometry(g)
  {
    block / g.sectorsPerTrack / g.heads
  }

  /** Cylinder, head and sector decode to the block, less the cylinders that
      do not fit the 16-bit register. */
  lemma DecodesChs(t: TaskFile, block: UInt, count: Octet, index: nat, g: Geometry)
    requires g.chs && ValidGeometry(g)
    ensures Addressed(Latched(t, Encode28(block, count, index, g)), false, g) ==
      block - (Cylinder(block, g) - Cylinder(block, g) % 0x1_0000) * g.heads * g.sectorsPerTrack
  {
    hide DriveHead, Addressed, Latched;
    var s, h := g.sectorsPerTrack, g.heads;
    var track, p := block / s, Encode28(block, count, index, g);
    var head, sector := track % h, block % s;
    assert 0 <= head < 16 && 0 <= sector < 255;
    DeviceBits(head, index, false);
    AddressedChs(t, p, g, head, sector);
    ChsArithmetic(block, s, h, p.cylinder);
  }

  /** Cylinder, head and sector registers, put together. */
  lemma AddressedChs(t: TaskFile, p: Params, g: Geometry, head: int, sector: int)
    requires p.drivehead % 16 == head && p.drivehead / 0x40 % 2 == 0 && p.sector == 1 + sector
    ensures Addressed(Latched(t, p), false, g) == (p.cylinder * g.heads + head) * g.sectorsPerTrack + sector
  {
    assert p.cylinder % 0x100 + 0x100 * (p.cylinder / 0x100) == p.cylinder;
  }

  lemma ChsArithmetic(block: int, s: int, h: int, cylinder: int)
    requires s > 0 && h > 0
    ensures (cylinder * h + block / s % h) * s + block % s == block - (block / s / h - cylinder) * h * s
  {
    var track := block / s;
    var c := track / h;
    calc {
      (cylinder * h + track % h) * s + block % s;
    == { assert track == h * c + track % h; }
      (cylinder * h + track - h * c) * s + block % s;
    == { assert (c - cylinder) * h == h * c - cylinder * h; }
      (track - (c - cylinder) * h) * s + block % s;
    == { assert (track - (c - cylinder) * h) * s == track * s - (c - cylinder) * h * s; }
      track * s - (c - cylinder) * h * s + block % s;
    == { assert block == s * track + block % s; }
      block - (c - cylinder) * h * s;
    }
  }

  /** The registers can express the block: always with LBA, up to 65536 cylinders with CHS. */
  predicate Expressible(block: nat, g: Geometry)
    requires ValidGeometry(g)
  {
    block >= LBA28_LIMIT || !g.chs || Cylinder(block, g) < 0x1_0000
  }

  lemma ChsExactly(t: TaskFile, block: UInt, count: Octet, index: nat, g: Geometry)
    requires g.chs && ValidGeometry(g)
    ensures var a := Addressed(Latched(t, Encode28(block, count, index, g)), false, g);
      && (a == block <==> Cylinder(block, g) < 0x1_0000)
      && a < LBA28_LIMIT
  {
    hide Addressed, Encode28, Latched, Cylinder;
    DecodesChs(t, block, count, index, g);
    var c, s, h := block / g.sectorsPerTrack / g.heads, g.sectorsPerTrack, g.heads;
    assert Cylinder(block, g) == c by { CylinderIs(block, g); }
    DivNonnegative(block, s);
    DivNonnegative(block / s, h);
    var hi := c - c % 0x1_0000;
    ExcessVanishes(hi, h, s);
    ChsArithmetic(block, s, h, c - hi);
    ChsBound(c - hi, h, block / s % h, s, block % s);
  }

  lemma CylinderIs(block: nat, g: Geometry)
    requires g.chs && ValidGeometry(g)
    ensures Cylinder(block, g) == block / g.sectorsPerTrack / g.heads
  {
  }

  lemma ExcessVanishes(hi: int, h: int, s: int)
    requires hi >= 0 && h > 0 && s > 0
    ensures hi * h * s == 0 <==> hi == 0
  {
    if hi > 0 {
      MulAtLeast(h, hi);
      assert hi * h >= 1;
      MulAtLeast(s, hi * h);
    }
  }

  lemma ChsBound(c: int, h: int, head: int, s: int, sector: int)
    requires 0 <= c < 0x1_0000 && 1 <= h <= 16 && 0 <= head < h && 1 <= s <= 255 && 0 <= sector < s
    ensures (c * h + head) * s + sector < LBA28_LIMIT
  {
    assert c * h <= 0xFFFF * 16 by { MulMonotone(c, 0xFFFF, h); MulMonotone(h, 16, 0xFFFF); }
    var track := c * h + head;
    MulMonotone(track, 0xF_FFFF, s);
    MulMonotone(s, 255, 0xF_FFFF);
  }

  /** Reads and writes of single sectors address exactly the requested block,
      for every earlier register contents, if and only if it is expressible. */
  lemma SectorDecodesExactly(t: TaskFile, block: UInt, index: nat, g: Geometry)
    requires ValidGeometry(g)
    ensures var cmd := EncodeSector(block, index, g);
      Addressed(Latched(t, cmd.params), cmd.ext, g) == block <==> Expressible(block, g)
  {
    hide Addressed, Encode28, Latched, Encode48;
    if block >= LBA28_LIMIT {
      Decodes48(t, block, 1, index, g);
    } else if g.chs {
      ChsExactly(t, block, 1, index, g);
    } else {
      Decodes28(t, block, 1, index, g);
    }
  }

  /** Two expressible blocks never reach the same sector. */
  lemma BlocksNeverAlias(t: TaskFile, t': TaskFile, block: UInt, block': UInt, index: nat, g: Geometry)
    requires ValidGeometry(g) && Expressible(block, g) && Expressible(block', g) && block != block'
    ensures var c, c' := EncodeSector(block, index, g), EncodeSector(block', index, g);
      Addressed(Latched(t, c.params), c.ext, g) != Addressed(Latched(t', c'.params), c'.ext, g)
  {
    hide Addressed, EncodeSector, Latched;
    SectorDecodesExactly(t, block, index, g);
    SectorDecodesExactly(t', block', index, g);
  }

  /** A multiple-sector write addresses its start if and only if the range does
      not run past the 32-bit block numbers. */
  lemma MultipleDecodesExactly(t: TaskFile, start: UInt, len: Short, index: nat, g: Geometry)
    requires ValidGeometry(g) && Expressible(start, g)
    ensures var cmd := EncodeMultiple(start, len, index, g);
      && (Addressed(Latched(t, cmd.params), cmd.ext, g) == start <==> start + len < 0x1_0000_0000)
      && Announced(Latched(t, cmd.params).count, cmd.ext) == Expected(start, len)
  {
    hide Addressed;
    var sum := (start + len) % 0x1_0000_0000;
    if sum >= LBA28_LIMIT {
      Decodes48(t, start, len % 0x100, index, g);
      assert start + len < 0x1_0000_0000;
    } else if g.chs {
      ChsExactly(t, start, len % 0x100, index, g);
    } else {
      Decodes28(t, start, len % 0x100, index, g);
    }
  }

  /** The last block there is: the sum wraps, and a 28-bit command goes elsewhere. */
  lemma LastBlockGoesAstray(t: TaskFile, index: nat, g: Geometry)
    requires !g.chs && ValidGeometry(g)
    ensures var cmd := EncodeMultiple(0xFFFF_FFFF, 1, index, g);
      !cmd.ext && Addressed(Latched(t, cmd.params), cmd.ext, g) == 0xFFF_FFFF
  {
    hide Addressed, Encode28, Latched;
    Decodes28(t, 0xFFFF_FFFF, 1, index, g);
  }
}
