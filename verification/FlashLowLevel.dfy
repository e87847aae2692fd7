/**
 The 29xxx command and poll layer (drivers/flash/FlashLowLevel.c).
 */
module FlashLowLevel {
  import opened FlashChip

  /** The memory-mapped chip and the two statics of the poll routine. */
  datatype Port = Port(chip: Chip, firstBusyRead: bool, lastStatus: Byte)

  datatype PollResult = PollResult(busy: bool, port: Port)

  /** _29xxxDeviceIsBusy: compare bit 6 of two consecutive status reads. */
  function Poll(p: Port): PollResult
    requires |p.chip.mem| > 0
  {
    var r := BusRead(p.chip, 0);
    if p.firstBusyRead || Bit6(p.lastStatus) != Bit6(r.byte)
    then PollResult(true, Port(r.chip, false, r.byte))
    else PollResult(false, Port(r.chip, true, r.byte))
  }

  /** The command level: a chip at rest obeys, a busy one drops every write. */
  function SendProgram(c: Chip, a: nat, data: Byte): (r: Chip)
    requires a < |c.mem| && c.decoder == Ready
    ensures |r.mem| == |c.mem| && r.decoder == Ready
  {
    if c.busy > 0 then c.(hazards := c.hazards + 4) else Program(c, a, data)
  }

  function SendErase(c: Chip, m: EraseMethod, a: nat): (r: Chip)
    requires a < |c.mem| && c.decoder == Ready
    ensures |r.mem| == |c.mem| && r.decoder == Ready
  {
    if c.busy > 0 then c.(hazards := c.hazards + 6) else Erase(c, m, a)
  }

  /** What two consecutive polls rely on: after a first poll, a chip that is
      still busy shows the opposite bit 6 on the next read. */
  predicate PollInv(p: Port) {
    !p.firstBusyRead && p.chip.busy > 0 ==> Bit6(p.lastStatus) != p.chip.toggle
  }

  /** A not-busy verdict is never wrong, and polling disturbs nothing. */
  lemma PollSound(p: Port)
    requires PollInv(p) && |p.chip.mem| > 0
    ensures var r := Poll(p);
      && PollInv(r.port)
      && r.port.chip == p.chip.(busy := r.port.chip.busy, toggle := r.port.chip.toggle)
      && (!r.busy ==> p.chip.busy == 0 && r.port.chip == p.chip && r.port.firstBusyRead)
      && (r.busy ==> !r.port.firstBusyRead)
  {
    StatusBit6(p.chip.toggle, p.chip.oracle.noise(p.chip.commands, p.chip.busy));
  }

  /** Polling an idle chip leaves it as it is. */
  lemma PollIdle(p: Port)
    requires |p.chip.mem| > 0 && p.chip.busy == 0
    ensures Poll(p).port.chip == p.chip
  {
  }

  /** How many polls an idle chip still needs before it is seen idle. */
  function Settling(p: Port): nat
    requires |p.chip.mem| > 0
  {
    if p.firstBusyRead || Bit6(p.lastStatus) != Bit6(p.chip.mem[0]) then 1 else 0
  }

  /** A busy verdict uses up one busy read, or settles an idle chip. */
  lemma PollProgress(p: Port)
    requires |p.chip.mem| > 0 && Poll(p).busy
    ensures var q := Poll(p).port;
      if p.chip.busy > 0 then q.chip.busy == p.chip.busy - 1
      else q.chip == p.chip && Settling(p) == 1 && Settling(q) == 0
  {
  }

  /** What the two unlock cycles do; a busy chip drops both. */
  lemma UnlockCycles(c: Chip)
    requires |c.mem| >= IMAGE_SIZE
    ensures var r := BusWrite(BusWrite(c, UNLOCK1, 0xAA), UNLOCK2, 0x55);
      && (c.busy > 0 ==> r == c.(hazards := c.hazards + 2))
      && (c.busy == 0 && c.decoder == Ready ==> r == c.(decoder := Unlocked))
      && (c.busy == 0 && c.decoder == EraseSetup ==> r == c.(decoder := EraseUnlocked))
  {
  }

  lemma SetupCycle(c: Chip)
    requires |c.mem| >= IMAGE_SIZE
    ensures var r := BusWrite(c, UNLOCK1, 0x80);
      && (c.busy > 0 ==> r == c.(hazards := c.hazards + 1))
      && (c.busy == 0 && c.decoder == Unlocked ==> r == c.(decoder := EraseSetup))
  {
  }

  class LowLevel {
    var chip: Chip
    var firstBusyRead: bool
    var lastStatusRegisterState: Byte

    function View(): Port
      reads this
    {
      Port(chip, firstBusyRead, lastStatusRegisterState)
    }

    constructor (c: Chip)
      ensures View() == Port(c, true, 0)
    {
      chip, firstBusyRead, lastStatusRegisterState := c, true, 0;
    }

    /** FlashLowLevel_ReadDevice restarts polling; `found` is whether the chip
        answered with a known identifier. */
    method ReadDevice(found: bool) returns (r: bool)
      modifies this`firstBusyRead
      ensures firstBusyRead && r == found
    {
      firstBusyRead := true;
      return found;
    }

    method DeviceIsBusy() returns (busy: bool)
      requires |chip.mem| > 0
      modifies this
      ensures PollResult(busy, View()) == Poll(old(View()))
    {
      var oldStatusByteValue := lastStatusRegisterState;
      var r := BusRead(chip, 0);
      chip, lastStatusRegisterState := r.chip, r.byte;
      if firstBusyRead || (oldStatusByteValue & 0x40) != (lastStatusRegisterState & 0x40) {
        firstBusyRead := false;
        return true;
      }
      firstBusyRead := true;
      return false;
    }

    method ReadByte(a: nat) returns (b: Byte)
      requires a < |chip.mem|
      modifies this`chip
      ensures ReadResult(b, chip) == DataRead(old(chip), a)
    {
      var r := DataRead(chip, a);
      b, chip := r.byte, r.chip;
    }

    method Out(a: nat, data: Byte)
      requires a < |chip.mem|
      modifies this`chip
      ensures chip == BusWrite(old(chip), a, data)
    {
      chip := BusWrite(chip, a, data);
    }

    /** _29xxxWriteBytes: the four bus cycles amount to one program command. */
    method WriteByte(data: Byte, a: nat)
      requires |chip.mem| >= IMAGE_SIZE && a < |chip.mem| && chip.decoder == Ready
      modifies this`chip
      ensures chip == SendProgram(old(chip), a, data)
    {
      Out(0x5555, 0xAA);
      Out(0x2AAA, 0x55);
      Out(0x5555, 0xA0);
      Out(a, data);
    }

    /** _29xxxCommonEraseSequence */
    method CommonEraseSequence()
      requires |chip.mem| >= IMAGE_SIZE && chip.decoder == Ready
      modifies this`chip
      ensures chip == if old(chip).busy > 0 then old(chip).(hazards := old(chip).hazards + 5)
                      else old(chip).(decoder := EraseUnlocked)
    {
      hide BusWrite;
      UnlockCycles(chip);
      Out(0x5555, 0xAA);
      Out(0x2AAA, 0x55);
      SetupCycle(chip);
      Out(0x5555, 0x80);
      UnlockCycles(chip);
      Out(0x5555, 0xAA);
      Out(0x2AAA, 0x55);
    }

    /** _29xxxSectorErase, _29xxxBlockErase, _29xxxChipErase: the six bus cycles
        amount to one erase command. */
    method InitiateErase(m: EraseMethod, a: nat)
      requires |chip.mem| >= IMAGE_SIZE && a < |chip.mem| && chip.decoder == Ready
      modifies this`chip
      ensures chip == SendErase(old(chip), m, a)
    {
      CommonEraseSequence();
      match m {
        case Sector => Out(a, 0x30);
        case Block => Out(a, 0x50);
        case ChipWide => Out(0x5555, 0x10);
      }
    }
  }
}
