/**
 The requests that start a flash job, and what save followed by load yields.
 */
module FlashRequests {
  import opened Arith
  import opened Types
  import opened FlashChip
  import opened FlashLowLevel
  import opened FlashDriver
  import opened FlashRuns
  import opened FlashSettings
  import opened FlashTermination

  // ---- where the settings go ---------------------------------------------

  /** Where the settings belong: behind the BIOS, on a 4KB boundary, never
      below 192KB, and nowhere if the BIOS fills the image. */
  function IntendedOffset(biosSize: nat): nat {
    if biosSize >= IMAGE_SIZE then 0
    else if biosSize < 3 * BLOCK_SIZE then 3 * BLOCK_SIZE
    else (biosSize + SECTOR_SIZE - 1) / SECTOR_SIZE * SECTOR_SIZE
  }

  /** The size field of the identifier, low byte first. */
  function BiosSize(id: seq<Byte>): nat
    requires |id| == IDENTIFIER_SIZE
  {
    id[11] as nat + 0x100 * id[12] as nat + 0x1_0000 * id[13] as nat + 0x100_0000 * id[14] as nat
  }

  lemma SizeField(id: seq<Byte>)
    requires |id| == IDENTIFIER_SIZE
    ensures LittleEndian(id[11..15]) == BiosSize(id)
  {
  }

  /** The computed location is the intended one if and only if the BIOS size is
      outside [192KB, 256KB). Inside, it is below 4KB: nowhere for a size one
      past a 4KB boundary, else a misaligned address. */
  lemma SettingsOffsetExactly(id: seq<Byte>)
    requires |id| == IDENTIFIER_SIZE && LocatesSettings(id)
    ensures var size, off := BiosSize(id), SettingsOffset(id);
      && (off == IntendedOffset(size) <==> !(3 * BLOCK_SIZE <= size < IMAGE_SIZE))
      && (3 * BLOCK_SIZE <= size < IMAGE_SIZE ==> off < SECTOR_SIZE && (off == 0 <==> size % SECTOR_SIZE == 1))
  {
    hide LittleEndian, LocatesSettings, BiosSize;
    SizeField(id);
  }

  /** There is a location at all only for a header of version 1 or 2 that names
      the program and has the lowest bit of its first option byte set. */
  lemma LocatedExactly(id: seq<Byte>)
    requires |id| == IDENTIFIER_SIZE
    ensures var ours := && (id[4] == 1 || id[4] == 2) && id[8] & 1 == 1
                        && id[15..24] == [0x58, 0x42, 0x6C, 0x61, 0x73, 0x74, 0x20, 0x4F, 0x53];
      && (!ours ==> SettingsOffset(id) == 0)
      && (ours && BiosSize(id) < 0x30000 ==> SettingsOffset(id) == 0x30000)
  {
    hide LittleEndian, BiosSize;
    SizeField(id);
    OneBit(id[8]);
  }

  lemma OneBit(b: Byte)
    ensures b & 1 != 0 <==> b & 1 == 1
  {
  }

  /** One such identifier: a BIOS of 192KB and one byte. The settings belong to
      196KB, and the code finds no place for them. */
  lemma SettingsOffsetFails(id: seq<Byte>)
    requires |id| == IDENTIFIER_SIZE && LocatesSettings(id) && id[11..15] == [1, 0, 3, 0]
    ensures SettingsOffset(id) == 0 && IntendedOffset(BiosSize(id)) == 0x31000
  {
    hide LocatesSettings;
  }

  // ---- mirroring ---------------------------------------------------------

  /** The size that doubling `size` reaches once it is at least `target`. */
  function MirroredSize(size: nat, target: nat): (r: nat)
    requires size > 0
    ensures r >= target && r >= size
    decreases target - size
  {
    if size < target then MirroredSize(size + size, target) else size
  }

  function Pow2(k: nat): (r: nat)
    ensures r >= 1
  {
    if k == 0 then 1 else 2 * Pow2(k - 1)
  }

  /** Mirroring ends at the least size * 2^k that reaches the target. */
  lemma {:induction false} MirrorsToLeast(size: nat, target: nat) returns (k: nat)
    requires size > 0
    ensures MirroredSize(size, target) == size * Pow2(k)
    ensures forall j :: 0 <= j < k ==> size * Pow2(j) < target
    decreases target - size
  {
    if size < target {
      var k' := MirrorsToLeast(size + size, target);
      k := k' + 1;
      MulDouble(size, Pow2(k'));
      forall j | 0 <= j < k ensures size * Pow2(j) < target {
        if j > 0 { MulDouble(size, Pow2(j - 1)); }
      }
    } else {
      k := 0;
    }
  }

  /** It hits the target exactly when the target is the size times a power of two. */
  lemma {:induction false} MirrorsExactly(size: nat, target: nat)
    requires 0 < size <= target
    ensures MirroredSize(size, target) == target <==> exists k :: target == size * Pow2(k)
  {
    var k := MirrorsToLeast(size, target);
    if j :| target == size * Pow2(j) {
      Pow2Monotone(k, j, size);
    }
  }

  lemma {:induction false} MirroredBelowDouble(size: nat, target: nat)
    requires size > 0
    ensures MirroredSize(size, target) == size || MirroredSize(size, target) < 2 * target
    decreases target - size
  {
    if size < target { MirroredBelowDouble(size + size, target); }
  }

  /** The mirrored image fits the 1MB buffer if and only if some doubling of the
      size lies between the target and 1MB: always for targets of at most 512KB,
      for 1MB only if that is the size times a power of two. */
  lemma MirrorFitsExactly(size: nat, target: nat)
    requires 0 < size <= BUFFER_SIZE && target <= BUFFER_SIZE
    ensures MirroredSize(size, target) <= BUFFER_SIZE <==> exists k :: target <= size * Pow2(k) <= BUFFER_SIZE
    ensures 2 * target <= BUFFER_SIZE ==> MirroredSize(size, target) <= BUFFER_SIZE
    ensures target == BUFFER_SIZE ==>
      (MirroredSize(size, target) <= BUFFER_SIZE <==> exists k :: BUFFER_SIZE == size * Pow2(k))
  {
    var k := MirrorsToLeast(size, target);
    if j :| target <= size * Pow2(j) <= BUFFER_SIZE { Pow2Monotone(k, j, size); }
    MirroredBelowDouble(size, target);
    if target == BUFFER_SIZE { MirrorsExactly(size, target); }
  }

  lemma {:induction false} Pow2Monotone(k: nat, j: nat, size: nat)
    ensures k <= j ==> size * Pow2(k) <= size * Pow2(j)
  {
    if k < j {
      Pow2Monotone(k, j - 1, size);
      MulDouble(size, Pow2(j - 1));
    }
  }

  /** The contents of the buffer once it is filled up with copies of the image. */
  function Mirrored(image: seq<Byte>, target: nat): (r: seq<Byte>)
    requires |image| > 0
    ensures |r| == MirroredSize(|image|, target)
    decreases target - |image|
  {
    if |image| < target then Mirrored(image + image, target) else image
  }

  /** Byte i of a mirrored image is byte i modulo its size. */
  lemma {:induction false} MirroredAt(image: seq<Byte>, target: nat, i: nat)
    requires |image| > 0 && i < MirroredSize(|image|, target)
    ensures 0 <= i % |image| < |image| && Mirrored(image, target)[i] == image[i % |image|]
    decreases target - |image|
  {
    var unit := |image|;
    if unit < target {
      var j := i % (unit + unit);
      MirroredAt(image + image, target, i);
      ModTwice(i, unit);
      if j < unit { DivModUnique(j, unit, 0, j); } else { DivModUnique(j, unit, 1, j - unit); }
    } else {
      DivModUnique(i, unit, 0, i);
    }
  }

  /** A 256KB image for a 384KB chip (SST 49LF003A) is mirrored past its end. */
  lemma MirrorOvershoots()
    ensures MirroredSize(IMAGE_SIZE, 0x60000) == 0x80000
  {
    assert MirroredSize(0x80000, 0x60000) == 0x80000;
  }

  // ---- requests on an idle machine ---------------------------------------

  /** Flash_freeFlashFSM */
  function Freed(d: Driver): Driver {
    d.(size := 0, op := Idle, error := NoError, cur := 0, task := NoTask)
  }

  /** getBiosIdentifierFromFlash followed by getXBlastOSSettingStartingOffset */
  function OffsetFromFlash(c: Chip): nat
    requires |c.mem| >= IMAGE_SIZE
  {
    SettingsOffset(ReadSpan(c, IMAGE_SIZE - IDENTIFIER_SIZE, IDENTIFIER_SIZE).bytes)
  }

  /** The chip after its identifier was read. */
  function Identified(p: Port): Port
    requires |p.chip.mem| >= IMAGE_SIZE
  {
    Port(ReadSpan(p.chip, IMAGE_SIZE - IDENTIFIER_SIZE, IDENTIFIER_SIZE).chip, true, p.lastStatus)
  }

  /** Flash_ReadXBlastOSSettingsRequest on an idle machine with a known chip. */
  function ReadRequested(w: World): World
    requires Valid(w) && w.d.op == Idle
  {
    var off := OffsetFromFlash(w.port.chip);
    var d := w.d.(task := ReadSettings, size := |w.d.settings|, start := off);
    w.(port := Identified(w.port),
       d := if off == 0 then d.(op := Completed, buffer := d.buffer[0 := ERASED]) else d.(op := Pending))
  }

  /** Flash_SaveXBlastOSSettings on an idle machine with a known chip. */
  function SaveRequested(w: World): World
    requires Valid(w) && w.d.op == Idle
  {
    var off := OffsetFromFlash(w.port.chip);
    var d := w.d.(start := off);
    w.(port := Identified(w.port),
       d := if off == 0 then d.(op := Failed, error := FlashContentError)
            else d.(eraseMethod := Sector, busyCount := 0, firstTry := true,
                    size := EraseSize(Sector, d.small), op := Pending, task := WriteSettings))
  }

  /** Settings of the current version with a matching CRC. */
  predicate Accepted(image: seq<Byte>, crc32: seq<Byte> -> Word) {
    && |image| > CRC_SIZE && image[0] == SETTINGS_VERSION
    && crc32(image[..|image| - CRC_SIZE]).Bytes() == image[|image| - CRC_SIZE..]
  }

  /** Sealed settings are accepted exactly if they are of the current version. */
  lemma SealedIsAccepted(settings: seq<Byte>, crc32: seq<Byte> -> Word)
    requires |settings| > CRC_SIZE
    ensures Accepted(Sealed(settings, crc32), crc32) <==> settings[0] == SETTINGS_VERSION
  {
    var image := Sealed(settings, crc32);
    assert image[..|image| - CRC_SIZE] == settings[..|settings| - CRC_SIZE];
    assert image[|image| - CRC_SIZE..] == crc32(settings[..|settings| - CRC_SIZE]).Bytes();
  }

  /** Flash_LoadXBlastOSSettings: the settings in the buffer, if they are accepted. */
  function Loaded(d: Driver, crc32: seq<Byte> -> Word): Option<seq<Byte>>
    requires CRC_SIZE < |d.settings| <= |d.buffer|
  {
    var image := d.buffer[..|d.settings|];
    if d.op == Completed && d.task == ReadSettings && Accepted(image, crc32) then Some(image) else None
  }

  /** No step changes the size of the settings. */
  lemma {:induction false} SettingsStay(w: World, n: nat)
    requires Valid(w)
    ensures |Run(w, n).d.settings| == |w.d.settings| && Run(w, n).crc32 == w.crc32
  {
    hide Step;
    if n > 0 {
      SettingsStay(w, n - 1);
      StepKeepsSize(Run(w, n - 1));
    }
  }

  lemma StepKeepsSize(w: World)
    requires Valid(w)
    ensures |Step(w).d.settings| == |w.d.settings| && Step(w).crc32 == w.crc32
  {
    hide ActErase, ActRead, ActWrite, ActVerify, Poll;
    if Polls(w.d.op) && !SeenBusy(w) {
      var c := Poll(w.port).port.chip;
      ChipStays(w);
      if w.d.op == Erasing { EraseKeepsSettings(w.d, c); }
      else if w.d.op == Reading { ReadKeepsSize(w.d, c, w.crc32); }
      else { LaterForms(w.d, c, w.crc32); }
    }
  }

  lemma ChipStays(w: World)
    requires Valid(w) && Polls(w.d.op)
    ensures InStep(w.d, Poll(w.port).port.chip)
  {
  }

  lemma ReadKeepsSize(d: Driver, c: Chip, crc32: seq<Byte> -> Word)
    requires InStep(d, c) && d.op == Reading
    ensures |ActRead(d, c, crc32).d.settings| == |d.settings|
  {
    hide SettingsOffset, Sealed, Inject, DataRead, ReadSpan;
  }

  // ---- read jobs ---------------------------------------------------------

  /** A read job right after its request was accepted. */
  predicate ReadStart(w: World) {
    && Sane(w) && w.d.op == Pending && (w.d.task == ReadBios || w.d.task == ReadSettings)
    && w.d.cur == 0 && w.port.firstBusyRead && w.port.chip.busy == 0
  }

  predicate ReadInv(w0: World, w: World) {
    var d := w.d;
    && Sane(w) && w.port.chip.mem == w0.port.chip.mem && w.port.chip.busy == 0
    && (d.op == Pending || d.op == Reading || d.op == Completed)
    && d.task == w0.d.task && d.start == w0.d.start && d.size == w0.d.size && d.settings == w0.d.settings
    && (d.op == Pending ==> w.port.firstBusyRead)
    && Images(d.buffer, w.port.chip.mem, d.start, if d.op == Completed then d.size else d.cur)
  }

  lemma ImagesNothing(buffer: seq<Byte>, mem: seq<Byte>, start: nat)
    ensures start <= |mem| ==> Images(buffer, mem, start, 0)
  {
  }

  lemma StepRead(w0: World, w: World)
    requires ReadInv(w0, w) && (w.d.task == ReadBios || w.d.task == ReadSettings)
    ensures ReadInv(w0, Step(w)) && Steady(w) && Hopeful(w)
  {
    hide Step, Images, CanWrite, AlignDown, ActRead, Poll;
    StepForms(w);
    ImagesNothing(w.d.buffer, w.port.chip.mem, w.d.start);
    PollIdle(w.port);
    if w.d.op == Reading && !SeenBusy(w) {
      PlainReadForms(w.d, w.port.chip, w.crc32);
      ReadExtendsImage(w.d.buffer, w.port.chip.mem, w.d.start, w.d.cur);
    }
  }

  /** A read step of a read job: one byte further, or done. */
  lemma PlainReadForms(d: Driver, c: Chip, crc32: seq<Byte> -> Word)
    requires InStep(d, c) && d.op == Reading && c.busy == 0 && (d.task == ReadBios || d.task == ReadSettings)
    ensures var buffer := d.buffer[d.cur := c.mem[d.start + d.cur]];
      ActRead(d, c, crc32) == Acted(
        if d.cur + 1 < d.size then d.(buffer := buffer, cur := d.cur + 1)
        else d.(buffer := buffer, cur := 0, op := Completed),
        c)
  {
    hide SettingsOffset, Sealed, Overwrite, Inject, ReadSpan;
  }

  lemma {:induction false} ReadRun(w: World, n: nat)
    requires ReadStart(w)
    ensures ReadInv(w, Run(w, n)) && Run(w, n).crc32 == w.crc32
  {
    hide Step;
    if n > 0 {
      ReadRun(w, n - 1);
      StepForms(Run(w, n - 1));
      StepRead(w, Run(w, n - 1));
    }
  }

  /** A read job ends with the requested range in the buffer and leaves the flash alone. */
  lemma ReadCorrect(w: World)
    requires ReadStart(w)
    ensures Progresses(w) && exists n :: Run(w, n).d.op == Completed
    ensures forall n :: Run(w, n).d.op == Completed ==>
      && Run(w, n).port.chip.mem == w.port.chip.mem
      && Run(w, n).d.buffer[..w.d.size] == w.port.chip.mem[w.d.start..w.d.start + w.d.size]
  {
    hide Step;
    forall n ensures ReadInv(w, Run(w, n)) && Steady(Run(w, n)) && Hopeful(Run(w, n)) {
      ReadRun(w, n);
      StepRead(w, Run(w, n));
    }
    StepsToEnd(w, 0);
  }

  // ---- save, then load ---------------------------------------------------

  lemma {:induction false} CompletedIsIdle(w: World, n: nat)
    requires Sane(w) && w.d.op == Pending
    ensures Sane(Run(w, n)) && (Run(w, n).d.op == Completed ==> Run(w, n).port.chip.busy == 0)
  {
    hide SettingsOffset, Sealed, Overwrite, CanWrite, Step, Erase, AlignDown;
    if n > 0 {
      CompletedIsIdle(w, n - 1);
      StepForms(Run(w, n - 1));
    }
  }

  /** Settings on a boundary are at 192KB, well in front of the BIOS identifier. */
  lemma SavesAtLastBlock(w: World)
    requires SaveStart(w)
    ensures w.d.start == 3 * BLOCK_SIZE && w.d.start + |w.d.settings| <= IMAGE_SIZE - IDENTIFIER_SIZE
  {
    hide LittleEndian, LocatesSettings, Identifier;
  }

  /** What the read request finds after a completed save. */
  lemma SavedContents(w: World, n: nat)
    requires SaveStart(w) && Run(w, n).d.op == Completed
    ensures var v, off := Run(w, n), w.d.start;
      && v.port.chip.busy == 0 && |v.d.settings| == |w.d.settings| && Valid(v) && v.crc32 == w.crc32
      && v.port.chip.mem[off..off + |w.d.settings|] == Sealed(w.d.settings, w.crc32)
      && Identifier(v.port.chip.mem) == Identifier(w.port.chip.mem)
  {
    hide SettingsOffset, Step, AlignDown, Sealed, Overwrite, Identifier, CanWrite, Images, Settled, Unsettled;
    SavesAtLastBlock(w);
    CompletedIsIdle(w, n);
    SaveConservesImage(w, n);
    SaveRun(w, n);
    SavedParts(Run(w, n).port.chip.mem, w.port.chip.mem, w.d.start, Sealed(w.d.settings, w.crc32));
    assert |Sealed(Run(w, n).d.settings, w.crc32)| == |Sealed(w.d.settings, w.crc32)|;
  }

  lemma SavedParts(mem: seq<Byte>, orig: seq<Byte>, off: nat, sealed: seq<Byte>)
    requires |mem| >= IMAGE_SIZE && |orig| >= IMAGE_SIZE && off + |sealed| <= IMAGE_SIZE - IDENTIFIER_SIZE
    requires mem[..IMAGE_SIZE] == Overwrite(orig, off, sealed)[..IMAGE_SIZE]
    ensures mem[off..off + |sealed|] == sealed && Identifier(mem) == Identifier(orig)
  {
    forall i | 0 <= i < IMAGE_SIZE ensures mem[i] == Overwrite(orig, off, sealed)[i] {
      assert mem[i] == mem[..IMAGE_SIZE][i];
    }
  }

  /** These are the settings, up to their CRC, or nothing if they are of another version. */
  predicate Restores(r: Option<seq<Byte>>, settings: seq<Byte>, crc32: seq<Byte> -> Word) {
    && |settings| > CRC_SIZE && (r.Some? <==> settings[0] == 1)
    && (r.Some? ==> Carries(r.value, settings, crc32))
  }

  /** That is what loading yields. */
  predicate LoadsBack(d: Driver, settings: seq<Byte>, crc32: seq<Byte> -> Word) {
    CRC_SIZE < |settings| == |d.settings| <= |d.buffer| && Restores(Loaded(d, crc32), settings, crc32)
  }

  lemma SealedLoadsBack(d: Driver, settings: seq<Byte>, crc32: seq<Byte> -> Word)
    requires CRC_SIZE < |d.settings| == |settings| <= |d.buffer|
    requires d.op == Completed && d.task == ReadSettings && d.buffer[..|settings|] == Sealed(settings, crc32)
    ensures LoadsBack(d, settings, crc32)
  {
    hide Sealed, Accepted;
    SealedIsAccepted(settings, crc32);
    SealedExactly(Sealed(settings, crc32), settings, crc32);
  }

  /** A completed save, then a read request run to its end, loads the very same
      settings, provided they carry the current version. */
  lemma SaveThenLoad(w: World, n: nat)
    requires SaveStart(w) && Run(w, n).d.op == Completed && |w.d.settings| > CRC_SIZE
    ensures var v := Run(w, n);
      var r := ReadRequested(v.(d := Freed(v.d)));
      && Valid(r) && (exists m :: Run(r, m).d.op == Completed)
      && (forall m :: Run(r, m).d.op == Completed ==> LoadsBack(Run(r, m).d, w.d.settings, w.crc32))
  {
    hide SettingsOffset, Step, AlignDown, Sealed, Loaded, Identifier, ReadRequested, LoadsBack, Images;
    SavesAtLastBlock(w);
    SavedContents(w, n);
    var v := Run(w, n);
    ReadRequestStarts(v.(d := Freed(v.d)));
    var r := ReadRequested(v.(d := Freed(v.d)));
    ReadCorrect(r);
    forall m | Run(r, m).d.op == Completed
      ensures LoadsBack(Run(r, m).d, w.d.settings, w.crc32)
    {
      ReadRun(r, m);
      SealedLoadsBack(Run(r, m).d, w.d.settings, w.crc32);
    }
  }

  lemma OffsetFits(id: seq<Byte>)
    requires |id| == IDENTIFIER_SIZE
    ensures SettingsOffset(id) <= 3 * BLOCK_SIZE
  {
    hide LittleEndian, LocatesSettings;
  }

  /** An accepted read request starts a read job for the stored settings. */
  lemma ReadRequestStarts(w: World)
    requires Valid(w) && w.d.op == Idle && w.d.cur == 0 && w.port.chip.busy == 0
    ensures var off, r := SettingsOffset(Identifier(w.port.chip.mem)), ReadRequested(w);
      && r.port == w.port.(firstBusyRead := true) && r.crc32 == w.crc32
      && r.d.start == off && r.d.size == |w.d.settings| && r.d.settings == w.d.settings && r.d.task == ReadSettings
      && (if off != 0 then ReadStart(r) else Valid(r) && r.d.op == Completed && r.d.buffer[0] == ERASED)
  {
    hide SettingsOffset, Identifier;
    IdleIdentifier(w.port.chip);
    OffsetFits(Identifier(w.port.chip.mem));
  }

  /** The settings that a chip holds, if it holds any that are accepted. */
  function SettingsInFlash(mem: seq<Byte>, size: nat, crc32: seq<Byte> -> Word): (r: Option<seq<Byte>>)
    requires |mem| >= IMAGE_SIZE && size <= SECTOR_SIZE
  {
    var off := SettingsOffset(Identifier(mem));
    OffsetFits(Identifier(mem));
    if off != 0 && Accepted(mem[off..off + size], crc32) then Some(mem[off..off + size]) else None
  }

  /** A chip holds settings for the load if and only if its identifier says
      where, they are of version 1, and their last four bytes are the CRC of the
      others; they are then the very bytes there. */
  lemma HeldExactly(mem: seq<Byte>, size: nat, crc32: seq<Byte> -> Word)
    requires |mem| >= IMAGE_SIZE && CRC_SIZE < size <= SECTOR_SIZE
    ensures var r, off := SettingsInFlash(mem, size, crc32), SettingsOffset(Identifier(mem));
      && off + size <= |mem|
      && (r.Some? <==> off != 0 && mem[off] == 1 && mem[off + size - 4..off + size] == crc32(mem[off..off + size - 4]).Bytes())
      && (r.Some? ==> r.value == mem[off..off + size])
  {
    hide SettingsOffset, Identifier;
    var off := SettingsOffset(Identifier(mem));
    OffsetFits(Identifier(mem));
    var image := mem[off..off + size];
    assert image[..size - 4] == mem[off..off + size - 4] && image[size - 4..] == mem[off + size - 4..off + size];
  }

  /** A read request ends, and then loads what the chip holds. */
  lemma RequestLoads(w: World)
    requires Valid(w) && w.d.op == Idle && w.d.cur == 0 && w.port.chip.busy == 0 && |w.d.settings| > CRC_SIZE
    ensures Progresses(ReadRequested(w))
    ensures forall n :: !Active(Run(ReadRequested(w), n).d.op) ==>
      var v := Run(ReadRequested(w), n);
      && v.port.chip.mem == w.port.chip.mem && v.port.chip.busy == 0 && v.d.settings == w.d.settings
      && Loaded(v.d, w.crc32) == SettingsInFlash(w.port.chip.mem, |w.d.settings|, w.crc32)
  {
    hide SettingsOffset, Step, Identifier, ReadRequested, Accepted;
    ReadRequestStarts(w);
    OffsetFits(Identifier(w.port.chip.mem));
    var r := ReadRequested(w);
    if Active(r.d.op) { ReadCorrect(r); } else { AlreadyEnded(r); }
    forall n | !Active(Run(r, n).d.op)
      ensures var v := Run(r, n);
        && v.port.chip.mem == w.port.chip.mem && v.port.chip.busy == 0 && v.d.settings == w.d.settings
        && Loaded(v.d, w.crc32) == SettingsInFlash(w.port.chip.mem, |w.d.settings|, w.crc32)
    {
      if Active(r.d.op) { ReadRun(r, n); } else { RestingRun(r, n); NotAccepted(r.d.buffer[..|w.d.settings|], w.crc32); }
    }
  }

  /** Settings in the flash with any other CRC are never loaded. */
  lemma CorruptLoadsNothing(w: World, n: nat)
    requires Valid(w) && w.d.op == Idle && w.d.cur == 0 && w.port.chip.busy == 0 && |w.d.settings| > CRC_SIZE
    requires !Active(Run(ReadRequested(w), n).d.op)
    ensures var mem, off, size := w.port.chip.mem, SettingsOffset(Identifier(w.port.chip.mem)), |w.d.settings|;
      var d := Run(ReadRequested(w), n).d;
      && off + size <= |mem| && CRC_SIZE < |d.settings| <= |d.buffer|
      && (mem[off + size - 4..off + size] != w.crc32(mem[off..off + size - 4]).Bytes() ==> Loaded(d, w.crc32) == None)
  {
    hide SettingsOffset, Step, Identifier, ReadRequested, Loaded, SettingsInFlash;
    RequestLoads(w);
    HeldExactly(w.port.chip.mem, |w.d.settings|, w.crc32);
  }

  /** What is loaded from the buffer, without regard to how it came there. */
  lemma LoadedExactly(d: Driver, crc32: seq<Byte> -> Word)
    requires CRC_SIZE < |d.settings| <= |d.buffer|
    ensures var r, n := Loaded(d, crc32), |d.settings|;
      && (r.Some? <==> && d.op == Completed && d.task == ReadSettings && d.buffer[0] == 1
                       && d.buffer[n - 4..n] == crc32(d.buffer[..n - 4]).Bytes())
      && (r.Some? ==> r.value == d.buffer[..n])
  {
    var n := |d.settings|;
    var image := d.buffer[..n];
    assert image[..n - 4] == d.buffer[..n - 4] && image[n - 4..] == d.buffer[n - 4..n];
  }

  lemma NotAccepted(image: seq<Byte>, crc32: seq<Byte> -> Word)
    requires |image| > 0 && image[0] == ERASED
    ensures !Accepted(image, crc32)
  {
  }

  lemma IdleIdentifier(c: Chip)
    requires |c.mem| >= IMAGE_SIZE && c.busy == 0
    ensures OffsetFromFlash(c) == SettingsOffset(Identifier(c.mem))
  {
    hide SettingsOffset;
  }

  /** A save job right after it was accepted for an offset that is off every boundary. */
  predicate MisalignedStart(w: World) {
    var d := w.d;
    && Sane(w) && d.op == Pending && d.task == WriteSettings && d.cur == 0
    && d.eraseMethod == Sector && d.size == EraseSize(Sector, d.small)
    && d.firstTry && d.busyCount == 0 && w.port.firstBusyRead && w.port.chip.busy == 0
    && 0 < d.start < SECTOR_SIZE && d.start == SettingsOffset(Identifier(w.port.chip.mem))
  }

  /** What an accepted save request starts, for every settings offset there is. */
  lemma SaveRequestStarts(w: World)
    requires Valid(w) && w.d.op == Idle && w.d.cur == 0 && w.port.chip.busy == 0
    ensures var off, r := SettingsOffset(Identifier(w.port.chip.mem)), SaveRequested(w);
      && (off == 3 * BLOCK_SIZE ==> SaveStart(r))
      && (0 < off < SECTOR_SIZE ==> MisalignedStart(r))
      && (off == 0 ==> r.d.op == Failed && r.d.error == FlashContentError)
  {
    hide SettingsOffset, Identifier;
    IdleIdentifier(w.port.chip);
  }
}
