/**
 Saving the settings: read a window back, patch it, erase it, write it, and
 start over with a wider window when the chip ignored the erase.
 */
module FlashSettings {
  import opened FlashChip
  import opened FlashDriver
  import opened FlashRuns

  /** What a save is about: the contents it found, the settings offset, the
      contents it wants, and whether that takes an erase. */
  datatype Save = Save(orig: seq<Byte>, off: nat, wanted: seq<Byte>, needsErase: bool, small: bool) {
    predicate Proper() {
      && |wanted| == |orig| >= IMAGE_SIZE
      && AlignDown(off, EraseSize(Sector, small)) == off && off + EraseSize(Sector, small) <= IMAGE_SIZE
    }

    function Start(m: EraseMethod): nat {
      AlignDown(off, EraseSize(m, small))
    }

    function End(m: EraseMethod): nat {
      Start(m) + EraseSize(m, small)
    }

    /** What a clearing erase with method `m` makes of the original contents. */
    function Wiped(m: EraseMethod): seq<Byte> {
      if m == ChipWide then Filled(orig, 0, |orig|) else Filled(orig, Start(m), End(m))
    }

    /** An erase is needed when some byte of the first window cannot be programmed in place. */
    predicate ErasesWhenNeeded()
      requires Proper()
    {
      needsErase <==> exists i :: off <= i < End(Sector) && !CanWrite(orig[i], wanted[i])
    }
  }

  predicate SameOutside(mem: seq<Byte>, base: seq<Byte>, lo: nat, hi: nat) {
    |mem| == |base| && forall i :: 0 <= i < |mem| && !(lo <= i < hi) ==> mem[i] == base[i]
  }

  /** The first `n` bytes of `buffer` image the window of `wanted` that begins at `start`. */
  predicate Images(buffer: seq<Byte>, wanted: seq<Byte>, start: nat, n: nat) {
    n <= |buffer| && start + n <= |wanted| && forall k :: 0 <= k < n ==> buffer[k] == wanted[start + k]
  }

  // ---- windows -----------------------------------------------------------

  /** The unit around an address of the image lies in the image. */
  lemma UnitInImage(off: nat, unit: nat)
    requires IsUnit(unit) && off < IMAGE_SIZE
    ensures AlignDown(off, unit) + unit <= IMAGE_SIZE
  {
    var k := off / unit;
    if unit == SECTOR_SIZE { assert k < 64; } else if unit == BLOCK_SIZE { assert k < 4; }
  }

  /** A wider window contains the narrower one, and every window lies in the image. */
  lemma WindowNests(s: Save, m: EraseMethod)
    requires s.Proper()
    ensures s.Start(m) <= s.off < s.End(Sector) <= s.End(m) <= IMAGE_SIZE
    ensures s.Start(Sector) == s.off
    ensures m != ChipWide ==>
      AlignDown(s.Start(m), EraseSize(NextMethod(m, s.small), s.small)) == s.Start(NextMethod(m, s.small))
  {
    hide AlignDown;
    UnitInUnit(s.off, EraseSize(Sector, s.small), EraseSize(m, s.small));
    UnitInImage(s.off, EraseSize(m, s.small));
    if m != ChipWide { Realigned(s.off, EraseSize(m, s.small), EraseSize(NextMethod(m, s.small), s.small)); }
  }

  /** Aligning to a unit and then to a wider one is aligning to the wider one. */
  lemma Realigned(off: nat, unit: nat, wide: nat)
    requires IsUnit(unit) && IsUnit(wide) && unit <= wide
    ensures AlignDown(AlignDown(off, unit), wide) == AlignDown(off, wide)
  {
    UnitInUnit(off, unit, wide);
    AlignDownInWindow(off, AlignDown(off, unit), wide);
  }

  lemma FilledTwice(mem: seq<Byte>, lo: nat, hi: nat)
    ensures Filled(Filled(mem, lo, hi), lo, hi) == Filled(mem, lo, hi)
  {
  }

  /** No erase with method `m` has taken yet, or one has. */
  predicate Unsettled(s: Save, mem: seq<Byte>, m: EraseMethod) {
    mem == s.orig || mem == s.Wiped(m)
  }

  /** Outside the window the contents are the original ones, or those left by
      a clearing erase; the former only if no erase was needed. */
  predicate Settled(s: Save, mem: seq<Byte>, m: EraseMethod) {
    || (SameOutside(mem, s.orig, s.Start(m), s.End(m)) && !s.needsErase)
    || SameOutside(mem, s.Wiped(m), s.Start(m), s.End(m))
  }

  /** Erasing any address of a window clears that window, and a chip-wide erase everything. */
  lemma EraseHitsWindow(s: Save, c: Chip, m: EraseMethod, a: nat)
    requires s.Proper() && c.small == s.small && s.Start(m) <= a < s.End(m)
    requires Unsettled(s, c.mem, m)
    ensures Erase(c, m, a).mem == if c.oracle.clears(c.commands, m) then s.Wiped(m) else c.mem
  {
    var lo, hi := UnitLow(m, c.small, a), UnitHigh(m, c.small, a, |c.mem|);
    AlignDownInWindow(s.off, a, EraseSize(m, s.small));
    FilledTwice(s.orig, lo, hi);
    assert s.Wiped(m) == Filled(s.orig, lo, hi);
  }

  /** A byte that cannot be programmed proves that no erase has taken yet. */
  lemma UnwritableIsOriginal(s: Save, mem: seq<Byte>, m: EraseMethod, a: nat, b: Byte)
    requires s.Proper() && Unsettled(s, mem, m) && s.Start(m) <= a < s.End(m) && |mem| == |s.orig|
    requires a < |mem| && !CanWrite(mem[a], b)
    ensures mem == s.orig
  {
    ErasedIsWritable(b);
    assert s.Wiped(m)[a] == ERASED;
  }

  lemma WindowWritable(s: Save, m: EraseMethod, buffer: seq<Byte>)
    requires s.Proper() && s.ErasesWhenNeeded() && Images(buffer, s.wanted, s.Start(m), EraseSize(m, s.small))
    requires Writable(s.orig, s.Start(m), buffer, 0, EraseSize(m, s.small))
    ensures !s.needsErase
  {
    WindowNests(s, m);
    forall i | s.off <= i < s.End(Sector)
      ensures CanWrite(s.orig[i], s.wanted[i])
    {
      var k := i - s.Start(m);
      assert CanWrite(s.orig[s.Start(m) + k], buffer[k]);
    }
  }

  /** Once the whole window can be programmed, the erase phase is settled. */
  lemma EraseSettles(s: Save, mem: seq<Byte>, m: EraseMethod, buffer: seq<Byte>)
    requires s.Proper() && s.ErasesWhenNeeded() && Unsettled(s, mem, m)
    requires Images(buffer, s.wanted, s.Start(m), EraseSize(m, s.small))
    requires |mem| == |s.orig| && Writable(mem, s.Start(m), buffer, 0, EraseSize(m, s.small))
    ensures Settled(s, mem, m)
  {
    if mem == s.orig {
      WindowWritable(s, m, buffer);
    }
  }

  // ---- the invariant -----------------------------------------------------

  /** The job's own parameters fit the window of its erase method. */
  predicate SaveBase(s: Save, d: Driver) {
    && d.task == WriteSettings && d.small == s.small
    && d.size == EraseSize(d.eraseMethod, s.small) && d.start == s.Start(d.eraseMethod)
    && (d.eraseMethod != Sector ==> s.needsErase)
  }

  predicate SaveData(s: Save, d: Driver, mem: seq<Byte>) {
    && |mem| == |s.orig|
    && match d.op
       case Idle => false
       case Failed => true
       case Pending => mem == s.orig && d.cur == 0
       case Reading => mem == s.orig && Images(d.buffer, s.orig, d.start, d.cur)
       case Erasing => Images(d.buffer, s.wanted, d.start, d.size) && Unsettled(s, mem, d.eraseMethod)
       case _ => Images(d.buffer, s.wanted, d.start, d.size) && Settled(s, mem, d.eraseMethod)
  }

  predicate SaveInv(s: Save, d: Driver, mem: seq<Byte>) {
    s.Proper() && SaveBase(s, d) && SaveData(s, d, mem)
  }

  // ---- steps -------------------------------------------------------------

  lemma SaveAdvance(s: Save, d: Driver, mem: seq<Byte>)
    requires SaveInv(s, d, mem) && s.ErasesWhenNeeded() && d.op == Erasing
    requires d.cur < d.size && Writable(mem, d.start, d.buffer, 0, d.cur + 1)
    ensures SaveBase(s, Advanced(d)) && SaveData(s, Advanced(d), mem)
  {
    if d.cur + 1 == d.size {
      EraseSettles(s, mem, d.eraseMethod, d.buffer);
    }
  }

  lemma SaveEscalate(s: Save, d: Driver, mem: seq<Byte>)
    requires SaveInv(s, d, mem) && s.ErasesWhenNeeded() && d.op == Erasing
    requires d.cur < d.size && d.start + d.cur < |mem| && !CanWrite(mem[d.start + d.cur], d.buffer[d.cur])
    requires d.eraseMethod != ChipWide
    ensures SaveBase(s, ReadBack(NextTry(d))) && SaveData(s, ReadBack(NextTry(d)), mem)
  {
    UnwritableIsOriginal(s, mem, d.eraseMethod, d.start + d.cur, d.buffer[d.cur]);
    WindowNests(s, d.eraseMethod);
    if d.eraseMethod == Sector {
      assert !CanWrite(s.orig[d.start + d.cur], s.wanted[d.start + d.cur]);
    }
  }

  lemma SaveSend(s: Save, d: Driver, c: Chip)
    requires SaveInv(s, d, c.mem) && d.op == Erasing && c.small == s.small && d.cur < d.size
    ensures SaveInv(s, d.(firstTry := false), Erase(c, d.eraseMethod, d.start + d.cur).mem)
  {
    hide AlignDown, Images;
    EraseHitsWindow(s, c, d.eraseMethod, d.start + d.cur);
  }

  lemma SaveFails(s: Save, d: Driver, e: Driver, mem: seq<Byte>)
    requires SaveInv(s, d, mem) && e == d.(firstTry := true, busyCount := 0, op := Failed, error := FailedErase)
    ensures SaveInv(s, e, mem)
  {
  }

  lemma SaveErase(s: Save, d: Driver, c: Chip)
    requires InStep(d, c) && PhaseInv(d, c) && SaveInv(s, d, c.mem) && s.ErasesWhenNeeded()
    requires d.op == Erasing && c.busy == 0
    ensures SaveInv(s, ActErase(d, c).d, ActErase(d, c).chip.mem)
  {
    hide Erase, AlignDown, Images, Unsettled, Settled, CanWrite, ActErase, Save.ErasesWhenNeeded, Save.Proper, SaveBase, SaveData,
      Writable, Advanced, ReadBack, NextTry;
    EraseCases(d, c);
    SaveTask(s, d, c.mem);
    if CurrentWritable(d, c) {
      WritableExtends(c.mem, d.start, d.buffer, d.cur);
      SaveAdvance(s, d, c.mem);
    } else if !Escalates(d) {
      SaveSend(s, d, c);
    } else if d.eraseMethod != ChipWide {
      SaveEscalate(s, d, c.mem);
    } else {
      SaveFails(s, d, ActErase(d, c).d, c.mem);
    }
  }

  lemma SaveTask(s: Save, d: Driver, mem: seq<Byte>)
    requires SaveInv(s, d, mem)
    ensures d.task == WriteSettings && d.small == s.small
  {
  }

  lemma ProgramKeepsSettled(s: Save, mem: seq<Byte>, m: EraseMethod, a: nat, b: Byte)
    requires Settled(s, mem, m) && s.Start(m) <= a < s.End(m) && a < |mem|
    ensures Settled(s, mem[a := b], m)
  {
    hide AlignDown;
  }

  lemma SaveWrite(s: Save, d: Driver, c: Chip)
    requires InStep(d, c) && SaveInv(s, d, c.mem) && d.op == Writing && c.busy == 0
    ensures SaveInv(s, ActWrite(d, c).d, ActWrite(d, c).chip.mem)
  {
    hide AlignDown, Settled, Images, ActWrite;
    WriteForms(d, c);
    if d.cur < d.size {
      var a := d.start + d.cur;
      ProgramKeepsSettled(s, c.mem, d.eraseMethod, a, c.oracle.programmed(c.commands, c.mem[a], d.buffer[d.cur]));
    }
  }

  lemma SaveVerify(s: Save, d: Driver, c: Chip)
    requires InStep(d, c) && SaveInv(s, d, c.mem) && d.op == Verifying && c.busy == 0
    ensures SaveInv(s, ActVerify(d, c).d, ActVerify(d, c).chip.mem)
  {
    hide AlignDown, Settled, Images, ActVerify, Save.Proper;
    VerifyForms(d, c);
  }

  // ---- patching the window -----------------------------------------------

  lemma SealedTwice(settings: seq<Byte>, crc32: seq<Byte> -> Word)
    requires |settings| >= CRC_SIZE
    ensures Sealed(Sealed(settings, crc32), crc32) == Sealed(settings, crc32)
  {
    var sealed := Sealed(settings, crc32);
    assert sealed[..|sealed| - CRC_SIZE] == settings[..|settings| - CRC_SIZE];
  }

  /** Sealing changes the CRC and nothing else. */
  lemma SealedExactly(v: seq<Byte>, settings: seq<Byte>, crc32: seq<Byte> -> Word)
    requires |settings| >= CRC_SIZE
    ensures v == Sealed(settings, crc32) <==> Carries(v, settings, crc32)
  {
    var body := |settings| - CRC_SIZE;
    var sealed := Sealed(settings, crc32);
    assert sealed[..body] == settings[..body] && sealed[body..] == crc32(settings[..body]).Bytes();
    if Carries(v, settings, crc32) { assert v == v[..body] + v[body..]; }
  }

  lemma OffsetInWindow(off: nat, unit: nat)
    requires IsUnit(unit)
    ensures AlignDown(off, unit) + off % unit == off
  {
  }

  /** Patching the window at `off % size` patches the contents at `off`. */
  lemma InjectImagesWanted(s: Save, m: EraseMethod, buffer: seq<Byte>, sealed: seq<Byte>)
    requires s.Proper() && |sealed| <= SECTOR_SIZE && s.wanted == Overwrite(s.orig, s.off, sealed)
    requires |buffer| == BUFFER_SIZE && Images(buffer, s.orig, s.Start(m), EraseSize(m, s.small))
    ensures var size := EraseSize(m, s.small);
      s.off % size + |sealed| <= size
      && Images(Overwrite(buffer, s.off % size, sealed), s.wanted, s.Start(m), size)
  {
    hide AlignDown, Overwrite;
    var size, start := EraseSize(m, s.small), s.Start(m);
    OffsetInWindow(s.off, size);
    WindowNests(s, m);
    var patched := Overwrite(buffer, s.off % size, sealed);
    forall k | 0 <= k < size ensures patched[k] == s.wanted[start + k] {
      assert buffer[k] == s.orig[start + k];
    }
  }

  lemma ReadExtendsImage(buffer: seq<Byte>, orig: seq<Byte>, start: nat, cur: nat)
    requires Images(buffer, orig, start, cur) && cur < |buffer| && start + cur < |orig|
    ensures Images(buffer[cur := orig[start + cur]], orig, start, cur + 1)
  {
  }

  lemma OriginalIsUnsettled(s: Save, m: EraseMethod)
    ensures Unsettled(s, s.orig, m)
  {
  }

  /** The identifier that was read places the settings at `s.off`. */
  predicate Located(s: Save, settings: seq<Byte>, crc32: seq<Byte> -> Word) {
    && s.Proper() && CRC_SIZE <= |settings| <= SECTOR_SIZE
    && SettingsOffset(Identifier(s.orig)) == s.off != 0
    && s.wanted == Overwrite(s.orig, s.off, Sealed(settings, crc32))
  }

  /** A read byte extends the image of the window. */
  lemma SaveReadOn(s: Save, d: Driver, buffer: seq<Byte>, mem: seq<Byte>)
    requires SaveInv(s, d, mem) && d.op == Reading && d.cur + 1 < d.size && Images(buffer, s.orig, d.start, d.cur + 1)
    ensures SaveInv(s, d.(buffer := buffer, cur := d.cur + 1), mem)
  {
    hide Images, AlignDown, Save.Proper;
  }

  /** A window that was read is patched, and the erase phase begins. */
  lemma SaveReadDone(s: Save, d: Driver, buffer: seq<Byte>, mem: seq<Byte>, sealed: seq<Byte>)
    requires SaveInv(s, d, mem) && d.op == Reading && Images(buffer, s.orig, d.start, d.size) && |buffer| == BUFFER_SIZE
    requires |sealed| <= SECTOR_SIZE && s.wanted == Overwrite(s.orig, s.off, sealed)
    ensures s.off % d.size + |sealed| <= |buffer|
    ensures SaveInv(s, d.(buffer := Overwrite(buffer, s.off % d.size, sealed), cur := 0, op := Erasing, settings := sealed), mem)
  {
    hide Images, AlignDown, Save.Proper, Overwrite, Unsettled;
    InjectImagesWanted(s, d.eraseMethod, buffer, sealed);
    OriginalIsUnsettled(s, d.eraseMethod);
  }

  lemma SaveRead(s: Save, d: Driver, c: Chip, settings: seq<Byte>, crc32: seq<Byte> -> Word)
    requires InStep(d, c) && SaveInv(s, d, c.mem) && d.op == Reading && c.busy == 0
    requires Located(s, settings, crc32) && Sealed(d.settings, crc32) == Sealed(settings, crc32)
    ensures var a := ActRead(d, c, crc32);
      && SaveInv(s, a.d, a.chip.mem) && Sealed(a.d.settings, crc32) == Sealed(settings, crc32)
      && PhaseInv(a.d, a.chip)
  {
    hide SettingsOffset, Sealed, AlignDown, Images, Overwrite, ActRead, Identifier, Writable, SaveInv, Save.Proper;
    SealedTwice(d.settings, crc32);
    SaveReading(s, d, c.mem);
    ReadForms(d, c, crc32);
    var buffer := d.buffer[d.cur := c.mem[d.start + d.cur]];
    ReadExtendsImage(d.buffer, s.orig, d.start, d.cur);
    if d.cur + 1 < d.size {
      SaveReadOn(s, d, buffer, c.mem);
    } else {
      SaveReadDone(s, d, buffer, c.mem, Sealed(settings, crc32));
      NoneWritable(c.mem, d.start, ActRead(d, c, crc32).d.buffer);
    }
  }

  lemma SaveReading(s: Save, d: Driver, mem: seq<Byte>)
    requires SaveInv(s, d, mem) && d.op == Reading
    ensures d.task == WriteSettings && mem == s.orig && Images(d.buffer, s.orig, d.start, d.cur)
  {
  }

  // ---- whole runs --------------------------------------------------------

  /** A save job right after Flash_SaveXBlastOSSettings accepted it, for a
      settings offset on an erase-unit boundary. */
  predicate SaveStart(w: World) {
    var d := w.d;
    && Sane(w) && d.op == Pending && d.task == WriteSettings && d.cur == 0
    && d.eraseMethod == Sector && d.size == EraseSize(Sector, d.small)
    && d.firstTry && d.busyCount == 0 && w.port.firstBusyRead && w.port.chip.busy == 0
    && AlignDown(d.start, d.size) == d.start
    && d.start == SettingsOffset(Identifier(w.port.chip.mem)) != 0
  }

  function Wanted(w: World): (r: seq<Byte>)
    requires SaveStart(w)
  {
    Overwrite(w.port.chip.mem, w.d.start, Sealed(w.d.settings, w.crc32))
  }

  /** Some byte of the settings' own erase unit cannot be programmed in place. */
  predicate NeedsErase(w: World)
    requires SaveStart(w)
  {
    exists i :: w.d.start <= i < w.d.start + w.d.size && !CanWrite(w.port.chip.mem[i], Wanted(w)[i])
  }

  function SaveOf(w: World): (s: Save)
    requires SaveStart(w)
    ensures Located(s, w.d.settings, w.crc32) && s.ErasesWhenNeeded()
    ensures SaveInv(s, w.d, w.port.chip.mem)
  {
    hide SettingsOffset, Sealed, Identifier;
    Save(w.port.chip.mem, w.d.start, Wanted(w), NeedsErase(w), w.d.small)
  }

  ghost predicate Saving(s: Save, w: World, settings: seq<Byte>) {
    && Sane(w) && SaveInv(s, w.d, w.port.chip.mem) && PhaseInv(w.d, w.port.chip)
    && |settings| >= CRC_SIZE && Sealed(w.d.settings, w.crc32) == Sealed(settings, w.crc32)
  }

  /** Every step of a save keeps its invariant. */
  lemma StepSave(s: Save, w: World, settings: seq<Byte>)
    requires Located(s, settings, w.crc32) && s.ErasesWhenNeeded() && Saving(s, w, settings)
    ensures Saving(s, Step(w), settings)
  {
    hide SettingsOffset, Sealed, AlignDown, Unsettled, Settled, Overwrite, ActErase, ActWrite, ActVerify, ActRead;
    StepForms(w);
    var d, c := w.d, w.port.chip;
    if d.op != Reading { StepPhase(w); }
    if Polls(d.op) && !SeenBusy(w) {
      match d.op
      case Erasing => SaveErase(s, d, c); EraseKeepsSettings(d, c);
      case Writing => SaveWrite(s, d, c); LaterForms(d, c, w.crc32);
      case Verifying => SaveVerify(s, d, c); LaterForms(d, c, w.crc32);
      case Reading => SaveRead(s, d, c, settings, w.crc32);
    }
  }

  lemma EraseKeepsSettings(d: Driver, c: Chip)
    requires InStep(d, c) && d.op == Erasing
    ensures ActErase(d, c).d.settings == d.settings
  {
  }

  lemma {:induction false} SaveRun(w: World, n: nat)
    requires SaveStart(w)
    ensures Saving(SaveOf(w), Run(w, n), w.d.settings) && Run(w, n).crc32 == w.crc32
  {
    hide SettingsOffset, Sealed, Step;
    if n > 0 {
      SaveRun(w, n - 1);
      StepForms(Run(w, n - 1));
      StepSave(SaveOf(w), Run(w, n - 1), w.d.settings);
    }
  }

  /** The contents of a completed save: as wanted in the first 256KB; beyond
      them untouched, unless the whole chip had to be erased. */
  lemma CompletedContents(s: Save, d: Driver, c: Chip, sealed: seq<Byte>)
    requires InStep(d, c) && SaveInv(s, d, c.mem) && PhaseInv(d, c) && d.op == Completed
    requires |sealed| <= SECTOR_SIZE && s.wanted == Overwrite(s.orig, s.off, sealed)
    ensures forall i :: 0 <= i < |c.mem| ==>
      c.mem[i] == if i >= IMAGE_SIZE && d.eraseMethod == ChipWide then ERASED else s.wanted[i]
  {
    hide AlignDown;
    WindowNests(s, d.eraseMethod);
    forall i | 0 <= i < |c.mem|
      ensures c.mem[i] == if i >= IMAGE_SIZE && d.eraseMethod == ChipWide then ERASED else s.wanted[i]
    {
      if s.Start(d.eraseMethod) <= i < s.End(d.eraseMethod) {
        var k := i - d.start;
        assert c.mem[d.start + k] == d.buffer[k] == s.wanted[d.start + k];
      }
    }
  }

  predicate ErasedBeyondImage(mem: seq<Byte>) {
    forall i :: IMAGE_SIZE <= i < |mem| ==> mem[i] == ERASED
  }

  /** A completed save has put the settings, and nothing else, into the image,
      whatever the chip did and however often the window was widened. Beyond the
      image, too, nothing has changed if and only if it did not come to a
      chip-wide erase or there was nothing to lose. */
  lemma SaveConservesImage(w: World, n: nat)
    requires SaveStart(w) && Run(w, n).d.op == Completed
    ensures var mem := Run(w, n).port.chip.mem;
      && |mem| == |w.port.chip.mem| && mem[..IMAGE_SIZE] == Wanted(w)[..IMAGE_SIZE]
      && (mem == Wanted(w) <==> Run(w, n).d.eraseMethod != ChipWide || ErasedBeyondImage(w.port.chip.mem))
  {
    hide SettingsOffset, Sealed, Step, Save.Wiped, AlignDown, Images, Unsettled, Settled;
    SaveRun(w, n);
    var s, v := SaveOf(w), Run(w, n);
    var mem := v.port.chip.mem;
    CompletedContents(s, v.d, v.port.chip, Sealed(w.d.settings, w.crc32));
    if v.d.eraseMethod == ChipWide {
      assert forall i :: IMAGE_SIZE <= i < |mem| ==> mem[i] == ERASED && s.wanted[i] == s.orig[i];
      if mem == s.wanted {
        assert forall i :: IMAGE_SIZE <= i < |s.orig| ==> s.orig[i] == s.wanted[i] == mem[i];
      }
    }
  }

  /** Byte by byte: the settings at their offset, their CRC behind them, and
      every other byte of the image as it was. */
  lemma SaveWritesSettings(w: World, n: nat)
    requires SaveStart(w) && Run(w, n).d.op == Completed
    ensures var mem, off, body := Run(w, n).port.chip.mem, w.d.start, |w.d.settings| - CRC_SIZE;
      && |mem| == |w.port.chip.mem| && 0 <= body && off + body + 4 <= IMAGE_SIZE <= |mem|
      && mem[off..off + body] == w.d.settings[..body]
      && mem[off + body..off + body + 4] == w.crc32(w.d.settings[..body]).Bytes()
      && forall i :: 0 <= i < IMAGE_SIZE && !(off <= i < off + body + 4) ==> mem[i] == w.port.chip.mem[i]
  {
    hide SettingsOffset, Sealed, Step, Save.Wiped, AlignDown, Images, Unsettled, Settled, Identifier, Overwrite;
    SaveConservesImage(w, n);
    var mem, off, sealed := Run(w, n).port.chip.mem, w.d.start, Sealed(w.d.settings, w.crc32);
    SealedExactly(sealed, w.d.settings, w.crc32);
    PatchedBytes(mem, w.port.chip.mem, off, sealed, |sealed| - CRC_SIZE);
  }

  lemma PatchedBytes(mem: seq<Byte>, orig: seq<Byte>, off: nat, sealed: seq<Byte>, body: nat)
    requires |mem| >= IMAGE_SIZE && |orig| >= IMAGE_SIZE && off + |sealed| <= IMAGE_SIZE && body <= |sealed|
    requires mem[..IMAGE_SIZE] == Overwrite(orig, off, sealed)[..IMAGE_SIZE]
    ensures mem[off..off + body] == sealed[..body] && mem[off + body..off + |sealed|] == sealed[body..]
    ensures forall i :: 0 <= i < IMAGE_SIZE && !(off <= i < off + |sealed|) ==> mem[i] == orig[i]
  {
    hide Overwrite;
    forall i | 0 <= i < IMAGE_SIZE ensures mem[i] == Overwrite(orig, off, sealed)[i] {
      assert mem[i] == mem[..IMAGE_SIZE][i];
    }
  }

  /** Not even here is a program command asked to turn a 0 bit into a 1 bit. */
  lemma SaveOnlyClearsBits(w: World, n: nat)
    requires SaveStart(w) && Run(w, n).d.op == Writing
    ensures var v := Run(w, n);
      Writable(v.port.chip.mem, v.d.start, v.d.buffer, v.d.cur, v.d.size)
  {
    hide SettingsOffset, Sealed, Step;
    SaveRun(w, n);
  }

  // ---- exactly when a save conserves the whole chip ----------------------

  /** On this chip each erase method either always clears its unit or never does. */
  ghost predicate ClearsBy(o: Oracle, g: EraseMethod -> bool) {
    forall k, m :: o.clears(k, m) == g(m)
  }

  /** How far the widening of erases has come, and why. */
  predicate Widened(s: Save, g: EraseMethod -> bool, d: Driver, mem: seq<Byte>) {
    var m := d.eraseMethod;
    && (m == Block ==> s.small)
    && (m != Sector ==> !g(Sector)) && (m == ChipWide && s.small ==> !g(Block))
    && (d.op == Erasing ==>
          (mem == s.orig || g(m)) && (!d.firstTry ==> mem == s.Wiped(m) || !g(m)))
    && (d.op == Pending || d.op == Reading ==> d.firstTry)
    && (d.op == Writing || d.op == Verifying || d.op == Completed ==> s.needsErase ==> g(m))
  }

  lemma UnwritableIsNotWiped(s: Save, d: Driver, c: Chip)
    requires InStep(d, c) && SaveInv(s, d, c.mem) && d.op == Erasing && !CurrentWritable(d, c)
    ensures c.mem == s.orig != s.Wiped(d.eraseMethod)
  {
    ErasedIsWritable(d.buffer[d.cur]);
    assert s.Wiped(d.eraseMethod)[d.start + d.cur] == ERASED;
  }

  lemma WidenAdvance(s: Save, g: EraseMethod -> bool, d: Driver, c: Chip)
    requires InStep(d, c) && PhaseInv(d, c) && SaveInv(s, d, c.mem) && s.ErasesWhenNeeded()
    requires d.op == Erasing && CurrentWritable(d, c) && Widened(s, g, d, c.mem)
    ensures Widened(s, g, Advanced(d), c.mem)
  {
    hide Save.Wiped, AlignDown;
    if d.cur + 1 == d.size && c.mem == s.orig {
      assert Writable(c.mem, d.start, d.buffer, 0, d.cur + 1);
      WindowWritable(s, d.eraseMethod, d.buffer);
    }
  }

  lemma WidenSend(s: Save, g: EraseMethod -> bool, d: Driver, c: Chip)
    requires InStep(d, c) && SaveInv(s, d, c.mem) && d.op == Erasing && !CurrentWritable(d, c)
    requires ClearsBy(c.oracle, g) && Widened(s, g, d, c.mem)
    ensures Widened(s, g, d.(firstTry := false), Erase(c, d.eraseMethod, d.start + d.cur).mem)
  {
    hide Save.Wiped, AlignDown, CanWrite;
    UnwritableIsNotWiped(s, d, c);
    EraseHitsWindow(s, c, d.eraseMethod, d.start + d.cur);
  }

  lemma WidenErase(s: Save, g: EraseMethod -> bool, d: Driver, c: Chip)
    requires InStep(d, c) && PhaseInv(d, c) && SaveInv(s, d, c.mem) && s.ErasesWhenNeeded()
    requires d.op == Erasing && c.busy == 0 && ClearsBy(c.oracle, g) && Widened(s, g, d, c.mem)
    ensures Widened(s, g, ActErase(d, c).d, ActErase(d, c).chip.mem)
  {
    hide Erase, AlignDown, Save.Wiped, CanWrite, Images, Unsettled, ActErase, Save.ErasesWhenNeeded, Save.Proper, PhaseInv, SaveInv, Advanced;
    EraseCases(d, c);
    SaveTask(s, d, c.mem);
    if CurrentWritable(d, c) {
      WidenAdvance(s, g, d, c);
    } else if !Escalates(d) {
      WidenSend(s, g, d, c);
    } else {
      UnwritableIsNotWiped(s, d, c);
    }
  }

  lemma StepWidened(s: Save, g: EraseMethod -> bool, w: World, settings: seq<Byte>)
    requires Located(s, settings, w.crc32) && s.ErasesWhenNeeded() && Saving(s, w, settings)
    requires ClearsBy(w.port.chip.oracle, g) && Widened(s, g, w.d, w.port.chip.mem)
    ensures Widened(s, g, Step(w).d, Step(w).port.chip.mem)
  {
    hide SettingsOffset, Sealed, AlignDown, Unsettled, Settled, Overwrite, Images, ActErase, ActRead, Save.Wiped,
      PhaseInv, Inject, ActWrite, ActVerify;
    StepForms(w);
    if w.d.op == Writing || w.d.op == Verifying { LaterForms(w.d, w.port.chip, w.crc32); }
    if w.d.op == Erasing && !SeenBusy(w) {
      WidenErase(s, g, w.d, w.port.chip);
    } else if w.d.op == Reading && !SeenBusy(w) {
      ReadForms(w.d, w.port.chip, w.crc32);
    }
  }

  lemma {:induction false} WidenedRun(w: World, g: EraseMethod -> bool, n: nat)
    requires SaveStart(w) && ClearsBy(w.port.chip.oracle, g)
    ensures Widened(SaveOf(w), g, Run(w, n).d, Run(w, n).port.chip.mem)
    ensures Run(w, n).port.chip.oracle == w.port.chip.oracle
  {
    hide SettingsOffset, Sealed, Step, Save.Wiped, AlignDown, Images, Unsettled, Settled;
    if n > 0 {
      SaveRun(w, n - 1);
      WidenedRun(w, g, n - 1);
      StepForms(Run(w, n - 1));
      StepWidened(SaveOf(w), g, Run(w, n - 1), w.d.settings);
    }
  }

  /** Only a chip-wide erase can help: one is needed and no narrower method takes. */
  predicate NeedsChipErase(w: World, g: EraseMethod -> bool)
    requires SaveStart(w)
  {
    NeedsErase(w) && !g(Sector) && !(w.d.small && g(Block))
  }

  /** A completed save changes nothing but the settings if and only if it could
      do without a chip-wide erase or there was nothing to lose beyond 256KB. */
  lemma SaveConservesExactly(w: World, g: EraseMethod -> bool, n: nat)
    requires SaveStart(w) && ClearsBy(w.port.chip.oracle, g) && Run(w, n).d.op == Completed
    ensures Run(w, n).port.chip.mem == Wanted(w) <==>
      !NeedsChipErase(w, g) || ErasedBeyondImage(w.port.chip.mem)
  {
    hide SettingsOffset, Sealed, Step, Save.Wiped, AlignDown, Images, Unsettled, Settled, Overwrite;
    SaveRun(w, n);
    WidenedRun(w, g, n);
    SaveConservesImage(w, n);
    assert NeedsChipErase(w, g) <==> Run(w, n).d.eraseMethod == ChipWide;
  }

  /** So a byte beyond 256KB is lost by a save on a chip that takes chip-wide
      erases only. */
  lemma SaveLosesByte(w: World, g: EraseMethod -> bool, n: nat, i: nat)
    requires SaveStart(w) && ClearsBy(w.port.chip.oracle, g) && Run(w, n).d.op == Completed
    requires !g(Sector) && !g(Block) && NeedsErase(w)
    requires IMAGE_SIZE <= i < |w.port.chip.mem| && w.port.chip.mem[i] != ERASED
    ensures |Run(w, n).port.chip.mem| == |w.port.chip.mem| && Run(w, n).port.chip.mem[i] == ERASED
  {
    hide SettingsOffset, Sealed, Step, Save.Wiped, AlignDown, Images, Unsettled, Settled, Overwrite;
    SaveRun(w, n);
    WidenedRun(w, g, n);
    var s, v := SaveOf(w), Run(w, n);
    assert v.d.eraseMethod == ChipWide;
    CompletedContents(s, v.d, v.port.chip, Sealed(w.d.settings, w.crc32));
  }
}
