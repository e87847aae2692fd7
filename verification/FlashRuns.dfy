/**
 What every run of the flash state machine keeps, for every chip oracle.
 */
module FlashRuns {
  import opened Arith
  import opened FlashChip
  import opened FlashLowLevel
  import opened FlashDriver

  // ---- busy polling ------------------------------------------------------

  /** Between two calls the poll statics agree with the chip. */
  predicate Sane(w: World) {
    Valid(w) && PollInv(w.port)
  }

  /** What never changes during a run. */
  ghost predicate SameChip(c: Chip, c': Chip) {
    c'.oracle == c.oracle && c'.small == c.small && |c'.mem| == |c.mem| && c'.hazards == c.hazards
  }

  lemma ActOnIdle(d: Driver, c: Chip, crc32: seq<Byte> -> Word)
    requires InStep(d, c) && Polls(d.op) && c.busy == 0
    ensures SameChip(c, Act(d, c, crc32).chip)
  {
  }

  /** One step: either a poll that was told "busy", which changes no cell, or
      the action of the phase on a chip that is really idle. */
  lemma StepForms(w: World)
    requires Sane(w)
    ensures Sane(Step(w)) && SameChip(w.port.chip, Step(w).port.chip) && Step(w).crc32 == w.crc32
    ensures Polls(w.d.op) && SeenBusy(w) ==>
      && Step(w).d == Waited(w.d)
      && Step(w).port == Poll(w.port).port && !Step(w).port.firstBusyRead
      && Step(w).port.chip.mem == w.port.chip.mem && Step(w).port.chip.commands == w.port.chip.commands
    ensures Polls(w.d.op) && !SeenBusy(w) ==>
      && w.port.chip.busy == 0 && Step(w).port.firstBusyRead
      && Acted(Step(w).d, Step(w).port.chip) == Act(w.d, w.port.chip, w.crc32)
    ensures !Polls(w.d.op) ==>
      && Step(w).port == w.port
      && Step(w).d == if w.d.op == Pending then Begin(w.d, |w.port.chip.mem|) else w.d
  {
    if Polls(w.d.op) {
      PollSound(w.port);
      if !SeenBusy(w) { ActOnIdle(w.d, w.port.chip, w.crc32); }
    }
  }

  /** Busy polling is sound over whole runs: no data read and no command ever
      reaches a busy chip, and a not-busy verdict means that the chip is idle. */
  lemma {:induction false} PollingIsSound(w: World, n: nat)
    requires Sane(w)
    ensures var v := Run(w, n);
      && Sane(v) && v.port.chip.hazards == w.port.chip.hazards
      && SameChip(w.port.chip, v.port.chip) && v.crc32 == w.crc32
      && (Polls(v.d.op) && !SeenBusy(v) ==> v.port.chip.busy == 0)
  {
    hide Step, Poll, Act, Begin;
    if n > 0 {
      PollingIsSound(w, n - 1);
      StepForms(Run(w, n - 1));
    }
    StepForms(Run(w, n));
  }

  // ---- the data phases ---------------------------------------------------

  lemma ErasedIsWritable(b: Byte)
    ensures CanWrite(ERASED, b)
  {
  }

  lemma ProgramReaches(flash: Byte, data: Byte)
    ensures CanWrite(flash, data) <==> flash & data == data
  {
  }

  predicate Writable(mem: seq<Byte>, start: nat, buffer: seq<Byte>, lo: nat, hi: nat)
    requires start + hi <= |mem| && hi <= |buffer|
  {
    forall k :: lo <= k < hi ==> CanWrite(mem[start + k], buffer[k])
  }

  predicate Matches(mem: seq<Byte>, start: nat, buffer: seq<Byte>, hi: nat)
    requires start + hi <= |mem| && hi <= |buffer|
  {
    forall k :: 0 <= k < hi ==> mem[start + k] == buffer[k]
  }

  predicate CurrentWritable(d: Driver, c: Chip)
    requires InStep(d, c) && d.op == Erasing
  {
    CanWrite(c.mem[d.start + d.cur], d.buffer[d.cur])
  }

  /** An erase step on an idle chip decides on the byte in the array, and sends
      at most one erase to the current address. */
  lemma EraseForms(d: Driver, c: Chip)
    requires InStep(d, c) && d.op == Erasing && c.busy == 0
    ensures var e := EraseDecision(d, c.mem[d.start + d.cur], |c.mem|);
      && ActErase(d, c) == Acted(e.d, if e.send then Erase(c, e.d.eraseMethod, d.start + d.cur) else c)
      && (e.send ==> e.d == d.(eraseMethod := e.d.eraseMethod, busyCount := e.d.busyCount, firstTry := false))
      && |ActErase(d, c).chip.mem| == |c.mem|
  {
    hide Erase, CanWrite, AlignDown;
  }

  /** The five outcomes of an erase step on an idle chip. */
  lemma EraseCases(d: Driver, c: Chip)
    requires InStep(d, c) && d.op == Erasing && c.busy == 0
    ensures |ActErase(d, c).chip.mem| == |c.mem|
    ensures CurrentWritable(d, c) ==> ActErase(d, c) == Acted(Advanced(d), c)
    ensures !CurrentWritable(d, c) && !Escalates(d) ==>
      ActErase(d, c) == Acted(d.(firstTry := false), Erase(c, d.eraseMethod, d.start + d.cur))
    ensures !CurrentWritable(d, c) && Escalates(d) && d.eraseMethod == ChipWide ==>
      ActErase(d, c) == Acted(d.(firstTry := true, busyCount := 0, op := Failed, error := FailedErase), c)
    ensures !CurrentWritable(d, c) && Escalates(d) && d.eraseMethod != ChipWide && d.task == WriteSettings ==>
      ActErase(d, c) == Acted(ReadBack(NextTry(d)), c)
    ensures !CurrentWritable(d, c) && Escalates(d) && d.eraseMethod != ChipWide && d.task != WriteSettings ==>
      ActErase(d, c) ==
        Acted(NextTry(d).(firstTry := false), Erase(c, NextMethod(d.eraseMethod, d.small), d.start + d.cur))
  {
    hide Erase, CanWrite, AlignDown, ActErase, Advanced, ReadBack;
    EraseForms(d, c);
  }

  /** An erase, wherever it strikes, never makes a writable byte unwritable. */
  lemma EraseKeepsWritable(c: Chip, m: EraseMethod, a: nat, start: nat, buffer: seq<Byte>, hi: nat)
    requires start + hi <= |c.mem| && hi <= |buffer|
    requires Writable(c.mem, start, buffer, 0, hi)
    ensures Writable(Erase(c, m, a).mem, start, buffer, 0, hi)
  {
    forall k | 0 <= k < hi
      ensures CanWrite(Erase(c, m, a).mem[start + k], buffer[k])
    {
      assert CanWrite(c.mem[start + k], buffer[k]);
      ErasedIsWritable(buffer[k]);
    }
  }

  /** The data phases of a job whose buffer holds the wanted contents. */
  ghost predicate PhaseInv(d: Driver, c: Chip)
    requires Fits(d, |c.mem|)
  {
    var mem := c.mem;
    match d.op
    case Erasing => Writable(mem, d.start, d.buffer, 0, d.cur)
    case Writing =>
      && Writable(mem, d.start, d.buffer, d.cur, d.size)
      && (ProgramsIdeally(c.oracle) ==> Matches(mem, d.start, d.buffer, d.cur))
    case Verifying =>
      && Matches(mem, d.start, d.buffer, d.cur)
      && (ProgramsIdeally(c.oracle) ==> Matches(mem, d.start, d.buffer, d.size))
    case Completed =>
      d.size <= |d.buffer| && d.start + d.size <= |mem| && Matches(mem, d.start, d.buffer, d.size)
    case Failed => d.error == FailedErase || (d.error == FailedVerify && !ProgramsIdeally(c.oracle))
    case _ => true
  }

  lemma WritableExtends(mem: seq<Byte>, start: nat, buffer: seq<Byte>, cur: nat)
    requires start + cur < |mem| && cur < |buffer|
    requires Writable(mem, start, buffer, 0, cur) && CanWrite(mem[start + cur], buffer[cur])
    ensures Writable(mem, start, buffer, 0, cur + 1) && Matches(mem, start, buffer, 0)
  {
    hide CanWrite;
  }

  lemma ErasePhase(d: Driver, c: Chip)
    requires InStep(d, c) && d.op == Erasing && c.busy == 0 && PhaseInv(d, c)
    ensures PhaseInv(ActErase(d, c).d, ActErase(d, c).chip)
  {
    hide Erase, CanWrite, AlignDown, Writable, Matches, ActErase;
    EraseForms(d, c);
    if CurrentWritable(d, c) {
      WritableExtends(c.mem, d.start, d.buffer, d.cur);
    } else {
      var e := EraseDecision(d, c.mem[d.start + d.cur], |c.mem|);
      EraseKeepsWritable(c, e.d.eraseMethod, d.start + d.cur, d.start, d.buffer, d.cur);
    }
  }

  /** A write step on an idle chip programs the current byte if it differs. */
  lemma WriteForms(d: Driver, c: Chip)
    requires InStep(d, c) && d.op == Writing && c.busy == 0
    ensures d.cur >= d.size ==> ActWrite(d, c) == Acted(d.(op := Verifying, cur := 0), c)
    ensures d.cur < d.size ==>
      var a, b := d.start + d.cur, d.buffer[d.cur];
      ActWrite(d, c) == Acted(d.(cur := d.cur + 1), if c.mem[a] != b then Program(c, a, b) else c)
  {
    hide Program;
  }

  /** A verify step on an idle chip compares the byte in the array. */
  lemma VerifyForms(d: Driver, c: Chip)
    requires InStep(d, c) && d.op == Verifying && c.busy == 0
    ensures ActVerify(d, c) ==
      Acted(if d.cur >= d.size then d.(op := Completed) else VerifyDecision(d, c.mem[d.start + d.cur], |c.mem|), c)
  {
  }

  /** The byte at the current address has been programmed, if it had to be. */
  lemma WritesOne(c: Chip, start: nat, buffer: seq<Byte>, cur: nat, size: nat)
    requires cur < size <= |buffer| && start + size <= |c.mem| && Writable(c.mem, start, buffer, cur, size)
    ensures var a, b := start + cur, buffer[cur];
      var mem := if c.mem[a] != b then Program(c, a, b).mem else c.mem;
      && |mem| == |c.mem| && Writable(mem, start, buffer, cur + 1, size)
      && (ProgramsIdeally(c.oracle) && Matches(c.mem, start, buffer, cur) ==> Matches(mem, start, buffer, cur + 1))
  {
    hide CanWrite, Writable, Matches, ProgramsIdeally;
    var a, b := start + cur, buffer[cur];
    var mem := if c.mem[a] != b then Program(c, a, b).mem else c.mem;
    assert mem == c.mem[a := mem[a]];
    StoresOne(c.mem, start, buffer, cur, size, mem[a]);
    if ProgramsIdeally(c.oracle) && c.mem[a] != b { ProgramsTo(c, a, b); }
  }

  /** An ideal program over a byte that allows it stores the data. */
  lemma ProgramsTo(c: Chip, a: nat, b: Byte)
    requires a < |c.mem| && CanWrite(c.mem[a], b) && ProgramsIdeally(c.oracle)
    ensures Program(c, a, b).mem[a] == b
  {
    hide CanWrite;
    ProgramReaches(c.mem[a], b);
  }

  lemma StoresOne(mem: seq<Byte>, start: nat, buffer: seq<Byte>, cur: nat, size: nat, x: Byte)
    requires cur < size <= |buffer| && start + size <= |mem| && Writable(mem, start, buffer, cur, size)
    ensures Writable(mem[start + cur := x], start, buffer, cur + 1, size) && CanWrite(mem[start + cur], buffer[cur])
    ensures x == buffer[cur] && Matches(mem, start, buffer, cur) ==> Matches(mem[start + cur := x], start, buffer, cur + 1)
  {
    hide CanWrite;
    assert CanWrite(mem[start + cur], buffer[cur]);
  }

  lemma MatchesNothing(mem: seq<Byte>, start: nat, buffer: seq<Byte>)
    ensures start <= |mem| ==> Matches(mem, start, buffer, 0)
  {
  }

  lemma NoneWritable(mem: seq<Byte>, start: nat, buffer: seq<Byte>)
    ensures start <= |mem| ==> Writable(mem, start, buffer, 0, 0)
  {
  }

  lemma WritePhase(d: Driver, c: Chip)
    requires InStep(d, c) && d.op == Writing && c.busy == 0 && PhaseInv(d, c)
    ensures PhaseInv(ActWrite(d, c).d, ActWrite(d, c).chip)
  {
    hide CanWrite, Writable, Matches, ProgramsIdeally, ActWrite;
    WriteForms(d, c);
    MatchesNothing(c.mem, d.start, d.buffer);
    if d.cur < d.size { WritesOne(c, d.start, d.buffer, d.cur, d.size); }
  }

  lemma MatchesMore(mem: seq<Byte>, start: nat, buffer: seq<Byte>, cur: nat, size: nat)
    requires cur < size && start + size <= |mem| && size <= |buffer| && Matches(mem, start, buffer, cur)
    ensures mem[start + cur] == buffer[cur] ==> Matches(mem, start, buffer, cur + 1)
    ensures mem[start + cur] != buffer[cur] ==> !Matches(mem, start, buffer, size)
  {
  }

  lemma VerifyPhase(d: Driver, c: Chip)
    requires InStep(d, c) && d.op == Verifying && c.busy == 0 && PhaseInv(d, c)
    ensures PhaseInv(ActVerify(d, c).d, ActVerify(d, c).chip)
  {
    hide CanWrite, Writable, Matches, ProgramsIdeally, ActVerify;
    VerifyForms(d, c);
    if d.cur < d.size { MatchesMore(c.mem, d.start, d.buffer, d.cur, d.size); }
  }

  /** One step keeps the phase invariant of a job that is not reading. */
  lemma StepPhase(w: World)
    requires Sane(w) && PhaseInv(w.d, w.port.chip) && (w.d.op == Pending ==> w.d.cur == 0)
    requires w.d.op != Reading
    ensures PhaseInv(Step(w).d, Step(w).port.chip)
  {
    hide ActErase, ActWrite, ActVerify, Step, Poll, Writable, Matches, ProgramsIdeally;
    StepForms(w);
    MatchesNothing(w.port.chip.mem, w.d.start, w.d.buffer);
    NoneWritable(w.port.chip.mem, w.d.start, w.d.buffer);
    var d, c := w.d, w.port.chip;
    if Polls(d.op) && !SeenBusy(w) {
      match d.op
      case Erasing => ErasePhase(d, c);
      case Writing => WritePhase(d, c);
      case Verifying => VerifyPhase(d, c);
    }
  }

  /** Writing and verifying touch nothing of the driver but its place in the job. */
  lemma LaterForms(d: Driver, c: Chip, crc32: seq<Byte> -> Word)
    requires InStep(d, c) && (d.op == Writing || d.op == Verifying)
    ensures var e := Act(d, c, crc32).d;
      && e == d.(op := e.op, cur := e.cur, error := e.error)
      && (e.op == Verifying || e.op == (if d.op == Writing then Writing else Completed) || (e.op == Failed && d.op == Verifying))
  {
  }

  /** A read step of a save: one byte further, or on to the erase phase with
      the settings patched into the buffer. */
  lemma ReadForms(d: Driver, c: Chip, crc32: seq<Byte> -> Word)
    requires InStep(d, c) && d.op == Reading && c.busy == 0 && d.task == WriteSettings
    ensures var buffer := d.buffer[d.cur := c.mem[d.start + d.cur]];
      ActRead(d, c, crc32) == Acted(
        if d.cur + 1 < d.size then d.(buffer := buffer, cur := d.cur + 1)
        else Inject(d.(buffer := buffer, cur := 0), crc32, SettingsOffset(Identifier(c.mem))).(op := Erasing),
        c)
  {
    hide SettingsOffset, Sealed, Overwrite;
  }

  // ---- writing a BIOS ----------------------------------------------------

  /** A BIOS job right after Flash_WriteBios accepted it. */
  predicate BiosStart(w: World) {
    Sane(w) && w.d.op == Pending && w.d.task == WriteBios && w.d.cur == 0
  }

  predicate SameJob(d: Driver, d': Driver) {
    d'.task == d.task && d'.buffer == d.buffer && d'.size == d.size && d'.start == d.start
  }

  predicate BiosOp(op: FlashOp) {
    op != Reading && op != Idle
  }

  lemma StepKeepsBios(w: World)
    requires Sane(w) && w.d.task == WriteBios && BiosOp(w.d.op)
    ensures SameJob(w.d, Step(w).d) && BiosOp(Step(w).d.op) && Step(w).d.op != Pending
  {
    hide CanWrite, Erase, AlignDown, ActWrite, ActVerify, ActErase, Step, Poll;
    StepForms(w);
    if w.d.op == Erasing && !SeenBusy(w) { EraseCases(w.d, w.port.chip); }
    if w.d.op == Writing || w.d.op == Verifying { LaterForms(w.d, w.port.chip, w.crc32); }
  }

  lemma {:induction false} BiosRun(w: World, n: nat)
    requires BiosStart(w)
    ensures var v := Run(w, n);
      && Sane(v) && SameChip(w.port.chip, v.port.chip) && SameJob(w.d, v.d)
      && BiosOp(v.d.op) && (v.d.op == Pending ==> v.d.cur == 0) && PhaseInv(v.d, v.port.chip)
  {
    hide Step, Writable, Matches, CanWrite;
    if n > 0 {
      BiosRun(w, n - 1);
      StepForms(Run(w, n - 1));
      StepPhase(Run(w, n - 1));
      StepKeepsBios(Run(w, n - 1));
    }
  }

  /** Whatever the chip does, a BIOS job that completes has written its image. */
  lemma BiosWriteCorrect(w: World, n: nat)
    requires BiosStart(w) && Run(w, n).d.op == Completed
    ensures var d, mem := w.d, Run(w, n).port.chip.mem;
      |mem| == |w.port.chip.mem| && mem[d.start..d.start + d.size] == d.buffer[..d.size]
  {
    BiosRun(w, n);
  }

  /** On a chip that programs ideally the verify pass never finds a mismatch. */
  lemma BiosVerifyNeverFails(w: World, n: nat)
    requires BiosStart(w) && ProgramsIdeally(w.port.chip.oracle)
    ensures Run(w, n).d.op == Failed ==> Run(w, n).d.error == FailedErase
  {
    BiosRun(w, n);
  }

  /** No program command is ever asked to turn a 0 bit into a 1 bit. */
  lemma BiosOnlyClearsBits(w: World, n: nat)
    requires BiosStart(w) && Run(w, n).d.op == Writing
    ensures var v := Run(w, n);
      Writable(v.port.chip.mem, v.d.start, v.d.buffer, v.d.cur, v.d.size)
  {
    BiosRun(w, n);
  }

  // ---- what a BIOS job leaves alone --------------------------------------

  /** The erase unit of address `a` contains a byte of the range. */
  predicate Touches(a: nat, start: nat, size: nat, unit: nat)
    requires IsUnit(unit)
  {
    exists b :: start <= b < start + size && SameUnit(b, a, unit)
  }

  predicate SameUnit(a: nat, b: nat, unit: nat)
    requires IsUnit(unit)
  {
    AlignDown(a, unit) == AlignDown(b, unit)
  }

  /** Up to erases with method `m`, only units that touch the range have changed. */
  predicate Spares(orig: seq<Byte>, mem: seq<Byte>, d: Driver) {
    && |mem| == |orig|
    && (d.eraseMethod != ChipWide ==>
          forall a :: 0 <= a < |mem| && !Touches(a, d.start, d.size, EraseSize(d.eraseMethod, d.small)) ==> mem[a] == orig[a])
  }

  /** A wider erase unit touches what a narrower one touches. */
  lemma WiderTouches(a: nat, start: nat, size: nat, small: bool, m: EraseMethod)
    requires Touches(a, start, size, EraseSize(m, small)) && NextMethod(m, small) != ChipWide
    ensures Touches(a, start, size, EraseSize(NextMethod(m, small), small))
  {
    hide SameUnit;
    var b :| start <= b < start + size && SameUnit(b, a, EraseSize(m, small));
    if small && m == Sector { UnitsNest(b, a); }
  }

  lemma UnitsNest(a: nat, b: nat)
    requires SameUnit(a, b, SECTOR_SIZE)
    ensures SameUnit(a, b, BLOCK_SIZE)
  {
    var low, block := AlignDown(a, SECTOR_SIZE), AlignDown(a, BLOCK_SIZE);
    assert block <= low && low + SECTOR_SIZE <= block + BLOCK_SIZE by { UnitInUnit(a, SECTOR_SIZE, BLOCK_SIZE); }
    AlignDownInWindow(a, b, BLOCK_SIZE);
  }

  lemma UnitInUnit(a: nat, unit: nat, wide: nat)
    requires IsUnit(unit) && IsUnit(wide) && unit <= wide
    ensures AlignDown(a, wide) <= AlignDown(a, unit) && AlignDown(a, unit) + unit <= AlignDown(a, wide) + wide
  {
    if unit == SECTOR_SIZE && wide == BLOCK_SIZE {
      UnitInMultiple(a, SECTOR_SIZE, 16, BLOCK_SIZE);
    } else if unit == SECTOR_SIZE && wide == IMAGE_SIZE {
      UnitInMultiple(a, SECTOR_SIZE, 64, IMAGE_SIZE);
    } else if unit == BLOCK_SIZE && wide == IMAGE_SIZE {
      UnitInMultiple(a, BLOCK_SIZE, 4, IMAGE_SIZE);
    }
  }

  lemma InUnitTouches(a: nat, d: Driver, unit: nat)
    requires IsUnit(unit) && d.cur < d.size
    requires AlignDown(d.start + d.cur, unit) <= a < AlignDown(d.start + d.cur, unit) + unit
    ensures Touches(a, d.start, d.size, unit)
  {
    AlignDownInWindow(d.start + d.cur, a, unit);
    assert SameUnit(d.start + d.cur, a, unit);
  }

  lemma EraseSpares(orig: seq<Byte>, c: Chip, d: Driver)
    requires InStep(d, c) && d.op == Erasing && Spares(orig, c.mem, d)
    ensures Spares(orig, Erase(c, d.eraseMethod, d.start + d.cur).mem, d)
  {
    hide AlignDown, CanWrite, Touches;
    var unit, mem := EraseSize(d.eraseMethod, d.small), Erase(c, d.eraseMethod, d.start + d.cur).mem;
    if d.eraseMethod != ChipWide {
      forall a | 0 <= a < |mem| && !Touches(a, d.start, d.size, unit) ensures mem[a] == orig[a] {
        var low := AlignDown(d.start + d.cur, unit);
        if low <= a < low + unit { InUnitTouches(a, d, unit); }
      }
    }
  }

  lemma WidenSpares(orig: seq<Byte>, mem: seq<Byte>, d: Driver)
    requires Spares(orig, mem, d) && d.eraseMethod != ChipWide
    ensures Spares(orig, mem, NextTry(d))
  {
    hide AlignDown, Touches;
    var e := NextTry(d);
    if e.eraseMethod != ChipWide {
      forall a | 0 <= a < |mem| && !Touches(a, e.start, e.size, EraseSize(e.eraseMethod, e.small)) ensures mem[a] == orig[a] {
        if Touches(a, d.start, d.size, EraseSize(d.eraseMethod, d.small)) {
          WiderTouches(a, d.start, d.size, d.small, d.eraseMethod);
        }
      }
    }
  }

  lemma ProgramSpares(orig: seq<Byte>, mem: seq<Byte>, d: Driver, b: Byte)
    requires Spares(orig, mem, d) && d.cur < d.size && d.start + d.cur < |mem|
    ensures Spares(orig, mem[d.start + d.cur := b], d)
  {
    hide AlignDown;
    assert SameUnit(d.start + d.cur, d.start + d.cur, EraseSize(d.eraseMethod, d.small));
    assert Touches(d.start + d.cur, d.start, d.size, EraseSize(d.eraseMethod, d.small));
  }

  lemma EraseStepSpares(orig: seq<Byte>, d: Driver, c: Chip)
    requires InStep(d, c) && d.op == Erasing && c.busy == 0 && d.task == WriteBios && Spares(orig, c.mem, d)
    ensures Spares(orig, ActErase(d, c).chip.mem, ActErase(d, c).d)
  {
    hide AlignDown, CanWrite, Touches, Erase, ActErase;
    EraseCases(d, c);
    if !CurrentWritable(d, c) {
      if !Escalates(d) {
        EraseSpares(orig, c, d);
      } else if d.eraseMethod != ChipWide {
        WidenSpares(orig, c.mem, d);
        EraseSpares(orig, c, NextTry(d));
      }
    }
  }

  lemma StepSpares(orig: seq<Byte>, w: World)
    requires Sane(w) && w.d.task == WriteBios && BiosOp(w.d.op) && Spares(orig, w.port.chip.mem, w.d)
    ensures Spares(orig, Step(w).port.chip.mem, Step(w).d)
  {
    hide AlignDown, CanWrite, Touches, Erase, ActErase, Step, ActVerify;
    StepForms(w);
    var d, c := w.d, w.port.chip;
    if Polls(d.op) && !SeenBusy(w) {
      if d.op == Erasing { EraseStepSpares(orig, d, c); }
      else {
        LaterForms(d, c, w.crc32);
        if d.op == Writing && d.cur < d.size {
          ProgramSpares(orig, c.mem, d, c.oracle.programmed(c.commands, c.mem[d.start + d.cur], d.buffer[d.cur]));
        } else if d.op == Verifying { VerifyReadsOnly(d, c); }
      }
    }
  }

  lemma VerifyReadsOnly(d: Driver, c: Chip)
    requires InStep(d, c) && d.op == Verifying
    ensures ActVerify(d, c).chip.mem == c.mem
  {
  }

  /** At every point of a BIOS job that has not come to a chip-wide erase, only
      erase units that contain a byte of its range can have changed. */
  lemma {:induction false} BiosSparesOthers(w: World, n: nat)
    requires BiosStart(w)
    ensures Spares(w.port.chip.mem, Run(w, n).port.chip.mem, Run(w, n).d)
  {
    hide Step, Touches;
    if n > 0 {
      BiosRun(w, n - 1);
      BiosSparesOthers(w, n - 1);
      StepSpares(w.port.chip.mem, Run(w, n - 1));
    }
  }
}
