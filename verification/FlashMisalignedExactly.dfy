/**
 A save at an offset off every boundary, on a chip whose erase methods always or
 never clear: what the flash holds afterwards, byte by byte, and what is loaded.
 */
module FlashMisalignedExactly {
  import opened Types
  import opened FlashChip
  import opened FlashLowLevel
  import opened FlashDriver
  import opened FlashRuns
  import opened FlashSettings
  import opened FlashRequests
  import opened FlashMisaligned

  // ---- what decides ------------------------------------------------------

  /** Byte `k` of the window cannot be programmed to its target in place. */
  predicate Unwritable(w: World, m: EraseMethod, k: nat)
    requires MisalignedStart(w) && k < EraseSize(m, w.d.small)
  {
    WindowFits(w, m);
    !CanWrite(w.port.chip.mem[WindowStart(w, m) + k], Target(w, m)[k])
  }

  predicate NeedsAt(w: World, m: EraseMethod)
    requires MisalignedStart(w)
  {
    exists k :: 0 <= k < EraseSize(m, w.d.small) && Unwritable(w, m, k)
  }

  /** The erase method with which the save completes, if it does: the first one
      that takes or whose window needs no erase. */
  function FinalMethod(w: World, g: EraseMethod -> bool, m: EraseMethod): EraseMethod
    requires MisalignedStart(w)
    decreases match m case Sector => 2 case Block => 1 case ChipWide => 0
  {
    if m == ChipWide || g(m) || !NeedsAt(w, m) then m else FinalMethod(w, g, NextMethod(m, w.d.small))
  }

  /** An erase with method `m` at one of the addresses strikes the other. */
  predicate Strikes(m: EraseMethod, small: bool, a: nat, b: nat) {
    m == ChipWide || AlignDown(a, EraseSize(m, small)) == AlignDown(b, EraseSize(m, small))
  }

  /** Among the first `n` bytes of the window one needs an erase that strikes `i`. */
  predicate Lost(w: World, m: EraseMethod, i: nat, n: nat)
    requires MisalignedStart(w) && n <= EraseSize(m, w.d.small)
  {
    exists k :: 0 <= k < n && Unwritable(w, m, k) && Strikes(m, w.d.small, WindowStart(w, m) + k, i)
  }

  /** The contents once the first `n` bytes of the window have had their erases. */
  predicate ClearedTo(w: World, g: EraseMethod -> bool, m: EraseMethod, mem: seq<Byte>, n: nat)
    requires MisalignedStart(w) && n <= EraseSize(m, w.d.small)
  {
    && |mem| == |w.port.chip.mem|
    && forall i :: 0 <= i < |mem| ==> mem[i] == if g(m) && Lost(w, m, i, n) then ERASED else w.port.chip.mem[i]
  }

  predicate InWindow(w: World, m: EraseMethod, i: nat) {
    WindowStart(w, m) <= i < WindowStart(w, m) + EraseSize(m, w.d.small)
  }

  predicate ClearedOutside(w: World, g: EraseMethod -> bool, m: EraseMethod, mem: seq<Byte>)
    requires MisalignedStart(w)
  {
    && |mem| == |w.port.chip.mem|
    && forall i :: 0 <= i < |mem| && !InWindow(w, m, i) ==>
         mem[i] == if g(m) && Lost(w, m, i, EraseSize(m, w.d.small)) then ERASED else w.port.chip.mem[i]
  }

  // ---- the invariant -----------------------------------------------------

  /** How many bytes of the window have had their erase. */
  function Tried(d: Driver): nat {
    if d.firstTry then d.cur else d.cur + 1
  }

  predicate Progress(w0: World, g: EraseMethod -> bool, d: Driver, mem: seq<Byte>)
    requires MisalignedStart(w0)
  {
    var m := d.eraseMethod;
    && FinalMethod(w0, g, Sector) == FinalMethod(w0, g, m)
    && (d.op == Pending || d.op == Reading ==> d.firstTry)
    && (d.op == Erasing ==> d.cur < EraseSize(m, w0.d.small) && ClearedTo(w0, g, m, mem, Tried(d)))
    && (Holding(d.op) && d.op != Erasing ==>
          (NeedsAt(w0, m) ==> g(m)) && ClearedOutside(w0, g, m, mem))
  }

  ghost predicate Tracks(w0: World, g: EraseMethod -> bool, w: World)
    requires MisalignedStart(w0)
  {
    Misplacing(w0, w) && Places(w0, w.d, w.port.chip.mem) && Progress(w0, g, w.d, w.port.chip.mem)
  }

  /** The byte at hand is as it was, or erased. */
  lemma CurrentIs(w0: World, g: EraseMethod -> bool, d: Driver, c: Chip)
    requires MisalignedStart(w0) && InStep(d, c) && d.op == Erasing && Places(w0, d, c.mem) && Progress(w0, g, d, c.mem)
    ensures var m := d.eraseMethod;
      && d.cur < EraseSize(m, w0.d.small) && d.buffer[d.cur] == Target(w0, m)[d.cur]
      && (!CurrentWritable(d, c) ==>
            Unwritable(w0, m, d.cur) && !(g(m) && Lost(w0, m, d.start + d.cur, Tried(d))))
      && (CurrentWritable(d, c) && Unwritable(w0, m, d.cur) ==> g(m) && Lost(w0, m, d.start + d.cur, Tried(d)))
  {
    hide SettingsOffset, Identifier, Target, Lost, CanWrite;
    assert d.buffer[d.cur] == Target(w0, d.eraseMethod)[0 + d.cur];
    ErasedIsWritable(d.buffer[d.cur]);
  }

  lemma StrikesTogether(m: EraseMethod, small: bool, a: nat, b: nat, c: nat)
    requires Strikes(m, small, a, b) && Strikes(m, small, b, c)
    ensures Strikes(m, small, a, c) && Strikes(m, small, b, a)
  {
    hide AlignDown;
  }

  /** Trying one more byte changes what is lost only if that byte needs an erase. */
  lemma LostStep(w: World, m: EraseMethod, i: nat, n: nat)
    requires MisalignedStart(w) && n < EraseSize(m, w.d.small)
    ensures Lost(w, m, i, n + 1) <==>
      Lost(w, m, i, n) || (Unwritable(w, m, n) && Strikes(m, w.d.small, WindowStart(w, m) + n, i))
  {
    hide SettingsOffset, Identifier, Target, Unwritable, Strikes;
  }

  /** What strikes a lost byte's neighbour strikes the byte. */
  lemma LostSpreads(w: World, m: EraseMethod, a: nat, i: nat, n: nat)
    requires MisalignedStart(w) && n <= EraseSize(m, w.d.small)
    requires Lost(w, m, a, n) && Strikes(m, w.d.small, a, i)
    ensures Lost(w, m, i, n)
  {
    hide SettingsOffset, Identifier, Target, Unwritable, Strikes;
    var k :| 0 <= k < n && Unwritable(w, m, k) && Strikes(m, w.d.small, WindowStart(w, m) + k, a);
    StrikesTogether(m, w.d.small, WindowStart(w, m) + k, a, i);
  }

  lemma AdvanceClears(w0: World, g: EraseMethod -> bool, d: Driver, c: Chip)
    requires MisalignedStart(w0) && InStep(d, c) && d.op == Erasing && Places(w0, d, c.mem) && Progress(w0, g, d, c.mem)
    requires CurrentWritable(d, c)
    ensures ClearedTo(w0, g, d.eraseMethod, c.mem, d.cur + 1)
  {
    hide SettingsOffset, Identifier, Target, Lost, CanWrite, Unwritable, Strikes;
    CurrentIs(w0, g, d, c);
    var m, a := d.eraseMethod, d.start + d.cur;
    forall i | 0 <= i < |c.mem|
      ensures c.mem[i] == if g(m) && Lost(w0, m, i, d.cur + 1) then ERASED else w0.port.chip.mem[i]
    {
      LostStep(w0, m, i, d.cur);
      if d.firstTry && Unwritable(w0, m, d.cur) && Strikes(m, w0.d.small, a, i) { LostSpreads(w0, m, a, i, d.cur); }
    }
  }

  lemma EraseStrikes(c: Chip, m: EraseMethod, a: nat, i: nat)
    requires a < |c.mem| && i < |c.mem| && c.oracle.clears(c.commands, m)
    ensures Erase(c, m, a).mem[i] == if Strikes(m, c.small, a, i) then ERASED else c.mem[i]
  {
    if m != ChipWide {
      var unit := EraseSize(m, c.small);
      if AlignDown(a, unit) <= i < AlignDown(a, unit) + unit { AlignDownInWindow(a, i, unit); }
    }
  }

  /** What the contents are at one address, by the invariant. */
  lemma ClearedAt(w0: World, g: EraseMethod -> bool, d: Driver, mem: seq<Byte>, i: nat)
    requires MisalignedStart(w0) && d.op == Erasing && Progress(w0, g, d, mem) && i < |mem|
    ensures d.cur < EraseSize(d.eraseMethod, w0.d.small) && |mem| == |w0.port.chip.mem|
    ensures mem[i] == if g(d.eraseMethod) && Lost(w0, d.eraseMethod, i, Tried(d)) then ERASED else w0.port.chip.mem[i]
  {
    hide SettingsOffset, Identifier, Lost;
  }

  /** And after an erase was sent. */
  lemma SentAt(w0: World, g: EraseMethod -> bool, d: Driver, c: Chip, i: nat)
    requires MisalignedStart(w0) && InStep(d, c) && d.op == Erasing && Places(w0, d, c.mem) && Progress(w0, g, d, c.mem)
    requires d.small == w0.d.small && ClearsBy(c.oracle, g) && !CurrentWritable(d, c) && i < |c.mem|
    ensures var m, mem := d.eraseMethod, Erase(c, d.eraseMethod, d.start + d.cur).mem;
      && d.cur < EraseSize(m, w0.d.small) && i < |mem| && |mem| == |w0.port.chip.mem|
      && mem[i] == if g(m) && Lost(w0, m, i, d.cur + 1) then ERASED else w0.port.chip.mem[i]
  {
    hide SettingsOffset, Identifier, Target, Lost, CanWrite, Unwritable, Strikes, Progress, Images, CurrentWritable, MisalignedStart;
    CurrentIs(w0, g, d, c);
    ClearedAt(w0, g, d, c.mem, i);
    var m, a := d.eraseMethod, d.start + d.cur;
    StrikesItself(m, w0.d.small, a);
    LostStep(w0, m, a, d.cur);
    LostStep(w0, m, i, d.cur);
    if g(m) { EraseStrikes(c, m, a, i); }
  }

  lemma SendClears(w0: World, g: EraseMethod -> bool, d: Driver, c: Chip)
    requires MisalignedStart(w0) && InStep(d, c) && d.op == Erasing && Places(w0, d, c.mem) && Progress(w0, g, d, c.mem)
    requires d.small == w0.d.small && ClearsBy(c.oracle, g) && !CurrentWritable(d, c)
    ensures d.cur < EraseSize(d.eraseMethod, w0.d.small)
    ensures ClearedTo(w0, g, d.eraseMethod, Erase(c, d.eraseMethod, d.start + d.cur).mem, d.cur + 1)
  {
    hide SettingsOffset, Identifier, Lost, CanWrite, Progress, Places, CurrentWritable, MisalignedStart;
    var m, mem := d.eraseMethod, Erase(c, d.eraseMethod, d.start + d.cur).mem;
    SentAt(w0, g, d, c, 0);
    forall i | 0 <= i < |mem|
      ensures mem[i] == if g(m) && Lost(w0, m, i, d.cur + 1) then ERASED else w0.port.chip.mem[i]
    {
      SentAt(w0, g, d, c, i);
    }
  }

  lemma StrikesItself(m: EraseMethod, small: bool, a: nat)
    ensures Strikes(m, small, a, a)
  {
  }

  /** A method is left only if it is needed and never takes. */
  lemma Escalated(w0: World, g: EraseMethod -> bool, d: Driver, c: Chip)
    requires MisalignedStart(w0) && InStep(d, c) && d.op == Erasing && Places(w0, d, c.mem) && Progress(w0, g, d, c.mem)
    requires !CurrentWritable(d, c) && !d.firstTry
    ensures !g(d.eraseMethod) && NeedsAt(w0, d.eraseMethod) && c.mem == w0.port.chip.mem
  {
    hide SettingsOffset, Identifier, Target, Lost, CanWrite, Unwritable, Strikes;
    CurrentIs(w0, g, d, c);
    LostStep(w0, d.eraseMethod, d.start + d.cur, d.cur);
    StrikesItself(d.eraseMethod, w0.d.small, d.start + d.cur);
  }

  /** All bytes were tried: outside the window the contents are final. */
  lemma TriedAll(w0: World, g: EraseMethod -> bool, d: Driver, c: Chip)
    requires MisalignedStart(w0) && InStep(d, c) && d.op == Erasing && Places(w0, d, c.mem) && d.cur + 1 == d.size
    requires PhaseInv(d, c) && CurrentWritable(d, c) && ClearedTo(w0, g, d.eraseMethod, c.mem, d.size)
    ensures ClearedOutside(w0, g, d.eraseMethod, c.mem) && (NeedsAt(w0, d.eraseMethod) ==> g(d.eraseMethod))
  {
    hide SettingsOffset, Identifier, Target, Lost, CanWrite;
    var m := d.eraseMethod;
    if !g(m) {
      WritableExtends(c.mem, d.start, d.buffer, d.cur);
      forall k | 0 <= k < EraseSize(m, w0.d.small) ensures !Unwritable(w0, m, k) {
        assert CanWrite(c.mem[d.start + k], d.buffer[k]) && d.buffer[k] == Target(w0, m)[0 + k];
      }
    }
  }

  lemma RealignedStart(w0: World, d: Driver)
    requires MisalignedStart(w0) && d.start == WindowStart(w0, d.eraseMethod) && d.eraseMethod != ChipWide && d.small == w0.d.small
    ensures var e := ReadBack(NextTry(d));
      e.eraseMethod != Sector && e.start == WindowStart(w0, e.eraseMethod) == 0 && e.size == EraseSize(e.eraseMethod, w0.d.small)
  {
    hide SettingsOffset, Identifier;
  }

  lemma MisplacingMeans(w0: World, w: World)
    requires MisalignedStart(w0) && Misplacing(w0, w)
    ensures Sane(w) && w.d.task == WriteSettings && w.d.small == w0.d.small && PhaseInv(w.d, w.port.chip)
    ensures w.crc32 == w0.crc32 && SealedBy(w) == SealedBy(w0) && (w.d.op == Pending ==> w.d.cur == 0)
    ensures |w.port.chip.mem| == |w0.port.chip.mem|
  {
  }

  lemma TrackErase(w0: World, g: EraseMethod -> bool, d: Driver, c: Chip)
    requires MisalignedStart(w0) && InStep(d, c) && d.op == Erasing && c.busy == 0 && PhaseInv(d, c)
    requires d.task == WriteSettings && d.small == w0.d.small && ClearsBy(c.oracle, g)
    requires Places(w0, d, c.mem) && Progress(w0, g, d, c.mem)
    ensures var a := ActErase(d, c); Places(w0, a.d, a.chip.mem) && Progress(w0, g, a.d, a.chip.mem)
  {
    hide SettingsOffset, Identifier, AlignDown, Images, Target, Erase, CanWrite, NeedsAt, ClearedTo, ClearedOutside, PhaseInv, ActErase;
    EraseCases(d, c);
    if CurrentWritable(d, c) {
      AdvanceClears(w0, g, d, c);
      if d.cur + 1 == d.size { TriedAll(w0, g, d, c); }
    } else if !Escalates(d) {
      SendClears(w0, g, d, c);
    } else {
      Escalated(w0, g, d, c);
      if d.eraseMethod != ChipWide {
        RealignedStart(w0, d);
        ImagesNothing(d.buffer, c.mem, 0);
      }
    }
  }

  /** Programming a byte of the window changes nothing outside. */
  lemma ProgramKeepsOutside(w0: World, g: EraseMethod -> bool, m: EraseMethod, mem: seq<Byte>, a: nat, b: Byte)
    requires MisalignedStart(w0) && ClearedOutside(w0, g, m, mem) && InWindow(w0, m, a) && a < |mem|
    ensures ClearedOutside(w0, g, m, mem[a := b])
  {
    hide Lost;
  }

  lemma TrackLater(w0: World, g: EraseMethod -> bool, d: Driver, c: Chip, crc32: seq<Byte> -> Word)
    requires MisalignedStart(w0) && InStep(d, c) && (d.op == Writing || d.op == Verifying) && c.busy == 0
    requires Places(w0, d, c.mem) && Progress(w0, g, d, c.mem)
    ensures var a := Act(d, c, crc32); Places(w0, a.d, a.chip.mem) && Progress(w0, g, a.d, a.chip.mem)
  {
    hide SettingsOffset, Identifier, Images, Target, NeedsAt, ClearedTo, ClearedOutside, ActVerify, ActWrite;
    LaterForms(d, c, crc32);
    if d.op == Verifying {
      VerifyReadsOnly(d, c);
    } else {
      WriteForms(d, c);
    }
    if d.op == Writing && d.cur < d.size {
      ProgramKeepsOutside(w0, g, d.eraseMethod, c.mem, d.start + d.cur,
                          c.oracle.programmed(c.commands, c.mem[d.start + d.cur], d.buffer[d.cur]));
    }
  }

  /** Before the first erase nothing is lost. */
  lemma NothingLost(w0: World, g: EraseMethod -> bool, m: EraseMethod)
    requires MisalignedStart(w0)
    ensures ClearedTo(w0, g, m, w0.port.chip.mem, 0)
  {
  }

  lemma StepTracks(w0: World, g: EraseMethod -> bool, w: World)
    requires MisalignedStart(w0) && Tracks(w0, g, w) && ClearsBy(w.port.chip.oracle, g)
    ensures Tracks(w0, g, Step(w))
  {
    hide SettingsOffset, Sealed, Overwrite, Identifier, AlignDown, Step, Images, Target, CanWrite, NeedsAt, Misplacing,
      ActErase, ActRead, ActWrite, ActVerify, PhaseInv, ClearedTo, ClearedOutside, FinalMethod;
    StepMisplacing(w0, w);
    MisplacingMeans(w0, w);
    StepForms(w);
    ImagesNothing(w.d.buffer, w.port.chip.mem, w.d.start);
    var d, c := w.d, w.port.chip;
    if Polls(d.op) && !SeenBusy(w) {
      if d.op == Erasing { TrackErase(w0, g, d, c); }
      else if d.op == Reading {
        PlaceRead(w0, w);
        NothingLost(w0, g, d.eraseMethod);
      } else { TrackLater(w0, g, d, c, w.crc32); }
    }
  }

  lemma {:induction false} TracksRun(w: World, g: EraseMethod -> bool, n: nat)
    requires MisalignedStart(w) && ClearsBy(w.port.chip.oracle, g)
    ensures Tracks(w, g, Run(w, n)) && Run(w, n).port.chip.oracle == w.port.chip.oracle
  {
    hide SettingsOffset, Sealed, Identifier, AlignDown, Step, Target, NeedsAt, ClearedTo, ClearedOutside;
    if n > 0 {
      TracksRun(w, g, n - 1);
      StepForms(Run(w, n - 1));
      StepTracks(w, g, Run(w, n - 1));
    } else {
      MisplacingRun(w, 0);
    }
  }

  // ---- the contents afterwards -------------------------------------------

  /** What a completed save leaves: its window as targeted, and around it the
      old contents, less every byte that an erase for the window struck. */
  predicate LeftBy(w: World, m: EraseMethod, mem: seq<Byte>)
    requires MisalignedStart(w)
  {
    && |mem| == |w.port.chip.mem| >= WindowStart(w, m) + EraseSize(m, w.d.small)
    && mem[WindowStart(w, m)..WindowStart(w, m) + EraseSize(m, w.d.small)] == Target(w, m)
    && forall i :: 0 <= i < |mem| && !InWindow(w, m, i) ==>
         mem[i] == if Lost(w, m, i, EraseSize(m, w.d.small)) then ERASED else w.port.chip.mem[i]
  }

  lemma LostNeeds(w: World, m: EraseMethod, i: nat)
    requires MisalignedStart(w) && Lost(w, m, i, EraseSize(m, w.d.small))
    ensures NeedsAt(w, m)
  {
    hide SettingsOffset, Identifier, Unwritable, Strikes;
  }

  /** A completed save leaves exactly that, for the method that is decided beforehand. */
  lemma MisalignedSaveContents(w: World, g: EraseMethod -> bool, n: nat)
    requires MisalignedStart(w) && ClearsBy(w.port.chip.oracle, g) && Run(w, n).d.op == Completed
    ensures Run(w, n).d.eraseMethod == FinalMethod(w, g, Sector)
    ensures LeftBy(w, FinalMethod(w, g, Sector), Run(w, n).port.chip.mem)
  {
    hide SettingsOffset, Sealed, Identifier, AlignDown, Step, Images, Matches, Target, NeedsAt, Lost;
    TracksRun(w, g, n);
    var v := Run(w, n);
    var m, mem := v.d.eraseMethod, v.port.chip.mem;
    WindowFits(w, m);
    WindowHolds(mem, v.d.start, v.d.buffer, Target(w, m));
    forall i | 0 <= i < |mem| && !InWindow(w, m, i)
      ensures mem[i] == if Lost(w, m, i, EraseSize(m, w.d.small)) then ERASED else w.port.chip.mem[i]
    {
      if Lost(w, m, i, EraseSize(m, w.d.small)) { LostNeeds(w, m, i); }
    }
  }

  predicate KeepsOutside(w: World, m: EraseMethod, mem: seq<Byte>) {
    |mem| == |w.port.chip.mem| && forall i :: 0 <= i < |mem| && !InWindow(w, m, i) ==> mem[i] == w.port.chip.mem[i]
  }

  /** It keeps the bytes around its window if and only if no erase for the window
      strikes one that was not erased anyway. */
  lemma MisalignedSaveKeepsExactly(w: World, g: EraseMethod -> bool, n: nat)
    requires MisalignedStart(w) && ClearsBy(w.port.chip.oracle, g) && Run(w, n).d.op == Completed
    ensures var m, orig := FinalMethod(w, g, Sector), w.port.chip.mem;
      KeepsOutside(w, m, Run(w, n).port.chip.mem) <==>
        forall i :: 0 <= i < |orig| && !InWindow(w, m, i) && Lost(w, m, i, EraseSize(m, w.d.small)) ==> orig[i] == ERASED
  {
    hide SettingsOffset, Sealed, Identifier, AlignDown, Step, Target, NeedsAt, Lost, FinalMethod;
    MisalignedSaveContents(w, g, n);
  }

  /** In particular the bytes in front of the offset are lost if the first erase
      unit needs an erase and takes it. */
  lemma MisalignedSaveLosesFront(w: World, g: EraseMethod -> bool, n: nat, k: nat, i: nat)
    requires MisalignedStart(w) && ClearsBy(w.port.chip.oracle, g) && Run(w, n).d.op == Completed && g(Sector)
    requires w.d.start + k < w.d.size && Unwritable(w, Sector, k) && i < w.d.start
    ensures i < |Run(w, n).port.chip.mem| && Run(w, n).port.chip.mem[i] == ERASED
  {
    hide SettingsOffset, Sealed, Identifier, Step, Target, Unwritable;
    WindowFits(w, Sector);
    MisalignedSaveContents(w, g, n);
    FrontIsStruck(w.d.small, w.d.start + k, i);
    assert Lost(w, Sector, i, w.d.size);
  }

  lemma FrontIsStruck(small: bool, a: nat, i: nat)
    requires i < a < EraseSize(Sector, small)
    ensures Strikes(Sector, small, a, i)
  {
    AlignDownInWindow(0, a, EraseSize(Sector, small));
    AlignDownInWindow(0, i, EraseSize(Sector, small));
  }

  // ---- what is loaded afterwards -----------------------------------------

  /** The settings stand where the load looks for them if and only if the window
      was realigned, or by coincidence. */
  lemma MisalignedSaveFoundExactly(w: World, g: EraseMethod -> bool, n: nat)
    requires MisalignedStart(w) && ClearsBy(w.port.chip.oracle, g) && Run(w, n).d.op == Completed
    ensures |Run(w, n).port.chip.mem| == |w.port.chip.mem|
    ensures FoundAgain(w, Run(w, n).port.chip.mem) <==>
      (NeedsAt(w, Sector) && !g(Sector)) || Coincides(w.port.chip.mem, w.d.start, SealedBy(w))
  {
    hide SettingsOffset, Sealed, Identifier, AlignDown, Step, Target, NeedsAt, Coincides, FoundAgain, Lost;
    MisalignedSaveContents(w, g, n);
    var m, mem := FinalMethod(w, g, Sector), Run(w, n).port.chip.mem;
    if m == Sector { MisplacedFound(w, mem); } else { PlacedFound(w, m, mem); }
  }

  lemma PlacedFound(w: World, m: EraseMethod, mem: seq<Byte>)
    requires MisalignedStart(w) && m != Sector && |mem| == |w.port.chip.mem|
    requires mem[0..EraseSize(m, w.d.small)] == Target(w, m)
    ensures FoundAgain(w, mem)
  {
    hide SettingsOffset, Identifier, Sealed;
    var off, sealed, size := w.d.start, SealedBy(w), EraseSize(m, w.d.small);
    WindowFits(w, m);
    forall k | 0 <= k < |sealed| ensures mem[off..off + |sealed|][k] == sealed[k] {
      assert mem[0..size][off + k] == Target(w, m)[off + k];
    }
  }

  /** The identifier, which tells the load where to look, is as it was. */
  lemma IdentifierStays(w: World, m: EraseMethod, mem: seq<Byte>)
    requires MisalignedStart(w) && LeftBy(w, m, mem)
    ensures Identifier(mem) == Identifier(w.port.chip.mem)
  {
    hide SettingsOffset, Sealed, Target, Lost, AlignDown;
    forall i | IMAGE_SIZE - IDENTIFIER_SIZE <= i < IMAGE_SIZE ensures mem[i] == w.port.chip.mem[i] {
      if m == ChipWide { TargetAtEnd(w, mem, i); } else { FarIsSafe(w, m, i); }
    }
  }

  lemma TargetAtEnd(w: World, mem: seq<Byte>, i: nat)
    requires MisalignedStart(w) && LeftBy(w, ChipWide, mem) && 2 * SECTOR_SIZE <= i < IMAGE_SIZE
    ensures mem[i] == w.port.chip.mem[i]
  {
    hide SettingsOffset, Sealed, Identifier, Lost;
    assert mem[i] == mem[0..IMAGE_SIZE][i] == Target(w, ChipWide)[i];
  }

  lemma FarIsSafe(w: World, m: EraseMethod, i: nat)
    requires MisalignedStart(w) && m != ChipWide && i >= 3 * BLOCK_SIZE
    ensures !InWindow(w, m, i) && !Lost(w, m, i, EraseSize(m, w.d.small))
  {
    hide SettingsOffset, Sealed, Identifier, AlignDown, Target, Unwritable;
  }

  /** After a completed save the chip holds these very settings for the load if
      and only if they are of the current version and found again. */
  lemma MisalignedSaveLoadsExactly(w: World, g: EraseMethod -> bool, n: nat)
    requires MisalignedStart(w) && ClearsBy(w.port.chip.oracle, g) && Run(w, n).d.op == Completed
    requires |w.d.settings| > CRC_SIZE
    ensures |Run(w, n).port.chip.mem| == |w.port.chip.mem|
    ensures SettingsInFlash(Run(w, n).port.chip.mem, |w.d.settings|, w.crc32) == Some(SealedBy(w)) <==>
      && w.d.settings[0] == SETTINGS_VERSION
      && ((NeedsAt(w, Sector) && !g(Sector)) || Coincides(w.port.chip.mem, w.d.start, SealedBy(w)))
  {
    hide SettingsOffset, Sealed, Identifier, AlignDown, Step, Target, NeedsAt, Coincides, Lost, Accepted, FinalMethod, LeftBy;
    MisalignedSaveContents(w, g, n);
    MisalignedSaveFoundExactly(w, g, n);
    IdentifierStays(w, FinalMethod(w, g, Sector), Run(w, n).port.chip.mem);
    SealedIsAccepted(w.d.settings, w.crc32);
  }
}
