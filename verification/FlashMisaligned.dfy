/**
 Saving the settings at an offset off every boundary, as the remainder in the
 settings location yields it: where they end up, and when they are found again.
 */
module FlashMisaligned {
  import opened Arith
  import opened FlashChip
  import opened FlashLowLevel
  import opened FlashDriver
  import opened FlashRuns
  import opened FlashSettings
  import opened FlashRequests

  /** The first window begins at the offset itself, every wider one at 0. */
  function WindowStart(w: World, m: EraseMethod): nat {
    if m == Sector then w.d.start else 0
  }

  /** The settings, sealed, as the save is to store them. */
  function SealedBy(w: World): seq<Byte>
    requires |w.d.settings| >= CRC_SIZE
  {
    Sealed(w.d.settings, w.crc32)
  }

  /** What the save writes into the window: the settings at index `off` of the
      old contents of the window, so not at address `off` in the first one. */
  function Patched(orig: seq<Byte>, start: nat, size: nat, off: nat, sealed: seq<Byte>): (r: seq<Byte>)
    requires start + size <= |orig|
    ensures |r| == size
    ensures forall k :: 0 <= k < size ==> r[k] == if off <= k < off + |sealed| then sealed[k - off] else orig[start + k]
  {
    seq(size, k requires 0 <= k < size => if off <= k < off + |sealed| then sealed[k - off] else orig[start + k])
  }

  lemma WindowFits(w: World, m: EraseMethod)
    requires MisalignedStart(w)
    ensures WindowStart(w, m) + EraseSize(m, w.d.small) <= IMAGE_SIZE <= |w.port.chip.mem|
    ensures w.d.start < EraseSize(m, w.d.small)
  {
    hide SettingsOffset, Identifier;
  }

  function Target(w: World, m: EraseMethod): (r: seq<Byte>)
    requires MisalignedStart(w)
    ensures |r| == EraseSize(m, w.d.small)
  {
    WindowFits(w, m);
    Patched(w.port.chip.mem, WindowStart(w, m), EraseSize(m, w.d.small), w.d.start, SealedBy(w))
  }

  // ---- every chip --------------------------------------------------------

  predicate Holding(op: FlashOp) {
    op == Erasing || op == Writing || op == Verifying || op == Completed
  }

  /** What the window of method `m` is used for. */
  predicate Places(w0: World, d: Driver, mem: seq<Byte>)
    requires MisalignedStart(w0)
  {
    var m := d.eraseMethod;
    && d.start == WindowStart(w0, m) && d.size == EraseSize(m, w0.d.small)
    && (d.op == Pending || d.op == Reading ==>
          mem == w0.port.chip.mem && Images(d.buffer, mem, d.start, d.cur))
    && (Holding(d.op) ==> Images(d.buffer, Target(w0, m), 0, d.size))
  }

  ghost predicate Misplacing(w0: World, w: World)
    requires MisalignedStart(w0)
  {
    var d := w.d;
    && Sane(w) && PhaseInv(d, w.port.chip) && w.crc32 == w0.crc32
    && d.task == WriteSettings && d.op != Idle && d.small == w0.d.small && (d.op == Pending ==> d.cur == 0)
    && |w.port.chip.mem| == |w0.port.chip.mem| && SealedBy(w) == SealedBy(w0)
    && (d.eraseMethod == Sector ==> Places(w0, d, w.port.chip.mem))
  }

  /** An erase step leaves the buffer alone; only a re-read changes the window. */
  lemma EraseKeepsBuffer(d: Driver, c: Chip)
    requires InStep(d, c) && d.op == Erasing && c.busy == 0
    ensures var e := ActErase(d, c).d;
      && e.buffer == d.buffer && e.settings == d.settings && e.task == d.task && e.small == d.small
      && e.op != Idle && e.op != Pending
      && (e.eraseMethod == d.eraseMethod ==> e.start == d.start && e.size == d.size && e.op != Reading)
      && (e.eraseMethod == Sector ==> d.eraseMethod == Sector)
  {
  }

  /** Patching the window that was read gives the target. */
  lemma InjectHitsTarget(w: World, m: EraseMethod, buffer: seq<Byte>)
    requires MisalignedStart(w) && |buffer| == BUFFER_SIZE
    requires Images(buffer, w.port.chip.mem, WindowStart(w, m), EraseSize(m, w.d.small))
    ensures var off, size := w.d.start, EraseSize(m, w.d.small);
      && off % size == off && off + |SealedBy(w)| <= BUFFER_SIZE
      && Images(Overwrite(buffer, off, SealedBy(w)), Target(w, m), 0, size)
  {
    hide SettingsOffset, Identifier;
    DivModUnique(w.d.start, EraseSize(m, w.d.small), 0, w.d.start);
    WindowFits(w, m);
  }

  /** A read step of the save moves on, or ends with the target in the buffer. */
  lemma PlaceRead(w0: World, w: World)
    requires MisalignedStart(w0) && Sane(w) && w.d.op == Reading && !SeenBusy(w) && w.d.task == WriteSettings
    requires w.d.small == w0.d.small && w.crc32 == w0.crc32 && SealedBy(w) == SealedBy(w0) && Places(w0, w.d, w.port.chip.mem)
    ensures var v := Step(w);
      && Places(w0, v.d, v.port.chip.mem) && SealedBy(v) == SealedBy(w0) && PhaseInv(v.d, v.port.chip)
      && v.d == w.d.(buffer := v.d.buffer, cur := v.d.cur, op := v.d.op, settings := v.d.settings)
      && (v.d.op == Reading || (v.d.op == Erasing && v.d.cur == 0)) && v.port.chip.mem == w.port.chip.mem
  {
    hide SettingsOffset, Sealed, Overwrite, Identifier, AlignDown, Images, ActRead, Target, Step;
    StepForms(w);
    SealedTwice(w.d.settings, w.crc32);
    var d, c := w.d, w.port.chip;
    ReadForms(d, c, w.crc32);
    ReadExtendsImage(d.buffer, c.mem, d.start, d.cur);
    if d.cur + 1 == d.size {
      InjectHitsTarget(w0, d.eraseMethod, d.buffer[d.cur := c.mem[d.start + d.cur]]);
    }
  }

  lemma OtherRead(w: World)
    requires Sane(w) && w.d.op == Reading && w.d.task == WriteSettings
    ensures var v := Step(w);
      && v.d.eraseMethod == w.d.eraseMethod && v.d.task == w.d.task && v.d.small == w.d.small
      && SealedBy(v) == SealedBy(w) && (v.d.op == Reading || v.d.op == Erasing) && PhaseInv(v.d, v.port.chip)
  {
    hide SettingsOffset, Sealed, Overwrite, Identifier, AlignDown, ActRead, Step;
    StepForms(w);
    SealedTwice(w.d.settings, w.crc32);
    if !SeenBusy(w) { ReadForms(w.d, w.port.chip, w.crc32); }
  }

  lemma StepMisplacing(w0: World, w: World)
    requires MisalignedStart(w0) && Misplacing(w0, w)
    ensures Misplacing(w0, Step(w))
  {
    hide SettingsOffset, Sealed, Overwrite, Identifier, AlignDown, ActErase, ActRead, ActWrite, ActVerify, Step, Poll,
      Images, PhaseInv, Target;
    StepForms(w);
    ImagesNothing(w.d.buffer, w.port.chip.mem, w.d.start);
    if w.d.op != Reading { StepPhase(w); } else { OtherRead(w); }
    if w.d.op == Writing || w.d.op == Verifying { LaterForms(w.d, w.port.chip, w.crc32); }
    if w.d.op == Erasing && !SeenBusy(w) { EraseKeepsBuffer(w.d, w.port.chip); }
    if w.d.op == Reading && !SeenBusy(w) && w.d.eraseMethod == Sector { PlaceRead(w0, w); }
  }

  lemma {:induction false} MisplacingRun(w: World, n: nat)
    requires MisalignedStart(w)
    ensures Misplacing(w, Run(w, n))
  {
    hide SettingsOffset, Sealed, Identifier, AlignDown, Step, Target;
    if n > 0 {
      MisplacingRun(w, n - 1);
      StepMisplacing(w, Run(w, n - 1));
    }
  }

  /** The settings happen to be what a misplaced save leaves at the offset: old
      bytes first, then the beginning of the settings themselves. */
  predicate Coincides(orig: seq<Byte>, off: nat, sealed: seq<Byte>)
    requires 2 * off <= |orig|
  {
    forall k :: 0 <= k < |sealed| ==> sealed[k] == LeftAt(orig, off, sealed, k)
  }

  function LeftAt(orig: seq<Byte>, off: nat, sealed: seq<Byte>, k: nat): Byte
    requires 2 * off <= |orig| && k < |sealed|
  {
    if k < off then orig[off + k] else sealed[k - off]
  }

  /** The settings stand where the load will look for them. */
  predicate FoundAgain(w: World, mem: seq<Byte>)
    requires MisalignedStart(w) && |mem| >= IMAGE_SIZE
  {
    mem[w.d.start..w.d.start + |w.d.settings|] == SealedBy(w)
  }

  lemma MisplacedFound(w: World, mem: seq<Byte>)
    requires MisalignedStart(w) && |mem| == |w.port.chip.mem|
    requires mem[w.d.start..w.d.start + w.d.size] == Target(w, Sector)
    ensures FoundAgain(w, mem) <==> Coincides(w.port.chip.mem, w.d.start, SealedBy(w))
  {
    hide SettingsOffset, Identifier, Sealed;
    var off, sealed := w.d.start, SealedBy(w);
    var part, window := mem[off..off + |sealed|], mem[off..off + w.d.size];
    forall k | 0 <= k < |sealed| ensures part[k] == LeftAt(w.port.chip.mem, off, sealed, k) {
      assert part[k] == window[k] == Target(w, Sector)[k];
    }
  }

  lemma WindowHolds(mem: seq<Byte>, start: nat, buffer: seq<Byte>, target: seq<Byte>)
    requires start + |target| <= |mem| && |target| <= |buffer|
    requires Matches(mem, start, buffer, |target|) && Images(buffer, target, 0, |target|)
    ensures mem[start..start + |target|] == target
  {
    forall k | 0 <= k < |target| ensures mem[start..start + |target|][k] == target[k] {
      assert mem[start + k] == buffer[k] == target[0 + k];
    }
  }

  /** Whatever the chip does: a save at a misaligned offset that completes in its
      first window leaves the old bytes at the offset and has the settings, as
      far as they fit the window, at twice the offset. */
  lemma MisalignedSaveMisplaces(w: World, n: nat)
    requires MisalignedStart(w) && Run(w, n).d.op == Completed && Run(w, n).d.eraseMethod == Sector
    ensures var mem, off, size, sealed := Run(w, n).port.chip.mem, w.d.start, w.d.size, SealedBy(w);
      var fit := if |sealed| <= size - off then |sealed| else size - off;
      && |mem| == |w.port.chip.mem| && mem[off..2 * off] == w.port.chip.mem[off..2 * off]
      && mem[2 * off..2 * off + fit] == sealed[..fit]
      && (FoundAgain(w, mem) <==> Coincides(w.port.chip.mem, off, sealed))
  {
    hide SettingsOffset, Sealed, Identifier, AlignDown, Step, Images, Matches, Target;
    MisplacingRun(w, n);
    WindowFits(w, Sector);
    var v := Run(w, n);
    WindowHolds(v.port.chip.mem, w.d.start, v.d.buffer, Target(w, Sector));
    MisplacedFound(w, v.port.chip.mem);
    MisplacedParts(w, v.port.chip.mem);
  }

  lemma MisplacedParts(w: World, mem: seq<Byte>)
    requires MisalignedStart(w) && |mem| == |w.port.chip.mem|
    requires mem[w.d.start..w.d.start + w.d.size] == Target(w, Sector)
    ensures var off, size, sealed := w.d.start, w.d.size, SealedBy(w);
      var fit := if |sealed| <= size - off then |sealed| else size - off;
      && mem[off..2 * off] == w.port.chip.mem[off..2 * off] && mem[2 * off..2 * off + fit] == sealed[..fit]
  {
    hide SettingsOffset, Identifier, Sealed, Patched;
    WindowFits(w, Sector);
    PatchedParts(mem, w.port.chip.mem, w.d.start, w.d.size, SealedBy(w));
  }

  lemma PatchedParts(mem: seq<Byte>, orig: seq<Byte>, off: nat, size: nat, sealed: seq<Byte>)
    requires 0 < off < size && off + size <= |mem| == |orig|
    requires mem[off..off + size] == Patched(orig, off, size, off, sealed)
    ensures var fit := if |sealed| <= size - off then |sealed| else size - off;
      mem[off..2 * off] == orig[off..2 * off] && mem[2 * off..2 * off + fit] == sealed[..fit]
  {
    hide Patched;
    var window, fit := mem[off..off + size], if |sealed| <= size - off then |sealed| else size - off;
    forall k | 0 <= k < off ensures mem[off..2 * off][k] == orig[off..2 * off][k] {
      assert mem[off + k] == window[k];
    }
    forall k | 0 <= k < fit ensures mem[2 * off..2 * off + fit][k] == sealed[..fit][k] {
      assert mem[off + (off + k)] == window[off + k];
    }
  }
}
