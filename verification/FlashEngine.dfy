/**
 The flash driver as it is written: statics updated in place, one step per call.
 Every method is proved to make the move that the functions on values describe.
 */
module FlashEngine {
  import opened Types
  import opened FlashChip
  import opened FlashLowLevel
  import opened FlashDriver
  import opened FlashRuns
  import opened FlashSettings
  import opened FlashTermination
  import opened FlashRequests
  import opened FlashUpdate

  datatype FlashBank = OSBank | Bank256 | Bank512 | SplitTSOP0 | SplitTSOP1 | FullTSOP | NoBank

  /** checkImageSize: the size macro expands to `size % 256 * 1024`. */
  function CheckImageSize(size: nat, length: nat): (r: ErrorCode)
    ensures r == NoError <==> 0 < size <= length && size % 256 == 0
    ensures r == NoError || r == FileSizeError
  {
    if 0 < size <= length && size % 256 * 1024 == 0 then NoError else FileSizeError
  }

  /** The size mirrorimage fills up to. */
  function TargetSize(bank: FlashBank, length: nat): nat {
    match bank
    case OSBank => IMAGE_SIZE
    case Bank256 => IMAGE_SIZE
    case Bank512 => 2 * IMAGE_SIZE
    case SplitTSOP0 => 2 * IMAGE_SIZE
    case SplitTSOP1 => 2 * IMAGE_SIZE
    case FullTSOP => length
    case NoBank => length
  }

  /** An image of 384KB for a 1MB chip is accepted and mirrored past the buffer. */
  lemma MirrorOverflows()
    ensures CheckImageSize(0x60000, BUFFER_SIZE) == NoError && TargetSize(FullTSOP, BUFFER_SIZE) == BUFFER_SIZE
    ensures MirroredSize(0x60000, BUFFER_SIZE) == 0x180000 > BUFFER_SIZE
  {
    assert MirroredSize(0xC0000, BUFFER_SIZE) == 0x180000;
  }

  /** A job that fills a bank with copies of an image. */
  predicate BankJob(w: World, image: seq<Byte>, offset: nat, bank: FlashBank) {
    && BiosStart(w) && |image| > 0 && w.d.start == offset
    && w.d.size == MirroredSize(|image|, TargetSize(bank, |w.port.chip.mem|))
    && w.d.buffer[..w.d.size] == Mirrored(image, TargetSize(bank, |w.port.chip.mem|))
  }

  /** Once a BIOS job completes, the whole bank holds the image, again and again:
      256KB, 512KB or the whole chip behind the offset. */
  lemma BankHoldsImage(w: World, image: seq<Byte>, offset: nat, bank: FlashBank, n: nat)
    requires BankJob(w, image, offset, bank) && Run(w, n).d.op == Completed
    ensures var mem := Run(w, n).port.chip.mem;
      var span := if bank == OSBank || bank == Bank256 then 0x40000
                  else if bank == Bank512 || bank == SplitTSOP0 || bank == SplitTSOP1 then 0x80000
                  else |mem|;
      && |mem| == |w.port.chip.mem| && offset + span <= |mem|
      && forall a :: offset <= a < offset + span ==>
           0 <= (a - offset) % |image| < |image| && mem[a] == image[(a - offset) % |image|]
  {
    hide MirroredSize, Mirrored, Step, PhaseInv;
    BiosWriteCorrect(w, n);
    var mem, size := Run(w, n).port.chip.mem, w.d.size;
    forall a | offset <= a < offset + size
      ensures 0 <= (a - offset) % |image| < |image| && mem[a] == image[(a - offset) % |image|]
    {
      assert mem[offset..offset + size][a - offset] == w.d.buffer[..size][a - offset];
      MirroredAt(image, TargetSize(bank, |w.port.chip.mem|), a - offset);
    }
  }

  /** A request for a device that did not identify itself. */
  function Rejected(w: World, error: ErrorCode): World {
    w.(d := w.d.(op := Failed, error := error), port := w.port.(firstBusyRead := true))
  }

  function WithError(w: World, error: ErrorCode): World {
    w.(d := w.d.(error := error))
  }

  lemma WholeImage(image: seq<Byte>)
    ensures image[..|image|] == image
    ensures |image| == IMAGE_SIZE ==> MirroredSize(|image|, IMAGE_SIZE) == IMAGE_SIZE && Mirrored(image, IMAGE_SIZE) == image
  {
  }

  function WithSettings(w: World, settings: seq<Byte>): World {
    w.(d := w.d.(settings := settings))
  }

  /** The machine rests, and this is what loading yields. */
  predicate Loads(w: World, r: Option<seq<Byte>>) {
    && Valid(w) && |w.d.settings| > CRC_SIZE && !Active(w.d.op)
    && r == Loaded(w.d, w.crc32)
  }

  predicate Outcome(w: World, defaults: seq<Byte>, ok: bool, settings: seq<Byte>) {
    Loads(w, if ok then Some(settings) else None) && (!ok ==> settings == defaults)
  }

  class Engine {
    var currentFlashOp: FlashOp
    var currentFlashTask: FlashTask
    var flashErrorCode: ErrorCode
    const biosBuffer: array<Byte>
    var biosBufferSize: nat
    var startingOffset: nat
    var currentAddr: nat
    var eraseSequenceMethod: EraseMethod
    var eraseBusyCount: nat
    var firstEraseTry: bool
    const support4KB: bool
    var settings: seq<Byte>
    const crc32: seq<Byte> -> Word
    const low: LowLevel

    ghost function Statics(): Driver
      reads this, biosBuffer
    {
      Driver(currentFlashOp, currentFlashTask, flashErrorCode, biosBuffer[..], biosBufferSize, startingOffset,
             currentAddr, eraseSequenceMethod, eraseBusyCount, firstEraseTry, support4KB, settings)
    }

    ghost function View(): World
      reads this, biosBuffer, low
    {
      World(Statics(), low.View(), crc32)
    }

    ghost predicate Ok()
      reads this, biosBuffer, low
    {
      Valid(View())
    }

    /** Flash_Init */
    constructor (chip: Chip, current: seq<Byte>, crc: seq<Byte> -> Word)
      requires |chip.mem| >= IMAGE_SIZE && chip.decoder == Ready && CRC_SIZE <= |current| <= SECTOR_SIZE
      ensures Ok() && fresh(biosBuffer) && fresh(low)
      ensures currentFlashOp == Idle && currentAddr == 0 && low.chip == chip && settings == current && crc32 == crc
    {
      biosBuffer := new Byte[BUFFER_SIZE];
      low := new LowLevel(chip);
      support4KB, settings, crc32 := chip.small, current, crc;
      currentFlashOp, currentFlashTask, flashErrorCode := Idle, NoTask, NoError;
      biosBufferSize, startingOffset, currentAddr := 0, 0, 0;
      eraseSequenceMethod, eraseBusyCount, firstEraseTry := Sector, 0, false;
    }

    /** Flash_executeFlashFSM */
    method ExecuteFsm()
      requires Ok()
      modifies this, biosBuffer, low
      ensures View() == Step(old(View()))
    {
      hide Poll, ActErase, ActWrite, ActVerify, ActRead;
      if Polls(currentFlashOp) { ChipStays(View()); }
      match currentFlashOp {
        case Idle =>
        case Pending =>
          if currentFlashTask == WriteBios {
            currentFlashOp := Erasing;
          } else if currentFlashTask == ReadBios || currentFlashTask == WriteSettings || currentFlashTask == ReadSettings {
            currentFlashOp := Reading;
          }
        case Erasing =>
          var busy := low.DeviceIsBusy();
          if busy { eraseBusyCount := eraseBusyCount + 1; } else { EraseStep(); }
        case Writing =>
          var busy := low.DeviceIsBusy();
          if !busy { WriteStep(); }
        case Verifying =>
          var busy := low.DeviceIsBusy();
          if !busy { VerifyStep(); }
        case Reading =>
          var busy := low.DeviceIsBusy();
          if !busy { ReadStep(); }
        case Completed =>
        case Failed =>
      }
    }

    method EraseStep()
      requires Ok() && currentFlashOp == Erasing
      modifies this, low`chip
      ensures Acted(Statics(), low.chip) == ActErase(old(Statics()), old(low.chip))
    {
      hide CanWrite, SendErase, DataRead, EraseDecision, Advanced;
      var byteFromFlash := low.ReadByte(startingOffset + currentAddr);
      DecisionCases(old(Statics()), byteFromFlash, |low.chip.mem|);
      if CanWrite(byteFromFlash, biosBuffer[currentAddr]) {
        NextByte();
      } else {
        EraseOrWiden(byteFromFlash);
      }
    }

    /** The byte needs an erase. */
    method EraseOrWiden(ghost byte: Byte)
      requires Ok() && currentFlashOp == Erasing && !CanWrite(byte, biosBuffer[currentAddr])
      modifies this, low`chip
      ensures var d, c := old(Statics()), old(low.chip);
        var e := EraseDecision(d, byte, |c.mem|);
        Statics() == e.d && low.chip == if e.send then SendErase(c, e.d.eraseMethod, e.d.start + e.d.cur) else c
    {
      hide CanWrite, SendErase, EraseDecision, Advanced, ReadBack, AlignDown;
      DecisionCases(Statics(), byte, |low.chip.mem|);
      if !firstEraseTry && eraseBusyCount < ERASE_BUSY_COUNT_MIN {
        var stop := TryWiderErase();
        if stop { return; }
      }
      IssueErase();
    }

    method IssueErase()
      requires |low.chip.mem| >= IMAGE_SIZE && startingOffset + currentAddr < |low.chip.mem| && low.chip.decoder == Ready
      modifies this`firstEraseTry, low`chip
      ensures !firstEraseTry && low.chip == SendErase(old(low.chip), eraseSequenceMethod, startingOffset + currentAddr)
    {
      low.InitiateErase(eraseSequenceMethod, startingOffset + currentAddr);
      firstEraseTry := false;
    }

    /** The byte needs no erase. */
    method NextByte()
      modifies this
      ensures Statics() == Advanced(old(Statics()))
    {
      currentAddr := currentAddr + 1;
      firstEraseTry := true;
      eraseBusyCount := 0;
      if currentAddr >= biosBufferSize {
        currentFlashOp := Writing;
        currentAddr := 0;
      }
    }

    /** The erase was ignored: widen it, unless that ends the attempt. */
    method TryWiderErase() returns (stop: bool)
      modifies this
      ensures stop == old(eraseSequenceMethod == ChipWide || currentFlashTask == WriteSettings)
      ensures Statics() ==
        if !stop then NextTry(old(Statics()))
        else if old(eraseSequenceMethod) == ChipWide
        then old(Statics()).(firstTry := true, busyCount := 0, op := Failed, error := FailedErase)
        else ReadBack(NextTry(old(Statics())))
    {
      hide AlignDown;
      firstEraseTry := true;
      eraseBusyCount := 0;
      if eraseSequenceMethod == ChipWide {
        currentFlashOp := Failed;
        flashErrorCode := FailedErase;
        return true;
      }
      eraseSequenceMethod := if eraseSequenceMethod == Sector && support4KB then Block else ChipWide;
      if currentFlashTask == WriteSettings {
        EvaluateReadBackRange();
        return true;
      }
      return false;
    }

    method EvaluateReadBackRange()
      modifies this`startingOffset, this`biosBufferSize, this`currentAddr, this`currentFlashOp
      ensures Statics() == ReadBack(old(Statics()))
    {
      var size := EraseSize(eraseSequenceMethod, support4KB);
      startingOffset := AlignDown(startingOffset, size);
      biosBufferSize := size;
      currentAddr := 0;
      currentFlashOp := Reading;
    }

    method WriteStep()
      requires Ok() && currentFlashOp == Writing
      modifies this, low`chip
      ensures Acted(Statics(), low.chip) == ActWrite(old(Statics()), old(low.chip))
    {
      if currentAddr >= biosBufferSize {
        currentFlashOp := Verifying;
        currentAddr := 0;
      } else {
        var byteFromFlash := low.ReadByte(startingOffset + currentAddr);
        if byteFromFlash != biosBuffer[currentAddr] {
          low.WriteByte(biosBuffer[currentAddr], startingOffset + currentAddr);
        }
        currentAddr := currentAddr + 1;
      }
    }

    method VerifyStep()
      requires Ok() && currentFlashOp == Verifying
      modifies this, low`chip
      ensures Acted(Statics(), low.chip) == ActVerify(old(Statics()), old(low.chip))
    {
      hide DataRead;
      if currentAddr >= biosBufferSize {
        currentFlashOp := Completed;
      } else {
        var byteFromFlash := low.ReadByte(startingOffset + currentAddr);
        if byteFromFlash == biosBuffer[currentAddr] {
          currentAddr := currentAddr + 1;
        } else {
          currentFlashOp := Failed;
          flashErrorCode := FailedVerify;
        }
      }
    }

    method ReadStep()
      requires Ok() && currentFlashOp == Reading
      modifies this, biosBuffer, low`chip
      ensures Acted(Statics(), low.chip) == ActRead(old(Statics()), old(low.chip), crc32)
    {
      hide SettingsOffset, Sealed;
      biosBuffer[currentAddr] := low.ReadByte(startingOffset + currentAddr);
      currentAddr := currentAddr + 1;
      if currentAddr >= biosBufferSize {
        currentAddr := 0;
        if currentFlashTask == ReadBios || currentFlashTask == ReadSettings {
          currentFlashOp := Completed;
        } else if currentFlashTask == WriteSettings {
          var id := BiosIdentifierFromFlash();
          InjectSettings(SettingsOffset(id));
          currentFlashOp := Erasing;
        }
      }
    }

    /** getBiosIdentifierFromFlash */
    method BiosIdentifierFromFlash() returns (id: seq<Byte>)
      requires |low.chip.mem| >= IMAGE_SIZE
      modifies low`chip
      ensures SpanResult(id, low.chip) == ReadSpan(old(low.chip), IMAGE_SIZE - IDENTIFIER_SIZE, IDENTIFIER_SIZE)
    {
      hide DataRead;
      id := [];
      for i := 0 to IDENTIFIER_SIZE
        invariant low.chip.mem == old(low.chip.mem)
        invariant SpanResult(id, low.chip) == ReadSpan(old(low.chip), IMAGE_SIZE - IDENTIFIER_SIZE, i)
      {
        var b := low.ReadByte(IMAGE_SIZE - IDENTIFIER_SIZE + i);
        id := id + [b];
      }
    }

    /** injectSettingsInBuf */
    method InjectSettings(offset: nat)
      requires offset != 0 ==>
        0 < biosBufferSize && biosBufferSize + |settings| <= biosBuffer.Length && |settings| >= CRC_SIZE
      modifies this`settings, biosBuffer
      ensures Statics() == Inject(old(Statics()), crc32, offset)
      ensures offset != 0 ==>
        var at, n := offset % biosBufferSize, |old(settings)|;
        && Carries(settings, old(settings), crc32)
        && forall i :: 0 <= i < biosBuffer.Length ==>
             biosBuffer[i] == if at <= i < at + n then settings[i - at] else old(biosBuffer[i])
    {
      if offset != 0 {
        SealedExactly(Sealed(settings, crc32), settings, crc32);
        settings := Sealed(settings, crc32);
        var at := offset % biosBufferSize;
        forall k | 0 <= k < |settings| { biosBuffer[at + k] := settings[k]; }
        assert biosBuffer[..] == Overwrite(old(biosBuffer[..]), at, settings);
      }
    }

    // ---- requests --------------------------------------------------------

    /** Flash_freeFlashFSM */
    method FreeFsm()
      requires Ok()
      modifies this
      ensures Ok() && View() == old(View()).(d := Freed(old(Statics())))
      ensures Statics() == old(Statics()).(op := Idle, task := NoTask, error := NoError, size := 0, cur := 0)
    {
      biosBufferSize := 0;
      currentFlashOp := Idle;
      flashErrorCode := NoError;
      currentAddr := 0;
      currentFlashTask := NoTask;
    }

    /** The settings offset that the identifier in the flash gives. */
    method LocateSettings()
      requires |low.chip.mem| >= IMAGE_SIZE
      modifies this`startingOffset, low`chip
      ensures startingOffset == OffsetFromFlash(old(low.chip))
      ensures low.chip == ReadSpan(old(low.chip), IMAGE_SIZE - IDENTIFIER_SIZE, IDENTIFIER_SIZE).chip
    {
      hide SettingsOffset, ReadSpan;
      var id := BiosIdentifierFromFlash();
      startingOffset := SettingsOffset(id);
    }

    /** The job that an accepted save request sets up. */
    method SetSaveJob()
      modifies this
      ensures Statics() == old(Statics()).(eraseMethod := Sector, busyCount := 0, firstTry := true,
                                           size := EraseSize(Sector, support4KB), op := Pending, task := WriteSettings)
    {
      eraseSequenceMethod := Sector;
      eraseBusyCount := 0;
      firstEraseTry := true;
      biosBufferSize := EraseSize(eraseSequenceMethod, support4KB);
      currentFlashOp := Pending;
      currentFlashTask := WriteSettings;
    }

    /** Flash_SaveXBlastOSSettings, for a device that was `found` or not, on an
        Xecuter3 modchip, which hides a protected device, or not. */
    method SaveSettings(found: bool, xecuter3: bool)
      requires Ok()
      modifies this, low
      ensures old(currentFlashOp) != Idle ==> View() == old(View())
      ensures old(currentFlashOp) == Idle && found ==> View() == SaveRequested(old(View()))
      ensures old(currentFlashOp) == Idle && !found ==>
        View() == Rejected(old(View()), if xecuter3 then WriteProtect else UnknownFlash)
    {
      assert |low.chip.mem| >= IMAGE_SIZE;
      hide OffsetFromFlash, ReadSpan, Fits, EraseSize;
      if currentFlashOp == Idle {
        var known := low.ReadDevice(found);
        if known {
          LocateSettings();
          if startingOffset != 0 {
            SetSaveJob();
          } else {
            currentFlashOp := Failed;
            flashErrorCode := FlashContentError;
          }
        } else {
          currentFlashOp := Failed;
          flashErrorCode := UnknownFlash;
          if xecuter3 { flashErrorCode := WriteProtect; }
        }
      }
    }

    /** Flash_ReadXBlastOSSettingsRequest */
    method ReadSettingsRequest(found: bool, xecuter3: bool)
      requires Ok()
      modifies this, biosBuffer, low
      ensures old(currentFlashOp) != Idle ==> View() == old(View())
      ensures old(currentFlashOp) == Idle && (found || xecuter3) ==> View() == ReadRequested(old(View()))
      ensures old(currentFlashOp) == Idle && !found && !xecuter3 ==>
        View() == Rejected(old(View()), old(flashErrorCode))
    {
      hide OffsetFromFlash, ReadSpan;
      if currentFlashOp == Idle {
        var known := low.ReadDevice(found);
        if known || xecuter3 {
          SetReadJob();
        } else {
          currentFlashOp := Failed;
        }
      }
    }

    /** The job that an accepted read request sets up; without a place there is nothing to read. */
    method SetReadJob()
      requires |low.chip.mem| >= IMAGE_SIZE && biosBuffer.Length >= 1
      modifies this`currentFlashOp, this`currentFlashTask, this`biosBufferSize, this`startingOffset, biosBuffer, low`chip
      ensures low.chip == ReadSpan(old(low.chip), IMAGE_SIZE - IDENTIFIER_SIZE, IDENTIFIER_SIZE).chip
      ensures currentFlashTask == ReadSettings && biosBufferSize == |settings|
      ensures startingOffset == OffsetFromFlash(old(low.chip))
      ensures currentFlashOp == if startingOffset == 0 then Completed else Pending
      ensures biosBuffer[..] == if startingOffset == 0 then old(biosBuffer[..])[0 := ERASED] else old(biosBuffer[..])
    {
      hide OffsetFromFlash, ReadSpan;
      currentFlashOp := Pending;
      currentFlashTask := ReadSettings;
      biosBufferSize := |settings|;
      LocateSettings();
      if startingOffset == 0 {
        currentFlashOp := Completed;
        biosBuffer[0] := 0xFF;
      }
    }

    /** Flash_LoadXBlastOSSettings; without accepted settings the caller falls back to defaults. */
    method LoadSettings() returns (r: Option<seq<Byte>>)
      requires Ok() && |settings| > CRC_SIZE
      ensures r == Loaded(Statics(), crc32)
      ensures var n := |settings|;
        && (r.Some? <==> && currentFlashOp == Completed && currentFlashTask == ReadSettings && biosBuffer[0] == 1
                         && biosBuffer[n - 4..n] == crc32(biosBuffer[..n - 4]).Bytes())
        && (r.Some? ==> r.value == biosBuffer[..n])
    {
      LoadedExactly(Statics(), crc32);
      r := None;
      if currentFlashOp == Completed && currentFlashTask == ReadSettings {
        var image := biosBuffer[..|settings|];
        if image[0] == SETTINGS_VERSION {
          var calculated := crc32(image[..|image| - CRC_SIZE]);
          if calculated.Bytes() == image[|image| - CRC_SIZE..] {
            r := Some(image);
          }
        }
      }
    }

    /** The loop around a started job: one call after the other until it rests. */
    method RunToEnd()
      requires Progresses(View())
      modifies this, biosBuffer, low
      ensures exists n :: View() == Run(old(View()), n) && !Active(Run(old(View()), n).d.op)
    {
      hide Step, Steady, Hopeful;
      ghost var start, n := View(), 0;
      while currentFlashOp != Idle && currentFlashOp != Completed && currentFlashOp != Failed
        invariant Ok() && View() == Run(start, n)
        decreases
          Active(View().d.op), MethodRank(View().d.eraseMethod), PhaseRank(View().d.op), View().d.size - View().d.cur,
          TryRank(View().d), View().port.chip.busy, Settling(View().port)
      {
        StepDecreases(Run(start, n));
        ExecuteFsm();
        n := n + 1;
      }
    }

    /** bootReadXBlastOSSettings: the accepted settings from the flash, or the
        defaults. On a machine with another job the request is refused, and the
        loop waits for that job instead. */
    method BootReadSettings(found: bool, xecuter3: bool, defaults: seq<Byte>) returns (ok: bool)
      requires Ok() && |defaults| == |settings| > CRC_SIZE
      requires currentFlashOp == Idle ==> currentAddr == 0 && low.chip.busy == 0
      requires currentFlashOp != Idle ==> Progresses(WithSettings(View(), defaults))
      modifies this, biosBuffer, low
      ensures Ok() && currentFlashOp == Idle && currentAddr == 0
      ensures old(currentFlashOp) == Idle ==>
        && low.chip.mem == old(low.chip.mem) && low.chip.busy == 0
        && var held := SettingsInFlash(low.chip.mem, |defaults|, crc32);
           ok == ((found || xecuter3) && held.Some?) && settings == if ok then held.value else defaults
      ensures old(currentFlashOp) != Idle ==>
        exists n :: Outcome(Run(WithSettings(old(View()), defaults), n), defaults, ok, settings)
    {
      hide SettingsInFlash, Progresses, Run;
      settings := defaults;
      var loaded := FetchSettings(found, xecuter3);
      ok := loaded.Some?;
      settings := if ok then loaded.value else defaults;
      FreeFsm();
    }

    /** The request, the loop that waits for the job, and the load. */
    method FetchSettings(found: bool, xecuter3: bool) returns (r: Option<seq<Byte>>)
      requires Ok() && |settings| > CRC_SIZE
      requires currentFlashOp == Idle ==> currentAddr == 0 && low.chip.busy == 0
      requires currentFlashOp != Idle ==> Progresses(View())
      modifies this, biosBuffer, low
      ensures Ok() && |settings| == old(|settings|)
      ensures r.Some? ==> |r.value| == |settings|
      ensures old(currentFlashOp) == Idle ==>
        && low.chip.mem == old(low.chip.mem) && low.chip.busy == 0
        && r == if found || xecuter3 then SettingsInFlash(low.chip.mem, |settings|, crc32) else None
      ensures old(currentFlashOp) != Idle ==> exists n :: Loads(Run(old(View()), n), r)
    {
      hide Step, ReadRequested, SettingsInFlash, Steady, Hopeful, Accepted;
      ghost var w := View();
      if currentFlashOp == Idle {
        if found || xecuter3 { RequestLoads(w); } else { AlreadyEnded(Rejected(w, flashErrorCode)); }
      }
      ReadSettingsRequest(found, xecuter3);
      ghost var v := View();
      RunToEnd();
      ghost var n :| View() == Run(v, n) && !Active(Run(v, n).d.op);
      SettingsStay(v, n);
      if w.d.op == Idle && !found && !xecuter3 { RestingEnds(v, View()); }
      r := LoadSettings();
      assert w.d.op != Idle ==> Loads(Run(w, n), r);
    }

    /** mirrorimage: fill the buffer up with copies of the image. */
    method MirrorImage(target: nat)
      requires 0 < biosBufferSize && MirroredSize(biosBufferSize, target) <= biosBuffer.Length
      modifies this`biosBufferSize, biosBuffer
      ensures biosBufferSize == MirroredSize(old(biosBufferSize), target)
      ensures biosBuffer[..biosBufferSize] == Mirrored(old(biosBuffer[..biosBufferSize]), target)
    {
      ghost var image := biosBuffer[..biosBufferSize];
      while biosBufferSize < target
        invariant 0 < biosBufferSize <= biosBuffer.Length
        invariant MirroredSize(biosBufferSize, target) == MirroredSize(|image|, target)
        invariant Mirrored(biosBuffer[..biosBufferSize], target) == Mirrored(image, target)
        decreases target - biosBufferSize
      {
        var size := biosBufferSize;
        ghost var done := biosBuffer[..size];
        forall i | 0 <= i < size { biosBuffer[size + i] := biosBuffer[i]; }
        biosBufferSize := size + size;
        assert biosBuffer[..biosBufferSize] == done + done;
      }
    }

    /** The memcpy of an image to the start of the buffer. */
    method CopyImage(image: seq<Byte>, size: nat)
      requires size <= |image| && size <= biosBuffer.Length
      modifies this`biosBufferSize, biosBuffer
      ensures biosBufferSize == size && biosBuffer[..size] == image[..size]
    {
      biosBufferSize := size;
      forall i | 0 <= i < size { biosBuffer[i] := image[i]; }
    }

    /** The job that an accepted BIOS request sets up. */
    method SetBiosJob(image: seq<Byte>, size: nat, offset: nat, target: nat)
      requires Ok() && 0 < size <= |image| && MirroredSize(size, target) <= BUFFER_SIZE && currentAddr == 0
      modifies this, biosBuffer
      ensures biosBufferSize == MirroredSize(size, target) && startingOffset == offset
      ensures biosBuffer[..biosBufferSize] == Mirrored(image[..size], target)
      ensures low.firstBusyRead && low.chip.busy == 0 && offset + biosBufferSize <= |low.chip.mem| ==> BiosReady(View())
      ensures flashErrorCode == old(flashErrorCode) && settings == old(settings)
    {
      hide MirroredSize, Mirrored;
      SetBiosStatics(offset);
      CopyImage(image, size);
      MirrorImage(target);
    }

    method SetBiosStatics(offset: nat)
      modifies this
      ensures Statics() == old(Statics()).(eraseMethod := Sector, busyCount := 0, firstTry := true, op := Pending,
                                           task := WriteBios, start := offset)
    {
      eraseSequenceMethod := Sector;
      eraseBusyCount := 0;
      firstEraseTry := true;
      currentFlashOp := Pending;
      currentFlashTask := WriteBios;
      startingOffset := offset;
    }

    /** Flash_WriteBios */
    method StartWriteBios(image: seq<Byte>, size: nat, offset: nat, bank: FlashBank, found: bool) returns (r: ErrorCode)
      requires Ok() && size <= |image|
      requires CheckImageSize(size, |low.chip.mem|) == NoError ==>
        MirroredSize(size, TargetSize(bank, |low.chip.mem|)) <= BUFFER_SIZE
      requires currentFlashOp == Idle ==> currentAddr == 0
      modifies this, biosBuffer, low
      ensures low.chip == old(low.chip) && settings == old(settings)
      ensures old(currentFlashOp) != Idle || !found ==> r == UndefinedError && Statics() == old(Statics())
      ensures old(currentFlashOp) == Idle && found ==> r == CheckImageSize(size, |low.chip.mem|)
      ensures r == NoError ==>
        && biosBufferSize == MirroredSize(size, TargetSize(bank, |low.chip.mem|)) && startingOffset == offset
        && biosBuffer[..biosBufferSize] == Mirrored(image[..size], TargetSize(bank, |low.chip.mem|))
        && (offset + biosBufferSize <= |low.chip.mem| && low.chip.busy == 0 ==> BiosReady(View()))
      ensures r == NoError ==>
        && biosBufferSize >= (if bank == OSBank || bank == Bank256 then 0x40000
                              else if bank == Bank512 || bank == SplitTSOP0 || bank == SplitTSOP1 then 0x80000
                              else |low.chip.mem|)
        && (offset + biosBufferSize <= |low.chip.mem| && low.chip.busy == 0 ==> BankJob(View(), image[..size], offset, bank))
    {
      hide MirroredSize, Mirrored;
      if currentFlashOp == Idle {
        var known := low.ReadDevice(found);
        if known {
          flashErrorCode := CheckImageSize(size, |low.chip.mem|);
          if flashErrorCode == NoError {
            SetBiosJob(image, size, offset, TargetSize(bank, |low.chip.mem|));
          }
          return flashErrorCode;
        }
      }
      return UndefinedError;
    }

    /** Flash_XBlastOSBankFlash: an accepted image is written with the current
        settings in it, sealed, where the image says; `overrideChecks` leaves the
        earlier error code to decide. */
    method UpdateOs(image: seq<Byte>, offset: nat, overrideChecks: bool, found: bool,
                    md5: (seq<Byte>, nat) -> seq<Byte>)
      requires Ok() && (currentFlashOp == Idle ==> currentAddr == 0)
      requires CheckImageSize(|image|, |low.chip.mem|) == NoError ==> MirroredSize(|image|, IMAGE_SIZE) <= BUFFER_SIZE
      modifies this, biosBuffer, low
      ensures low.chip == old(low.chip)
      ensures var checked := if overrideChecks then old(flashErrorCode) else ValidateOsImage(image, md5);
        if checked != NoError then View() == WithError(old(View()), checked)
        else if old(currentFlashOp) != Idle || !found then Statics() == WithError(old(View()), UndefinedError).d
        else flashErrorCode == CheckImageSize(|image|, |low.chip.mem|)
      ensures var started := old(currentFlashOp) == Idle && found && flashErrorCode == NoError && low.chip.busy == 0;
        started && offset + MirroredSize(|image|, IMAGE_SIZE) <= |low.chip.mem| ==>
        && BiosReady(View())
        && if MirroredSize(|image|, IMAGE_SIZE) == IMAGE_SIZE
           then OsJob(View(), Mirrored(image, IMAGE_SIZE), old(settings), offset)
           else BankJob(View(), image, offset, OSBank) && settings == old(settings)
    {
      hide MirroredSize, Mirrored, SettingsOffset, Identifier, Sealed, ValidateOsImage, Inject, OsJob;
      if !overrideChecks { flashErrorCode := ValidateOsImage(image, md5); }
      if flashErrorCode == NoError { FlashOsImage(image, offset, found); }
    }

    /** The part behind the checks. */
    method FlashOsImage(image: seq<Byte>, offset: nat, found: bool)
      requires Ok() && (currentFlashOp == Idle ==> currentAddr == 0)
      requires CheckImageSize(|image|, |low.chip.mem|) == NoError ==> MirroredSize(|image|, IMAGE_SIZE) <= BUFFER_SIZE
      modifies this, biosBuffer, low
      ensures low.chip == old(low.chip)
      ensures if old(currentFlashOp) != Idle || !found then Statics() == WithError(old(View()), UndefinedError).d
              else flashErrorCode == CheckImageSize(|image|, |low.chip.mem|)
      ensures var started := old(currentFlashOp) == Idle && found && flashErrorCode == NoError && low.chip.busy == 0;
        started && offset + MirroredSize(|image|, IMAGE_SIZE) <= |low.chip.mem| ==>
        && BiosReady(View())
        && if MirroredSize(|image|, IMAGE_SIZE) == IMAGE_SIZE
           then OsJob(View(), Mirrored(image, IMAGE_SIZE), old(settings), offset)
           else BankJob(View(), image, offset, OSBank) && settings == old(settings)
    {
      hide MirroredSize, Mirrored, SettingsOffset, Identifier, Sealed, Inject, OsJob;
      flashErrorCode := StartWriteBios(image, |image|, offset, OSBank, found);
      if flashErrorCode == NoError {
        WholeImage(image);
        ghost var w := View();
        PatchImage();
        if biosBufferSize == IMAGE_SIZE && offset + IMAGE_SIZE <= |low.chip.mem| && low.chip.busy == 0 {
          InjectedIsOsJob(w, Mirrored(image, IMAGE_SIZE));
        }
      }
    }

    /** The current settings go into the image in the buffer, if that says where. */
    method PatchImage()
      requires biosBufferSize <= biosBuffer.Length == BUFFER_SIZE && CRC_SIZE <= |settings| <= SECTOR_SIZE
      modifies this`settings, biosBuffer
      ensures var at := if biosBufferSize == IMAGE_SIZE then SettingsOffset(Identifier(old(biosBuffer[..biosBufferSize]))) else 0;
        Statics() == Inject(old(Statics()), crc32, at) && (at == 0 ==> Statics() == old(Statics()))
    {
      hide SettingsOffset, Identifier, Sealed, IdentifierInBuffer;
      var at := SettingsOffset(IdentifierInBuffer(biosBuffer[..biosBufferSize]));
      BufferOffset(biosBuffer[..biosBufferSize]);
      InjectSettings(at);
    }
  }
}
