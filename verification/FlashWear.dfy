/**
 Which commands a job sends to the chip, and what a failure means.
 */
module FlashWear {
  import opened FlashChip
  import opened FlashLowLevel
  import opened FlashDriver
  import opened FlashRuns
  import opened FlashSettings
  import opened FlashTermination

  /** canWrite holds if and only if programming, which only clears bits, can
      make the byte what it should be. */
  lemma CanWriteExactly(flashByte: Byte, bufferByte: Byte)
    ensures CanWrite(flashByte, bufferByte) <==> flashByte & bufferByte == bufferByte
  {
  }

  /** One call sends at most one command, and only one that is needed: an erase
      for a byte that cannot be programmed in place, or a program command for a
      byte that differs. No other call changes a cell. */
  lemma CommandsAreNeeded(w: World)
    requires Sane(w)
    ensures var d, c, c' := w.d, w.port.chip, Step(w).port.chip;
      && (c'.commands == c.commands ==> c'.mem == c.mem)
      && (c'.commands != c.commands ==>
            && c'.commands == c.commands + 1 && c.busy == 0
            && d.start + d.cur < |c.mem| && d.cur < d.size <= |d.buffer|
            && var was, data := c.mem[d.start + d.cur], d.buffer[d.cur];
               || (d.op == Erasing && was & data != data)
               || (d.op == Writing && was != data))
  {
    hide AlignDown, EraseSize, NextMethod, SettingsOffset, Sealed, Inject, CanWrite, Poll, ActErase, ActWrite, ActVerify, ActRead;
    StepForms(w);
    var d, c := w.d, w.port.chip;
    if Polls(d.op) && !SeenBusy(w) {
      if d.op == Erasing {
        EraseCases(d, c);
        CanWriteExactly(c.mem[d.start + d.cur], d.buffer[d.cur]);
      } else if d.op == Writing {
        WriteForms(d, c);
      } else if d.op == Verifying {
        VerifyForms(d, c);
      } else {
        ReadSendsNothing(d, c, w.crc32);
      }
    }
  }

  lemma ReadSendsNothing(d: Driver, c: Chip, crc32: seq<Byte> -> Word)
    requires InStep(d, c) && d.op == Reading && c.busy == 0
    ensures ActRead(d, c, crc32).chip == c
  {
    hide SettingsOffset, Sealed, Inject;
  }

  /** A job fails only in two ways: a byte still needs an erase after a chip-wide
      one was ignored, or a byte is not what was written. */
  lemma FailsForCause(w: World)
    requires Sane(w) && Active(w.d.op) && Step(w).d.op == Failed
    ensures var d, c := w.d, w.port.chip;
      && d.start + d.cur < |c.mem| && d.cur < d.size <= |d.buffer|
      && var was, data := c.mem[d.start + d.cur], d.buffer[d.cur];
         || (&& d.op == Erasing && d.eraseMethod == ChipWide && !d.firstTry && d.busyCount < 3 && was & data != data
             && Step(w).d.error == FailedErase)
         || (d.op == Verifying && was != data && Step(w).d.error == FailedVerify)
  {
    hide Poll, ActErase, ActWrite, ActVerify, ActRead, Step;
    StepForms(w);
    ActFails(w.d, w.port.chip, w.crc32);
  }

  lemma ActFails(d: Driver, c: Chip, crc32: seq<Byte> -> Word)
    requires InStep(d, c)
    ensures Polls(d.op) && c.busy == 0 && Act(d, c, crc32).d.op == Failed ==>
      && d.start + d.cur < |c.mem| && d.cur < d.size <= |d.buffer|
      && var e, was, data := Act(d, c, crc32).d, c.mem[d.start + d.cur], d.buffer[d.cur];
         || (&& d.op == Erasing && d.eraseMethod == ChipWide && !d.firstTry && d.busyCount < 3 && was & data != data
             && e.error == FailedErase)
         || (d.op == Verifying && was != data && e.error == FailedVerify)
  {
    hide ActErase, ActWrite, ActVerify, ActRead;
    if Polls(d.op) && c.busy == 0 && Act(d, c, crc32).d.op == Failed {
      if d.op == Erasing {
        EraseFails(d, c);
      } else if d.op == Writing {
        WriteForms(d, c);
      } else if d.op == Verifying {
        VerifyForms(d, c);
      } else {
        ReadNeverFails(d, c, crc32);
      }
    }
  }

  lemma EraseFails(d: Driver, c: Chip)
    requires InStep(d, c) && d.op == Erasing && c.busy == 0 && ActErase(d, c).d.op == Failed
    ensures d.eraseMethod == ChipWide && !d.firstTry && d.busyCount < 3 && ActErase(d, c).d.error == FailedErase
    ensures c.mem[d.start + d.cur] & d.buffer[d.cur] != d.buffer[d.cur]
  {
    hide CanWrite, ActErase, Erase, AlignDown;
    EraseCases(d, c);
    CanWriteExactly(c.mem[d.start + d.cur], d.buffer[d.cur]);
  }

  lemma ReadNeverFails(d: Driver, c: Chip, crc32: seq<Byte> -> Word)
    requires InStep(d, c) && d.op == Reading
    ensures ActRead(d, c, crc32).d.op != Failed
  {
    hide SettingsOffset, Sealed;
  }

  /** The flash holds what the job is to write. */
  predicate InPlace(d: Driver, c: Chip)
    requires Fits(d, |c.mem|)
  {
    && d.task == WriteBios && BiosOp(d.op) && d.op != Failed
    && (Active(d.op) ==> forall k :: 0 <= k < d.size ==> c.mem[d.start + k] == d.buffer[k])
  }

  /** An image that is there already is not written again: whatever the chip
      would have done, not a single command reaches it, and the job completes. */
  lemma SameImageIsLeft(w: World, n: nat)
    requires BiosReady(w) && w.port.chip.mem[w.d.start..w.d.start + w.d.size] == w.d.buffer[..w.d.size]
    ensures Run(w, n).port.chip == w.port.chip && Run(w, n).d.op != Failed && Completes(w)
  {
    hide Step, PhaseInv;
    var mem, d := w.port.chip.mem, w.d;
    forall k | 0 <= k < d.size ensures mem[d.start + k] == d.buffer[k] && CanWrite(mem[d.start + k], d.buffer[k]) {
      assert mem[d.start + k] == mem[d.start..d.start + d.size][k] == d.buffer[..d.size][k];
      CanWriteExactly(mem[d.start + k], d.buffer[k]);
    }
    SameImageRun(w, n);
    forall k ensures Steady(Run(w, k)) && Hopeful(Run(w, k)) { CalmRun(w, k); }
    StepsToEnd(w, 0);
    var m :| !Active(Run(w, m).d.op);
    SameImageRun(w, m);
  }

  lemma {:induction false} SameImageRun(w: World, n: nat)
    requires BiosReady(w) && InPlace(w.d, w.port.chip)
    ensures Sane(Run(w, n)) && Run(w, n).port.chip == w.port.chip && InPlace(Run(w, n).d, Run(w, n).port.chip)
  {
    hide Step, PhaseInv, InPlace;
    if n > 0 {
      SameImageRun(w, n - 1);
      SameImageStep(Run(w, n - 1));
      StepForms(Run(w, n - 1));
    }
  }

  lemma SameImageStep(w: World)
    requires Sane(w) && w.port.chip.busy == 0 && InPlace(w.d, w.port.chip)
    ensures Step(w).port.chip == w.port.chip && InPlace(Step(w).d, Step(w).port.chip)
  {
    hide Step, CanWrite, Poll, ActErase, ActWrite, ActVerify, ActRead, InPlace;
    StepForms(w);
    InPlaceNow(w.d, w.port.chip);
    StepKeepsBios(w);
    PollIdle(w.port);
    var d, c := w.d, w.port.chip;
    if Polls(d.op) && !SeenBusy(w) {
      if d.op == Erasing {
        EraseCases(d, c);
      } else if d.op == Writing {
        WriteForms(d, c);
      } else {
        VerifyForms(d, c);
      }
    }
    assert Step(w).d.op != Failed && Step(w).port.chip == c;
    InPlaceStays(d, Step(w).d, c);
  }

  lemma InPlaceNow(d: Driver, c: Chip)
    requires InStep(d, c) && InPlace(d, c)
    ensures d.task == WriteBios && BiosOp(d.op) && d.op != Failed
    ensures Active(d.op) && d.cur < d.size ==>
      c.mem[d.start + d.cur] == d.buffer[d.cur] && CanWrite(c.mem[d.start + d.cur], d.buffer[d.cur])
  {
    if Active(d.op) && d.cur < d.size { CanWriteExactly(c.mem[d.start + d.cur], d.buffer[d.cur]); }
  }

  lemma InPlaceStays(d: Driver, d': Driver, c: Chip)
    requires Fits(d, |c.mem|) && Fits(d', |c.mem|) && InPlace(d, c)
    requires SameJob(d, d') && BiosOp(d'.op) && d'.op != Failed && (Active(d'.op) ==> Active(d.op))
    ensures InPlace(d', c)
  {
  }
}
