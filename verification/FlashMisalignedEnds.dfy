/**
 Exactly when a save at an offset off every boundary ends, and when it completes.
 */
module FlashMisalignedEnds {
  import opened FlashChip
  import opened FlashLowLevel
  import opened FlashDriver
  import opened FlashRuns
  import opened FlashSettings
  import opened FlashTermination
  import opened FlashRequests
  import opened FlashMisaligned
  import opened FlashMisalignedExactly

  /** From method `m` on the save comes to wait for an erase that never takes.
      Each re-read may find a window that needs no erase. */
  predicate GetsStuck(w: World, f: EraseMethod -> Response, m: EraseMethod)
    requires MisalignedStart(w)
    decreases MethodRank(m)
  {
    && NeedsAt(w, m)
    && (f(m) == Stuck || (f(m) == Ignored && m != ChipWide && GetsStuck(w, f, NextMethod(m, w.d.small))))
  }

  /** From method `m` on the save comes to a window that needs no erase, or to one
      that is cleared. */
  predicate Finishes(w: World, f: EraseMethod -> Response, m: EraseMethod)
    requires MisalignedStart(w)
    decreases MethodRank(m)
  {
    || !NeedsAt(w, m) || f(m) == Clears
    || (f(m) == Ignored && m != ChipWide && Finishes(w, f, NextMethod(m, w.d.small)))
  }

  function ClearsOf(f: EraseMethod -> Response): EraseMethod -> bool {
    m => f(m) == Clears
  }

  lemma StartIsSteady(w: World, f: EraseMethod -> Response)
    requires MisalignedStart(w) && Behaves(w.port.chip.oracle, f, WriteSettings)
    ensures Steady(w) && ClearsBy(w.port.chip.oracle, ClearsOf(f))
  {
    hide SettingsOffset, Identifier;
  }

  /** What is found unwritable shows that the method is needed. */
  lemma FoundNeeded(w0: World, g: EraseMethod -> bool, v: World)
    requires MisalignedStart(w0) && Tracks(w0, g, v) && v.d.op == Erasing && !CurrentWritable(v.d, v.port.chip)
    ensures NeedsAt(w0, v.d.eraseMethod)
  {
    hide SettingsOffset, Identifier, Target, Lost, CanWrite, Unwritable, Strikes;
    CurrentIs(w0, g, v.d, v.port.chip);
  }

  /** The method changes only from one that is needed and does not clear, and
      that did not keep the chip busy. */
  lemma MethodStep(w0: World, f: EraseMethod -> Response, v: World)
    requires MisalignedStart(w0) && Tracks(w0, ClearsOf(f), v) && Behaves(v.port.chip.oracle, f, WriteSettings)
    ensures var d, e := v.d, Step(v).d;
      && e.small == d.small && e.task == d.task == WriteSettings
      && (e.eraseMethod == d.eraseMethod
          || (d.op == Erasing && d.eraseMethod != ChipWide && e.eraseMethod == NextMethod(d.eraseMethod, d.small)
              && NeedsAt(w0, d.eraseMethod) && f(d.eraseMethod) != Clears && Escalates(d) && v.port.chip.busy == 0
              && e.op == Reading))
      && (e.op == Failed ==>
            d.op == Failed || (d.op == Verifying && e.error == FailedVerify)
            || (d.op == Erasing && d.eraseMethod == ChipWide && NeedsAt(w0, ChipWide) && f(ChipWide) != Clears))
  {
    hide SettingsOffset, Identifier, Images, Target, NeedsAt, ClearedTo, ClearedOutside, CanWrite, Erase, AlignDown, ActErase,
      ActRead, ActWrite, ActVerify, PhaseInv, Step, FinalMethod, Misplacing, Sealed;
    MisplacingMeans(w0, v);
    StepForms(v);
    var d, c := v.d, v.port.chip;
    if Polls(d.op) && !SeenBusy(v) {
      if d.op == Erasing {
        EraseCases(d, c);
        if !CurrentWritable(d, c) && Escalates(d) { Escalated(w0, ClearsOf(f), d, c); }
      } else if d.op == Reading {
        ReadLeads(v);
        EndOfRead(v);
      } else {
        LaterForms(d, c, v.crc32);
        VerifyError(d, c, v.crc32);
      }
    }
  }

  lemma EndOfRead(v: World)
    requires Sane(v) && v.d.op == Reading && !SeenBusy(v) && v.d.task == WriteSettings
    ensures Step(v).d.task == v.d.task
  {
    hide SettingsOffset, Sealed, Overwrite, Identifier, ActRead, Step;
    StepForms(v);
    ReadForms(v.d, v.port.chip, v.crc32);
  }

  lemma VerifyError(d: Driver, c: Chip, crc32: seq<Byte> -> Word)
    requires InStep(d, c) && (d.op == Writing || d.op == Verifying)
    ensures Act(d, c, crc32).d.op == Failed ==> Act(d, c, crc32).d.error == FailedVerify
  {
  }

  // ---- it ends -----------------------------------------------------------

  lemma NotStuckLater(w: World, f: EraseMethod -> Response, m: EraseMethod)
    requires MisalignedStart(w) && !GetsStuck(w, f, m) && m != ChipWide && NeedsAt(w, m) && f(m) == Ignored
    ensures !GetsStuck(w, f, NextMethod(m, w.d.small))
  {
    hide NeedsAt, SettingsOffset, Identifier;
  }

  lemma {:induction false} HopefulRun(w: World, f: EraseMethod -> Response, n: nat)
    requires MisalignedStart(w) && Behaves(w.port.chip.oracle, f, WriteSettings) && !GetsStuck(w, f, Sector)
    ensures Hopeful(Run(w, n)) && !GetsStuck(w, f, Run(w, n).d.eraseMethod)
    ensures Tracks(w, ClearsOf(f), Run(w, n)) && Run(w, n).port.chip.oracle == w.port.chip.oracle
  {
    hide SettingsOffset, Sealed, Identifier, AlignDown, Step, NeedsAt, Tracks, CanWrite, GetsStuck;
    StartIsSteady(w, f);
    TracksRun(w, ClearsOf(f), n);
    if n > 0 {
      HopefulRun(w, f, n - 1);
      var v := Run(w, n - 1);
      MethodStep(w, f, v);
      if v.d.eraseMethod != Run(w, n).d.eraseMethod {
        StuckMeans(w, f, v.d.eraseMethod);
        NotStuckLater(w, f, v.d.eraseMethod);
      }
    }
    var v := Run(w, n);
    TracksSmall(w, ClearsOf(f), v);
    if v.d.op == Erasing && !CurrentWritable(v.d, v.port.chip) {
      FoundNeeded(w, ClearsOf(f), v);
      StuckMeans(w, f, v.d.eraseMethod);
    }
  }

  lemma StuckMeans(w: World, f: EraseMethod -> Response, m: EraseMethod)
    requires MisalignedStart(w) && !GetsStuck(w, f, m) && NeedsAt(w, m)
    ensures f(m) != Stuck
  {
  }

  lemma TracksSmall(w0: World, g: EraseMethod -> bool, v: World)
    requires MisalignedStart(w0) && Tracks(w0, g, v)
    ensures v.d.small == w0.d.small && v.d.task == WriteSettings && Sane(v) && v.d.op != Idle
  {
  }

  // ---- it does not end ---------------------------------------------------

  lemma StuckAnswers(w: World, f: EraseMethod -> Response, m: EraseMethod)
    requires MisalignedStart(w) && GetsStuck(w, f, m)
    ensures Answer(f, w.d.small, m) == Stuck
    decreases MethodRank(m)
  {
    hide NeedsAt, SettingsOffset, Identifier;
    if f(m) != Stuck { StuckAnswers(w, f, NextMethod(m, w.d.small)); }
  }

  /** A window that holds its target is unfinished if it needs an erase. */
  lemma TargetUnfinished(w: World, d: Driver, mem: seq<Byte>)
    requires MisalignedStart(w) && Fits(d, |mem|) && d.op == Erasing && d.cur == 0
    requires Places(w, d, mem) && mem == w.port.chip.mem && NeedsAt(w, d.eraseMethod)
    ensures Unfinished(d, mem)
  {
    hide SettingsOffset, Identifier, Target, CanWrite;
    var k :| 0 <= k < EraseSize(d.eraseMethod, w.d.small) && Unwritable(w, d.eraseMethod, k);
    assert d.buffer[k] == Target(w, d.eraseMethod)[0 + k];
  }

  ghost predicate Waits(w: World, f: EraseMethod -> Response, v: World)
    requires MisalignedStart(w)
  {
    && Tracks(w, ClearsOf(f), v) && Sane(v) && v.port.chip.oracle == w.port.chip.oracle
    && Waiting(f, Stuck, v, w.port.chip.mem) && GetsStuck(w, f, v.d.eraseMethod)
    && (v.d.op == Pending ==> v == w)
  }

  lemma WaitsStep(w: World, f: EraseMethod -> Response, v: World)
    requires MisalignedStart(w) && Behaves(w.port.chip.oracle, f, WriteSettings) && Waits(w, f, v)
    requires Tracks(w, ClearsOf(f), Step(v))
    ensures Waits(w, f, Step(v))
  {
    hide SettingsOffset, Sealed, Identifier, AlignDown, Step, NeedsAt, Tracks, CanWrite, Target, Unfinished, Stalled;
    TracksSmall(w, ClearsOf(f), v);
    TracksSmall(w, ClearsOf(f), Step(v));
    StepForms(v);
    MethodStep(w, f, v);
    StuckAnswers(w, f, Step(v).d.eraseMethod);
    if v.d.op == Erasing {
      WaitErase(f, Stuck, v, w.port.chip.mem);
      NotPendingAgain(v);
    } else if v.d.op == Reading {
      StalledMeans(v, w.port.chip.mem);
      ReadLeads(v);
      ReadStalls(w, f, v);
    } else {
      StalledOps(v, w.port.chip.mem);
      PendingStalls(w, v);
    }
  }

  lemma NotPendingAgain(v: World)
    requires Sane(v) && v.d.op == Erasing
    ensures Step(v).d.op != Pending
  {
    EraseLeads(v);
  }

  lemma PendingStalls(w: World, v: World)
    requires MisalignedStart(w) && Sane(v) && Stalled(v, w.port.chip.mem) && (v.d.op == Pending ==> v == w)
    requires v.d.op == Pending || v.d.op == Failed
    ensures Stalled(Step(v), w.port.chip.mem) && (v.d.op == Pending ==> Step(v).d.op == Reading)
  {
    hide SettingsOffset, Identifier;
  }

  lemma ReadStalls(w: World, f: EraseMethod -> Response, v: World)
    requires MisalignedStart(w) && Tracks(w, ClearsOf(f), v) && Tracks(w, ClearsOf(f), Step(v)) && Sane(v) && v.d.op == Reading
    requires NeedsAt(w, v.d.eraseMethod)
    ensures Stalled(Step(v), w.port.chip.mem) && Step(v).d.firstTry
    ensures Step(v).d.op == Erasing ==> Step(v).port.firstBusyRead
  {
    hide SettingsOffset, Sealed, Identifier, AlignDown, Step, NeedsAt, CanWrite, Target, Unfinished, Misplacing, PhaseInv, ActRead;
    MisplacingMeans(w, v);
    StepForms(v);
    ReadLeads(v);
    if Step(v).d.op == Erasing { TargetUnfinished(w, Step(v).d, Step(v).port.chip.mem); }
  }

  lemma {:induction false} WaitsRun(w: World, f: EraseMethod -> Response, n: nat)
    requires MisalignedStart(w) && Behaves(w.port.chip.oracle, f, WriteSettings) && GetsStuck(w, f, Sector)
    ensures Waits(w, f, Run(w, n))
  {
    hide SettingsOffset, Sealed, Identifier, AlignDown, Step, NeedsAt, Tracks, CanWrite, GetsStuck;
    StartIsSteady(w, f);
    TracksRun(w, ClearsOf(f), n);
    if n > 0 {
      WaitsRun(w, f, n - 1);
      WaitsStep(w, f, Run(w, n - 1));
    } else {
      StuckAnswers(w, f, Sector);
    }
  }

  /** A save at a misaligned offset ends if and only if it does not come to wait
      for an erase that never takes. */
  lemma MisalignedEndsExactly(w: World, f: EraseMethod -> Response)
    requires MisalignedStart(w) && Behaves(w.port.chip.oracle, f, WriteSettings)
    ensures Ends(w) <==> !GetsStuck(w, f, Sector)
  {
    hide SettingsOffset, Sealed, AlignDown, Step, CanWrite, GetsStuck, Tracks, Identifier;
    StartIsSteady(w, f);
    if !GetsStuck(w, f, Sector) {
      forall k ensures Hopeful(Run(w, k)) { HopefulRun(w, f, k); }
      forall k ensures Steady(Run(w, k)) { SteadyRun(w, k); }
      StepsToEnd(w, 0);
    } else {
      forall n ensures Active(Run(w, n).d.op) { WaitsRun(w, f, n); }
    }
  }

  // ---- it completes ------------------------------------------------------

  lemma FinishesIsNotStuck(w: World, f: EraseMethod -> Response, m: EraseMethod)
    requires MisalignedStart(w) && Finishes(w, f, m)
    ensures !GetsStuck(w, f, m)
    decreases MethodRank(m)
  {
    hide NeedsAt, SettingsOffset, Identifier;
    if NeedsAt(w, m) && f(m) == Ignored && m != ChipWide { FinishesIsNotStuck(w, f, NextMethod(m, w.d.small)); }
  }

  lemma FinishesMeans(w: World, f: EraseMethod -> Response, m: EraseMethod)
    requires MisalignedStart(w) && NeedsAt(w, m) && f(m) != Clears
    ensures Finishes(w, f, m) <==> f(m) == Ignored && m != ChipWide && Finishes(w, f, NextMethod(m, w.d.small))
  {
    hide NeedsAt, SettingsOffset, Identifier;
  }

  lemma {:induction false} FinishesRun(w: World, f: EraseMethod -> Response, n: nat)
    requires MisalignedStart(w) && Behaves(w.port.chip.oracle, f, WriteSettings) && ProgramsIdeally(w.port.chip.oracle)
    requires Finishes(w, f, Sector)
    ensures Finishes(w, f, Run(w, n).d.eraseMethod) && Run(w, n).d.op != Failed && Run(w, n).d.op != Idle
  {
    hide SettingsOffset, Sealed, Identifier, AlignDown, Step, NeedsAt, Tracks, CanWrite, Finishes, ProgramsIdeally;
    StartIsSteady(w, f);
    TracksRun(w, ClearsOf(f), n);
    TracksSmall(w, ClearsOf(f), Run(w, n));
    if n > 0 {
      TracksRun(w, ClearsOf(f), n - 1);
      FinishesRun(w, f, n - 1);
      var v := Run(w, n - 1);
      TracksSmall(w, ClearsOf(f), v);
      MethodStep(w, f, v);
      if v.d.op == Erasing && NeedsAt(w, v.d.eraseMethod) && f(v.d.eraseMethod) != Clears {
        FinishesMeans(w, f, v.d.eraseMethod);
      }
      IdealNeverFailsVerify(w, ClearsOf(f), Run(w, n));
    }
  }

  lemma IdealNeverFailsVerify(w: World, g: EraseMethod -> bool, v: World)
    requires MisalignedStart(w) && Tracks(w, g, v) && ProgramsIdeally(v.port.chip.oracle)
    ensures v.d.op == Failed ==> v.d.error == FailedErase
  {
  }

  ghost predicate Stalls(w: World, f: EraseMethod -> Response, v: World)
    requires MisalignedStart(w)
  {
    && Tracks(w, ClearsOf(f), v) && Sane(v) && v.port.chip.oracle == w.port.chip.oracle
    && Stalled(v, w.port.chip.mem) && !Finishes(w, f, v.d.eraseMethod)
    && (v.d.op == Pending ==> v == w)
  }

  lemma UnfinishedMeans(w: World, f: EraseMethod -> Response, m: EraseMethod)
    requires MisalignedStart(w) && !Finishes(w, f, m)
    ensures NeedsAt(w, m) && f(m) != Clears
    ensures f(m) == Ignored && m != ChipWide ==> !Finishes(w, f, NextMethod(m, w.d.small))
  {
    hide NeedsAt, SettingsOffset, Identifier;
  }

  lemma StallsStep(w: World, f: EraseMethod -> Response, v: World)
    requires MisalignedStart(w) && Behaves(w.port.chip.oracle, f, WriteSettings) && Stalls(w, f, v)
    requires Tracks(w, ClearsOf(f), Step(v)) && !Finishes(w, f, Step(v).d.eraseMethod)
    ensures Stalls(w, f, Step(v))
  {
    hide SettingsOffset, Sealed, Identifier, AlignDown, Step, NeedsAt, Tracks, CanWrite, Target, Unfinished, Stalled, Finishes;
    TracksSmall(w, ClearsOf(f), v);
    StepForms(v);
    UnfinishedMeans(w, f, v.d.eraseMethod);
    UnfinishedMeans(w, f, Step(v).d.eraseMethod);
    if v.d.op == Erasing {
      VainSend(w, f, v);
      StallErase(v, w.port.chip.mem);
      NotPendingAgain(v);
    } else if v.d.op == Reading {
      ReadStalls(w, f, v);
      ReadLeads(v);
    } else {
      StalledOps(v, w.port.chip.mem);
      PendingStalls(w, v);
    }
  }

  lemma StalledOps(v: World, orig: seq<Byte>)
    requires Valid(v) && Stalled(v, orig)
    ensures v.d.op == Pending || v.d.op == Reading || v.d.op == Erasing || v.d.op == Failed
  {
  }

  lemma VainSend(w: World, f: EraseMethod -> Response, v: World)
    requires MisalignedStart(w) && Behaves(v.port.chip.oracle, f, WriteSettings) && Sane(v) && v.d.op == Erasing
    requires f(v.d.eraseMethod) != Clears && f(Step(v).d.eraseMethod) != Clears
    ensures SendsInVain(v)
  {
    hide SettingsOffset, Identifier, CanWrite, Erase, AlignDown, ActErase, Step;
    StepForms(v);
    if !SeenBusy(v) {
      EraseForms(v.d, v.port.chip);
    }
  }

  lemma {:induction false} StallsRun(w: World, f: EraseMethod -> Response, n: nat)
    requires MisalignedStart(w) && Behaves(w.port.chip.oracle, f, WriteSettings)
    requires !Finishes(w, f, Sector) && !GetsStuck(w, f, Sector)
    ensures Stalls(w, f, Run(w, n))
  {
    hide SettingsOffset, Sealed, Identifier, AlignDown, Step, NeedsAt, Tracks, CanWrite, Finishes, Unfinished, GetsStuck;
    StartIsSteady(w, f);
    TracksRun(w, ClearsOf(f), n);
    if n > 0 {
      StallsRun(w, f, n - 1);
      HopefulRun(w, f, n - 1);
      var v := Run(w, n - 1);
      TracksSmall(w, ClearsOf(f), v);
      MethodStep(w, f, v);
      UnfinishedMeans(w, f, v.d.eraseMethod);
      StuckMeans(w, f, v.d.eraseMethod);
      StallsStep(w, f, v);
    }
  }

  /** On a chip that programs ideally, a save at a misaligned offset completes if
      and only if it comes to a window that needs no erase or is cleared. */
  lemma MisalignedSucceedsExactly(w: World, f: EraseMethod -> Response)
    requires MisalignedStart(w) && Behaves(w.port.chip.oracle, f, WriteSettings) && ProgramsIdeally(w.port.chip.oracle)
    ensures Completes(w) <==> Finishes(w, f, Sector)
  {
    hide SettingsOffset, Sealed, AlignDown, Step, CanWrite, GetsStuck, Tracks, Identifier, Finishes;
    if Finishes(w, f, Sector) {
      FinishesIsNotStuck(w, f, Sector);
      MisalignedEndsExactly(w, f);
      var n :| !Active(Run(w, n).d.op);
      FinishesRun(w, f, n);
      assert Run(w, n).d.op == Completed;
    } else if GetsStuck(w, f, Sector) {
      forall n ensures Run(w, n).d.op != Completed { WaitsRun(w, f, n); }
    } else {
      forall n ensures Run(w, n).d.op != Completed { StallsRun(w, f, n); }
    }
  }
}
