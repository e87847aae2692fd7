/**
 Which runs of the flash state machine come to an end.
 */
module FlashTermination {
  import opened FlashChip
  import opened FlashLowLevel
  import opened FlashDriver
  import opened FlashRuns
  import opened FlashSettings

  // ---- what the chip must promise ----------------------------------------

  function MethodRank(m: EraseMethod): nat {
    match m
    case Sector => 2
    case Block => 1
    case ChipWide => 0
  }

  /** Whenever an erase with `m` does not clear its unit, it was ignored. */
  ghost predicate ClearsOrIgnores(o: Oracle, m: EraseMethod) {
    forall k :: o.clears(k, m) || o.eraseTime(k, m) == 0
  }

  ghost predicate AlwaysClears(o: Oracle, m: EraseMethod) {
    forall k :: o.clears(k, m)
  }

  /** No erase that a job at method `m` may come to send keeps the chip busy in vain. */
  ghost predicate Trusted(o: Oracle, small: bool, m: EraseMethod)
    decreases MethodRank(m)
  {
    && ClearsOrIgnores(o, m)
    && (AlwaysClears(o, m) || m == ChipWide || Trusted(o, small, NextMethod(m, small)))
  }

  // ---- the invariant behind the measure ----------------------------------

  /** An idle chip whose next two polls can only say "busy" and then "not busy". */
  predicate AtRest(p: Port) {
    |p.chip.mem| > 0 && p.chip.busy == 0 && (p.firstBusyRead || Settling(p) == 0)
  }

  /** The erase phase counts at most one busy verdict per attempt on a chip at rest. */
  predicate CountsRight(d: Driver, p: Port) {
    AtRest(p) && d.busyCount <= (if d.firstTry then 0 else 1) + (if p.firstBusyRead then 0 else 1)
  }

  ghost predicate Steady(w: World) {
    var d := w.d;
    && Sane(w) && d.task != NoTask
    && (d.op == Reading ==> d.task != WriteBios)
    && (d.op == Pending ==> w.port.firstBusyRead)
    && (d.op == Pending || d.op == Reading ==>
          w.port.chip.busy == 0 && (d.task == WriteBios || d.task == WriteSettings ==> d.firstTry && d.busyCount == 0))
    && (d.op == Erasing ==>
          && (d.firstTry || !CurrentWritable(d, w.port.chip) ==> CountsRight(d, w.port))
          && (!d.firstTry && !CurrentWritable(d, w.port.chip) ==> !AlwaysClears(w.port.chip.oracle, d.eraseMethod)))
  }

  /** The erases that the job sends next, up to its next re-read, do not keep the
      chip busy in vain. */
  ghost predicate Bearable(o: Oracle, d: Driver) {
    && ClearsOrIgnores(o, d.eraseMethod)
    && (|| d.task == WriteSettings || d.eraseMethod == ChipWide || AlwaysClears(o, d.eraseMethod)
        || ClearsOrIgnores(o, NextMethod(d.eraseMethod, d.small)))
  }

  /** The erase phase is not about to wait for an erase that never takes. */
  ghost predicate Hopeful(w: World)
    requires Valid(w)
  {
    w.d.op == Erasing ==> CurrentWritable(w.d, w.port.chip) || Bearable(w.port.chip.oracle, w.d)
  }

  function PhaseRank(op: FlashOp): nat {
    match op
    case Pending => 4
    case Reading => 3
    case Erasing => 2
    case Writing => 1
    case _ => 0
  }

  function TryRank(d: Driver): nat {
    if d.op == Erasing && d.firstTry then 1 else 0
  }

  /** The lexicographic measure: erase method, phase, bytes left, erase tries
      left, busy time left, polls until an idle chip is seen idle. */
  predicate Less(w': World, w: World)
    requires Valid(w) && Valid(w')
  {
    var d, d' := w.d, w'.d;
    if MethodRank(d'.eraseMethod) != MethodRank(d.eraseMethod) then MethodRank(d'.eraseMethod) < MethodRank(d.eraseMethod)
    else if PhaseRank(d'.op) != PhaseRank(d.op) then PhaseRank(d'.op) < PhaseRank(d.op)
    else if d'.size - d'.cur != d.size - d.cur then d'.size - d'.cur < d.size - d.cur
    else if TryRank(d') != TryRank(d) then TryRank(d') < TryRank(d)
    else if w'.port.chip.busy != w.port.chip.busy then w'.port.chip.busy < w.port.chip.busy
    else Settling(w'.port) < Settling(w.port)
  }

  // ---- one step ----------------------------------------------------------

  lemma ClearingErasesTarget(c: Chip, m: EraseMethod, a: nat)
    requires a < |c.mem| && c.oracle.clears(c.commands, m)
    ensures Erase(c, m, a).mem[a] == ERASED
  {
  }

  /** After a trusted erase the byte can be written, or the chip is idle. */
  lemma TrustedErase(c: Chip, m: EraseMethod, a: nat, b: Byte)
    requires a < |c.mem| && ClearsOrIgnores(c.oracle, m)
    requires !CanWrite(Erase(c, m, a).mem[a], b)
    ensures Erase(c, m, a).busy == 0 && !AlwaysClears(c.oracle, m)
  {
    ErasedIsWritable(b);
    if c.oracle.clears(c.commands, m) { ClearingErasesTarget(c, m, a); }
  }

  lemma AdvanceDecreases(w: World)
    requires Steady(w) && w.d.op == Erasing && !SeenBusy(w) && CurrentWritable(w.d, w.port.chip)
    ensures Steady(Step(w)) && (Active(Step(w).d.op) ==> Less(Step(w), w))
    ensures Step(w).d.small == w.d.small && Step(w).d.eraseMethod == w.d.eraseMethod
  {
    hide Erase, CanWrite, AlignDown, ActErase, Step, Poll, ReadBack, NextTry, Settling;
    StepForms(w);
    EraseCases(w.d, w.port.chip);
  }

  /** The erase is sent, or sent again. */
  lemma SendDecreases(w: World)
    requires Steady(w) && w.d.op == Erasing && !SeenBusy(w) && !CurrentWritable(w.d, w.port.chip) && !Escalates(w.d)
    requires Bearable(w.port.chip.oracle, w.d)
    ensures Steady(Step(w)) && (Active(Step(w).d.op) ==> Less(Step(w), w))
  {
    hide Erase, CanWrite, AlignDown, ActErase, Step, Poll, ReadBack, Advanced, NextTry;
    StepForms(w);
    EraseCases(w.d, w.port.chip);
    var d, c, v := w.d, w.port.chip, Step(w);
    if !CurrentWritable(v.d, v.port.chip) {
      TrustedErase(c, d.eraseMethod, d.start + d.cur, d.buffer[d.cur]);
    }
  }

  /** A BIOS job sends the wider erase at once. */
  lemma ReissueDecreases(w: World)
    requires Steady(w) && w.d.op == Erasing && !SeenBusy(w) && !CurrentWritable(w.d, w.port.chip) && Escalates(w.d)
    requires Bearable(w.port.chip.oracle, w.d)
    requires w.d.eraseMethod != ChipWide && w.d.task != WriteSettings
    ensures Steady(Step(w)) && (Active(Step(w).d.op) ==> Less(Step(w), w))
  {
    hide Erase, CanWrite, AlignDown, ActErase, Step, Poll, ReadBack, Advanced, Settling;
    StepForms(w);
    EraseCases(w.d, w.port.chip);
    var d, c, v := w.d, w.port.chip, Step(w);
    if !CurrentWritable(v.d, v.port.chip) {
      TrustedErase(c, v.d.eraseMethod, d.start + d.cur, d.buffer[d.cur]);
    }
  }

  /** The erase was ignored: a wider one comes next, or none. */
  lemma WidenDecreases(w: World)
    requires Steady(w) && w.d.op == Erasing && !SeenBusy(w) && !CurrentWritable(w.d, w.port.chip) && Escalates(w.d)
    requires Bearable(w.port.chip.oracle, w.d)
    ensures Steady(Step(w)) && (Active(Step(w).d.op) ==> Less(Step(w), w))
  {
    hide Erase, CanWrite, AlignDown, ActErase, Step, Poll, Advanced, Settling, Bearable;
    StepForms(w);
    EraseCases(w.d, w.port.chip);
    if w.d.eraseMethod != ChipWide && w.d.task != WriteSettings { ReissueDecreases(w); }
  }

  lemma EraseDecreases(w: World)
    requires Steady(w) && Hopeful(w) && w.d.op == Erasing && !SeenBusy(w)
    ensures Steady(Step(w)) && (Active(Step(w).d.op) ==> Less(Step(w), w))
  {
    hide CanWrite, Step, Poll;
    if CurrentWritable(w.d, w.port.chip) {
      AdvanceDecreases(w);
    } else if Escalates(w.d) {
      WidenDecreases(w);
    } else {
      SendDecreases(w);
    }
  }

  /** A poll that was told "busy" uses up busy time, or settles an idle chip. */
  lemma BusyDecreases(w: World)
    requires Steady(w) && Polls(w.d.op) && SeenBusy(w)
    ensures Steady(Step(w)) && Less(Step(w), w)
    ensures Step(w).d.small == w.d.small && Step(w).d.eraseMethod == w.d.eraseMethod
  {
    hide Step, CanWrite;
    StepForms(w);
    PollProgress(w.port);
  }

  lemma ReadDecreases(w: World)
    requires Steady(w) && w.d.op == Reading && !SeenBusy(w)
    ensures Steady(Step(w)) && (Active(Step(w).d.op) ==> Less(Step(w), w))
    ensures Step(w).d.small == w.d.small && Step(w).d.eraseMethod == w.d.eraseMethod
  {
    hide Step, Poll, CanWrite, SettingsOffset, Sealed, Overwrite;
    StepForms(w);
  }

  lemma LaterDecreases(w: World)
    requires Steady(w) && (w.d.op == Writing || w.d.op == Verifying) && !SeenBusy(w)
    ensures Steady(Step(w)) && (Active(Step(w).d.op) ==> Less(Step(w), w))
    ensures Step(w).d.small == w.d.small && Step(w).d.eraseMethod == w.d.eraseMethod
  {
    hide Step, Poll, CanWrite;
    StepForms(w);
  }

  /** Every step of an active job gets closer to the end. */
  lemma StepDecreases(w: World)
    requires Steady(w) && Hopeful(w) && Active(w.d.op)
    ensures Steady(Step(w)) && (Active(Step(w).d.op) ==> Less(Step(w), w))
  {
    hide CanWrite, Poll, Act;
    if w.d.op != Pending {
      if SeenBusy(w) { BusyDecreases(w); }
      else if w.d.op == Erasing { EraseDecreases(w); }
      else if w.d.op == Reading { ReadDecreases(w); }
      else { LaterDecreases(w); }
    }
  }

  /** A trusted chip is bearable now, and stays trusted. */
  lemma TrustedStays(w: World)
    requires Steady(w) && Active(w.d.op) && Trusted(w.port.chip.oracle, w.d.small, w.d.eraseMethod)
    ensures Hopeful(w) && Trusted(w.port.chip.oracle, Step(w).d.small, Step(w).d.eraseMethod)
  {
    hide CanWrite, Poll, Step, ActErase, ActRead, ActWrite, ActVerify, Erase, SettingsOffset, AlignDown, Settling;
    StepForms(w);
    if w.d.op == Erasing && !SeenBusy(w) { EraseCases(w.d, w.port.chip); }
    if w.d.op == Reading && !SeenBusy(w) { ReadDecreases(w); }
    if (w.d.op == Writing || w.d.op == Verifying) && !SeenBusy(w) { LaterForms(w.d, w.port.chip, w.crc32); }
  }

  /** The machine reaches a resting state. */
  ghost predicate Ends(w: World)
    requires Valid(w)
  {
    exists n :: !Active(Run(w, n).d.op)
  }

  /** No state of the run waits in vain. */
  ghost predicate Progresses(w: World) {
    Valid(w) && forall k :: Active(Run(w, k).d.op) ==> Steady(Run(w, k)) && Hopeful(Run(w, k))
  }

  lemma {:induction false} StepsToEnd(w: World, n: nat)
    requires Progresses(w)
    ensures Ends(w)
    decreases
      var v := Run(w, n); MethodRank(v.d.eraseMethod),
      var v := Run(w, n); PhaseRank(v.d.op),
      var v := Run(w, n); v.d.size - v.d.cur,
      var v := Run(w, n); TryRank(v.d),
      var v := Run(w, n); v.port.chip.busy,
      var v := Run(w, n); Settling(v.port)
  {
    hide Step;
    var v := Run(w, n);
    if Active(v.d.op) {
      StepDecreases(v);
      if Active(Run(w, n + 1).d.op) {
        assert Less(Run(w, n + 1), v);
        StepsToEnd(w, n + 1);
      }
    }
  }

  lemma {:induction false} TrustedRun(w: World, n: nat)
    requires Steady(w) && Trusted(w.port.chip.oracle, w.d.small, w.d.eraseMethod)
    ensures var v := Run(w, n);
      && Steady(v) && v.port.chip.oracle == w.port.chip.oracle
      && Trusted(v.port.chip.oracle, v.d.small, v.d.eraseMethod)
  {
    hide Step;
    if n > 0 {
      TrustedRun(w, n - 1);
      var v := Run(w, n - 1);
      StepForms(v);
      if Active(v.d.op) {
        TrustedStays(v);
        StepDecreases(v);
      } else {
        RestingStays(v);
      }
    }
  }

  lemma RestingStays(w: World)
    requires Valid(w) && !Active(w.d.op)
    ensures Step(w) == w
  {
  }

  lemma {:induction false} RestingRun(w: World, n: nat)
    requires Valid(w) && !Active(w.d.op)
    ensures Run(w, n) == w
  {
    hide Step;
    if n > 0 {
      RestingRun(w, n - 1);
      RestingStays(w);
    }
  }

  lemma AlreadyEnded(w: World)
    requires Valid(w) && !Active(w.d.op)
    ensures Progresses(w)
  {
    forall k ensures !Active(Run(w, k).d.op) { RestingRun(w, k); }
  }

  lemma RestingEnds(w: World, v: World)
    requires Valid(w) && !Active(w.d.op) && exists n :: v == Run(w, n)
    ensures v == w
  {
    var n :| v == Run(w, n);
    RestingRun(w, n);
  }

  /** Every started job ends on a chip whose busy periods end and whose erases
      clear their unit or are ignored: with `Completed` or an error. */
  lemma JobEnds(w: World)
    requires Steady(w) && Trusted(w.port.chip.oracle, w.d.small, w.d.eraseMethod)
    ensures Progresses(w) && Ends(w)
  {
    forall n | Active(Run(w, n).d.op) ensures Steady(Run(w, n)) && Hopeful(Run(w, n)) {
      TrustedRun(w, n);
      TrustedStays(Run(w, n));
    }
    StepsToEnd(w, 0);
  }

  // ---- exactly when a write job ends -------------------------------------

  /** How a chip answers an erase method: it clears the unit, ignores the
      command, or stays busy for a while and clears nothing. */
  datatype Response = Clears | Ignored | Stuck

  /** From how many busy reads on an erase is never given up. One more is
      counted before the first erase of a byte; only the wider erases of a BIOS
      job are sent without it. */
  function StuckFrom(task: FlashTask, m: EraseMethod): nat {
    if m == Sector || task == WriteSettings then 2 else 3
  }

  ghost predicate Behaves(o: Oracle, f: EraseMethod -> Response, task: FlashTask) {
    && (forall k, m :: o.clears(k, m) <==> f(m) == Clears)
    && (forall k, m :: && (f(m) == Ignored ==> o.eraseTime(k, m) == 0)
                       && (f(m) == Stuck ==> o.eraseTime(k, m) >= StuckFrom(task, m)))
  }

  /** The answer to the first erase method that is not ignored. */
  function Answer(f: EraseMethod -> Response, small: bool, m: EraseMethod): Response
    decreases MethodRank(m)
  {
    if f(m) == Ignored && m != ChipWide then Answer(f, small, NextMethod(m, small)) else f(m)
  }

  /** A BIOS job for an idle chip, with its erase statics as the request sets them. */
  predicate BiosReady(w: World) {
    && BiosStart(w) && w.d.eraseMethod == Sector && w.d.firstTry && w.d.busyCount == 0
    && w.port.firstBusyRead && w.port.chip.busy == 0
  }

  /** A write job right after its request was accepted. */
  predicate WriteStart(w: World) {
    SaveStart(w) || BiosReady(w)
  }

  /** Some byte the job will write cannot be programmed in place. */
  predicate WriteNeedsErase(w: World)
    requires WriteStart(w)
  {
    if SaveStart(w) then NeedsErase(w)
    else exists k :: 0 <= k < w.d.size && !CanWrite(w.port.chip.mem[w.d.start + k], w.d.buffer[k])
  }

  lemma AnswersAreTrusted(o: Oracle, f: EraseMethod -> Response, task: FlashTask, small: bool, m: EraseMethod)
    requires Behaves(o, f, task) && Answer(f, small, m) != Stuck
    ensures Trusted(o, small, m)
    decreases MethodRank(m)
  {
    if f(m) == Ignored && m != ChipWide {
      AnswersAreTrusted(o, f, task, small, NextMethod(m, small));
    }
    assert f(m) != Stuck;
    assert ClearsOrIgnores(o, m);
  }

  /** The erase phase is not about to send an erase. */
  predicate Calm(w: World)
    requires Valid(w)
  {
    w.d.op == Erasing ==> CurrentWritable(w.d, w.port.chip)
  }

  lemma CalmSave(w: World, n: nat)
    requires SaveStart(w) && !NeedsErase(w)
    ensures Calm(Run(w, n))
  {
    hide SettingsOffset, Sealed, Step, Overwrite, AlignDown, CanWrite, Images, Unsettled;
    SaveRun(w, n);
    var s, d, c := SaveOf(w), Run(w, n).d, Run(w, n).port.chip;
    if d.op == Erasing && !CurrentWritable(d, c) {
      UnwritableNeedsErase(s, d, c);
    }
  }

  lemma UnwritableNeedsErase(s: Save, d: Driver, c: Chip)
    requires InStep(d, c) && SaveInv(s, d, c.mem) && s.ErasesWhenNeeded() && d.op == Erasing && !CurrentWritable(d, c)
    ensures s.needsErase
  {
    hide CanWrite, Save.Wiped;
    UnwritableIsNotWiped(s, d, c);
    if d.eraseMethod == Sector {
      WindowNests(s, Sector);
      assert !CanWrite(s.orig[d.start + d.cur], s.wanted[d.start + d.cur]);
    }
  }

  /** Until it starts writing, the whole range of the job can be programmed. */
  predicate CalmBios(d: Driver, c: Chip)
    requires Fits(d, |c.mem|)
  {
    d.task == WriteBios && BiosOp(d.op) &&
    (d.op == Pending || d.op == Erasing ==> Writable(c.mem, d.start, d.buffer, 0, d.size))
  }

  lemma {:induction false} CalmBiosRun(w: World, n: nat)
    requires Sane(w) && CalmBios(w.d, w.port.chip)
    ensures Sane(Run(w, n)) && CalmBios(Run(w, n).d, Run(w, n).port.chip)
  {
    hide Step, CanWrite;
    if n > 0 {
      CalmBiosRun(w, n - 1);
      StepForms(Run(w, n - 1));
      CalmBiosStep(Run(w, n - 1));
    }
  }

  lemma CalmBiosStep(w: World)
    requires Sane(w) && CalmBios(w.d, w.port.chip)
    ensures CalmBios(Step(w).d, Step(w).port.chip)
  {
    hide CanWrite, Step, Poll, ActErase, ActWrite, ActVerify, Erase;
    StepForms(w);
    StepKeepsBios(w);
    if w.d.op == Erasing {
      assert CurrentWritable(w.d, w.port.chip);
      if !SeenBusy(w) { EraseCases(w.d, w.port.chip); }
    } else if w.d.op == Writing || w.d.op == Verifying {
      LaterForms(w.d, w.port.chip, w.crc32);
    }
  }

  lemma {:induction false} SteadyRun(w: World, n: nat)
    requires Steady(w) && forall k :: Hopeful(Run(w, k))
    ensures Steady(Run(w, n))
  {
    hide Step, Hopeful;
    if n > 0 {
      SteadyRun(w, n - 1);
      if Active(Run(w, n - 1).d.op) { StepDecreases(Run(w, n - 1)); } else { RestingStays(Run(w, n - 1)); }
    }
  }

  /** A job that needs no erase only ever meets writable bytes. */
  lemma CalmRun(w: World, n: nat)
    requires WriteStart(w) && !WriteNeedsErase(w)
    ensures Calm(Run(w, n)) && Steady(Run(w, n))
  {
    hide SettingsOffset, Sealed, Step, Overwrite, AlignDown, CanWrite;
    forall k ensures Calm(Run(w, k)) && Hopeful(Run(w, k)) {
      if SaveStart(w) { CalmSave(w, k); } else { CalmBiosRun(w, k); }
    }
    SteadyRun(w, n);
  }

  // ---- a chip that stays busy in vain ------------------------------------

  /** Some byte from the current one on still needs an erase. */
  predicate Unfinished(d: Driver, mem: seq<Byte>)
    requires Fits(d, |mem|) && d.op == Erasing
  {
    exists k :: d.cur <= k < d.size && !CanWrite(mem[d.start + k], d.buffer[k])
  }

  /** The job gets nowhere: nothing was ever cleared. */
  predicate Stalled(w: World, orig: seq<Byte>)
    requires Valid(w)
  {
    && (w.d.op == Pending || w.d.op == Reading || w.d.op == Erasing || w.d.op == Failed)
    && w.port.chip.mem == orig && (w.d.op == Erasing ==> Unfinished(w.d, orig))
  }

  /** And an erase that keeps the chip busy looks busy often enough not to be given up. */
  predicate Waiting(f: EraseMethod -> Response, a: Response, w: World, orig: seq<Byte>)
    requires Valid(w)
  {
    var d, c := w.d, w.port.chip;
    && Stalled(w, orig) && (d.op == Failed ==> a != Stuck)
    && Answer(f, d.small, d.eraseMethod) == a != Clears
    && (d.op == Erasing && d.firstTry ==> w.port.firstBusyRead || d.busyCount >= 1)
    && (d.op == Erasing && !d.firstTry && f(d.eraseMethod) == Stuck ==> d.busyCount + c.busy >= ERASE_BUSY_COUNT_MIN)
  }

  /** Without a clearing erase the unfinished bytes stay unfinished. */
  lemma DecisionKeepsUnfinished(d: Driver, mem: seq<Byte>)
    requires Fits(d, |mem|) && d.op == Erasing && Unfinished(d, mem)
    ensures var e := EraseDecision(d, mem[d.start + d.cur], |mem|).d;
      && (e.op == Erasing ==> Unfinished(e, mem)) && e.op != Writing
  {
    hide CanWrite;
  }

  /** The erase that this call sends, if any, does not clear its unit. */
  predicate SendsInVain(w: World)
    requires Valid(w) && w.d.op == Erasing
  {
    var d, c := w.d, w.port.chip;
    !SeenBusy(w) ==> !c.oracle.clears(c.commands, EraseDecision(d, c.mem[d.start + d.cur], |c.mem|).d.eraseMethod)
  }

  lemma StallErase(w: World, orig: seq<Byte>)
    requires Sane(w) && Stalled(w, orig) && w.d.op == Erasing && SendsInVain(w)
    ensures Stalled(Step(w), orig)
  {
    hide CanWrite, AlignDown, Unfinished, ActErase, Step, Poll;
    StepForms(w);
    var d, c := w.d, w.port.chip;
    if SeenBusy(w) {
      WaitKeepsUnfinished(d, c.mem);
    } else {
      EraseForms(d, c);
      DecisionKeepsUnfinished(d, c.mem);
    }
  }

  lemma WaitErase(f: EraseMethod -> Response, a: Response, w: World, orig: seq<Byte>)
    requires Sane(w) && Behaves(w.port.chip.oracle, f, w.d.task) && Waiting(f, a, w, orig) && w.d.op == Erasing
    ensures Waiting(f, a, Step(w), orig)
  {
    hide CanWrite, AlignDown, Unfinished, ActErase, Step, Stalled, EraseDecision, Erase, Poll, ReadBack, SendsInVain;
    StepForms(w);
    var d, c := w.d, w.port.chip;
    WaitInVain(f, a, w, orig);
    StallErase(w, orig);
    if SeenBusy(w) {
      PollProgress(w.port);
    } else {
      NeverFirst(w.port);
      EraseCases(d, c);
      EraseTakes(c, d.eraseMethod, d.start + d.cur);
      if !CurrentWritable(d, c) && Escalates(d) {
        WidenWaits(f, a, d, c, ActErase(d, c).d, ActErase(d, c).chip);
      }
    }
  }

  /** A not-busy verdict is never the first one. */
  lemma NeverFirst(p: Port)
    requires |p.chip.mem| > 0 && !Poll(p).busy
    ensures !p.firstBusyRead
  {
  }

  lemma EraseTakes(c: Chip, m: EraseMethod, a: nat)
    ensures Erase(c, m, a).busy == c.oracle.eraseTime(c.commands, m) && Erase(c, m, a).oracle == c.oracle
  {
  }

  /** After an ignored erase the wider one is waited for in the same way. */
  lemma WidenWaits(f: EraseMethod -> Response, a: Response, d: Driver, c: Chip, e: Driver, c': Chip)
    requires InStep(d, c) && d.op == Erasing && c.busy == 0 && Behaves(c.oracle, f, d.task) && Escalates(d)
    requires !CurrentWritable(d, c) && Acted(e, c') == ActErase(d, c)
    requires Answer(f, d.small, d.eraseMethod) == a != Clears && f(d.eraseMethod) != Stuck
    ensures e.op == Failed ==> a != Stuck
    ensures Answer(f, e.small, e.eraseMethod) == a
    ensures e.op == Erasing ==> !e.firstTry && (f(e.eraseMethod) == Stuck ==> e.busyCount + c'.busy >= ERASE_BUSY_COUNT_MIN)
  {
    hide CanWrite, AlignDown, ActErase, EraseDecision, Erase;
    EraseCases(d, c);
    EraseTakes(c, NextMethod(d.eraseMethod, d.small), d.start + d.cur);
  }

  /** No erase that the job sends while it waits clears its unit. */
  lemma WaitInVain(f: EraseMethod -> Response, a: Response, w: World, orig: seq<Byte>)
    requires Sane(w) && Behaves(w.port.chip.oracle, f, w.d.task) && Waiting(f, a, w, orig) && w.d.op == Erasing
    ensures SendsInVain(w)
  {
    hide CanWrite, AlignDown, Unfinished, Stalled, Poll, Step, Act;
    StepForms(w);
    var m, next := w.d.eraseMethod, NextMethod(w.d.eraseMethod, w.d.small);
    assert f(m) == Ignored && m != ChipWide ==> Answer(f, w.d.small, next) == a;
  }

  lemma StalledMeans(w: World, orig: seq<Byte>)
    requires Valid(w) && Stalled(w, orig)
    ensures w.port.chip.mem == orig && (w.d.op == Erasing ==> Unfinished(w.d, orig))
  {
  }

  lemma WaitKeepsUnfinished(d: Driver, mem: seq<Byte>)
    requires Fits(d, |mem|) && d.op == Erasing && Unfinished(d, mem)
    ensures Unfinished(Waited(d), mem)
  {
  }

  /** A window that images the wanted contents is unfinished if an erase is needed. */
  lemma WindowUnfinished(s: Save, d: Driver, mem: seq<Byte>)
    requires SaveInv(s, d, mem) && s.ErasesWhenNeeded() && s.needsErase && mem == s.orig
    requires Fits(d, |mem|) && d.op == Erasing && d.cur == 0
    ensures Unfinished(d, mem)
  {
    WindowNests(s, d.eraseMethod);
    var i :| s.off <= i < s.End(Sector) && !CanWrite(s.orig[i], s.wanted[i]);
    assert !CanWrite(mem[d.start + (i - d.start)], d.buffer[i - d.start]);
  }

  /** A read step only moves on, or starts the erase phase from the beginning. */
  lemma ReadLeads(w: World)
    requires Sane(w) && w.d.op == Reading && w.d.task == WriteSettings
    ensures var d := Step(w).d;
      && (d.op == Reading || (d.op == Erasing && d.cur == 0)) && d.firstTry == w.d.firstTry && d.task == w.d.task
      && d.small == w.d.small && d.eraseMethod == w.d.eraseMethod
      && Step(w).port.chip.mem == w.port.chip.mem
  {
    hide SettingsOffset, Sealed, Overwrite, Identifier, Step, Poll, ActRead;
    StepForms(w);
    if !SeenBusy(w) { ReadForms(w.d, w.port.chip, w.crc32); }
  }

  lemma {:induction false} WaitRun(w: World, f: EraseMethod -> Response, n: nat)
    requires WriteStart(w) && WriteNeedsErase(w)
    requires Behaves(w.port.chip.oracle, f, w.d.task) && Answer(f, w.d.small, Sector) != Clears
    ensures var v := Run(w, n);
      && Waiting(f, Answer(f, w.d.small, Sector), v, w.port.chip.mem) && v.d.task == w.d.task && Sane(v)
      && v.port.chip.oracle == w.port.chip.oracle
      && (v.d.op == Reading ==> v.d.firstTry && SaveStart(w)) && (v.d.op == Pending ==> v == w)
  {
    hide SettingsOffset, Sealed, AlignDown, Step, CanWrite, SaveInv, PhaseInv, Identifier, SaveOf, WriteNeedsErase;
    if n > 0 {
      WaitRun(w, f, n - 1);
      var v := Run(w, n - 1);
      StepForms(v);
      if SaveStart(w) { SaveRun(w, n); }
      WaitStep(w, v, f, Answer(f, w.d.small, Sector));
    }
  }

  lemma WaitStep(w: World, v: World, f: EraseMethod -> Response, a: Response)
    requires WriteStart(w) && WriteNeedsErase(w)
    requires Sane(v) && Waiting(f, a, v, w.port.chip.mem) && v.d.task == w.d.task && Behaves(v.port.chip.oracle, f, v.d.task)
    requires (v.d.op == Reading ==> v.d.firstTry && SaveStart(w)) && (v.d.op == Pending ==> v == w)
    requires SaveStart(w) ==> SaveInv(SaveOf(w), Step(v).d, Step(v).port.chip.mem)
    ensures Waiting(f, a, Step(v), w.port.chip.mem) && Step(v).d.task == w.d.task
    ensures (Step(v).d.op == Reading ==> Step(v).d.firstTry && SaveStart(w)) && Step(v).d.op != Pending
  {
    hide SettingsOffset, Sealed, AlignDown, CanWrite, Poll, Act, Step, SaveInv, Stalled, Identifier, WriteNeedsErase;
    StepForms(v);
    if v.d.op == Erasing {
      WaitErase(f, a, v, w.port.chip.mem);
      EraseLeads(v);
    } else if v.d.op == Reading {
      StalledMeans(v, w.port.chip.mem);
      ReadLeads(v);
      SaveReadStalls(w, v);
    } else {
      BeginStalls(w, v);
    }
  }

  lemma BeginStalls(w: World, v: World)
    requires WriteStart(w) && WriteNeedsErase(w) && Sane(v) && Stalled(v, w.port.chip.mem) && v.d.op != Erasing && v.d.op != Reading
    requires v.d.op == Pending ==> v == w
    ensures Stalled(Step(v), w.port.chip.mem) && Step(v).d.op != Pending && Step(v).d.task == v.d.task
    ensures v.d.op == Pending || v.d.op == Failed
    ensures v.d.op == Failed ==> Step(v) == v
    ensures v.d.op == Pending ==> Step(v).d.firstTry && Step(v).port.firstBusyRead
    ensures v.d.op == Pending ==>
      Step(v) == v.(d := v.d.(op := Step(v).d.op)) && (Step(v).d.op == Reading ==> SaveStart(w))
  {
    hide SettingsOffset, Sealed, AlignDown, CanWrite, Poll, Act, Identifier;
  }

  /** A read step changes nothing, and a window that was read is unfinished. */
  lemma SaveReadStalls(w: World, v: World)
    requires WriteStart(w) && WriteNeedsErase(w) && Sane(v) && v.d.op == Reading && SaveStart(w) && v.d.task == WriteSettings
    requires v.port.chip.mem == w.port.chip.mem && SaveInv(SaveOf(w), Step(v).d, Step(v).port.chip.mem)
    ensures Stalled(Step(v), w.port.chip.mem) && Step(v).port.chip.oracle == v.port.chip.oracle
    ensures Step(v).d.op == Erasing ==> Step(v).port.firstBusyRead
    ensures Step(v).d.task == v.d.task
  {
    hide SettingsOffset, Sealed, AlignDown, CanWrite, Poll, Act, Step, SaveInv, Identifier;
    StepForms(v);
    ReadLeads(v);
    assert SaveOf(w).needsErase && SaveOf(w).orig == w.port.chip.mem;
    if Step(v).d.op == Erasing { WindowUnfinished(SaveOf(w), Step(v).d, Step(v).port.chip.mem); }
  }

  lemma EraseLeads(w: World)
    requires Sane(w) && w.d.op == Erasing
    ensures var d := Step(w).d;
      && d.task == w.d.task && d.op != Pending && (d.op == Reading ==> d.firstTry && d.task == WriteSettings)
  {
    hide Step, Poll, ActErase, AlignDown, CanWrite, Erase;
    StepForms(w);
    if !SeenBusy(w) { EraseCases(w.d, w.port.chip); }
  }

  ghost predicate NeverClears(o: Oracle) {
    forall k, m :: !o.clears(k, m)
  }

  /** For any busy times: a job that needs an erase on a chip that never clears a
      unit does not complete, and changes nothing. */
  lemma {:induction false} VainRun(w: World, n: nat)
    requires WriteStart(w) && WriteNeedsErase(w) && NeverClears(w.port.chip.oracle)
    ensures var v := Run(w, n);
      && v.d.op != Completed && v.port.chip.mem == w.port.chip.mem
      && Stalled(v, w.port.chip.mem) && v.d.task == w.d.task && Sane(v) && v.port.chip.oracle == w.port.chip.oracle
      && (v.d.op == Reading ==> SaveStart(w)) && (v.d.op == Pending ==> v == w)
  {
    hide SettingsOffset, Sealed, AlignDown, Step, CanWrite, SaveInv, PhaseInv, Identifier, SaveOf, WriteNeedsErase, NeverClears;
    if n > 0 {
      VainRun(w, n - 1);
      var v := Run(w, n - 1);
      StepForms(v);
      if SaveStart(w) { SaveRun(w, n); }
      VainStep(w, v);
    }
  }

  lemma VainStep(w: World, v: World)
    requires WriteStart(w) && WriteNeedsErase(w) && NeverClears(v.port.chip.oracle)
    requires Sane(v) && Stalled(v, w.port.chip.mem) && v.d.task == w.d.task
    requires (v.d.op == Reading ==> SaveStart(w)) && (v.d.op == Pending ==> v == w)
    requires SaveStart(w) ==> SaveInv(SaveOf(w), Step(v).d, Step(v).port.chip.mem)
    ensures Stalled(Step(v), w.port.chip.mem) && Step(v).d.task == w.d.task
    ensures (Step(v).d.op == Reading ==> SaveStart(w)) && Step(v).d.op != Pending
  {
    hide SettingsOffset, Sealed, AlignDown, CanWrite, Poll, Act, Step, SaveInv, Stalled, Identifier, WriteNeedsErase;
    StepForms(v);
    if v.d.op == Erasing {
      StallErase(v, w.port.chip.mem);
      EraseLeads(v);
    } else if v.d.op == Reading {
      StalledMeans(v, w.port.chip.mem);
      ReadLeads(v);
      SaveReadStalls(w, v);
    } else {
      BeginStalls(w, v);
    }
  }

  /** A BIOS or settings write ends if and only if it needs no erase, or the
      first erase method that the chip does not ignore clears its unit, or the
      chip ignores them all. */
  lemma WriteEndsExactly(w: World, f: EraseMethod -> Response)
    requires WriteStart(w) && Behaves(w.port.chip.oracle, f, w.d.task)
    ensures Ends(w) <==> !WriteNeedsErase(w) || Answer(f, w.d.small, Sector) != Stuck
  {
    hide SettingsOffset, Sealed, AlignDown, Step, Overwrite, CanWrite;
    if !WriteNeedsErase(w) {
      forall n ensures Steady(Run(w, n)) && Hopeful(Run(w, n)) { CalmRun(w, n); }
      StepsToEnd(w, 0);
    } else if Answer(f, w.d.small, Sector) != Stuck {
      AnswersAreTrusted(w.port.chip.oracle, f, w.d.task, w.d.small, Sector);
      JobEnds(w);
    } else {
      forall n ensures Active(Run(w, n).d.op) { WaitRun(w, f, n); }
    }
  }

  // ---- exactly when a write job succeeds ---------------------------------

  /** The erase the job relies on takes. */
  ghost predicate Promising(f: EraseMethod -> Response, calm: bool, w: World) {
    && Steady(w) && PhaseInv(w.d, w.port.chip) && Behaves(w.port.chip.oracle, f, w.d.task)
    && ProgramsIdeally(w.port.chip.oracle) && w.d.op != Failed
    && (if calm then Calm(w) else Answer(f, w.d.small, w.d.eraseMethod) == Clears)
  }

  lemma PromisingStep(f: EraseMethod -> Response, calm: bool, w: World)
    requires Promising(f, calm, w)
    ensures Step(w).d.op != Failed
    ensures !calm ==> Answer(f, Step(w).d.small, Step(w).d.eraseMethod) == Clears
  {
    hide CanWrite, Erase, AlignDown, ActErase, ActRead, ActWrite, ActVerify, Step, Poll, PhaseInv, Matches, Trusted;
    StepForms(w);
    var d, c := w.d, w.port.chip;
    if Polls(d.op) && !SeenBusy(w) {
      if d.op == Erasing {
        EraseCases(d, c);
        if !calm && !CurrentWritable(d, c) && Escalates(d) { EscalatedIsIgnored(f, w); }
      } else if d.op == Reading {
        ReadKeepsMethod(d, c, w.crc32);
      } else {
        LaterForms(d, c, w.crc32);
        IdealVerifies(d, c);
      }
    }
  }

  /** Only an ignored erase is given up while the job is promising. */
  lemma EscalatedIsIgnored(f: EraseMethod -> Response, w: World)
    requires Promising(f, false, w) && w.d.op == Erasing && !CurrentWritable(w.d, w.port.chip) && Escalates(w.d)
    ensures var m, next := w.d.eraseMethod, NextMethod(w.d.eraseMethod, w.d.small);
      f(m) == Ignored && m != ChipWide && Answer(f, w.d.small, next) == Clears
  {
    hide CanWrite, Poll, PhaseInv;
  }

  lemma ReadKeepsMethod(d: Driver, c: Chip, crc32: seq<Byte> -> Word)
    requires InStep(d, c) && d.op == Reading
    ensures var e := ActRead(d, c, crc32).d;
      e.op != Failed && e.small == d.small && e.eraseMethod == d.eraseMethod
  {
    hide SettingsOffset, Sealed, Overwrite, DataRead, ReadSpan;
  }

  lemma IdealVerifies(d: Driver, c: Chip)
    requires InStep(d, c) && PhaseInv(d, c) && ProgramsIdeally(c.oracle) && c.busy == 0
    ensures d.op == Verifying ==> ActVerify(d, c).d.op != Failed
  {
    hide Writable, Matches, ActVerify;
    if d.op == Verifying {
      VerifyForms(d, c);
      if d.cur < d.size { MatchesMore(c.mem, d.start, d.buffer, d.cur, d.size); }
    }
  }

  /** What both kinds of write keep. */
  lemma WriteRun(w: World, n: nat)
    requires WriteStart(w)
    ensures var v := Run(w, n);
      v.d.task == w.d.task && v.d.op != Idle && PhaseInv(v.d, v.port.chip)
  {
    hide SettingsOffset, Sealed, AlignDown, Step, Overwrite, CanWrite, Images;
    if SaveStart(w) { SaveRun(w, n); } else { BiosRun(w, n); }
  }

  lemma TrustedSteady(w: World)
    requires Steady(w) && Trusted(w.port.chip.oracle, w.d.small, w.d.eraseMethod)
    ensures Steady(Step(w))
  {
    hide Step, Trusted;
    if Active(w.d.op) {
      TrustedStays(w);
      StepDecreases(w);
    } else {
      RestingStays(w);
    }
  }

  lemma {:induction false} PromisingRun(w: World, f: EraseMethod -> Response, n: nat)
    requires WriteStart(w) && Behaves(w.port.chip.oracle, f, w.d.task) && ProgramsIdeally(w.port.chip.oracle)
    requires !WriteNeedsErase(w) || Answer(f, w.d.small, Sector) == Clears
    ensures Promising(f, !WriteNeedsErase(w), Run(w, n)) && Run(w, n).port.chip.oracle == w.port.chip.oracle
    ensures Run(w, n).d.op != Idle
  {
    hide Step, CanWrite, PhaseInv, WriteNeedsErase, Calm, Trusted;
    var calm := !WriteNeedsErase(w);
    WriteRun(w, n);
    if calm { CalmRun(w, n); }
    if n > 0 {
      PromisingRun(w, f, n - 1);
      var v := Run(w, n - 1);
      StepForms(v);
      PromisingStep(f, calm, v);
      if !calm {
        AnswersAreTrusted(v.port.chip.oracle, f, v.d.task, v.d.small, v.d.eraseMethod);
        TrustedSteady(v);
      }
    }
  }

  ghost predicate Completes(w: World)
    requires Valid(w)
  {
    exists n :: Run(w, n).d.op == Completed
  }

  /** On a chip that programs ideally, a BIOS or settings write completes if and
      only if it needs no erase or the first erase method that the chip does
      not ignore clears its unit. */
  lemma WriteSucceedsExactly(w: World, f: EraseMethod -> Response)
    requires WriteStart(w) && Behaves(w.port.chip.oracle, f, w.d.task) && ProgramsIdeally(w.port.chip.oracle)
    ensures Completes(w) <==> !WriteNeedsErase(w) || Answer(f, w.d.small, Sector) == Clears
  {
    hide SettingsOffset, Sealed, AlignDown, Step, Overwrite, CanWrite;
    if !WriteNeedsErase(w) || Answer(f, w.d.small, Sector) == Clears {
      WriteEndsExactly(w, f);
      var n :| !Active(Run(w, n).d.op);
      PromisingRun(w, f, n);
      assert Run(w, n).d.op == Completed;
    } else {
      forall n ensures Run(w, n).d.op != Completed { WaitRun(w, f, n); }
    }
  }
}
