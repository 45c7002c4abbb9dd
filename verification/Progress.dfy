/**
 Progress of write calls. With one writer a call always finishes after a bounded number of steps and
 at most one collector round. With two or more writers a call can be left asleep for good, because
 the collector signals `stop_gc` once and only a write that finds the log full again wakes it.
 */
module Progress {
  import opened Geometry
  import opened FtlState
  import opened Collector
  import opened Runs
  import opened Handshake
  import opened Collections

  /** Steps the running threads take by themselves: no new call, no spurious wakeup. */
  predicate IsProgress(step: Step) { !step.Call? && !step.WakeWriter? && !step.WakeGc? }

  predicate IsSpurious(step: Step) { step.WakeWriter? || step.WakeGc? }

  // ---- One writer ----

  /** Whoever sleeps has someone to wake it. */
  ghost predicate OneWriter(g: Geometry, s: System) {
    && Safe(g, s) && |s.writers| == 1
    && (s.writers[0].pc.Asleep? ==> s.trigger || s.gc.GcSignalling?)
    && (s.gc.GcAsleep? && s.trigger ==> s.writers[0].pc.Triggered?)
  }

  lemma StartOneWriter(g: Geometry, filler: Block)
    requires g.Valid()
    ensures OneWriter(g, Start(g, 1, filler))
  {
  }

  lemma OneWriterStep(g: Geometry, s: System, step: Step)
    requires OneWriter(g, s) && CanDo(g, s, step)
    ensures OneWriter(g, Do(g, s, step))
  {
    StepSafe(g, s, step);
    OneWriterControl(g, s, step);
  }

  lemma OneWriterControl(g: Geometry, s: System, step: Step)
    requires OneWriter(g, s) && CanDo(g, s, step)
    ensures var s' := Do(g, s, step);
      && |s'.writers| == 1
      && (s'.writers[0].pc.Asleep? ==> s'.trigger || s'.gc.GcSignalling?)
      && (s'.gc.GcAsleep? && s'.trigger ==> s'.writers[0].pc.Triggered?)
  {
    hide Apply, Exec, Inv, Geometry.NeedsGc, Geometry.IsAddress;
  }

  /** No deadlock and no lost wakeup: while the call runs some thread can take a step. */
  lemma SomeProgress(g: Geometry, s: System) returns (step: Step)
    requires OneWriter(g, s) && !s.writers[0].pc.Idle?
    ensures IsProgress(step) && CanDo(g, s, step)
  {
    match s.writers[0].pc {
      case Entering => if s.owner.Free? { return Lock(0); }
      case Waking => if s.owner.Free? { return Lock(0); }
      case Checking => return Test(0);
      case MustWait => return Trigger(0);
      case Triggered => return SignalGc(0);
      case Signalled => return Wait(0);
      case Appending => return DoAppend(0);
      case Leaving => return Unlock(0);
      case Asleep =>
    }
    step := CollectorStep(g, s);
  }

  /** The collector can move whenever the writer has to wait for it. */
  lemma CollectorStep(g: Geometry, s: System) returns (step: Step)
    requires OneWriter(g, s)
    requires s.writers[0].pc.Asleep? || ((s.writers[0].pc.Entering? || s.writers[0].pc.Waking?) && !s.owner.Free?)
    ensures IsProgress(step) && CanDo(g, s, step)
  {
    match s.gc {
      case GcEntering => step := GcLock;
      case GcWaking => step := GcLock;
      case GcChecking => step := GcTest;
      case GcRunning =>
        EnumerationExists(Groups(g, s.ftl.logMap).Keys);
        var order :| Enumerates(order, Groups(g, s.ftl.logMap).Keys);
        step := GcRun(order);
      case GcClearing => step := GcClear;
      case GcSignalling => step := GcSignal(if s.writers[0].pc.Asleep? then 0 else -1);
      case GcLeaving => step := GcUnlock;
      case GcAsleep => assert false; step := GcLock;
    }
  }

  // ---- Bounded completion ----

  /** Steps left for the writer before the collector has run, or after it. */
  ghost function WriterRank(pc: Pc): nat {
    match pc
    case Idle => 0
    case Leaving => 1
    case Asleep => 9
    case Signalled => 10
    case Triggered => 15
    case MustWait => 16
    case Appending => 16
    case Checking => 17
    case Entering => 18
    case Waking => 18
  }

  ghost function GcRank(s: System): nat {
    match s.gc
    case GcAsleep => 0
    case GcChecking => 3
    case GcEntering => 4
    case GcWaking => 4
    case GcLeaving => 5
    case GcSignalling => 16
    case GcClearing => 17
    case GcRunning => 2
  }

  const MAX_RANK: nat := 90

  /** A bound on the progress steps until the call of the only writer returns. */
  ghost function Rank(g: Geometry, s: System): (r: nat)
    requires g.Valid() && |s.writers| == 1
    ensures r <= MAX_RANK
  {
    var pc := s.writers[0].pc;
    if pc.Idle? then 0
    else if pc.Leaving? then 1
    else WriterRank(pc) + GcRank(s) + if g.NeedsGc(s.ftl.logEnd) then 50 else 0
  }

  lemma WriterRankDecreases(g: Geometry, s: System, step: Step)
    requires OneWriter(g, s) && !s.writers[0].pc.Idle?
    requires IsProgress(step) && !ByGc(step) && CanDo(g, s, step)
    ensures |Do(g, s, step).writers| == 1 && Rank(g, Do(g, s, step)) < Rank(g, s)
  {
    hide Apply, Exec, Inv, Geometry.NeedsGc, Geometry.IsAddress;
    if !step.DoAppend? {
      assert Do(g, s, step).ftl == s.ftl;
    }
  }

  lemma GcRankDecreases(g: Geometry, s: System, step: Step)
    requires OneWriter(g, s) && !s.writers[0].pc.Idle?
    requires ByGc(step) && IsProgress(step) && !step.GcRun? && CanDo(g, s, step)
    ensures |Do(g, s, step).writers| == 1 && Rank(g, Do(g, s, step)) < Rank(g, s)
  {
    hide Apply, Exec, Inv, Geometry.NeedsGc, Geometry.IsAddress;
    assert Do(g, s, step).ftl == s.ftl;
  }

  lemma GcRunRankDecreases(g: Geometry, s: System, order: seq<int>)
    requires OneWriter(g, s) && !s.writers[0].pc.Idle? && CanDo(g, s, GcRun(order))
    ensures var s' := Do(g, s, GcRun(order)); |s'.writers| == 1 && Rank(g, s') < Rank(g, s)
  {
    hide Apply, Exec, Inv, Geometry.NeedsGc, Geometry.IsAddress;
    RoundEmptiesLog(g, s.ftl, order);
    var s' := Do(g, s, GcRun(order));
    assert s'.writers == s.writers && s'.gc == GcClearing && s'.ftl.logEnd == 0;
  }

  /** Every progress step of either thread brings the call closer to its end. */
  lemma RankDecreases(g: Geometry, s: System, step: Step)
    requires OneWriter(g, s) && !s.writers[0].pc.Idle?
    requires IsProgress(step) && CanDo(g, s, step)
    ensures |Do(g, s, step).writers| == 1 && Rank(g, Do(g, s, step)) < Rank(g, s)
  {
    match step {
      case GcRun(order) => GcRunRankDecreases(g, s, order);
      case _ =>
        if ByGc(step) {
          GcRankDecreases(g, s, step);
        } else {
          WriterRankDecreases(g, s, step);
        }
    }
  }

  ghost function Progressing(steps: seq<Step>): nat {
    if steps == [] then 0
    else Progressing(steps[..|steps| - 1]) + if IsProgress(steps[|steps| - 1]) then 1 else 0
  }

  ghost function Spurious(steps: seq<Step>): nat {
    if steps == [] then 0
    else Spurious(steps[..|steps| - 1]) + if IsSpurious(steps[|steps| - 1]) then 1 else 0
  }

  ghost function Rounds(steps: seq<Step>): nat {
    if steps == [] then 0
    else Rounds(steps[..|steps| - 1]) + if steps[|steps| - 1].GcRun? then 1 else 0
  }

  /** The one writer is inside a call before every step of `steps`. */
  ghost predicate DuringCall(g: Geometry, s: System, steps: seq<Step>)
    requires Safe(g, s)
  {
    steps != [] ==>
      var init := steps[..|steps| - 1];
      DuringCall(g, s, init) && Play(g, s, init).Reached? &&
      |Play(g, s, init).s.writers| == 1 && !Play(g, s, init).s.writers[0].pc.Idle?
  }

  /** Collector rounds still possible before the call appends: one if the log is full, else none. */
  ghost function RoundsLeft(g: Geometry, s: System): nat
    requires g.Valid() && |s.writers| == 1
  {
    if s.writers[0].pc.Leaving? || s.writers[0].pc.Idle? || !g.NeedsGc(s.ftl.logEnd) then 0 else 1
  }

  lemma RoundsLeftStep(g: Geometry, s: System, step: Step)
    requires OneWriter(g, s) && CanDo(g, s, step) && !s.writers[0].pc.Idle?
    ensures |Do(g, s, step).writers| == 1
    ensures RoundsLeft(g, Do(g, s, step)) + (if step.GcRun? then 1 else 0) <= RoundsLeft(g, s)
  {
    hide Apply, Exec, Inv, Geometry.NeedsGc, Geometry.IsAddress;
    if step.GcRun? {
      RoundEmptiesLog(g, s.ftl, step.order);
    } else if !step.DoAppend? {
      assert Do(g, s, step).ftl == s.ftl;
    }
  }

  lemma OtherStepsSpurious(g: Geometry, s: System, step: Step)
    requires OneWriter(g, s) && CanDo(g, s, step) && !s.writers[0].pc.Idle?
    ensures !IsProgress(step) ==> IsSpurious(step)
  {
    hide Apply, Exec, Inv, Geometry.NeedsGc, Geometry.IsAddress;
  }

  /**
   With one writer, `k` spurious wakeups leave room for at most `MAX_RANK * (k + 1)` steps of the two
   threads before the call returns, and for at most one collector round. Together with `SomeProgress`
   every call therefore returns.
   */
  lemma {:induction false} CallBounded(g: Geometry, s: System, steps: seq<Step>)
    requires OneWriter(g, s) && Play(g, s, steps).Reached? && DuringCall(g, s, steps)
    ensures var s' := Play(g, s, steps).s;
      && OneWriter(g, s')
      && Progressing(steps) + Rank(g, s') <= Rank(g, s) + MAX_RANK * Spurious(steps)
      && Rounds(steps) + RoundsLeft(g, s') <= RoundsLeft(g, s) <= 1
      && |steps| == Progressing(steps) + Spurious(steps)
  {
    if steps != [] {
      var init, step := steps[..|steps| - 1], steps[|steps| - 1];
      CallBounded(g, s, init);
      var mid := Play(g, s, init).s;
      OneWriterStep(g, mid, step);
      OtherStepsSpurious(g, mid, step);
      RoundsLeftStep(g, mid, step);
      if IsProgress(step) {
        RankDecreases(g, mid, step);
      }
    }
  }

  lemma {:induction false} OneWriterAlways(g: Geometry, s: System, steps: seq<Step>)
    requires OneWriter(g, s) && Play(g, s, steps).Reached?
    ensures OneWriter(g, Play(g, s, steps).s)
  {
    if steps != [] {
      OneWriterAlways(g, s, steps[..|steps| - 1]);
      OneWriterStep(g, Play(g, s, steps[..|steps| - 1]).s, steps[|steps| - 1]);
    }
  }
}
