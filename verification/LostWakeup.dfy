/**
 Exactly when a write call can be left behind: with two writers or more. The collector signals
 `stop_gc` once per round although every writer that found the log full waits on it.
 */
module LostWakeup {
  import opened Geometry
  import opened FtlState
  import opened Collector
  import opened Runs
  import opened Handshake
  import opened Progress
  import opened Collections

  /** Some call is running and no thread can take a step except by a spurious wakeup or a new call. */
  ghost predicate Stuck(g: Geometry, s: System)
    requires g.Valid()
  {
    && (exists i :: IsWriter(s, i) && !s.writers[i].pc.Idle?)
    && (forall step :: IsProgress(step) ==> !CanDo(g, s, step))
  }

  lemma ReachStep(g: Geometry, n: nat, s: System, step: Step) returns (s': System)
    requires g.Valid() && Reachable(g, n, s) && Safe(g, s) && CanDo(g, s, step)
    ensures s' == Do(g, s, step) && Reachable(g, n, s') && Safe(g, s')
  {
    var filler, steps :| Play(g, Start(g, n, filler), steps) == Reached(s);
    s' := Do(g, s, step);
    assert (steps + [step])[..|steps|] == steps;
    assert Play(g, Start(g, n, filler), steps + [step]) == Reached(s');
  }

  /** All pcs of `s'` are those of `s`, except that writer `i` is at `pc`. */
  ghost predicate OnlyMoved(s: System, s': System, i: int, pc: Pc) {
    && |s'.writers| == |s.writers| && At(s', i, pc)
    && forall j :: IsWriter(s, j) && j != i ==> s'.writers[j] == s.writers[j]
  }

  /** A writer takes the mutex and tests the free zones. */
  lemma LockAndTest(g: Geometry, n: nat, s: System, i: int) returns (s': System)
    requires g.Valid() && Reachable(g, n, s) && Safe(g, s)
    requires (At(s, i, Entering) || At(s, i, Waking)) && s.owner.Free?
    ensures Reachable(g, n, s') && Safe(g, s')
    ensures OnlyMoved(s, s', i, if g.NeedsGc(s.ftl.logEnd) then MustWait else Appending)
    ensures s'.gc == s.gc && s'.trigger == s.trigger && s'.ftl == s.ftl
    ensures s'.writers[i].data == s.writers[i].data
  {
    hide Reachable, Play;
    var s1 := ReachStep(g, n, s, Lock(i));
    s' := ReachStep(g, n, s1, Test(i));
  }

  /** A writer whose call finds room appends and returns. */
  lemma FinishWrite(g: Geometry, n: nat, s: System, i: int) returns (s': System)
    requires g.Valid() && Reachable(g, n, s) && Safe(g, s)
    requires (At(s, i, Entering) || At(s, i, Waking)) && s.owner.Free? && !g.NeedsGc(s.ftl.logEnd)
    ensures Reachable(g, n, s') && Safe(g, s')
    ensures OnlyMoved(s, s', i, Idle) && s'.owner.Free? && s'.gc == s.gc && s'.trigger == s.trigger
    ensures s'.ftl.logEnd == s.ftl.logEnd + 1
  {
    hide Reachable, Play, Exec, Inv, Geometry.NeedsGc;
    var s1 := LockAndTest(g, n, s, i);
    var s2 := ReachStep(g, n, s1, DoAppend(i));
    assert OnlyMoved(s, s2, i, Leaving) && s2.gc == s.gc && s2.trigger == s.trigger;
    s' := ReachStep(g, n, s2, Unlock(i));
  }

  /** A writer whose call finds the log full falls asleep, leaving the trigger set and the collector awake. */
  lemma FallAsleep(g: Geometry, n: nat, s: System, i: int) returns (s': System)
    requires g.Valid() && Reachable(g, n, s) && Safe(g, s) && g.IsAddress(0)
    requires At(s, i, Idle) && s.owner.Free? && g.NeedsGc(s.ftl.logEnd)
    requires s.gc.GcAsleep? || s.gc.GcWaking?
    ensures Reachable(g, n, s') && Safe(g, s')
    ensures OnlyMoved(s, s', i, Asleep) && s'.owner.Free? && s'.gc.GcWaking? && s'.trigger && s'.ftl == s.ftl
  {
    hide Reachable, Play;
    var s1 := ReachStep(g, n, s, Call(i, 0, s.writers[i].data));
    var s2 := LockAndTest(g, n, s1, i);
    s' := TriggerAndWait(g, n, s2, i);
  }

  lemma TriggerAndWait(g: Geometry, n: nat, s: System, i: int) returns (s': System)
    requires g.Valid() && Reachable(g, n, s) && Safe(g, s)
    requires At(s, i, MustWait) && (s.gc.GcAsleep? || s.gc.GcWaking?)
    ensures Reachable(g, n, s') && Safe(g, s')
    ensures OnlyMoved(s, s', i, Asleep) && s'.owner.Free? && s'.gc.GcWaking? && s'.trigger && s'.ftl == s.ftl
  {
    hide Reachable, Play;
    var s1 := ReachStep(g, n, s, Trigger(i));
    var s2 := ReachStep(g, n, s1, SignalGc(i));
    s' := ReachStep(g, n, s2, Wait(i));
  }

  /** One round of the collector that wakes writer `i` and ends with the collector asleep again. */
  lemma RunCollector(g: Geometry, n: nat, s: System, i: int) returns (s': System)
    requires g.Valid() && Reachable(g, n, s) && Safe(g, s)
    requires s.gc.GcWaking? && s.trigger && s.owner.Free? && At(s, i, Asleep)
    ensures Reachable(g, n, s') && Safe(g, s')
    ensures OnlyMoved(s, s', i, Waking) && s'.owner.Free? && s'.gc.GcAsleep? && !s'.trigger
    ensures !g.NeedsGc(s'.ftl.logEnd)
  {
    hide Reachable, Play;
    var s1 := ReachStep(g, n, s, GcLock);
    var s2 := ReachStep(g, n, s1, GcTest);
    EnumerationExists(Groups(g, s2.ftl.logMap).Keys);
    var order :| Enumerates(order, Groups(g, s2.ftl.logMap).Keys);
    var s3 := ReachStep(g, n, s2, GcRun(order));
    assert s3.writers == s2.writers && s3.gc.GcClearing?;
    s' := ClearAndSleep(g, n, s3, i);
  }

  lemma ClearAndSleep(g: Geometry, n: nat, s: System, i: int) returns (s': System)
    requires g.Valid() && Reachable(g, n, s) && Safe(g, s) && s.gc.GcClearing? && At(s, i, Asleep)
    ensures Reachable(g, n, s') && Safe(g, s')
    ensures OnlyMoved(s, s', i, Waking) && s'.owner.Free? && s'.gc.GcAsleep? && !s'.trigger
    ensures !g.NeedsGc(s'.ftl.logEnd)
  {
    hide Reachable, Play;
    var s1 := ReachStep(g, n, s, GcClear);
    var s2 := ReachStep(g, n, s1, GcSignal(i));
    var s3 := ReachStep(g, n, s2, GcUnlock);
    var s4 := ReachStep(g, n, s3, GcLock);
    s' := ReachStep(g, n, s4, GcTest);
  }

  ghost predicate Quiet(s: System) {
    s.owner.Free? && s.gc.GcAsleep? && !s.trigger && forall i :: IsWriter(s, i) ==> s.writers[i].pc.Idle?
  }

  /** Writing block after block fills the log. */
  lemma {:induction false} FillLog(g: Geometry, n: nat, s: System) returns (s': System)
    requires g.Valid() && Reachable(g, n, s) && Safe(g, s) && g.IsAddress(0)
    requires Quiet(s) && |s.writers| == n >= 1
    ensures Reachable(g, n, s') && Safe(g, s') && Quiet(s') && |s'.writers| == n && g.NeedsGc(s'.ftl.logEnd)
    decreases g.LogCapacity() - s.ftl.logEnd
  {
    hide Reachable, Play;
    g.NeedsGcExactly(s.ftl.logEnd);
    if g.NeedsGc(s.ftl.logEnd) {
      s' := s;
    } else {
      var s1 := ReachStep(g, n, s, Call(0, 0, s.writers[0].data));
      var s2 := FinishWrite(g, n, s1, 0);
      s' := FillLog(g, n, s2);
    }
  }

  /** From the start, the first call fills the log with the collector asleep. */
  lemma ReachFullLog(g: Geometry, n: nat) returns (s': System)
    requires g.Valid() && g.IsAddress(0) && n >= 1
    ensures Reachable(g, n, s') && Safe(g, s') && Quiet(s') && |s'.writers| == n && g.NeedsGc(s'.ftl.logEnd)
  {
    var s0 := Start(g, n, ZeroBlock(g));
    assert Play(g, s0, []) == Reached(s0);
    var s1 := ReachStep(g, n, s0, GcLock);
    var s2 := ReachStep(g, n, s1, GcTest);
    s' := FillLog(g, n, s2);
  }

  /** Nobody holds the mutex, nobody wants it, and some writer sleeps: nothing can move. */
  lemma AbandonedIsStuck(g: Geometry, s: System)
    requires Safe(g, s) && s.owner.Free? && s.gc.GcAsleep? && At(s, 1, Asleep)
    requires forall j :: IsWriter(s, j) ==> s.writers[j].pc.Idle? || s.writers[j].pc.Asleep?
    ensures Stuck(g, s)
  {
    hide Inv, Exec, WriterOk;
    forall step | IsProgress(step) ensures !CanDo(g, s, step) {
      NothingToDo(g, s, step);
    }
  }

  lemma NothingToDo(g: Geometry, s: System, step: Step)
    requires Safe(g, s) && s.owner.Free? && s.gc.GcAsleep? && IsProgress(step)
    requires forall j :: IsWriter(s, j) ==> s.writers[j].pc.Idle? || s.writers[j].pc.Asleep?
    ensures !CanDo(g, s, step)
  {
    hide Inv, Exec, WriterOk;
  }

  /** All writers but the first two are outside any call and those two sleep. */
  ghost predicate FirstTwoAsleep(s: System) {
    && At(s, 0, Asleep) && At(s, 1, Asleep)
    && forall j :: IsWriter(s, j) && j >= 2 ==> s.writers[j].pc.Idle?
  }

  lemma FirstTwoFallAsleep(g: Geometry, n: nat) returns (s': System)
    requires g.Valid() && g.IsAddress(0) && n >= 2
    ensures Reachable(g, n, s') && Safe(g, s') && FirstTwoAsleep(s')
    ensures s'.gc.GcWaking? && s'.trigger && s'.owner.Free?
  {
    hide Reachable, Play;
    var s0 := ReachFullLog(g, n);
    var s1 := FallAsleep(g, n, s0, 0);
    s' := FallAsleep(g, n, s1, 1);
  }

  /** Two writers: the second is left asleep after the first was woken and has finished. */
  lemma TwoWritersGetStuck(g: Geometry, n: nat) returns (s': System)
    requires g.Valid() && g.IsAddress(0) && n >= 2
    ensures Reachable(g, n, s') && Stuck(g, s')
  {
    hide Reachable, Play, Safe, Stuck, Geometry.NeedsGc, Geometry.IsAddress;
    var s2 := FirstTwoFallAsleep(g, n);
    var s3 := RunCollector(g, n, s2, 0);
    s' := FinishWrite(g, n, s3, 0);
    AbandonedIsStuck(g, s');
  }

  /**
   A write call can get stuck in some reachable state if and only if the device has more than one
   writer (and at least one address to write to).
   */
  lemma StuckIffSeveralWriters(g: Geometry, n: nat)
    requires g.Valid() && g.dataZones >= 1
    ensures (exists s :: Reachable(g, n, s) && Stuck(g, s)) <==> n >= 2
  {
    if n >= 2 {
      g.JoinThenSplit(g.logZones, 0);
      var s := TwoWritersGetStuck(g, n);
    } else {
      forall s | Reachable(g, n, s)
        ensures !Stuck(g, s)
      {
        var filler, steps :| Play(g, Start(g, n, filler), steps) == Reached(s);
        if n == 1 {
          OneWriterAlways(g, Start(g, n, filler), steps);
          if !s.writers[0].pc.Idle? {
            var step := SomeProgress(g, s);
          }
        } else {
          NoWriters(g, Start(g, n, filler), steps);
        }
      }
    }
  }

  lemma {:induction false} NoWriters(g: Geometry, s: System, steps: seq<Step>)
    requires Safe(g, s) && s.writers == [] && Play(g, s, steps).Reached?
    ensures Play(g, s, steps).s.writers == []
  {
    if steps != [] {
      NoWriters(g, s, steps[..|steps| - 1]);
      assert CanDo(g, Play(g, s, steps[..|steps| - 1]).s, steps[|steps| - 1]);
    }
  }
}
