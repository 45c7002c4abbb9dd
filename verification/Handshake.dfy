/**
 The mutex and condition-variable handshake between writers and the collector thread, as a state
 machine over its atomic steps. Any number of writers, any interleaving, spurious wakeups included.

 Everything a thread does between acquiring and releasing `gc_mutex` is split into steps too; other
 threads may only queue for the mutex, be woken, or start a call meanwhile.
 */
module Handshake {
  import opened Geometry
  import opened FtlState
  import opened Collector
  import opened Runs
  import opened Collections

  /** Where a writer is inside a write call. */
  datatype Pc =
    | Idle        // outside any call
    | Entering    // wants the mutex
    | Checking    // holds the mutex, about to test the free zones
    | MustWait    // holds the mutex, found too few free zones
    | Triggered   // holds the mutex, has set the trigger
    | Signalled   // holds the mutex, has signalled start_gc
    | Asleep      // waits on stop_gc without the mutex
    | Waking      // woken, wants the mutex back
    | Appending   // holds the mutex, found enough free zones
    | Leaving     // holds the mutex, has appended

  datatype Writer = Writer(pc: Pc, address: int, data: Block)

  /** Where the collector thread is in its loop. */
  datatype GcPc =
    | GcEntering    // wants the mutex
    | GcChecking    // holds the mutex, about to test the trigger
    | GcAsleep      // waits on start_gc without the mutex
    | GcWaking      // woken, wants the mutex back
    | GcRunning     // holds the mutex, saw the trigger
    | GcClearing    // holds the mutex, has collected and reset the log
    | GcSignalling  // holds the mutex, has cleared the trigger
    | GcLeaving     // holds the mutex, has signalled stop_gc

  datatype Owner = Free | HeldBy(i: int) | HeldByGc

  datatype System = System(
    ftl: State,             // the translation layer, shared
    trigger: bool,          // trigger_my_gc
    owner: Owner,           // gc_mutex
    writers: seq<Writer>,
    gc: GcPc,
    events: seq<Event>)     // appends and rounds so far, in the order they happened

  datatype Step =
    | Call(i: int, address: int, data: Block)
    | Lock(i: int)
    | Test(i: int)
    | Trigger(i: int)
    | SignalGc(i: int)
    | Wait(i: int)
    | DoAppend(i: int)
    | Unlock(i: int)
    | GcLock
    | GcTest
    | GcRun(order: seq<int>)
    | GcClear
    | GcSignal(woken: int)     // the writer that the signal wakes, or -1 when none sleeps
    | GcUnlock
    | WakeWriter(i: int)       // spurious
    | WakeGc                   // spurious

  ghost predicate IsWriter(s: System, i: int) { 0 <= i < |s.writers| }

  ghost predicate At(s: System, i: int, pc: Pc) { IsWriter(s, i) && s.writers[i].pc == pc }

  predicate Holds(pc: Pc) {
    pc.Checking? || pc.MustWait? || pc.Triggered? || pc.Signalled? || pc.Appending? || pc.Leaving?
  }

  predicate GcHolds(pc: GcPc) {
    pc.GcChecking? || pc.GcRunning? || pc.GcClearing? || pc.GcSignalling? || pc.GcLeaving?
  }

  ghost predicate NoneAsleep(s: System) { forall i :: IsWriter(s, i) ==> !s.writers[i].pc.Asleep? }

  ghost predicate CanDo(g: Geometry, s: System, step: Step)
    requires g.Valid()
  {
    match step
    case Call(i, a, _) => At(s, i, Idle) && g.IsAddress(a)
    case Lock(i) => (At(s, i, Entering) || At(s, i, Waking)) && s.owner.Free?
    case Test(i) => At(s, i, Checking)
    case Trigger(i) => At(s, i, MustWait)
    case SignalGc(i) => At(s, i, Triggered)
    case Wait(i) => At(s, i, Signalled)
    case DoAppend(i) => At(s, i, Appending)
    case Unlock(i) => At(s, i, Leaving)
    case GcLock => (s.gc.GcEntering? || s.gc.GcWaking?) && s.owner.Free?
    case GcTest => s.gc.GcChecking?
    case GcRun(order) => s.gc.GcRunning? && Enumerates(order, Groups(g, s.ftl.logMap).Keys)
    case GcClear => s.gc.GcClearing?
    case GcSignal(woken) => s.gc.GcSignalling? && (At(s, woken, Asleep) || (woken == -1 && NoneAsleep(s)))
    case GcUnlock => s.gc.GcLeaving?
    case WakeWriter(i) => At(s, i, Asleep)
    case WakeGc => s.gc.GcAsleep?
  }

  ghost function Move(s: System, i: int, pc: Pc): System
    requires IsWriter(s, i)
  {
    s.(writers := s.writers[i := s.writers[i].(pc := pc)])
  }

  ghost function Do(g: Geometry, s: System, step: Step): System
    requires Safe(g, s) && CanDo(g, s, step)
  {
    match step
    case Call(i, a, d) => s.(writers := s.writers[i := Writer(Entering, a, d)])
    case Lock(i) => Move(s, i, Checking).(owner := HeldBy(i))
    case Test(i) => Move(s, i, if g.NeedsGc(s.ftl.logEnd) then MustWait else Appending)
    case Trigger(i) => Move(s, i, Triggered).(trigger := true)
    case SignalGc(i) => Move(s, i, Signalled).(gc := if s.gc.GcAsleep? then GcWaking else s.gc)
    case Wait(i) => Move(s, i, Asleep).(owner := Free)
    case DoAppend(i) =>
      var ev := Wrote(s.writers[i].address, s.writers[i].data);
      Move(s, i, Leaving).(ftl := Apply(g, s.ftl, ev), events := s.events + [ev])
    case Unlock(i) => Move(s, i, Idle).(owner := Free)
    case GcLock => s.(gc := GcChecking, owner := HeldByGc)
    case GcTest => if s.trigger then s.(gc := GcRunning) else s.(gc := GcAsleep, owner := Free)
    case GcRun(order) => s.(gc := GcClearing, ftl := Apply(g, s.ftl, Collected(order)), events := s.events + [Collected(order)])
    case GcClear => s.(gc := GcSignalling, trigger := false)
    case GcSignal(woken) => (if woken == -1 then s else Move(s, woken, Waking)).(gc := GcLeaving)
    case GcUnlock => s.(gc := GcEntering, owner := Free)
    case WakeWriter(i) => Move(s, i, Waking)
    case WakeGc => s.(gc := GcWaking)
  }

  // ---- Safety ----

  /** What the mutex holder's position says about the log. */
  ghost predicate WriterOk(g: Geometry, s: System, w: Writer)
    requires g.Valid()
  {
    && (!w.pc.Idle? ==> g.IsAddress(w.address))
    && (w.pc.MustWait? || w.pc.Triggered? || w.pc.Signalled? ==> g.NeedsGc(s.ftl.logEnd))
    && (w.pc.Triggered? || w.pc.Signalled? ==> s.trigger)
    && (w.pc.Appending? ==> !g.NeedsGc(s.ftl.logEnd))
  }

  ghost predicate Safe(g: Geometry, s: System) {
    && g.Valid()
    && Inv(g, s.ftl)
    && Exec(g, s.events) == Ran(s.ftl)
    // mutual exclusion
    && (forall i :: IsWriter(s, i) ==> (Holds(s.writers[i].pc) <==> s.owner == HeldBy(i)))
    && (GcHolds(s.gc) <==> s.owner == HeldByGc)
    && (s.owner.HeldBy? ==> IsWriter(s, s.owner.i))
    // the trigger is only ever set at the watermark
    && (s.trigger && !s.gc.GcClearing? ==> g.NeedsGc(s.ftl.logEnd))
    && (s.gc.GcRunning? || s.gc.GcClearing? ==> s.trigger)
    && (s.gc.GcClearing? || s.gc.GcSignalling? || s.gc.GcLeaving? ==> !g.NeedsGc(s.ftl.logEnd))
    && (forall i :: IsWriter(s, i) ==> WriterOk(g, s, s.writers[i]))
  }

  /** A fresh device, `n` writers outside any call, and the collector thread just created. */
  ghost function Start(g: Geometry, n: nat, filler: Block): (s: System)
    requires g.Valid()
    ensures Safe(g, s)
  {
    InitInv(g);
    g.LogCapacityBounds();
    g.NeedsGcExactly(0);
    System(Init(g), false, Free, seq(n, _ => Writer(Idle, 0, filler)), GcEntering, [])
  }

  /** Which steps change the translation layer. */
  predicate Mutates(step: Step) { step.DoAppend? || step.GcRun? }

  predicate ByGc(step: Step) {
    step.GcLock? || step.GcTest? || step.GcRun? || step.GcClear? || step.GcSignal? || step.GcUnlock? || step.WakeGc?
  }

  predicate MovesOwner(step: Step) { step.Lock? || step.Wait? || step.Unlock? }

  /** A writer takes or releases the mutex. */
  lemma OwnerStepSafe(g: Geometry, s: System, step: Step)
    requires Safe(g, s) && CanDo(g, s, step) && MovesOwner(step)
    ensures Safe(g, Do(g, s, step))
  {
    hide Inv, Exec, Geometry.NeedsGc, Geometry.IsAddress;
  }

  lemma WriterStepSafe(g: Geometry, s: System, step: Step)
    requires Safe(g, s) && CanDo(g, s, step) && !Mutates(step) && !ByGc(step) && !MovesOwner(step)
    ensures Safe(g, Do(g, s, step))
  {
    hide Inv, Exec, Geometry.NeedsGc, Geometry.IsAddress;
  }

  lemma GcStepSafe(g: Geometry, s: System, step: Step)
    requires Safe(g, s) && CanDo(g, s, step) && !Mutates(step) && ByGc(step)
    ensures Safe(g, Do(g, s, step))
  {
    hide Inv, Exec, Geometry.NeedsGc, Geometry.IsAddress;
  }

  lemma AppendSafe(g: Geometry, s: System, i: int)
    requires Safe(g, s) && CanDo(g, s, DoAppend(i))
    ensures Safe(g, Do(g, s, DoAppend(i)))
  {
    ExecSnoc(g, s.events, Wrote(s.writers[i].address, s.writers[i].data));
  }

  /** After a round the log is empty, which is below the watermark. */
  lemma RoundEmptiesLog(g: Geometry, st: State, order: seq<int>)
    requires Inv(g, st) && Enabled(g, st, Collected(order))
    ensures Apply(g, st, Collected(order)).logEnd == 0 && !g.NeedsGc(0)
  {
    g.LogCapacityBounds();
    g.NeedsGcExactly(0);
  }

  lemma LogEmptiedSafe(g: Geometry, s: System, st': State, events': seq<Event>)
    requires Safe(g, s) && s.gc.GcRunning?
    requires Inv(g, st') && !g.NeedsGc(st'.logEnd) && Exec(g, events') == Ran(st')
    ensures Safe(g, s.(gc := GcClearing, ftl := st', events := events'))
  {
  }

  lemma GcRunSafe(g: Geometry, s: System, order: seq<int>)
    requires Safe(g, s) && CanDo(g, s, GcRun(order))
    ensures Safe(g, Do(g, s, GcRun(order)))
  {
    ExecSnoc(g, s.events, Collected(order));
    RoundEmptiesLog(g, s.ftl, order);
    LogEmptiedSafe(g, s, Apply(g, s.ftl, Collected(order)), s.events + [Collected(order)]);
  }

  /** Every step keeps mutual exclusion, the trigger discipline, and the history of the translation layer. */
  lemma StepSafe(g: Geometry, s: System, step: Step)
    requires Safe(g, s) && CanDo(g, s, step)
    ensures Safe(g, Do(g, s, step))
  {
    match step {
      case DoAppend(i) => AppendSafe(g, s, i);
      case GcRun(order) => GcRunSafe(g, s, order);
      case _ =>
        if ByGc(step) {
          GcStepSafe(g, s, step);
        } else if MovesOwner(step) {
          OwnerStepSafe(g, s, step);
        } else {
          WriterStepSafe(g, s, step);
        }
    }
  }

  datatype Played = Blocked | Reached(s: System)

  /** The system after `steps` from `s`, or `Blocked` when some step could not be taken. */
  ghost function Play(g: Geometry, s: System, steps: seq<Step>): (r: Played)
    requires Safe(g, s)
    ensures r.Reached? ==> Safe(g, r.s)
  {
    if steps == [] then Reached(s)
    else
      var r := Play(g, s, steps[..|steps| - 1]);
      var step := steps[|steps| - 1];
      if r.Reached? && CanDo(g, r.s, step) then StepSafe(g, r.s, step); Reached(Do(g, r.s, step)) else Blocked
  }

  ghost predicate Reachable(g: Geometry, n: nat, s: System)
    requires g.Valid()
  {
    exists filler: Block, steps: seq<Step> :: Play(g, Start(g, n, filler), steps) == Reached(s)
  }

  /**
   Safety in every reachable state, for any number of writers: at most one thread holds the mutex; the
   collector only runs at the watermark; a writer only appends below it, with more than `watermark`
   zones free; and the translation layer is in the state of a sequential run of its events.
   */
  lemma HandshakeSafety(g: Geometry, n: nat, s: System)
    requires g.Valid() && Reachable(g, n, s)
    ensures Safe(g, s)
    ensures forall i, j :: IsWriter(s, i) && IsWriter(s, j) && Holds(s.writers[i].pc) && Holds(s.writers[j].pc) ==> i == j
    ensures forall i :: IsWriter(s, i) && Holds(s.writers[i].pc) ==> !GcHolds(s.gc)
    ensures s.gc.GcRunning? ==> s.trigger && s.ftl.logEnd == g.LogCapacity()
    ensures forall i :: At(s, i, Appending) ==> g.FreeZones(s.ftl.logEnd, 1) > g.watermark
    ensures s.trigger && !s.gc.GcClearing? ==> s.ftl.logEnd == g.LogCapacity()
    ensures Exec(g, s.events) == Ran(s.ftl)
  {
    var filler, steps :| Play(g, Start(g, n, filler), steps) == Reached(s);
    g.NeedsGcExactly(s.ftl.logEnd);
    forall i, j | IsWriter(s, i) && IsWriter(s, j) && Holds(s.writers[i].pc) && Holds(s.writers[j].pc)
      ensures i == j
    {
      assert s.owner == HeldBy(i) && s.owner == HeldBy(j);
    }
  }

  /**
   Refinement under concurrency: in every reachable state, for any number of writers and any
   interleaving, the contents are those of the flat device after the appends in their order.
   */
  lemma ConcurrentRefinement(g: Geometry, n: nat, s: System, a: int)
    requires g.Valid() && Reachable(g, n, s) && g.IsAddress(a)
    ensures Inv(g, s.ftl) && AgreeAt(g, s.ftl, FlatExec(g, s.events), Written(s.events), a)
  {
    hide Reachable;
    HandshakeSafety(g, n, s);
    RunRefinesFlat(g, s.events, a);
  }
}
