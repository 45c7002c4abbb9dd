/**
 What a concurrent run appends, told by the steps of the run alone: each append carries what the last
 call of its writer asked for, and each call is appended once.
 */
module CallHistory {
  import opened Geometry
  import opened FtlState
  import opened Runs
  import opened Handshake

  /** What a writer last asked for. */
  datatype Request = NoCall | Asked(address: int, data: Block)

  /** The arguments of the last call of writer `i`. */
  ghost function LastCall(steps: seq<Step>, i: int): Request {
    if steps == [] then NoCall
    else
      var init, step := steps[..|steps| - 1], steps[|steps| - 1];
      if step.Call? && step.i == i then Asked(step.address, step.data) else LastCall(init, i)
  }

  /** The event that a step after `steps` leaves in the history, if any. */
  ghost function EventOf(steps: seq<Step>, step: Step): seq<Event> {
    match step
    case DoAppend(i) => if LastCall(steps, i).Asked? then [Wrote(LastCall(steps, i).address, LastCall(steps, i).data)] else []
    case GcRun(order) => [Collected(order)]
    case _ => []
  }

  ghost function History(steps: seq<Step>): seq<Event> {
    if steps == [] then []
    else History(steps[..|steps| - 1]) + EventOf(steps[..|steps| - 1], steps[|steps| - 1])
  }

  /** A writer outside its first call works on what its last call asked for. */
  ghost predicate Remembers(steps: seq<Step>, s: System, i: int)
    requires IsWriter(s, i)
  {
    match LastCall(steps, i)
    case NoCall => s.writers[i].pc.Idle?
    case Asked(a, data) => s.writers[i].address == a && s.writers[i].data == data
  }

  lemma StepRemembers(g: Geometry, steps: seq<Step>, s: System, step: Step, j: int)
    requires Safe(g, s) && CanDo(g, s, step) && IsWriter(s, j) && Remembers(steps, s, j)
    ensures |Do(g, s, step).writers| == |s.writers| && Remembers(steps + [step], Do(g, s, step), j)
  {
    hide Apply, Exec, Inv, Enabled, Geometry.NeedsGc, Geometry.IsAddress;
    assert (steps + [step])[..|steps|] == steps;
  }

  lemma StepEvent(g: Geometry, steps: seq<Step>, s: System, step: Step)
    requires Safe(g, s) && CanDo(g, s, step)
    requires forall i :: IsWriter(s, i) ==> Remembers(steps, s, i)
    ensures Do(g, s, step).events == s.events + EventOf(steps, step)
  {
    hide Apply, Exec, Inv, Enabled, Geometry.NeedsGc, Geometry.IsAddress;
    if step.DoAppend? {
      assert Remembers(steps, s, step.i);
    }
  }

  /**
   In every run of `n` writers the appends and rounds are those of the steps, in their order; the append
   of a writer carries the address and block of its last call.
   */
  lemma {:induction false} HistoryOfSteps(g: Geometry, n: nat, filler: Block, steps: seq<Step>)
    requires g.Valid() && Play(g, Start(g, n, filler), steps).Reached?
    ensures var s := Play(g, Start(g, n, filler), steps).s;
      && s.events == History(steps) && |s.writers| == n
      && forall i :: IsWriter(s, i) ==> Remembers(steps, s, i)
  {
    hide Safe, CanDo, Do, Remembers, EventOf;
    if steps == [] {
      StartRemembers(g, n, filler);
    } else {
      var init, step := steps[..|steps| - 1], steps[|steps| - 1];
      HistoryOfSteps(g, n, filler, init);
      var s := Play(g, Start(g, n, filler), init).s;
      StepEvent(g, init, s, step);
      KeepsCount(g, s, step);
      assert init + [step] == steps;
      forall i | IsWriter(s, i)
        ensures Remembers(steps, Do(g, s, step), i)
      {
        StepRemembers(g, init, s, step, i);
      }
    }
  }

  lemma StartRemembers(g: Geometry, n: nat, filler: Block)
    requires g.Valid()
    ensures var s := Start(g, n, filler);
      s.events == [] && |s.writers| == n && forall i :: IsWriter(s, i) ==> Remembers([], s, i)
  {
  }

  lemma KeepsCount(g: Geometry, s: System, step: Step)
    requires Safe(g, s) && CanDo(g, s, step)
    ensures |Do(g, s, step).writers| == |s.writers|
  {
    hide Apply, Exec, Inv, Enabled, Geometry.NeedsGc, Geometry.IsAddress;
  }

  // ---- Each call is appended once ----

  ghost function Calls(steps: seq<Step>, i: int): nat {
    if steps == [] then 0
    else Calls(steps[..|steps| - 1], i) + if steps[|steps| - 1].Call? && steps[|steps| - 1].i == i then 1 else 0
  }

  ghost function Appends(steps: seq<Step>, i: int): nat {
    if steps == [] then 0
    else Appends(steps[..|steps| - 1], i) + if steps[|steps| - 1] == DoAppend(i) then 1 else 0
  }

  /** The call of the writer has not appended yet. */
  function Pending(pc: Pc): nat { if pc.Idle? || pc.Leaving? then 0 else 1 }

  lemma StepPending(g: Geometry, s: System, step: Step, i: int)
    requires Safe(g, s) && CanDo(g, s, step) && IsWriter(s, i)
    ensures IsWriter(Do(g, s, step), i)
    ensures Pending(Do(g, s, step).writers[i].pc)
            == Pending(s.writers[i].pc) + (if step.Call? && step.i == i then 1 else 0) - (if step == DoAppend(i) then 1 else 0)
  {
    hide Apply, Exec, Inv, Enabled, Geometry.NeedsGc, Geometry.IsAddress;
  }

  /** In every run each call of each writer has been appended exactly once, or is still on its way to its append. */
  lemma {:induction false} CallsAppendedOnce(g: Geometry, n: nat, filler: Block, steps: seq<Step>, i: int)
    requires g.Valid() && Play(g, Start(g, n, filler), steps).Reached? && 0 <= i < n
    ensures var s := Play(g, Start(g, n, filler), steps).s;
      IsWriter(s, i) && Calls(steps, i) == Appends(steps, i) + Pending(s.writers[i].pc)
  {
    hide Safe, CanDo, Do, Pending;
    if steps == [] {
      StartPending(g, n, filler, i);
    } else {
      var init, step := steps[..|steps| - 1], steps[|steps| - 1];
      CallsAppendedOnce(g, n, filler, init, i);
      StepPending(g, Play(g, Start(g, n, filler), init).s, step, i);
    }
  }

  lemma StartPending(g: Geometry, n: nat, filler: Block, i: int)
    requires g.Valid() && 0 <= i < n
    ensures IsWriter(Start(g, n, filler), i) && Pending(Start(g, n, filler).writers[i].pc) == 0
  {
  }

  // ---- What a call wrote reads back ----

  /** Step `k` appends `data` to `a`, and no later step of the run appends to `a`. */
  ghost predicate LastAppendTo(steps: seq<Step>, k: int, a: int, data: Block) {
    && 0 <= k < |steps| && EventOf(steps[..k], steps[k]) == [Wrote(a, data)]
    && forall j, d :: k < j < |steps| ==> EventOf(steps[..j], steps[j]) != [Wrote(a, d)]
  }

  lemma {:induction false} LastAppendInHistory(steps: seq<Step>, k: int, a: int, data: Block) returns (e: int)
    requires LastAppendTo(steps, k, a, data)
    ensures LastWrite(History(steps), e) && History(steps)[e] == Wrote(a, data)
  {
    hide EventOf;
    var init, step := steps[..|steps| - 1], steps[|steps| - 1];
    if k == |steps| - 1 {
      e := |History(init)|;
    } else {
      assert init[..k] == steps[..k];
      forall j, d | k < j < |init|
        ensures EventOf(init[..j], init[j]) != [Wrote(a, d)]
      {
        assert init[..j] == steps[..j];
      }
      e := LastAppendInHistory(init, k, a, data);
      OneEvent(init, step);
      var h, more := History(init), EventOf(init, step);
      assert History(steps) == h + more;
      if more != [] && more[0].Wrote? {
        assert more == [Wrote(more[0].address, more[0].data)];
      }
    }
  }

  lemma OneEvent(steps: seq<Step>, step: Step)
    ensures |EventOf(steps, step)| <= 1
  {
  }

  /**
   Once a call has appended, its address reads as the block of that call, however many rounds and other
   appends follow, until a later append to the same address.
   */
  lemma CallReadsBack(g: Geometry, n: nat, filler: Block, steps: seq<Step>, k: int, a: int, data: Block)
    requires g.Valid() && Play(g, Start(g, n, filler), steps).Reached? && LastAppendTo(steps, k, a, data)
    ensures var s := Play(g, Start(g, n, filler), steps).s;
      Inv(g, s.ftl) && g.IsAddress(a) && Lookup(g, s.ftl, a) == data
  {
    hide Play, Do, CanDo, Lookup, Inv, Apply, LastAppendTo, Geometry.IsAddress;
    var s := Play(g, Start(g, n, filler), steps).s;
    HistoryOfSteps(g, n, filler, steps);
    var e := LastAppendInHistory(steps, k, a, data);
    AddressesOfRun(g, s.events, e);
    LastWriteWins(g, s.events, e);
  }

  /** In every run the contents are those of the flat device after what the calls asked for, in the order of their appends. */
  lemma ConcurrentRunRefinesFlat(g: Geometry, n: nat, filler: Block, steps: seq<Step>, a: int)
    requires g.Valid() && Play(g, Start(g, n, filler), steps).Reached? && g.IsAddress(a)
    ensures var s := Play(g, Start(g, n, filler), steps).s;
      Inv(g, s.ftl) && AgreeAt(g, s.ftl, FlatExec(g, History(steps)), Written(History(steps)), a)
  {
    hide Play, Do, CanDo, Lookup, Inv, Apply, FlatExec, Written, Geometry.IsAddress, AgreeAt;
    var s := Play(g, Start(g, n, filler), steps).s;
    assert Reachable(g, n, s);
    HistoryOfSteps(g, n, filler, steps);
    ConcurrentRefinement(g, n, s, a);
  }

  /** A run writes to user addresses only. */
  lemma {:induction false} AddressesOfRun(g: Geometry, events: seq<Event>, e: int)
    requires g.Valid() && Exec(g, events).Ran? && 0 <= e < |events| && events[e].Wrote?
    ensures g.IsAddress(events[e].address)
  {
    hide Apply, Inv, Geometry.IsAddress;
    if e < |events| - 1 {
      assert events[..|events| - 1][e] == events[e];
      AddressesOfRun(g, events[..|events| - 1], e);
    }
  }
}
