/**
 Whole runs of the translation layer: any sequence of one-block appends and collector rounds from a
 fresh device, with any merge order in each round.
 */
module Runs {
  import opened Arith
  import opened Geometry
  import opened FtlState
  import opened Collector
  import opened GcRound
  import opened LogWrite
  import opened FlatDevice
  import opened Collections

  datatype Event = Wrote(address: int, data: Block) | Collected(order: seq<int>)

  /** A write appends only when enough zones are free; the collector runs only when they are not. */
  ghost predicate Enabled(g: Geometry, st: State, ev: Event)
    requires Inv(g, st)
  {
    match ev
    case Wrote(a, _) => g.IsAddress(a) && !g.NeedsGc(st.logEnd)
    case Collected(order) => g.NeedsGc(st.logEnd) && Enumerates(order, Groups(g, st.logMap).Keys)
  }

  ghost function Apply(g: Geometry, st: State, ev: Event): (st': State)
    requires Inv(g, st) && Enabled(g, st, ev)
    ensures Inv(g, st')
  {
    g.NeedsGcExactly(st.logEnd);
    match ev
    case Wrote(a, data) => AppendInv(g, st, a, data); Append(g, st, a, data)
    case Collected(order) => CollectExactly(g, st, order); Collect(g, st, order)
  }

  datatype Outcome = Impossible | Ran(st: State)

  /** The state after `events`, or `Impossible` when some event was not enabled. */
  ghost function Exec(g: Geometry, events: seq<Event>): (r: Outcome)
    requires g.Valid()
    ensures r.Ran? ==> Inv(g, r.st)
  {
    if events == [] then InitInv(g); Ran(Init(g))
    else
      var r := Exec(g, events[..|events| - 1]);
      if r.Ran? && Enabled(g, r.st, events[|events| - 1]) then Ran(Apply(g, r.st, events[|events| - 1])) else Impossible
  }

  lemma ExecSnoc(g: Geometry, events: seq<Event>, ev: Event)
    requires g.Valid() && Exec(g, events).Ran? && Enabled(g, Exec(g, events).st, ev)
    ensures Exec(g, events + [ev]) == Ran(Apply(g, Exec(g, events).st, ev))
  {
    assert (events + [ev])[..|events|] == events;
  }

  /** A run goes on with a write as long as the log is not full. */
  lemma ExecWrite(g: Geometry, events: seq<Event>, st: State, a: int, data: Block)
    requires g.Valid() && Exec(g, events) == Ran(st) && g.IsAddress(a) && st.logEnd < g.LogCapacity()
    ensures Inv(g, st) && Exec(g, events + [Wrote(a, data)]) == Ran(Append(g, st, a, data))
    ensures Written(events + [Wrote(a, data)]) == Written(events) + {a}
  {
    g.NeedsGcExactly(st.logEnd);
    ExecSnoc(g, events, Wrote(a, data));
    WrittenSnoc(events, Wrote(a, data));
  }

  // ---- The same run on the flat device ----

  ghost function Written(events: seq<Event>): set<int> {
    set i | 0 <= i < |events| && events[i].Wrote? :: events[i].address
  }

  /** The flat device takes the writes; the collector does not exist for it. */
  ghost function FlatStep(g: Geometry, file: seq<Block>, ev: Event): (file': seq<Block>)
    requires g.Valid() && |file| == FileBlocks(g)
    ensures |file'| == |file|
  {
    if ev.Wrote? && g.IsAddress(ev.address) then
      g.BlockIndex(ev.address);
      Overwrite(file, g.Blocks(ev.address), [ev.data])
    else file
  }

  ghost function FlatExec(g: Geometry, events: seq<Event>): (file: seq<Block>)
    requires g.Valid()
    ensures |file| == FileBlocks(g)
  {
    if events == [] then seq(FileBlocks(g), _ => ZeroBlock(g))
    else FlatStep(g, FlatExec(g, events[..|events| - 1]), events[|events| - 1])
  }

  function FileBlocks(g: Geometry): (n: nat)
    ensures n == Mul(g.dataZones, g.zoneBlocks)
  {
    Mul(g.dataZones, g.zoneBlocks)
  }

  /** How a state of the translation layer and a flat file agree on address `a`. */
  ghost predicate AgreeAt(g: Geometry, st: State, file: seq<Block>, written: set<int>, a: int)
    requires Inv(g, st) && g.IsAddress(a) && |file| == FileBlocks(g)
  {
    g.BlockIndex(a);
    && (a in st.logMap ==> a in written)
    && (a in written ==> a in st.logMap || g.LogicalZone(a) in st.dataMap)
    && (a in written || g.LogicalZone(a) !in st.dataMap ==> Lookup(g, st, a) == file[g.Blocks(a)])
    && (a !in written ==> file[g.Blocks(a)] == ZeroBlock(g))
  }

  ghost function WrittenBy(ev: Event): set<int> { if ev.Wrote? then {ev.address} else {} }

  lemma WrittenSnoc(events: seq<Event>, ev: Event)
    ensures Written(events + [ev]) == Written(events) + WrittenBy(ev)
  {
    var all := events + [ev];
    assert all[|events|] == ev && forall i :: 0 <= i < |events| ==> all[i] == events[i];
    forall x | x in Written(events) ensures x in Written(all) {
      var i :| 0 <= i < |events| && events[i].Wrote? && events[i].address == x;
      assert all[i].Wrote? && all[i].address == x;
    }
  }

  /**
   Whole-run refinement. After any run, however many collector rounds it contains, reading a written
   address returns the last block written there, as the flat device does; an address whose logical
   zone has no data zone and that was never written reads as zeros on both.
   */
  lemma {:induction false} RunRefinesFlat(g: Geometry, events: seq<Event>, a: int)
    requires g.Valid() && Exec(g, events).Ran? && g.IsAddress(a)
    ensures AgreeAt(g, Exec(g, events).st, FlatExec(g, events), Written(events), a)
  {
    hide Apply, Enabled, FlatStep;
    if events == [] {
      LookupCases(g, Init(g), a);
      g.BlockIndex(a);
    } else {
      var init, ev := events[..|events| - 1], events[|events| - 1];
      RunRefinesFlat(g, init, a);
      StepRefinesFlat(g, Exec(g, init).st, FlatExec(g, init), Written(init), ev, a);
      WrittenSnoc(init, ev);
      assert events == init + [ev];
    }
  }

  lemma StepRefinesFlat(g: Geometry, st: State, file: seq<Block>, written: set<int>, ev: Event, a: int)
    requires Inv(g, st) && g.IsAddress(a) && |file| == FileBlocks(g) && Enabled(g, st, ev)
    requires AgreeAt(g, st, file, written, a)
    ensures AgreeAt(g, Apply(g, st, ev), FlatStep(g, file, ev), written + WrittenBy(ev), a)
  {
    match ev {
      case Wrote(b, data) => WriteRefinesFlat(g, st, file, written, b, data, a);
      case Collected(order) => CollectPreserves(g, st, order, a);
    }
  }

  lemma WriteRefinesFlat(g: Geometry, st: State, file: seq<Block>, written: set<int>, b: int, data: Block, a: int)
    requires Inv(g, st) && g.IsAddress(a) && |file| == FileBlocks(g) && Enabled(g, st, Wrote(b, data))
    requires AgreeAt(g, st, file, written, a)
    ensures AgreeAt(g, Apply(g, st, Wrote(b, data)), FlatStep(g, file, Wrote(b, data)), written + {b}, a)
  {
    g.NeedsGcExactly(st.logEnd);
    AppendUpdates(g, st, b, data, a);
    g.BlockIndex(a);
    g.BlockIndex(b);
    assert a == b <==> g.Blocks(a) == g.Blocks(b);
  }

  /** `i` is the last write of the run to its address. */
  ghost predicate LastWrite(events: seq<Event>, i: int) {
    && 0 <= i < |events| && events[i].Wrote?
    && forall j :: i < j < |events| && events[j].Wrote? ==> events[j].address != events[i].address
  }

  /** Every written address has a last write. */
  lemma {:induction false} LastWriteTo(events: seq<Event>, a: int) returns (i: int)
    requires a in Written(events)
    ensures LastWrite(events, i) && events[i].address == a
  {
    var init, ev := events[..|events| - 1], events[|events| - 1];
    if ev.Wrote? && ev.address == a {
      i := |init|;
    } else {
      assert events == init + [ev];
      WrittenSnoc(init, ev);
      i := LastWriteTo(init, a);
      assert forall j :: 0 <= j < |init| ==> init[j] == events[j];
    }
  }

  lemma {:induction false} FlatHoldsLastWrite(g: Geometry, events: seq<Event>, i: int)
    requires g.Valid() && LastWrite(events, i) && g.IsAddress(events[i].address)
    ensures 0 <= g.Blocks(events[i].address) < FileBlocks(g)
    ensures FlatExec(g, events)[g.Blocks(events[i].address)] == events[i].data
  {
    var init, ev, a := events[..|events| - 1], events[|events| - 1], events[i].address;
    g.BlockIndex(a);
    if i < |init| {
      assert init[i] == events[i] && forall j :: 0 <= j < |init| ==> init[j] == events[j];
      FlatHoldsLastWrite(g, init, i);
      if ev.Wrote? && g.IsAddress(ev.address) {
        g.BlockIndex(ev.address);
        assert ev.address != a;
      }
    }
  }

  /** Reading an address after any run returns the block of the last write to it. */
  lemma LastWriteWins(g: Geometry, events: seq<Event>, i: int)
    requires g.Valid() && Exec(g, events).Ran? && LastWrite(events, i) && g.IsAddress(events[i].address)
    ensures Lookup(g, Exec(g, events).st, events[i].address) == events[i].data
  {
    RunRefinesFlat(g, events, events[i].address);
    FlatHoldsLastWrite(g, events, i);
    assert events[i].address in Written(events);
  }
}
