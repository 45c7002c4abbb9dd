/** How often the collector runs and how much it writes, over any run from a fresh device. */
module GcCost {
  import opened Arith
  import opened Geometry
  import opened FtlState
  import opened Allocator
  import opened Collector
  import opened GcRound
  import opened Runs
  import opened Collections

  ghost function Writes(events: seq<Event>): nat {
    if events == [] then 0 else Writes(events[..|events| - 1]) + if events[|events| - 1].Wrote? then 1 else 0
  }

  ghost function RoundsOf(events: seq<Event>): nat {
    if events == [] then 0 else RoundsOf(events[..|events| - 1]) + if events[|events| - 1].Collected? then 1 else 0
  }

  lemma StepLogEnd(g: Geometry, st: State, ev: Event)
    requires Inv(g, st) && Enabled(g, st, ev)
    ensures ev.Wrote? ==> 0 <= st.logEnd < g.LogCapacity() && Apply(g, st, ev).logEnd == st.logEnd + 1
    ensures ev.Collected? ==> st.logEnd == g.LogCapacity() && Apply(g, st, ev).logEnd == 0
  {
    g.NeedsGcExactly(st.logEnd);
  }

  /** Every round empties a full log, so writes and rounds account for the log head exactly. */
  lemma {:induction false} LogHeadAccount(g: Geometry, events: seq<Event>)
    requires g.Valid() && Exec(g, events).Ran?
    ensures Writes(events) == Mul(RoundsOf(events), g.LogCapacity()) + Exec(g, events).st.logEnd
  {
    hide Apply, Inv, Enabled;
    if events != [] {
      var init, ev := events[..|events| - 1], events[|events| - 1];
      LogHeadAccount(g, init);
      StepLogEnd(g, Exec(g, init).st, ev);
    }
  }

  /** `W` writes, the last of which has just returned, have triggered exactly `(W - 1) / C` rounds. */
  lemma ExactRounds(g: Geometry, events: seq<Event>)
    requires g.Valid() && Exec(g, events).Ran?
    requires events != [] && events[|events| - 1].Wrote?
    ensures 0 < g.LogCapacity() == (g.logZones - g.watermark) * g.zoneBlocks - 1
    ensures 1 <= Writes(events) && RoundsOf(events) == (Writes(events) - 1) / g.LogCapacity()
  {
    hide Apply, Inv, Enabled, Mul, Quot, Rem, Geometry.Fits;
    g.LogCapacityBounds();
    LogHeadAccount(g, events);
    var init := events[..|events| - 1];
    var st := Exec(g, init).st;
    StepLogEnd(g, st, events[|events| - 1]);
    DivModUnique(RoundsOf(events), st.logEnd, g.LogCapacity());
    QuotRemIs(Writes(events) - 1, g.LogCapacity());
    g.InNativeArithmetic(0, 0);
  }

  // ---- Write amplification ----

  /** The groups of a round are as many as the distinct logical zones in the log. */
  lemma GroupsBoundedByLog(g: Geometry, logMap: map<int, int>)
    requires g.Valid()
    ensures |Groups(g, logMap)| <= |logMap|
  {
    var zoneOf := map a | a in logMap :: g.LogicalZone(a);
    var groups := Groups(g, logMap);
    forall z | z in groups.Keys ensures z in zoneOf.Values {
      var a :| a in logMap && g.LogicalZone(a) == z;
      assert zoneOf[a] == z;
    }
    SubsetSize(groups.Keys, zoneOf.Values);
    SubsetSize(zoneOf.Keys, logMap.Keys);
    ValuesSize(zoneOf);
    assert |zoneOf| == |zoneOf.Keys| && |groups| == |groups.Keys| && |logMap| == |logMap.Keys|;
  }

  lemma GroupsBoundedByZones(g: Geometry, st: State)
    requires Inv(g, st)
    ensures |Groups(g, st.logMap)| <= g.dataZones
  {
    var keys := Groups(g, st.logMap).Keys;
    forall z | z in keys ensures z in DataZones(g) {
      GroupsFromLog(g, st.logMap, z);
    }
    SubsetSize(keys, DataZones(g));
    assert |keys| == |Groups(g, st.logMap)|;
  }

  /** A round merges at most as many zones as there are data zones, and as there are log blocks. */
  lemma RoundZones(g: Geometry, st: State)
    requires Inv(g, st)
    ensures |Groups(g, st.logMap)| <= g.dataZones
    ensures |Groups(g, st.logMap)| <= st.logEnd
  {
    GroupsBoundedByZones(g, st);
    GroupsBoundedByLog(g, st.logMap);
    InjectiveBelow(st.logMap, st.logEnd);
  }

  function Min(a: int, b: int): int { if a < b then a else b }

  /** Most zones one round can rewrite. */
  function RoundBound(g: Geometry): (n: nat)
    requires g.Valid()
    ensures n <= g.dataZones && n <= g.LogCapacity() && (n == g.dataZones || n == g.LogCapacity())
  {
    g.LogCapacityBounds();
    Min(g.dataZones, g.LogCapacity())
  }

  lemma StepProgrammed(g: Geometry, st: State, ev: Event)
    requires Inv(g, st) && Enabled(g, st, ev)
    ensures ev.Wrote? ==> Apply(g, st, ev).programmed == st.programmed + 1
    ensures ev.Collected? ==> Apply(g, st, ev).programmed == st.programmed + Mul(|ev.order|, g.zoneBlocks)
    ensures ev.Collected? ==> |ev.order| == |Groups(g, st.logMap)| <= RoundBound(g)
  {
    g.NeedsGcExactly(st.logEnd);
    match ev {
      case Wrote(a, data) =>
      case Collected(order) =>
        CollectExactly(g, st, order);
        EnumerationSize(order, Groups(g, st.logMap).Keys);
        assert |Groups(g, st.logMap)| == |Groups(g, st.logMap).Keys|;
        RoundZones(g, st);
    }
  }

  /** Zones rewritten by the rounds of a run. */
  ghost function MergedZones(events: seq<Event>): nat {
    if events == [] then 0
    else MergedZones(events[..|events| - 1]) + match events[|events| - 1] case Wrote(_, _) => 0 case Collected(order) => |order|
  }

  /**
   Blocks programmed into the device by a run of `W` writes: one each for the log, plus whole zones
   for the merges, at most `min(D, C)` zones per round.
   */
  lemma {:induction false} WriteAmplification(g: Geometry, events: seq<Event>)
    requires g.Valid() && Exec(g, events).Ran?
    ensures Exec(g, events).st.programmed == Writes(events) + Mul(MergedZones(events), g.zoneBlocks)
    ensures MergedZones(events) <= Mul(RoundsOf(events), RoundBound(g))
  {
    hide Apply, Inv, Enabled;
    if events != [] {
      var init, ev := events[..|events| - 1], events[|events| - 1];
      WriteAmplification(g, init);
      StepProgrammed(g, Exec(g, init).st, ev);
      if ev.Collected? {
        MulAdd(MergedZones(init), |ev.order|, g.zoneBlocks);
      }
    }
  }

  /** The bound in closed form, for a run that ends with a write. */
  lemma WriteAmplificationBound(g: Geometry, events: seq<Event>)
    requires g.Valid() && Exec(g, events).Ran?
    requires events != [] && events[|events| - 1].Wrote?
    ensures 0 < g.LogCapacity() == (g.logZones - g.watermark) * g.zoneBlocks - 1
    ensures Exec(g, events).st.programmed
            <= Writes(events) + (Writes(events) - 1) / g.LogCapacity() * RoundBound(g) * g.zoneBlocks
  {
    hide Exec, Mul, Geometry.Fits;
    ExactRounds(g, events);
    WriteAmplification(g, events);
    var merged := Mul(RoundsOf(events), RoundBound(g));
    MulMono(MergedZones(events), merged, g.zoneBlocks);
    MulIs(RoundsOf(events), RoundBound(g));
    MulIs(merged, g.zoneBlocks);
  }
}
