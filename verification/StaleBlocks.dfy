/**
 Which devices can show a never-written block that does not read as zeros: all those with room for two
 zones, two blocks in a zone, and two blocks in the log.
 */
module StaleBlocks {
  import opened Geometry
  import opened FtlState
  import opened Collector
  import opened GcRound
  import opened LogWrite
  import opened ZeroFill
  import opened Runs
  import opened Collections

  predicate TwoByTwo(g: Geometry) {
    2 <= g.dataZones && 2 <= g.zoneBlocks && 2 <= g.LogCapacity()
  }

  /** The first block of the first data zone, and the second and the first block of the next. */
  function Written0(g: Geometry): int { g.AddressOf(g.logZones, 0) }
  function Written1(g: Geometry): int { g.AddressOf(g.logZones + 1, 1) }
  function Unwritten(g: Geometry): int { g.AddressOf(g.logZones + 1, 0) }

  lemma ExampleAddresses(g: Geometry)
    requires g.Valid() && TwoByTwo(g)
    ensures g.IsAddress(Written0(g)) && g.LogicalZone(Written0(g)) == g.logZones && g.OffsetInZone(Written0(g)) == 0
    ensures g.IsAddress(Written1(g)) && g.LogicalZone(Written1(g)) == g.logZones + 1 && g.OffsetInZone(Written1(g)) == 1
    ensures g.IsAddress(Unwritten(g)) && g.LogicalZone(Unwritten(g)) == g.logZones + 1 && g.OffsetInZone(Unwritten(g)) == 0
    ensures Written0(g) != Written1(g) && Unwritten(g) != Written0(g) && Unwritten(g) != Written1(g)
  {
    g.JoinThenSplit(g.logZones, 0);
    g.JoinThenSplit(g.logZones + 1, 1);
    g.JoinThenSplit(g.logZones + 1, 0);
  }

  // ---- A run that fails ----

  /** `n` writes of `x` to the same block. */
  ghost function Rewrites(g: Geometry, x: Block, n: nat): seq<Event> {
    if n == 0 then [] else Rewrites(g, x, n - 1) + [Wrote(Written0(g), x)]
  }

  lemma InitRun(g: Geometry)
    requires g.Valid()
    ensures Exec(g, []) == Ran(Init(g)) && Inv(g, Init(g))
  {
  }

  lemma {:induction false} RewritesRun(g: Geometry, x: Block, n: nat) returns (st: State)
    requires g.Valid() && TwoByTwo(g) && n <= g.LogCapacity()
    ensures Exec(g, Rewrites(g, x, n)) == Ran(st) && Inv(g, st)
    ensures st.logEnd == n && st.dataMap == map[] && Written(Rewrites(g, x, n)) <= {Written0(g)}
    ensures forall a :: a in st.logMap <==> 0 < n && a == Written0(g)
    ensures 0 < n ==> g.IsAddress(Written0(g)) && Lookup(g, st, Written0(g)) == x
  {
    hide Lookup, Exec, Apply, Inv, Geometry.IsAddress;
    if n == 0 {
      st := Init(g);
      InitRun(g);
    } else {
      var st0 := RewritesRun(g, x, n - 1);
      ExampleAddresses(g);
      ExecWrite(g, Rewrites(g, x, n - 1), st0, Written0(g), x);
      AppendUpdates(g, st0, Written0(g), x, Written0(g));
      st := Append(g, st0, Written0(g), x);
    }
  }

  /** The log filled with writes to one block and a last write to the second block of another zone. */
  ghost function FillingRun(g: Geometry, x: Block): seq<Event>
    requires g.Valid() && TwoByTwo(g)
  {
    Rewrites(g, x, g.LogCapacity() - 1) + [Wrote(Written1(g), x)]
  }

  lemma LogIsFull(g: Geometry, x: Block) returns (st: State)
    requires g.Valid() && TwoByTwo(g)
    ensures Exec(g, FillingRun(g, x)) == Ran(st) && Inv(g, st)
    ensures g.NeedsGc(st.logEnd) && st.dataMap == map[] && Unwritten(g) !in Written(FillingRun(g, x))
    ensures forall a :: a in st.logMap <==> a == Written0(g) || a == Written1(g)
    ensures g.IsAddress(Written0(g)) && Lookup(g, st, Written0(g)) == x
  {
    hide Lookup, Exec, Apply, Inv, Geometry.IsAddress;
    var n := g.LogCapacity() - 1;
    var st0 := RewritesRun(g, x, n);
    ExampleAddresses(g);
    g.NeedsGcExactly(n + 1);
    ExecWrite(g, Rewrites(g, x, n), st0, Written1(g), x);
    AppendUpdates(g, st0, Written1(g), x, Written0(g));
    st := Append(g, st0, Written1(g), x);
  }

  /**
   Fill the log with the first block of one zone and the second block of another. The collector then
   runs, and in some merge order the first block of that other zone, never written, reads afterwards
   as the block written elsewhere.
   */
  lemma NeverWrittenReadsStale(g: Geometry, x: Block) returns (order: seq<int>)
    requires g.Valid() && TwoByTwo(g)
    ensures var before := Exec(g, FillingRun(g, x)); var events := FillingRun(g, x) + [Collected(order)];
      && g.IsAddress(Unwritten(g)) && Unwritten(g) !in Written(events)
      && before.Ran? && Lookup(g, before.st, Unwritten(g)) == ZeroBlock(g)
      && Exec(g, events).Ran? && Lookup(g, Exec(g, events).st, Unwritten(g)) == x
  {
    hide Lookup, LogFilled, Allocated;
    var st := LogIsFull(g, x);
    ExampleAddresses(g);
    GroupsPartition(g, st.logMap, Written0(g));
    GroupsPartition(g, st.logMap, Written1(g));
    LookupCases(g, st, Unwritten(g));
    order := StaleOrder(g, st, Unwritten(g), g.logZones);
    ExecSnoc(g, FillingRun(g, x), Collected(order));
    WrittenSnoc(FillingRun(g, x), Collected(order));
  }

  // ---- And otherwise none does ----

  /** In every run every never-written block reads as zeros. */
  ghost predicate NeverWrittenReadsZero(g: Geometry)
    requires g.Valid()
  {
    forall events, a :: Exec(g, events).Ran? && g.IsAddress(a) && a !in Written(events) ==>
      Lookup(g, Exec(g, events).st, a) == ZeroBlock(g)
  }

  /** Without that room all groups of a round are one, or all blocks of a merged zone are in the log. */
  lemma SameGroup(g: Geometry, st: State, b: int, c: int)
    requires Inv(g, st) && !TwoByTwo(g) && b in st.logMap && c in st.logMap
    ensures g.LogicalZone(b) == g.LogicalZone(c) || g.zoneBlocks == 1
  {
    hide Geometry.LogicalZone, Geometry.OffsetInZone, Geometry.AddressOf, Allocated, DataMapOk;
    g.SplitThenJoin(b);
    g.SplitThenJoin(c);
    assert b == c || st.logMap[b] != st.logMap[c];
  }

  /** So no zone takes over the blocks of another. */
  lemma NothingToTakeOver(g: Geometry, st: State, a: int)
    requires Inv(g, st) && !TwoByTwo(g) && FreshlyMerged(g, st, a)
    ensures ZeroInEveryOrder(g, st, a)
  {
    hide Geometry.OffsetInZone, Geometry.AddressOf, Allocated, DataMapOk, Lookup, ZeroInEveryOrder, Supplies;
    ZeroFillExactly(g, st, a);
    var c :| c in st.logMap && g.LogicalZone(c) == g.LogicalZone(a);
    AloneInZone(g, st, a, c);
    forall y | y in Groups(g, st.logMap)
      ensures y == g.LogicalZone(a)
    {
      var b :| b in st.logMap && g.LogicalZone(b) == y;
      SameGroup(g, st, b, c);
    }
  }

  /** In a zone of one block there is no second address. */
  lemma AloneInZone(g: Geometry, st: State, a: int, c: int)
    requires Inv(g, st) && g.IsAddress(a) && a !in st.logMap && c in st.logMap && g.LogicalZone(c) == g.LogicalZone(a)
    ensures g.zoneBlocks != 1
  {
    hide Geometry.LogicalZone, Geometry.OffsetInZone, Geometry.AddressOf;
    g.SplitThenJoin(a);
    g.SplitThenJoin(c);
  }

  lemma {:induction false} NeverWrittenKept(g: Geometry, events: seq<Event>, a: int)
    requires g.Valid() && !TwoByTwo(g) && Exec(g, events).Ran? && g.IsAddress(a) && a !in Written(events)
    ensures Lookup(g, Exec(g, events).st, a) == ZeroBlock(g)
  {
    hide Lookup, Apply, Enabled, Inv, FlatExec, Translate;
    if events == [] {
      InitInv(g);
      LookupCases(g, Init(g), a);
    } else {
      var init, ev := events[..|events| - 1], events[|events| - 1];
      assert events == init + [ev];
      WrittenSnoc(init, ev);
      NeverWrittenKept(g, init, a);
      RunRefinesFlat(g, init, a);
      NeverWrittenStep(g, Exec(g, init).st, ev, a);
    }
  }

  lemma NeverWrittenStep(g: Geometry, st: State, ev: Event, a: int)
    requires Inv(g, st) && !TwoByTwo(g) && Enabled(g, st, ev) && g.IsAddress(a) && a !in WrittenBy(ev)
    requires a !in st.logMap && Lookup(g, st, a) == ZeroBlock(g)
    ensures Lookup(g, Apply(g, st, ev), a) == ZeroBlock(g)
  {
    hide Lookup, Allocated, DataMapOk, LogMapOk, Collect, Append, Geometry.IsAddress;
    g.NeedsGcExactly(st.logEnd);
    match ev {
      case Wrote(b, data) => AppendUpdates(g, st, b, data, a);
      case Collected(order) => RoundKeepsZero(g, st, order, a);
    }
  }

  lemma RoundKeepsZero(g: Geometry, st: State, order: seq<int>, a: int)
    requires Inv(g, st) && !TwoByTwo(g) && Enumerates(order, Groups(g, st.logMap).Keys) && g.IsAddress(a)
    requires a !in st.logMap && Lookup(g, st, a) == ZeroBlock(g)
    ensures Inv(g, Collect(g, st, order)) && Lookup(g, Collect(g, st, order), a) == ZeroBlock(g)
  {
    hide Lookup, Inv, Collect, Groups, Geometry.IsAddress;
    CollectExactly(g, st, order);
    if FreshlyMerged(g, st, a) {
      NothingToTakeOver(g, st, a);
    } else {
      CollectPreserves(g, st, order, a);
    }
  }

  /**
   Every never-written block reads as zeros in every run if and only if the device lacks room for two
   data zones, two blocks in a zone, or two blocks in the log.
   */
  lemma NeverWrittenZeroIff(g: Geometry)
    requires g.Valid()
    ensures NeverWrittenReadsZero(g) <==> !TwoByTwo(g)
  {
    if TwoByTwo(g) {
      var x := Block(seq(g.lbaBytes, _ => 1));
      assert x.bytes[0] != ZeroBlock(g).bytes[0];
      var order := NeverWrittenReadsStale(g, x);
    } else {
      forall events, a | Exec(g, events).Ran? && g.IsAddress(a) && a !in Written(events)
        ensures Lookup(g, Exec(g, events).st, a) == ZeroBlock(g)
      {
        NeverWrittenKept(g, events, a);
      }
    }
  }
}
