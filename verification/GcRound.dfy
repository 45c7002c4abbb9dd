/**
 A full collector round: merge every group in some order, reset the log, clear the log map.

 The main results hold for every order in which the unordered map may be walked. They give the
 exact contents of every data zone after a round and conclude that the logical value of every
 address that had one is unchanged.
 */
module GcRound {
  import opened Arith
  import opened Geometry
  import opened FtlState
  import opened Collector
  import opened Collections

  datatype MergeResult = MergeResult(st: State, buffer: seq<Block>)

  lemma MergeZoneReady(g: Geometry, st: State, z: int, out: seq<Block>, groups: map<int, map<int, int>>)
    requires MergeReady(g, st) && g.IsDataZone(z) && |out| == g.zoneBlocks && GroupsOk(g, st, groups)
    ensures MergeReady(g, MergeZone(g, st, z, out)) && GroupsOk(g, MergeZone(g, st, z, out), groups)
  {
    hide MergeReady, MergeZone;
    MergeZoneKeeps(g, st, z, out);
  }

  /** The merge loop after it has handled `order`; `buffer` is carried from one iteration to the next. */
  ghost function MergeAll(g: Geometry, st: State, buffer: seq<Block>, groups: map<int, map<int, int>>,
                          order: seq<int>): (r: MergeResult)
    requires MergeReady(g, st) && GroupsOk(g, st, groups) && |buffer| == g.zoneBlocks
    requires forall z :: z in order ==> z in groups
    ensures MergeReady(g, r.st) && GroupsOk(g, r.st, groups) && |r.buffer| == g.zoneBlocks
    decreases |order|
  {
    if order == [] then MergeResult(st, buffer)
    else
      var z := order[|order| - 1];
      var r := MergeAll(g, st, buffer, groups, order[..|order| - 1]);
      var out := Merged(g, r.st, r.buffer, z, groups[z]);
      MergeZoneReady(g, r.st, z, out, groups);
      MergeResult(MergeZone(g, r.st, z, out), out)
  }

  lemma MergeAllNothing(g: Geometry, st: State, buffer: seq<Block>, groups: map<int, map<int, int>>)
    requires MergeReady(g, st) && GroupsOk(g, st, groups) && |buffer| == g.zoneBlocks
    ensures MergeAll(g, st, buffer, groups, []) == MergeResult(st, buffer)
  {
  }

  lemma MergeAllSnoc(g: Geometry, st: State, buffer: seq<Block>, groups: map<int, map<int, int>>, order: seq<int>, z: int)
    requires MergeReady(g, st) && GroupsOk(g, st, groups) && |buffer| == g.zoneBlocks
    requires (forall y :: y in order ==> y in groups) && z in groups
    ensures var r := MergeAll(g, st, buffer, groups, order);
            var out := Merged(g, r.st, r.buffer, z, groups[z]);
            MergeAll(g, st, buffer, groups, order + [z]) == MergeResult(MergeZone(g, r.st, z, out), out)
  {
    assert (order + [z])[..|order|] == order;
  }

  /** Contents of the last zone of `order` after the merge, told from the state before the merge. */
  ghost function Image(g: Geometry, st: State, buffer: seq<Block>, groups: map<int, map<int, int>>,
                       order: seq<int>): (out: seq<Block>)
    requires MergeReady(g, st) && GroupsOk(g, st, groups) && |buffer| == g.zoneBlocks
    requires forall z :: z in order ==> z in groups
    ensures |out| == g.zoneBlocks
    decreases |order|
  {
    if order == [] then buffer
    else
      var z := order[|order| - 1];
      var before := Image(g, st, buffer, groups, order[..|order| - 1]);
      Merged(g, st, before, z, groups[z])
  }

  ghost predicate Distinct(order: seq<int>) {
    forall i, j :: 0 <= i < j < |order| ==> order[i] != order[j]
  }

  /** The `k`-th zone of `order` now holds its image. */
  ghost predicate ImageInPlace(g: Geometry, st: State, st': State, buffer: seq<Block>,
                               groups: map<int, map<int, int>>, order: seq<int>, k: int)
    requires MergeReady(g, st) && GroupsOk(g, st, groups) && |buffer| == g.zoneBlocks && MergeReady(g, st')
    requires (forall z :: z in order ==> z in groups) && 0 <= k < |order|
  {
    order[k] in st'.dataMap && DataOf(g, st', order[k]) == Image(g, st, buffer, groups, order[..k + 1])
  }

  /** `st'` is `st` after merging `order`: zone by zone, in terms of `st` alone. */
  ghost predicate MergedExactly(g: Geometry, st: State, st': State, buffer: seq<Block>,
                                groups: map<int, map<int, int>>, order: seq<int>)
    requires MergeReady(g, st) && GroupsOk(g, st, groups) && |buffer| == g.zoneBlocks
    requires forall z :: z in order ==> z in groups
  {
    && MergeReady(g, st')
    && st'.logMap == st.logMap && st'.logEnd == st.logEnd
    && (forall k :: 0 <= k < g.logZones ==> st'.zones[k] == st.zones[k])
    && (forall y :: y in st'.dataMap <==> y in st.dataMap || y in order)
    && (forall k :: 0 <= k < |order| ==> ImageInPlace(g, st, st', buffer, groups, order, k))
    && (forall y :: y in st.dataMap && y !in order ==> DataOf(g, st', y) == DataOf(g, st, y))
  }

  /** Overlaying reads only the log. */
  lemma OverlayFrame(g: Geometry, st: State, st': State, base: seq<Block>, group: map<int, int>)
    requires MergeReady(g, st) && MergeReady(g, st') && GroupOk(g, st, group) && |base| == g.zoneBlocks
    requires st'.logEnd == st.logEnd && forall k :: 0 <= k < g.logZones ==> st'.zones[k] == st.zones[k]
    ensures Overlay(g, st', base, group) == Overlay(g, st, base, group)
  {
    var p, q := Overlay(g, st', base, group), Overlay(g, st, base, group);
    forall i | 0 <= i < g.zoneBlocks ensures p[i] == q[i] {
      if i in group {
        LogReadable(g, st, group[i]);
        LogReadable(g, st', group[i]);
      }
    }
  }

  /** The merge loop, closed form: the log stays intact and each merged zone gets its image. */
  lemma {:induction false} MergeAllExactly(g: Geometry, st: State, buffer: seq<Block>,
                                           groups: map<int, map<int, int>>, order: seq<int>)
    requires MergeReady(g, st) && GroupsOk(g, st, groups) && |buffer| == g.zoneBlocks
    requires forall z :: z in order ==> z in groups
    requires Distinct(order)
    ensures MergeAll(g, st, buffer, groups, order).buffer == Image(g, st, buffer, groups, order)
    ensures MergedExactly(g, st, MergeAll(g, st, buffer, groups, order).st, buffer, groups, order)
    decreases |order|
  {
    if order != [] {
      var z, init := order[|order| - 1], order[..|order| - 1];
      assert order == init + [z];
      MergeAllExactly(g, st, buffer, groups, init);
      var r := MergeAll(g, st, buffer, groups, init);
      var out := Merged(g, r.st, r.buffer, z, groups[z]);
      assert out == Image(g, st, buffer, groups, order) by {
        OverlayFrame(g, st, r.st, Base(g, r.st, r.buffer, z), groups[z]);
      }
      MergeZoneKeeps(g, r.st, z, out);
      MergeStepExactly(g, st, r.st, MergeZone(g, r.st, z, out), buffer, groups, init, z);
    }
  }

  /** Each iteration programs exactly one zone. */
  lemma {:induction false} MergeAllCost(g: Geometry, st: State, buffer: seq<Block>,
                                        groups: map<int, map<int, int>>, order: seq<int>)
    requires MergeReady(g, st) && GroupsOk(g, st, groups) && |buffer| == g.zoneBlocks
    requires forall z :: z in order ==> z in groups
    ensures MergeAll(g, st, buffer, groups, order).st.programmed == st.programmed + Mul(|order|, g.zoneBlocks)
    decreases |order|
  {
    if order != [] {
      var z, init := order[|order| - 1], order[..|order| - 1];
      MergeAllCost(g, st, buffer, groups, init);
      var r := MergeAll(g, st, buffer, groups, init);
      MergeZoneKeeps(g, r.st, z, Merged(g, r.st, r.buffer, z, groups[z]));
    }
  }

  lemma MergeStepExactly(g: Geometry, st: State, mid: State, st': State, buffer: seq<Block>,
                         groups: map<int, map<int, int>>, init: seq<int>, z: int)
    requires MergeReady(g, st) && GroupsOk(g, st, groups) && |buffer| == g.zoneBlocks
    requires (forall y :: y in init ==> y in groups) && z in groups && z !in init
    requires MergedExactly(g, st, mid, buffer, groups, init)
    requires OnlyZoneChanged(g, mid, st', z, Image(g, st, buffer, groups, init + [z]))
    ensures MergedExactly(g, st, st', buffer, groups, init + [z])
  {
    hide MergeReady, GroupsOk, DataOf, Image;
    var order := init + [z];
    assert forall y :: y in order <==> y in init || y == z;
    forall k | 0 <= k < |order|
      ensures ImageInPlace(g, st, st', buffer, groups, order, k)
    {
      if k < |init| {
        assert ImageInPlace(g, st, mid, buffer, groups, init, k);
        assert order[..k + 1] == init[..k + 1];
        assert order[k] == init[k];
        assert init[k] in init;
      } else {
        assert order[..k + 1] == order;
      }
    }
  }

  // ---- The round ----

  /** `entry &= 1L << 63` on a signed 64-bit integer keeps only the sign bit. */
  function SignBit(v: int): int { if v < 0 then -0x8000_0000_0000_0000 else 0 }

  ghost function Invalidate(logMap: map<int, int>): map<int, int> {
    MapValues(SignBit, logMap)
  }

  /** From the grouping to the end of the round the log map sends every logged address to the first log block. */
  lemma ReadDuringRound(g: Geometry, st: State, a: int)
    requires Inv(g, st) && a in st.logMap
    ensures Translate(g, st.(logMap := Invalidate(st.logMap)), a) == Found(0)
  {
  }

  ghost function ZeroBuffer(g: Geometry): (b: seq<Block>)
    ensures |b| == g.zoneBlocks
  {
    seq(g.zoneBlocks, _ => ZeroBlock(g))
  }

  ghost function ResetZones(zones: seq<seq<Block>>, n: int): (r: seq<seq<Block>>)
    requires 0 <= n <= |zones|
    ensures |r| == |zones|
    ensures forall k :: 0 <= k < |zones| ==> r[k] == if k < n then [] else zones[k]
  {
    seq(|zones|, k requires 0 <= k < |zones| => if k < n then [] else zones[k])
  }

  /** The state after merging, with the entries of the log map already invalidated. */
  ghost function AfterMerge(g: Geometry, st: State, order: seq<int>): State
    requires Inv(g, st) && Enumerates(order, Groups(g, st.logMap).Keys)
  {
    GroupsAreOk(g, st);
    MergeAll(g, st.(logMap := Invalidate(st.logMap)), ZeroBuffer(g), Groups(g, st.logMap), order).st
  }

  /** A whole collector round that walks the groups in `order`. */
  ghost function Collect(g: Geometry, st: State, order: seq<int>): State
    requires Inv(g, st) && Enumerates(order, Groups(g, st.logMap).Keys)
  {
    GroupsAreOk(g, st);
    var m := AfterMerge(g, st, order);
    m.(zones := ResetZones(m.zones, g.logZones), logEnd := 0, logMap := map[])
  }

  /** The image the round leaves in the `k`-th zone of `order`. */
  ghost function RoundImage(g: Geometry, st: State, order: seq<int>, k: int): (out: seq<Block>)
    requires Inv(g, st) && Enumerates(order, Groups(g, st.logMap).Keys) && 0 <= k <= |order|
    ensures |out| == g.zoneBlocks
  {
    GroupsAreOk(g, st);
    Image(g, st, ZeroBuffer(g), Groups(g, st.logMap), order[..k])
  }

  /** `Image` does not look at the log map. */
  lemma {:induction false} ImageFrame(g: Geometry, st: State, logMap: map<int, int>, buffer: seq<Block>,
                                      groups: map<int, map<int, int>>, order: seq<int>)
    requires MergeReady(g, st) && GroupsOk(g, st, groups) && |buffer| == g.zoneBlocks
    requires forall z :: z in order ==> z in groups
    ensures Image(g, st.(logMap := logMap), buffer, groups, order) == Image(g, st, buffer, groups, order)
    decreases |order|
  {
    if order != [] {
      var z, init := order[|order| - 1], order[..|order| - 1];
      ImageFrame(g, st, logMap, buffer, groups, init);
      var st' := st.(logMap := logMap);
      OverlayFrame(g, st, st', Base(g, st, Image(g, st, buffer, groups, init), z), groups[z]);
    }
  }

  /** What a round does, zone by zone. */
  lemma CollectExactly(g: Geometry, st: State, order: seq<int>)
    requires Inv(g, st) && Enumerates(order, Groups(g, st.logMap).Keys)
    ensures var st' := Collect(g, st, order);
      && Inv(g, st') && st'.logMap == map[] && st'.logEnd == 0
      && st'.programmed == st.programmed + Mul(|order|, g.zoneBlocks)
      && (forall y :: y in st'.dataMap <==> y in st.dataMap || y in Groups(g, st.logMap))
      && (forall k :: 0 <= k < |order| ==> DataOf(g, st', order[k]) == RoundImage(g, st, order, k + 1))
      && (forall y :: y in st.dataMap && y !in Groups(g, st.logMap) ==> DataOf(g, st', y) == DataOf(g, st, y))
  {
    AfterMergeExactly(g, st, order);
    ResetLogInv(g, AfterMerge(g, st, order));
  }

  lemma AfterMergeExactly(g: Geometry, st: State, order: seq<int>)
    requires Inv(g, st) && Enumerates(order, Groups(g, st.logMap).Keys)
    ensures var m := AfterMerge(g, st, order);
      && MergeReady(g, m)
      && m.programmed == st.programmed + Mul(|order|, g.zoneBlocks)
      && (forall y :: y in m.dataMap <==> y in st.dataMap || y in Groups(g, st.logMap))
      && (forall k :: 0 <= k < |order| ==> DataOf(g, m, order[k]) == RoundImage(g, st, order, k + 1))
      && (forall y :: y in st.dataMap && y !in Groups(g, st.logMap) ==> DataOf(g, m, y) == DataOf(g, st, y))
  {
    hide Groups, Group, Image, MergeAll, Invalidate, DataMapOk, Mul, Geometry.Fits;
    GroupsAreOk(g, st);
    var groups := Groups(g, st.logMap);
    var st1 := st.(logMap := Invalidate(st.logMap));
    MergeAllExactly(g, st1, ZeroBuffer(g), groups, order);
    MergeAllCost(g, st1, ZeroBuffer(g), groups, order);
    var m := AfterMerge(g, st, order);
    forall k | 0 <= k < |order|
      ensures order[k] in m.dataMap && DataOf(g, m, order[k]) == RoundImage(g, st, order, k + 1)
    {
      assert ImageInPlace(g, st1, m, ZeroBuffer(g), groups, order, k);
      ImageFrame(g, st, st1.logMap, ZeroBuffer(g), groups, order[..k + 1]);
    }
  }

  /** Resetting the log zones and the log head restores the full invariant. */
  lemma ResetLogInv(g: Geometry, m: State)
    requires MergeReady(g, m)
    ensures var st' := m.(zones := ResetZones(m.zones, g.logZones), logEnd := 0, logMap := map[]);
      Inv(g, st') && forall y :: y in m.dataMap ==> DataOf(g, st', y) == DataOf(g, m, y)
  {
    var st' := m.(zones := ResetZones(m.zones, g.logZones), logEnd := 0, logMap := map[]);
    g.LogCapacityBounds();
    DivModUnique(0, 0, g.zoneBlocks);
    assert Allocated(g, st');
  }

  /** A merged image holds the log blocks of its group and, elsewhere, the old contents of the zone. */
  lemma RoundImageAt(g: Geometry, st: State, order: seq<int>, k: int, o: int)
    requires Inv(g, st) && Enumerates(order, Groups(g, st.logMap).Keys)
    requires 0 <= k < |order| && 0 <= o < g.zoneBlocks
    ensures var z := order[k]; var a := g.AddressOf(z, o); var img := RoundImage(g, st, order, k + 1);
      && z in Groups(g, st.logMap) && g.IsDataZone(z) && g.IsAddress(a)
      && (a in st.logMap || z in st.dataMap ==> img[o] == Lookup(g, st, a))
      && (a !in st.logMap && z !in st.dataMap ==> img[o] == RoundImage(g, st, order, k)[o])
  {
    GroupsAreOk(g, st);
    var z, groups := order[k], Groups(g, st.logMap);
    assert z in order;
    g.JoinThenSplit(z, o);
    var a := g.AddressOf(z, o);
    GroupsPartition(g, st.logMap, a);
    LookupCases(g, st, a);
    assert order[..k + 1][..k] == order[..k];
  }

  /**
   A round changes no value: every address that had one, in the log or in a mapped zone, keeps it,
   and every address outside the log whose logical zone stays unmapped still reads as zeros.
   */
  lemma CollectPreserves(g: Geometry, st: State, order: seq<int>, a: int)
    requires Inv(g, st) && Enumerates(order, Groups(g, st.logMap).Keys) && g.IsAddress(a)
    ensures var st' := Collect(g, st, order); var z := g.LogicalZone(a);
      && Inv(g, st')
      && (a in st.logMap || z in st.dataMap ==> z in st'.dataMap && Lookup(g, st', a) == Lookup(g, st, a))
      && (z !in st'.dataMap ==> Lookup(g, st', a) == Lookup(g, st, a) == ZeroBlock(g))
  {
    CollectExactly(g, st, order);
    var st' := Collect(g, st, order);
    var z, o := g.LogicalZone(a), g.OffsetInZone(a);
    g.SplitThenJoin(a);
    LookupCases(g, st, a);
    LookupCases(g, st', a);
    GroupsPartition(g, st.logMap, a);
    if z in Groups(g, st.logMap) {
      assert z in order;
      var k :| 0 <= k < |order| && order[k] == z;
      RoundImageAt(g, st, order, k, o);
    }
  }
}
