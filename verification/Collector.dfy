/**
 The garbage collector as functions on states: grouping the log by logical zone, merging one
 zone, merging all zones in an arbitrary order, and a whole round.
 */
module Collector {
  import opened Arith
  import opened Geometry
  import opened FtlState
  import opened Allocator

  // ---- Grouping ----

  /** Log entries of logical zone `z`, by offset. */
  ghost function Group(g: Geometry, logMap: map<int, int>, z: int): map<int, int>
    requires g.Valid()
  {
    map o: int | 0 <= o < g.zoneBlocks && g.AddressOf(z, o) in logMap :: logMap[g.AddressOf(z, o)]
  }

  ghost function Groups(g: Geometry, logMap: map<int, int>): map<int, map<int, int>>
    requires g.Valid()
  {
    map z | z in (set a | a in logMap :: g.LogicalZone(a)) :: Group(g, logMap, z)
  }

  ghost predicate UserAddresses(g: Geometry, logMap: map<int, int>)
    requires g.Valid()
  {
    forall a :: a in logMap ==> g.IsAddress(a)
  }

  /** Grouping neither drops, duplicates nor moves a log entry. */
  lemma GroupsPartition(g: Geometry, logMap: map<int, int>, a: int)
    requires g.Valid() && g.IsAddress(a) && UserAddresses(g, logMap)
    ensures var gs, z, o := Groups(g, logMap), g.LogicalZone(a), g.OffsetInZone(a);
      && (a in logMap <==> z in gs && o in gs[z])
      && (a in logMap ==> gs[z][o] == logMap[a])
  {
    g.SplitThenJoin(a);
  }

  /** Every grouped entry comes from the log: the reverse inclusion. */
  lemma GroupsFromLog(g: Geometry, logMap: map<int, int>, z: int)
    requires g.Valid() && UserAddresses(g, logMap) && z in Groups(g, logMap)
    ensures g.IsDataZone(z) && Groups(g, logMap)[z] != map[]
    ensures forall o :: o in Groups(g, logMap)[z] ==>
              0 <= o < g.zoneBlocks && g.AddressOf(z, o) in logMap && Groups(g, logMap)[z][o] == logMap[g.AddressOf(z, o)]
  {
    var a :| a in logMap && g.LogicalZone(a) == z;
    g.SplitThenJoin(a);
    GroupsPartition(g, logMap, a);
  }

  /** A new address lands in its own group at its own offset and nowhere else. */
  lemma GroupInsert(g: Geometry, logMap: map<int, int>, a: int, v: int, y: int)
    requires g.Valid() && g.IsAddress(a) && a !in logMap && g.IsDataZone(y)
    ensures Group(g, logMap[a := v], y) ==
            if y == g.LogicalZone(a) then Group(g, logMap, y)[g.OffsetInZone(a) := v] else Group(g, logMap, y)
    ensures y == g.LogicalZone(a) ==> g.OffsetInZone(a) !in Group(g, logMap, y)
  {
    g.SplitThenJoin(a);
    forall k | 0 <= k < g.zoneBlocks
      ensures g.AddressOf(y, k) == a <==> y == g.LogicalZone(a) && k == g.OffsetInZone(a)
    {
      g.JoinThenSplit(y, k);
    }
  }

  /** A logical zone without entries has no group, and would have an empty one. */
  lemma NoGroup(g: Geometry, logMap: map<int, int>, y: int)
    requires g.Valid() && g.IsDataZone(y) && y !in Groups(g, logMap)
    ensures Group(g, logMap, y) == map[]
  {
    forall k | 0 <= k < g.zoneBlocks ensures g.AddressOf(y, k) !in logMap {
      g.JoinThenSplit(y, k);
    }
  }

  /** Entering one more address into the log enters one more offset into its group, a new one. */
  lemma GroupsInsert(g: Geometry, logMap: map<int, int>, a: int, v: int)
    requires g.Valid() && UserAddresses(g, logMap) && g.IsAddress(a) && a !in logMap
    ensures var gs, z, o := Groups(g, logMap), g.LogicalZone(a), g.OffsetInZone(a);
      var inner := if z in gs then gs[z] else map[];
      o !in inner && Groups(g, logMap[a := v]) == gs[z := inner[o := v]]
  {
    hide Geometry.OffsetInZone, Geometry.AddressOf;
    var gs, z, o := Groups(g, logMap), g.LogicalZone(a), g.OffsetInZone(a);
    var inner := if z in gs then gs[z] else map[];
    g.SplitThenJoin(a);
    if z !in gs {
      NoGroup(g, logMap, z);
    }
    GroupInsert(g, logMap, a, v, z);
    GroupsKeys(g, logMap, a, v);
    forall y | y in gs && y != z
      ensures Group(g, logMap[a := v], y) == gs[y]
    {
      GroupsFromLog(g, logMap, y);
      GroupInsert(g, logMap, a, v, y);
    }
    assert Groups(g, logMap[a := v]) == gs[z := inner[o := v]];
  }

  lemma GroupsOfNothing(g: Geometry)
    requires g.Valid()
    ensures Groups(g, map[]) == map[]
  {
  }

  lemma GroupsKeys(g: Geometry, logMap: map<int, int>, a: int, v: int)
    requires g.Valid()
    ensures Groups(g, logMap[a := v]).Keys == Groups(g, logMap).Keys + {g.LogicalZone(a)}
  {
    var m := logMap[a := v];
    forall y | y in Groups(g, logMap).Keys + {g.LogicalZone(a)} ensures y in Groups(g, m).Keys {
      if y in Groups(g, logMap).Keys {
        var b :| b in logMap && g.LogicalZone(b) == y;
        assert b in m;
      } else {
        assert a in m;
      }
    }
  }

  /** The offsets of a group lie in the zone and its entries below the log head. */
  ghost predicate GroupOk(g: Geometry, st: State, group: map<int, int>) {
    forall o :: o in group ==> 0 <= o < g.zoneBlocks && 0 <= group[o] < st.logEnd
  }

  ghost predicate GroupsOk(g: Geometry, st: State, groups: map<int, map<int, int>>) {
    forall z :: z in groups ==> g.IsDataZone(z) && GroupOk(g, st, groups[z])
  }

  lemma GroupsAreOk(g: Geometry, st: State)
    requires Inv(g, st)
    ensures GroupsOk(g, st, Groups(g, st.logMap))
  {
    forall z | z in Groups(g, st.logMap)
      ensures g.IsDataZone(z) && GroupOk(g, st, Groups(g, st.logMap)[z])
    {
      GroupsFromLog(g, st.logMap, z);
    }
  }

  // ---- Merging one logical zone ----

  lemma GroupReadable(g: Geometry, st: State, group: map<int, int>)
    requires MergeReady(g, st) && GroupOk(g, st, group)
    ensures forall o :: o in group ==> Readable(g, st.zones, group[o])
  {
    forall o | o in group ensures Readable(g, st.zones, group[o]) {
      LogReadable(g, st, group[o]);
    }
  }

  /** `base` with the log blocks of `group` laid over it. */
  ghost function Overlay(g: Geometry, st: State, base: seq<Block>, group: map<int, int>): (out: seq<Block>)
    requires MergeReady(g, st) && GroupOk(g, st, group) && |base| == g.zoneBlocks
    ensures |out| == g.zoneBlocks
  {
    GroupReadable(g, st, group);
    seq(g.zoneBlocks, i requires 0 <= i < g.zoneBlocks =>
      if i in group then Peek(g, st.zones, group[i]) else base[i])
  }

  /** Contents the merge of `z` starts from: its old data zone, or whatever the buffer still holds. */
  ghost function Base(g: Geometry, st: State, buffer: seq<Block>, z: int): (out: seq<Block>)
    requires MergeReady(g, st) && |buffer| == g.zoneBlocks
    ensures |out| == g.zoneBlocks
  {
    if z in st.dataMap then DataOf(g, st, z) else buffer
  }

  /** The merged image of logical zone `z`; it is also what the buffer holds afterwards. */
  ghost function Merged(g: Geometry, st: State, buffer: seq<Block>, z: int, group: map<int, int>): (out: seq<Block>)
    requires MergeReady(g, st) && |buffer| == g.zoneBlocks && GroupOk(g, st, group)
    ensures |out| == g.zoneBlocks
  {
    Overlay(g, st, Base(g, st, buffer, z), group)
  }

  /** One iteration of the merge loop writing the image `out` of logical zone `z`. */
  ghost function MergeZone(g: Geometry, st: State, z: int, out: seq<Block>): State
    requires MergeReady(g, st) && g.IsDataZone(z) && |out| == g.zoneBlocks
  {
    var d := FirstEmpty(g, st.states, g.logZones);
    if d == -1 then
      AlwaysHome(g, st, z);
      var p := Home(g, st.dataMap, z);
      st.(zones := st.zones[p := out][g.logZones - 1 := []],
          states := st.states[p := FULL_ZONE],
          programmed := st.programmed + g.zoneBlocks)
    else if z in st.dataMap then
      var p := Home(g, st.dataMap, z);
      st.(zones := st.zones[d := out][p := []],
          states := st.states[p := EMPTY_ZONE][d := FULL_ZONE],
          dataMap := st.dataMap[z := g.ZoneStart(d)],
          programmed := st.programmed + g.zoneBlocks)
    else
      st.(zones := st.zones[d := out],
          states := st.states[d := FULL_ZONE],
          dataMap := st.dataMap[z := g.ZoneStart(d)],
          programmed := st.programmed + g.zoneBlocks)
  }

  /** `st'` differs from `st` only in that logical zone `z` now holds `out`. */
  ghost predicate OnlyZoneChanged(g: Geometry, st: State, st': State, z: int, out: seq<Block>) {
    && MergeReady(g, st) && MergeReady(g, st')
    && st'.logMap == st.logMap && st'.logEnd == st.logEnd
    && st'.programmed == st.programmed + g.zoneBlocks
    && (forall k :: 0 <= k < g.logZones ==> st'.zones[k] == st.zones[k])
    && st'.dataMap.Keys == st.dataMap.Keys + {z}
    && DataOf(g, st', z) == out
    && (forall y :: y in st.dataMap && y != z ==> DataOf(g, st', y) == DataOf(g, st, y))
  }

  /** Moving the home of `z` to the free zone `d` keeps the zone map injective. */
  lemma Rehome(g: Geometry, dataMap: map<int, int>, z: int, d: int)
    requires g.Valid() && DataMapOk(g, dataMap) && g.IsDataZone(z) && g.IsDataZone(d) && !Mapped(g, dataMap, d)
    ensures var m := dataMap[z := g.ZoneStart(d)];
      && DataMapOk(g, m) && Home(g, m, z) == d
      && (forall y :: y in dataMap && y != z ==> Home(g, m, y) == Home(g, dataMap, y))
      && Mapped(g, m, d)
      && (z in dataMap ==> !Mapped(g, m, Home(g, dataMap, z)))
      && (forall k :: k != d && (z in dataMap ==> k != Home(g, dataMap, z)) ==>
            (Mapped(g, m, k) <==> Mapped(g, dataMap, k)))
  {
    var m := dataMap[z := g.ZoneStart(d)];
    MultipleDiv(d, g.zoneBlocks);
    assert Home(g, m, z) == d;
    assert forall y :: y in dataMap && y != z ==> Home(g, m, y) == Home(g, dataMap, y);
    forall k | k != d && (z in dataMap ==> k != Home(g, dataMap, z))
      ensures Mapped(g, m, k) <==> Mapped(g, dataMap, k)
    {
      if Mapped(g, dataMap, k) {
        var y :| y in dataMap && Home(g, dataMap, y) == k;
        assert y in m && Home(g, m, y) == k;
      }
      if Mapped(g, m, k) {
        var y :| y in m && Home(g, m, y) == k;
        assert y in dataMap && Home(g, dataMap, y) == k;
      }
    }
  }

  lemma MergeZoneFallback(g: Geometry, st: State, z: int, out: seq<Block>)
    requires MergeReady(g, st) && g.IsDataZone(z) && |out| == g.zoneBlocks
    requires FirstEmpty(g, st.states, g.logZones) == -1
    ensures OnlyZoneChanged(g, st, MergeZone(g, st, z, out), z, out)
  {
    AlwaysHome(g, st, z);
    LastLogZoneEmpty(g, st);
    var p := Home(g, st.dataMap, z);
    var st' := MergeZone(g, st, z, out);
    assert Mapped(g, st.dataMap, p);
    assert st'.zones == st.zones[p := out];
    assert MergeReady(g, st');
  }

  lemma MergeZoneFresh(g: Geometry, st: State, z: int, out: seq<Block>)
    requires MergeReady(g, st) && g.IsDataZone(z) && |out| == g.zoneBlocks
    requires FirstEmpty(g, st.states, g.logZones) != -1
    ensures OnlyZoneChanged(g, st, MergeZone(g, st, z, out), z, out)
  {
    var d := FirstEmpty(g, st.states, g.logZones);
    var st' := MergeZone(g, st, z, out);
    assert g.IsDataZone(d);
    Rehome(g, st.dataMap, z, d);
    if z in st.dataMap {
      assert Mapped(g, st.dataMap, Home(g, st.dataMap, z));
    }
    forall k | g.IsDataZone(k)
      ensures if Mapped(g, st'.dataMap, k) then st'.states[k] == FULL_ZONE && |st'.zones[k]| == g.zoneBlocks
              else st'.states[k] == EMPTY_ZONE && st'.zones[k] == []
    {
    }
    assert MergeReady(g, st');
    forall y | y in st.dataMap && y != z
      ensures DataOf(g, st', y) == DataOf(g, st, y)
    {
      assert Mapped(g, st.dataMap, Home(g, st.dataMap, y));
    }
  }

  /** A merge iteration keeps the allocator invariant and touches no other logical zone and no log zone. */
  lemma MergeZoneKeeps(g: Geometry, st: State, z: int, out: seq<Block>)
    requires MergeReady(g, st) && g.IsDataZone(z) && |out| == g.zoneBlocks
    ensures OnlyZoneChanged(g, st, MergeZone(g, st, z, out), z, out)
  {
    if FirstEmpty(g, st.states, g.logZones) == -1 {
      MergeZoneFallback(g, st, z, out);
    } else {
      MergeZoneFresh(g, st, z, out);
    }
  }
}
