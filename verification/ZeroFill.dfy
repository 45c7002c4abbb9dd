/**
 Blocks that were never written. The merge buffer is cleared once per round, not once per zone, so
 a never-written block of a freshly merged zone takes over whatever an earlier iteration left at
 its offset. These results say exactly when such a block is still sure to read as zeros.
 */
module ZeroFill {
  import opened Geometry
  import opened FtlState
  import opened Collector
  import opened GcRound
  import opened Collections

  /** Logical zone `y` loads something into the merge buffer at offset `o`. */
  ghost predicate Supplies(g: Geometry, st: State, y: int, o: int) {
    y in st.dataMap || g.AddressOf(y, o) in st.logMap
  }

  /** `a` is outside the log, in an unmapped logical zone that the coming round merges. */
  ghost predicate FreshlyMerged(g: Geometry, st: State, a: int)
    requires Inv(g, st)
  {
    && g.IsAddress(a) && a !in st.logMap
    && g.LogicalZone(a) !in st.dataMap && g.LogicalZone(a) in Groups(g, st.logMap)
  }

  /** Every other zone of the round that supplies offset `o` supplies zeros there. */
  ghost predicate OthersSupplyZeros(g: Geometry, st: State, z: int, o: int)
    requires Inv(g, st) && 0 <= o < g.zoneBlocks
  {
    forall y :: y in Groups(g, st.logMap) && y != z && Supplies(g, st, y, o) ==>
      ZoneReads(g, st, y, o) == ZeroBlock(g)
  }

  ghost function ZoneReads(g: Geometry, st: State, y: int, o: int): Block
    requires Inv(g, st) && 0 <= o < g.zoneBlocks && y in Groups(g, st.logMap)
  {
    GroupsFromLog(g, st.logMap, y);
    g.JoinThenSplit(y, o);
    Lookup(g, st, g.AddressOf(y, o))
  }

  lemma {:induction false} ZerosCarried(g: Geometry, st: State, order: seq<int>, z: int, o: int, k: int)
    requires Inv(g, st) && Enumerates(order, Groups(g, st.logMap).Keys)
    requires 0 <= o < g.zoneBlocks && 0 <= k <= |order|
    requires OthersSupplyZeros(g, st, z, o) && z !in order[..k]
    ensures RoundImage(g, st, order, k)[o] == ZeroBlock(g)
    decreases k
  {
    if k > 0 {
      assert order[..k][..k - 1] == order[..k - 1];
      assert order[k - 1] in order[..k] && order[k - 1] in order;
      ZerosCarried(g, st, order, z, o, k - 1);
      RoundImageAt(g, st, order, k - 1, o);
    }
  }

  /** What a freshly merged, never-written block reads after the round. */
  lemma FreshReads(g: Geometry, st: State, a: int, order: seq<int>, k: int)
    requires Inv(g, st) && FreshlyMerged(g, st, a) && Enumerates(order, Groups(g, st.logMap).Keys)
    requires 0 <= k < |order| && order[k] == g.LogicalZone(a)
    ensures Inv(g, Collect(g, st, order)) && 0 <= g.OffsetInZone(a) < g.zoneBlocks
    ensures Lookup(g, Collect(g, st, order), a) == RoundImage(g, st, order, k)[g.OffsetInZone(a)]
  {
    CollectExactly(g, st, order);
    g.SplitThenJoin(a);
    RoundImageAt(g, st, order, k, g.OffsetInZone(a));
    LookupCases(g, Collect(g, st, order), a);
  }

  /** An order in which zone `y` is merged right before zone `z`. */
  lemma OrderWith(s: set<int>, y: int, z: int) returns (order: seq<int>)
    requires y in s && z in s && y != z
    ensures Enumerates(order, s) && 2 <= |order| && order[0] == y && order[1] == z
  {
    var rest := s - {y} - {z};
    EnumerationExists(rest);
    var tail :| Enumerates(tail, rest);
    EnumeratesCons(z, tail, rest);
    EnumeratesCons(y, [z] + tail, {z} + rest);
    assert {y} + ({z} + rest) == s;
    order := [y] + ([z] + tail);
  }

  ghost predicate ZeroInEveryOrder(g: Geometry, st: State, a: int)
    requires Inv(g, st) && g.IsAddress(a)
  {
    forall order :: Enumerates(order, Groups(g, st.logMap).Keys) ==>
      Inv(g, Collect(g, st, order)) && Lookup(g, Collect(g, st, order), a) == ZeroBlock(g)
  }

  /**
   A never-written block of a freshly merged zone reads as zeros whatever the merge order if and only
   if no other zone of the round has something other than zeros at that offset.
   */
  lemma ZeroFillExactly(g: Geometry, st: State, a: int)
    requires Inv(g, st) && FreshlyMerged(g, st, a)
    ensures 0 <= g.OffsetInZone(a) < g.zoneBlocks
    ensures ZeroInEveryOrder(g, st, a) <==> OthersSupplyZeros(g, st, g.LogicalZone(a), g.OffsetInZone(a))
  {
    g.SplitThenJoin(a);
    var z, o, keys := g.LogicalZone(a), g.OffsetInZone(a), Groups(g, st.logMap).Keys;
    if OthersSupplyZeros(g, st, z, o) {
      forall order | Enumerates(order, keys)
        ensures Inv(g, Collect(g, st, order)) && Lookup(g, Collect(g, st, order), a) == ZeroBlock(g)
      {
        assert z in order;
        var k :| 0 <= k < |order| && order[k] == z;
        FreshReads(g, st, a, order, k);
        ZerosCarried(g, st, order, z, o, k);
      }
    } else {
      var y :| y in Groups(g, st.logMap) && y != z && Supplies(g, st, y, o) && ZoneReads(g, st, y, o) != ZeroBlock(g);
      var order := StaleOrder(g, st, a, y);
    }
  }

  /** The block at `a` takes over the block of the zone merged just before, if that supplies one. */
  lemma StaleAfterSupplier(g: Geometry, st: State, a: int, y: int, order: seq<int>)
    requires Inv(g, st) && FreshlyMerged(g, st, a) && Enumerates(order, Groups(g, st.logMap).Keys)
    requires 2 <= |order| && order[0] == y && order[1] == g.LogicalZone(a) && y in Groups(g, st.logMap)
    requires 0 <= g.OffsetInZone(a) < g.zoneBlocks && Supplies(g, st, y, g.OffsetInZone(a))
    ensures Inv(g, Collect(g, st, order))
    ensures Lookup(g, Collect(g, st, order), a) == ZoneReads(g, st, y, g.OffsetInZone(a))
  {
    hide Inv, Collect, RoundImage, Lookup;
    RoundImageAt(g, st, order, 0, g.OffsetInZone(a));
    FreshReads(g, st, a, order, 1);
  }

  /** A merge order that makes the never-written block at `a` read as the block of zone `y` at its offset. */
  lemma StaleOrder(g: Geometry, st: State, a: int, y: int) returns (order: seq<int>)
    requires Inv(g, st) && FreshlyMerged(g, st, a) && 0 <= g.OffsetInZone(a) < g.zoneBlocks
    requires y in Groups(g, st.logMap) && y != g.LogicalZone(a) && Supplies(g, st, y, g.OffsetInZone(a))
    ensures Enumerates(order, Groups(g, st.logMap).Keys) && Inv(g, Collect(g, st, order))
    ensures Lookup(g, Collect(g, st, order), a) == ZoneReads(g, st, y, g.OffsetInZone(a))
  {
    order := OrderWith(Groups(g, st.logMap).Keys, y, g.LogicalZone(a));
    StaleAfterSupplier(g, st, a, y, order);
  }
}
