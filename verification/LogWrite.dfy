/** Appending to the log: the state change of a write call once the collector guard has passed. */
module LogWrite {
  import opened Arith
  import opened Geometry
  import opened FtlState

  /** A one-block append: the device places the block at the log head and the map points to it. */
  ghost function Append(g: Geometry, st: State, a: int, data: Block): State
    requires Inv(g, st) && st.logEnd < g.LogCapacity()
  {
    var q := g.ZoneOf(st.logEnd);
    HeadInLog(g, st);
    st.(zones := st.zones[q := st.zones[q] + [data]],
        logMap := st.logMap[a := st.logEnd],
        logEnd := st.logEnd + 1,
        programmed := st.programmed + 1)
  }

  /** The zone under the log head has room, and the device's write pointer is the log head. */
  lemma HeadInLog(g: Geometry, st: State)
    requires g.Valid() && Shape(g, st) && LogFilled(g, st)
    ensures 0 <= g.ZoneOf(st.logEnd) < g.logZones - 1
    ensures |st.zones[g.ZoneOf(st.logEnd)]| == g.InZone(st.logEnd) < g.zoneBlocks
    ensures g.ZoneStart(g.ZoneOf(st.logEnd)) + |st.zones[g.ZoneOf(st.logEnd)]| == st.logEnd
  {
    g.LogCapacityBounds();
    QuotRem(st.logEnd, g.zoneBlocks);
    DivBound(st.logEnd, g.logZones - 1, g.zoneBlocks);
  }

  /** After appending, the zones before the head are still full and the head zone is one longer. */
  lemma AppendFills(g: Geometry, st: State, a: int, data: Block)
    requires Inv(g, st) && st.logEnd < g.LogCapacity() && g.IsAddress(a)
    ensures Shape(g, Append(g, st, a, data)) && LogFilled(g, Append(g, st, a, data))
  {
    HeadInLog(g, st);
    DivModSucc(st.logEnd, g.zoneBlocks);
  }

  lemma AppendInv(g: Geometry, st: State, a: int, data: Block)
    requires Inv(g, st) && st.logEnd < g.LogCapacity() && g.IsAddress(a)
    ensures Inv(g, Append(g, st, a, data))
    ensures forall y :: y in st.dataMap ==> DataOf(g, Append(g, st, a, data), y) == DataOf(g, st, y)
  {
    AppendFills(g, st, a, data);
    HeadInLog(g, st);
    var st' := Append(g, st, a, data);
    assert forall d :: g.IsDataZone(d) ==> st'.zones[d] == st.zones[d];
    assert Allocated(g, st');
  }

  /** An append gives `a` its new value and leaves every other address alone. */
  lemma AppendUpdates(g: Geometry, st: State, a: int, data: Block, b: int)
    requires Inv(g, st) && st.logEnd < g.LogCapacity() && g.IsAddress(a) && g.IsAddress(b)
    ensures Inv(g, Append(g, st, a, data))
    ensures Lookup(g, Append(g, st, a, data), b) == if b == a then data else Lookup(g, st, b)
  {
    AppendInv(g, st, a, data);
    HeadInLog(g, st);
    var st' := Append(g, st, a, data);
    LookupCases(g, st, b);
    LookupCases(g, st', b);
    if b != a && b in st.logMap {
      DivModOrder(st.logMap[b], st.logEnd, g.zoneBlocks);
    }
  }

  // ---- Writes of several blocks ----

  /** The write path takes `data` as one append: below MDTS, past the guard, and with room in the zone of the head. */
  ghost predicate TakesBlocks(g: Geometry, st: State, a: int, data: seq<Block>) {
    && HeadZoneExists(g, st)
    && data != [] && g.Bytes(|data|) < MDTS
    && g.FreeZones(st.logEnd, |data|) > g.watermark
    && |st.zones[g.ZoneOf(st.logEnd)]| + |data| <= g.zoneBlocks
    && forall k :: 0 <= k < |data| ==> g.IsAddress(a + g.Bytes(k))
  }

  ghost predicate HeadZoneExists(g: Geometry, st: State) {
    g.Valid() && 0 <= st.logEnd && g.ZoneOf(st.logEnd) < |st.zones| == g.Zones()
  }

  /**
   The write path for a buffer of several blocks: the device appends all of them to the zone of the log
   head and returns the first block number, the head moves to one past that number, and the map entries
   count up from the old head.
   */
  ghost function WriteBlocks(g: Geometry, st: State, a: int, data: seq<Block>): State
    requires HeadZoneExists(g, st)
  {
    var q := g.ZoneOf(st.logEnd);
    var lba := g.ZoneStart(q) + |st.zones[q]|;
    st.(zones := st.zones[q := st.zones[q] + data],
        logMap := EnterBlocks(g, st.logMap, a, st.logEnd, |data|),
        logEnd := lba + 1,
        programmed := st.programmed + |data|)
  }

  ghost function EnterBlocks(g: Geometry, logMap: map<int, int>, a: int, head: int, n: nat): map<int, int> {
    if n == 0 then logMap
    else EnterBlocks(g, logMap, a, head, n - 1)[a + g.Bytes(n - 1) := head + (n - 1)]
  }

  lemma {:induction false} EntryOf(g: Geometry, logMap: map<int, int>, a: int, head: int, n: nat, k: nat)
    requires 0 < g.lbaBytes && k < n
    ensures a + g.Bytes(k) in EnterBlocks(g, logMap, a, head, n)
    ensures EnterBlocks(g, logMap, a, head, n)[a + g.Bytes(k)] == head + k
  {
    if k < n - 1 {
      EntryOf(g, logMap, a, head, n - 1, k);
      MulMono(k + 1, n - 1, g.lbaBytes);
    }
  }

  lemma OneBlockIsAppend(g: Geometry, st: State, a: int, data: Block)
    requires Inv(g, st) && st.logEnd < g.LogCapacity()
    ensures HeadZoneExists(g, st) && WriteBlocks(g, st, a, [data]) == Append(g, st, a, data)
  {
    HeadInLog(g, st);
    assert EnterBlocks(g, st.logMap, a, st.logEnd, 1) == EnterBlocks(g, st.logMap, a, st.logEnd, 0)[a := st.logEnd];
  }

  /** The guard for `n` blocks is the guard for the last of them. */
  lemma GuardForBlocks(g: Geometry, st: State, a: int, data: seq<Block>)
    requires Inv(g, st) && TakesBlocks(g, st, a, data)
    ensures st.logEnd < g.LogCapacity() && g.IsAddress(a)
  {
    hide Geometry.IsAddress;
    assert g.IsAddress(a + g.Bytes(0));
    g.NeedsGcExactly(st.logEnd);
    if st.logEnd == g.LogCapacity() {
      g.LogCapacityBounds();
      GuardPastCapacity(g, |data|);
    }
  }

  /** With the log full to its capacity no number of blocks below MDTS passes the guard. */
  lemma GuardPastCapacity(g: Geometry, n: int)
    requires g.Valid() && 1 <= n <= g.zoneBlocks
    ensures g.FreeZones(g.LogCapacity(), n) <= g.watermark
  {
    hide Geometry.Fits;
    var k, e := g.logZones - g.watermark, g.LogCapacity() + n;
    DivBound(e, k, g.zoneBlocks);
    DivBound(e, k + 1, g.zoneBlocks);
    g.LogCapacityBounds();
  }

  /** The read path translates `b` to a written block, which holds `v`. */
  ghost predicate ReadsAs(g: Geometry, st: State, b: int, v: Block) {
    var t := Translate(g, st, b);
    t.Found? && Readable(g, st.zones, t.lba) && Peek(g, st.zones, t.lba) == v
  }

  /** Blocks written together all read back, as long as no write follows. */
  lemma BlocksReadBack(g: Geometry, st: State, a: int, data: seq<Block>, k: int)
    requires Inv(g, st) && TakesBlocks(g, st, a, data) && 0 <= k < |data|
    ensures ReadsAs(g, WriteBlocks(g, st, a, data), a + g.Bytes(k), data[k])
  {
    hide EnterBlocks, Geometry.IsAddress, Geometry.FreeZones, Geometry.LogicalZone, Mul, Quot, Rem, LogMapOk, Allocated, DataMapOk;
    HeadInLog(g, st);
    EntryOf(g, st.logMap, a, st.logEnd, |data|, k);
    QuotRem(st.logEnd, g.zoneBlocks);
    DivModUnique(g.ZoneOf(st.logEnd), g.InZone(st.logEnd) + k, g.zoneBlocks);
  }

  /** The address belongs to the `n` blocks from `a` on. */
  ghost predicate AmongBlocks(g: Geometry, a: int, n: int, b: int) {
    exists k :: 0 <= k < n && b == a + g.Bytes(k)
  }

  lemma {:induction false} OtherEntries(g: Geometry, logMap: map<int, int>, a: int, head: int, n: nat, b: int)
    requires !AmongBlocks(g, a, n, b)
    ensures b in EnterBlocks(g, logMap, a, head, n) <==> b in logMap
    ensures b in logMap ==> EnterBlocks(g, logMap, a, head, n)[b] == logMap[b]
  {
    if n > 0 {
      assert b != a + g.Bytes(n - 1);
      OtherEntries(g, logMap, a, head, n - 1, b);
    }
  }

  /** A write of any number of blocks neither adds, drops nor changes the log entry of any other address. */
  lemma OtherAddressesKept(g: Geometry, st: State, a: int, data: seq<Block>, b: int)
    requires Inv(g, st) && TakesBlocks(g, st, a, data) && !AmongBlocks(g, a, |data|, b)
    ensures var st' := WriteBlocks(g, st, a, data);
      && (b in st'.logMap <==> b in st.logMap) && (b in st.logMap ==> st'.logMap[b] == st.logMap[b])
      && Translate(g, st', b) == Translate(g, st, b)
      && forall v :: ReadsAs(g, st, b, v) ==> ReadsAs(g, st', b, v)
  {
    hide EnterBlocks, Geometry.IsAddress, Geometry.FreeZones, Geometry.LogicalZone, Geometry.OffsetInZone, Mul, Quot, Rem;
    HeadInLog(g, st);
    OtherEntries(g, st.logMap, a, st.logEnd, |data|, b);
  }

  /** The log head stays on the device's write pointer exactly when one block is written. */
  lemma HeadTracksIffOneBlock(g: Geometry, st: State, a: int, data: seq<Block>)
    requires Inv(g, st) && TakesBlocks(g, st, a, data)
    ensures Inv(g, WriteBlocks(g, st, a, data)) <==> |data| == 1
  {
    HeadInLog(g, st);
    GuardForBlocks(g, st, a, data);
    if |data| == 1 {
      assert data == [data[0]];
      OneBlockIsAppend(g, st, a, data[0]);
      AppendInv(g, st, a, data[0]);
    } else {
      var q := g.ZoneOf(st.logEnd);
      DivModSucc(st.logEnd, g.zoneBlocks);
      assert |WriteBlocks(g, st, a, data).zones[q]| != Fill(g, st.logEnd + 1, q);
    }
  }

  /** After a write of several blocks the head points into that write, at its second block. */
  lemma HeadAfterSeveral(g: Geometry, st: State, a: int, data: seq<Block>)
    requires Inv(g, st) && TakesBlocks(g, st, a, data) && 2 <= |data|
    ensures var st1 := WriteBlocks(g, st, a, data); var q := g.ZoneOf(st.logEnd);
      && st1.logEnd == st.logEnd + 1 && 0 <= q < |st1.zones| && g.ZoneOf(st1.logEnd) == q
      && 0 <= g.InZone(st1.logEnd) < |st1.zones[q]| && st1.zones[q][g.InZone(st1.logEnd)] == data[1]
  {
    HeadInLog(g, st);
    DivModSucc(st.logEnd, g.zoneBlocks);
  }

  /** One block is entered at the head, wherever the device puts it. */
  lemma OneBlockEntry(g: Geometry, st: State, b: int, next: Block)
    requires HeadZoneExists(g, st) && 0 <= g.InZone(st.logEnd) < |st.zones[g.ZoneOf(st.logEnd)]|
    ensures 0 <= g.ZoneOf(st.logEnd)
    ensures ReadsAs(g, WriteBlocks(g, st, b, [next]), b, st.zones[g.ZoneOf(st.logEnd)][g.InZone(st.logEnd)])
  {
    EntryOf(g, st.logMap, b, st.logEnd, 1, 0);
    assert b + g.Bytes(0) == b;
  }

  /**
   What goes wrong otherwise. The one-block write that follows enters the block number of the second
   block of the earlier buffer, so it reads back if and only if the earlier write was of one block, or
   that second block happens to be the same.
   */
  lemma NextWriteReadsBackIff(g: Geometry, st: State, a: int, data: seq<Block>, b: int, next: Block)
    requires Inv(g, st) && TakesBlocks(g, st, a, data)
    requires TakesBlocks(g, WriteBlocks(g, st, a, data), b, [next])
    ensures var st2 := WriteBlocks(g, WriteBlocks(g, st, a, data), b, [next]);
      && ReadsAs(g, st2, b, if |data| == 1 then next else data[1])
      && (ReadsAs(g, st2, b, next) <==> |data| == 1 || data[1] == next)
  {
    hide Inv, WriteBlocks, HeadZoneExists;
    var st1 := WriteBlocks(g, st, a, data);
    if |data| == 1 {
      HeadTracksIffOneBlock(g, st, a, data);
      BlocksReadBack(g, st1, b, [next], 0);
      assert b + g.Bytes(0) == b;
    } else {
      HeadAfterSeveral(g, st, a, data);
      OneBlockEntry(g, st1, b, next);
    }
  }

  /** On a fresh device: two blocks at the start of a zone, then one block behind them that reads as the second. */
  lemma ThirdBlockReadsAsSecond(g: Geometry, x: Block, y: Block, next: Block)
    requires g.Valid() && 1 <= g.dataZones && 3 <= g.zoneBlocks && 3 <= g.LogCapacity() && g.Bytes(2) < MDTS
    ensures var a, b := g.AddressOf(g.logZones, 0), g.AddressOf(g.logZones, 2);
      && TakesBlocks(g, Init(g), a, [x, y])
      && var st1 := WriteBlocks(g, Init(g), a, [x, y]);
      && TakesBlocks(g, st1, b, [next])
      && ReadsAs(g, WriteBlocks(g, st1, b, [next]), b, y)
  {
    var a, b := g.AddressOf(g.logZones, 0), g.AddressOf(g.logZones, 2);
    g.JoinThenSplit(g.logZones, 0);
    g.JoinThenSplit(g.logZones, 1);
    g.JoinThenSplit(g.logZones, 2);
    g.NeedsGcExactly(1);
    InitInv(g);
    HeadInLog(g, Init(g));
    assert a == 0 && g.Bytes(1) == g.AddressOf(g.logZones, 1) && g.Bytes(0) == 0;
    DivModSucc(0, g.zoneBlocks);
    NextWriteReadsBackIff(g, Init(g), a, [x, y], b, next);
  }
}
