/**
 The state of the translation layer as a value, its invariant, and the address translation.

 A zone of the device is the sequence of blocks written since its last reset, so its write
 pointer is the length of that sequence and blocks past the write pointer have no contents.
 */
module FtlState {
  import opened Arith
  import opened Geometry

  datatype Block = Block(bytes: seq<bv8>)

  /** What `memset(buffer, 0, lba_size)` leaves behind. */
  function ZeroBlock(g: Geometry): Block { Block(seq(g.lbaBytes, _ => 0)) }

  const EMPTY_ZONE: int := 1
  const FULL_ZONE: int := 14

  datatype State = State(
    zones: seq<seq<Block>>,     // device contents, zone by zone
    states: seq<int>,           // zone_states[]
    logMap: map<int, int>,      // log_zone_mapping: address -> block number in the log
    dataMap: map<int, int>,     // data_zone_mapping: logical zone -> first block of its data zone
    logEnd: int,                // log_zone_end
    programmed: nat)            // blocks written to the device so far

  // ---- Reading device blocks ----

  /** Block `lba` lies below the write pointer of its zone. */
  ghost predicate Readable(g: Geometry, zones: seq<seq<Block>>, lba: int)
  {
    0 <= lba && 0 <= g.ZoneOf(lba) < |zones| && 0 <= g.InZone(lba) < |zones[g.ZoneOf(lba)]|
  }

  ghost function Peek(g: Geometry, zones: seq<seq<Block>>, lba: int): Block
    requires Readable(g, zones, lba)
  {
    zones[g.ZoneOf(lba)][g.InZone(lba)]
  }

  // ---- Invariant ----

  ghost predicate Shape(g: Geometry, st: State) {
    |st.zones| == g.Zones() && |st.states| == g.Zones()
  }

  /** How many blocks of log zone `k` are written when the log head is `e`. */
  function Fill(g: Geometry, e: int, k: int): int
  {
    if k < g.ZoneOf(e) then g.zoneBlocks else if k == g.ZoneOf(e) then g.InZone(e) else 0
  }

  /** The log zones hold exactly the blocks below the log head. */
  ghost predicate LogFilled(g: Geometry, st: State)
    requires Shape(g, st)
  {
    && 0 <= st.logEnd <= g.LogCapacity()
    && forall k :: 0 <= k < g.logZones ==> |st.zones[k]| == Fill(g, st.logEnd, k)
  }

  /** Index of the data zone that holds logical zone `z`. */
  ghost function Home(g: Geometry, dataMap: map<int, int>, z: int): int
    requires z in dataMap
  {
    g.ZoneOf(dataMap[z])
  }

  ghost predicate Mapped(g: Geometry, dataMap: map<int, int>, d: int)
  {
    exists z :: z in dataMap && Home(g, dataMap, z) == d
  }

  /** The zone map is injective into starts of data zones. */
  ghost predicate DataMapOk(g: Geometry, dataMap: map<int, int>)
  {
    && (forall z :: z in dataMap ==>
          g.IsDataZone(z) && g.IsDataZone(Home(g, dataMap, z)) && dataMap[z] == g.ZoneStart(Home(g, dataMap, z)))
    && (forall z, z' :: z in dataMap && z' in dataMap && z != z' ==> Home(g, dataMap, z) != Home(g, dataMap, z'))
  }

  /** A data zone is FULL and completely written iff some logical zone lives there, else EMPTY and reset. */
  ghost predicate Allocated(g: Geometry, st: State)
    requires Shape(g, st)
  {
    forall d :: g.IsDataZone(d) ==>
      if Mapped(g, st.dataMap, d) then st.states[d] == FULL_ZONE && |st.zones[d]| == g.zoneBlocks
      else st.states[d] == EMPTY_ZONE && st.zones[d] == []
  }

  /** Every log entry is a user address bound to its own written log block. */
  ghost predicate LogMapOk(g: Geometry, st: State)
  {
    && (forall a :: a in st.logMap ==> g.IsAddress(a) && 0 <= st.logMap[a] < st.logEnd)
    && (forall a, b :: a in st.logMap && b in st.logMap && a != b ==> st.logMap[a] != st.logMap[b])
  }

  /** What the merge loop relies on; unlike `Inv` it does not mention the log map. */
  ghost predicate MergeReady(g: Geometry, st: State) {
    && g.Valid()
    && Shape(g, st)
    && LogFilled(g, st)
    && DataMapOk(g, st.dataMap)
    && Allocated(g, st)
  }

  ghost predicate Inv(g: Geometry, st: State) {
    MergeReady(g, st) && LogMapOk(g, st)
  }

  /** The state a fresh device is in after initialisation with a forced reset. */
  ghost function Init(g: Geometry): State {
    State(seq(g.Zones(), _ => []), seq(g.Zones(), i => if i < g.logZones then 0 else EMPTY_ZONE),
          map[], map[], 0, 0)
  }

  lemma InitInv(g: Geometry)
    requires g.Valid()
    ensures Inv(g, Init(g))
  {
    g.LogCapacityBounds();
    DivModUnique(0, 0, g.zoneBlocks);
  }

  // ---- Consequences of the invariant ----

  /** Blocks below the log head are readable and lie before the last log zone. */
  lemma LogReadable(g: Geometry, st: State, lba: int)
    requires g.Valid() && Shape(g, st) && LogFilled(g, st) && 0 <= lba < st.logEnd
    ensures Readable(g, st.zones, lba)
    ensures g.ZoneOf(lba) < g.logZones - 1
  {
    g.LogCapacityBounds();
    DivModOrder(lba, st.logEnd, g.zoneBlocks);
    DivBound(lba, g.logZones - 1, g.zoneBlocks);
    DivBound(lba, 0, g.zoneBlocks);
  }

  /** The log never reaches its last zone, so resetting that zone loses nothing. */
  lemma LastLogZoneEmpty(g: Geometry, st: State)
    requires g.Valid() && Shape(g, st) && LogFilled(g, st)
    ensures st.zones[g.logZones - 1] == []
  {
    g.LogCapacityBounds();
    DivBound(st.logEnd, g.logZones - 1, g.zoneBlocks);
  }

  /** Contents of the data zone that holds logical zone `z`. */
  ghost function DataOf(g: Geometry, st: State, z: int): seq<Block>
    requires MergeReady(g, st) && z in st.dataMap
    ensures |DataOf(g, st, z)| == g.zoneBlocks
  {
    assert Mapped(g, st.dataMap, Home(g, st.dataMap, z));
    st.zones[Home(g, st.dataMap, z)]
  }

  /** Block `o` of data zone `d` by block number. */
  lemma DataBlock(g: Geometry, d: int, o: int)
    requires g.Valid() && g.IsDataZone(d) && 0 <= o < g.zoneBlocks
    ensures var lba := g.ZoneStart(d) + o;
      && g.ZoneOf(lba) == d && g.InZone(lba) == o
      && 0 <= g.ZoneStart(g.logZones) <= lba < g.ZoneStart(g.Zones())
  {
    DivModUnique(d, o, g.zoneBlocks);
    MulMono(g.logZones, d, g.zoneBlocks);
    MulMono(d + 1, g.Zones(), g.zoneBlocks);
    MulMono(0, g.logZones, g.zoneBlocks);
  }

  lemma DataReadable(g: Geometry, st: State, z: int, o: int)
    requires MergeReady(g, st) && z in st.dataMap && 0 <= o < g.zoneBlocks
    ensures Readable(g, st.zones, st.dataMap[z] + o)
    ensures Peek(g, st.zones, st.dataMap[z] + o) == DataOf(g, st, z)[o]
    ensures g.ZoneStart(g.logZones) <= st.dataMap[z] + o < g.ZoneStart(g.Zones())
  {
    var d := Home(g, st.dataMap, z);
    assert Mapped(g, st.dataMap, d);
    DataBlock(g, d, o);
  }

  // ---- Translation: what a one-block read returns ----

  /** Block number that the read path translates `a` to, if it translates `a` at all. */
  datatype Location = Nowhere | Found(lba: int)

  ghost function Translate(g: Geometry, st: State, a: int): Location
  {
    if a in st.logMap && st.logMap[a] >= 0 then Found(st.logMap[a])
    else if g.LogicalZone(a) in st.dataMap then Found(st.dataMap[g.LogicalZone(a)] + g.OffsetInZone(a))
    else Nowhere
  }

  /** Every translated address is readable, whether or not it is aligned and inside the capacity. */
  lemma TranslateReadable(g: Geometry, st: State, a: int)
    requires Inv(g, st) && 0 <= a
    ensures Translate(g, st, a).Found? ==> Readable(g, st.zones, Translate(g, st, a).lba)
  {
    g.OffsetInside(a);
    if a in st.logMap {
      LogReadable(g, st, st.logMap[a]);
    } else if g.LogicalZone(a) in st.dataMap {
      DataReadable(g, st, g.LogicalZone(a), g.OffsetInZone(a));
    }
  }

  ghost function Lookup(g: Geometry, st: State, a: int): Block
    requires Inv(g, st) && 0 <= a
  {
    TranslateReadable(g, st, a);
    match Translate(g, st, a)
    case Nowhere => ZeroBlock(g)
    case Found(lba) => Peek(g, st.zones, lba)
  }

  /** The same value told by logical zone and offset. */
  lemma LookupCases(g: Geometry, st: State, a: int)
    requires Inv(g, st) && 0 <= a
    ensures 0 <= g.OffsetInZone(a) < g.zoneBlocks
    ensures a in st.logMap ==> Readable(g, st.zones, st.logMap[a]) && Lookup(g, st, a) == Peek(g, st.zones, st.logMap[a])
    ensures a !in st.logMap && g.LogicalZone(a) in st.dataMap ==>
              Lookup(g, st, a) == DataOf(g, st, g.LogicalZone(a))[g.OffsetInZone(a)]
    ensures a !in st.logMap && g.LogicalZone(a) !in st.dataMap ==> Lookup(g, st, a) == ZeroBlock(g)
  {
    g.OffsetInside(a);
    TranslateReadable(g, st, a);
    if a !in st.logMap && g.LogicalZone(a) in st.dataMap {
      DataReadable(g, st, g.LogicalZone(a), g.OffsetInZone(a));
    }
  }

  /** No two user addresses share a device block: log and data blocks never alias. */
  lemma TranslationInjective(g: Geometry, st: State, a: int, b: int)
    requires Inv(g, st) && g.IsAddress(a) && g.IsAddress(b)
    requires Translate(g, st, a).Found? && Translate(g, st, a) == Translate(g, st, b)
    ensures a == b
  {
    TranslateRegion(g, st, a);
    TranslateRegion(g, st, b);
    if a !in st.logMap {
      var za, zb := g.LogicalZone(a), g.LogicalZone(b);
      g.SplitThenJoin(a);
      g.SplitThenJoin(b);
      DataBlock(g, Home(g, st.dataMap, za), g.OffsetInZone(a));
      DataBlock(g, Home(g, st.dataMap, zb), g.OffsetInZone(b));
    }
  }

  /** Blocks of the log region serve exactly the addresses in the log. */
  lemma TranslateRegion(g: Geometry, st: State, a: int)
    requires Inv(g, st) && g.IsAddress(a) && Translate(g, st, a).Found?
    ensures a in st.logMap ==> Translate(g, st, a) == Found(st.logMap[a]) && Translate(g, st, a).lba < g.ZoneStart(g.logZones)
    ensures a !in st.logMap ==> g.LogicalZone(a) in st.dataMap && g.ZoneStart(g.logZones) <= Translate(g, st, a).lba
  {
    g.LogCapacityBounds();
    if a !in st.logMap {
      g.SplitThenJoin(a);
      DataReadable(g, st, g.LogicalZone(a), g.OffsetInZone(a));
    }
  }
}
