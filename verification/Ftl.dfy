/**
 The translation layer as it runs: the mutable maps, log head, zone states and merge buffer, and the
 calls that update them and the device. Each method is tied to the function on states that models it.
 */
module Ftl {
  import opened Arith
  import opened Geometry
  import opened FtlState
  import opened Allocator
  import opened Collector
  import opened GcRound
  import opened LogWrite
  import opened Runs
  import opened ReadPath
  import opened Flash
  import opened Transfer
  import opened Collections

  class Ftl {
    const g: Geometry
    const dev: Flash
    const zoneStates: array<int>
    var logMap: map<int, int>
    var dataMap: map<int, int>
    var logEnd: int
    var triggerGc: bool
    ghost var events: seq<Event>

    ghost predicate Wired() {
      g.Valid() && dev.zoneBlocks == g.zoneBlocks && dev.maxBlocks == g.Blocks(MDTS) && zoneStates.Length == g.Zones()
    }

    /** The fields and the device as one value. */
    ghost function View(): State
      reads this, dev`zones, dev`programmed, zoneStates
    {
      State(dev.zones, zoneStates[..], logMap, dataMap, logEnd, dev.programmed)
    }

    /** Between calls: the object is in the state its history leads to, and no collection is pending. */
    ghost predicate Valid()
      reads this, dev`zones, dev`programmed, zoneStates
    {
      Wired() && Exec(g, events) == Ran(View()) && !triggerGc
    }

    /** Initialisation with a forced reset of a device with arbitrary contents. */
    constructor (g: Geometry, contents: seq<seq<Block>>)
      requires g.Valid() && |contents| == g.Zones()
      ensures Valid() && this.g == g && events == [] && fresh(dev) && fresh(zoneStates)
    {
      this.g := g;
      dev := new Flash(g.zoneBlocks, g.Blocks(MDTS), contents);
      zoneStates := new int[g.Zones()](_ => 0);
      logMap, dataMap, logEnd, triggerGc, events := map[], map[], 0, false, [];
      new;
      dev.ResetAll();
      var i := g.logZones;
      while i < g.Zones()
        invariant g.logZones <= i <= g.Zones()
        invariant dev.zones == Init(g).zones && dev.programmed == 0
        invariant logMap == map[] && dataMap == map[] && logEnd == 0 && !triggerGc && events == []
        invariant forall k :: 0 <= k < i ==> zoneStates[k] == Init(g).states[k]
        invariant forall k :: i <= k < g.Zones() ==> zoneStates[k] == 0
      {
        zoneStates[i] := dev.ReportedState(i);
        i := i + 1;
      }
      assert View() == Init(g);
    }

    function FreeZoneNumber(offset: int): int
      requires Wired()
      reads this
    {
      g.FreeZones(logEnd, offset)
    }

    /** First block of the first EMPTY data zone, as the `int` the C code returns, or -1. */
    method NextEmptyZone() returns (r: int)
      requires Wired()
      ensures var d := FirstEmpty(g, zoneStates[..], g.logZones); r == if d == -1 then -1 else g.ZoneStart(d)
    {
      var i := g.logZones;
      while i < zoneStates.Length
        invariant g.logZones <= i <= zoneStates.Length
        invariant FirstEmpty(g, zoneStates[..], g.logZones) == FirstEmpty(g, zoneStates[..], i)
      {
        if zoneStates[i] == EMPTY_ZONE {
          g.ZoneStartFits(i);
          return I32(g.ZoneStart(i));
        }
        i := i + 1;
      }
      return -1;
    }

    /** Reading one block below a write pointer. */
    lemma OneBlockReadable(st: State, lba: int)
      requires Wired() && MergeReady(g, st) && st.zones == dev.zones && Readable(g, dev.zones, lba)
      ensures dev.CanRead(lba, 1) && 0 < dev.maxBlocks
      ensures dev.zones[g.ZoneOf(lba)][g.InZone(lba)..g.InZone(lba) + 1] == [Peek(g, dev.zones, lba)]
    {
      var k := g.ZoneOf(lba);
      assert 0 <= k < g.logZones || g.IsDataZone(k);
    }

    /** Reads the log blocks of one group over `buffer`, in any order; `st` is the state the merge started from. */
    method LoadGroup(ghost st: State, group: map<int, int>, buffer: array<Block>)
      requires Wired() && MergeReady(g, st) && st.zones == dev.zones && GroupOk(g, st, group)
      requires buffer.Length == g.zoneBlocks
      modifies buffer, dev`commands
      ensures buffer[..] == Overlay(g, st, old(buffer[..]), group)
    {
      ghost var base := buffer[..];
      GroupReadable(g, st, group);
      var remaining := group.Keys;
      while remaining != {}
        invariant remaining <= group.Keys
        invariant forall i :: 0 <= i < buffer.Length ==>
          buffer[i] == if i in group && i !in remaining then Peek(g, st.zones, group[i]) else base[i]
        decreases |remaining|
      {
        ghost var some := AnyElement(remaining);
        var o :| o in remaining;
        OneBlockReadable(st, group[o]);
        var ret, data := dev.Read(group[o], 0);
        buffer[o] := data[0];
        remaining := remaining - {o};
      }
      assert buffer[..] == Overlay(g, st, base, group);
    }

    /** `Home` and zone starts in block numbers, as device commands and array indices take them. */
    lemma HomeStart(st: State, z: int)
      requires MergeReady(g, st) && z in st.dataMap
      ensures var p := Home(g, st.dataMap, z);
        && g.IsDataZone(p) && g.ZoneOf(st.dataMap[z]) == p
        && g.InZone(st.dataMap[z]) == 0 && 0 <= st.dataMap[z]
        && st.zones[p] == DataOf(g, st, z) && |st.zones[p]| == g.zoneBlocks
        && (FirstEmpty(g, st.states, g.logZones) != p)
    {
      var p := Home(g, st.dataMap, z);
      assert Mapped(g, st.dataMap, p);
      MultipleDiv(p, g.zoneBlocks);
      MulMono(0, p, g.zoneBlocks);
    }

    /** Reads the whole zone that starts at `start` into `buffer`. */
    method ReadZone(start: int, buffer: array<Block>) returns (ret: int, ghost chunks: seq<Chunk>)
      requires Wired() && buffer.Length == g.zoneBlocks
      requires g.InZone(start) == 0 && 0 <= g.ZoneOf(start) < |dev.zones|
      requires |dev.zones[g.ZoneOf(start)]| == g.zoneBlocks
      modifies dev, buffer
      ensures ret == 0 && dev.zones == old(dev.zones) && dev.programmed == old(dev.programmed)
      ensures buffer[..] == dev.zones[g.ZoneOf(start)]
      ensures Tiles(chunks, start, g.zoneBlocks, g.Blocks(MDTS)) && dev.commands == old(dev.commands) + CommandsOf(chunks, true)
    {
      g.BytesDiv(g.zoneBlocks);
      ret, chunks := IoWithMdts(g, dev, start, buffer, g.Bytes(g.zoneBlocks), true);
    }

    /** Fills the empty zone that starts at `start` with `buffer`. */
    method WriteZone(start: int, buffer: array<Block>) returns (ret: int, ghost chunks: seq<Chunk>)
      requires Wired() && buffer.Length == g.zoneBlocks
      requires g.InZone(start) == 0 && 0 <= g.ZoneOf(start) < |dev.zones|
      requires dev.zones[g.ZoneOf(start)] == []
      modifies dev, buffer
      ensures ret == 0 && buffer[..] == old(buffer[..])
      ensures dev.zones == old(dev.zones)[g.ZoneOf(start) := buffer[..]]
      ensures dev.programmed == old(dev.programmed) + g.zoneBlocks
      ensures Tiles(chunks, start, g.zoneBlocks, g.Blocks(MDTS)) && dev.commands == old(dev.commands) + CommandsOf(chunks, false)
    {
      g.BytesDiv(g.zoneBlocks);
      ghost var was := buffer[..];
      ret, chunks := IoWithMdts(g, dev, start, buffer, g.Bytes(g.zoneBlocks), false);
      assert [] + was[0..g.zoneBlocks] == was;
    }

    /** The fields are those of `st`, except that the old data zone of `z`, if any, is marked EMPTY. */
    ghost predicate ImageLoaded(st: State, z: int, prevZone: int)
      reads this, dev`zones, dev`programmed, zoneStates
    {
      && Wired() && MergeReady(g, st) && g.IsDataZone(z)
      && prevZone == (if z in st.dataMap then st.dataMap[z] else -1)
      && View() == st.(states := if z in st.dataMap then st.states[Home(g, st.dataMap, z) := EMPTY_ZONE] else st.states)
    }

    /** No EMPTY data zone: rewrite the old one, then reset the last log zone at `zoneNumber`. */
    method StoreInPlace(ghost st: State, z: int, prevZone: int, zoneNumber: int, buffer: array<Block>)
      returns (ret: int, ghost chunks: seq<Chunk>)
      requires ImageLoaded(st, z, prevZone) && buffer.Length == g.zoneBlocks && z in st.dataMap
      requires FirstEmpty(g, st.states, g.logZones) == -1 && zoneNumber == g.ZoneStart(g.logZones - 1)
      modifies this`dataMap, dev, zoneStates, buffer
      ensures ret == 0 && buffer[..] == old(buffer[..])
      ensures View() == MergeZone(g, st, z, buffer[..])
      ensures Tiles(chunks, prevZone, g.zoneBlocks, g.Blocks(MDTS))
      ensures dev.commands == old(dev.commands) + [Command(Resetting, prevZone, 0)] + CommandsOf(chunks, false)
                              + [Command(Resetting, zoneNumber, 0)]
    {
      hide Allocated, DataMapOk, LogFilled, Tiles, CommandsOf, FirstEmpty, Quot, Rem;
      HomeStart(st, z);
      MultipleDiv(g.logZones - 1, g.zoneBlocks);
      dev.Reset(prevZone);
      ret, chunks := WriteZone(prevZone, buffer);
      zoneStates[g.ZoneOf(prevZone)] := FULL_ZONE;
      dev.Reset(zoneNumber);
      ghost var p := Home(g, st.dataMap, z);
      assert dev.zones == st.zones[p := buffer[..]][g.logZones - 1 := []];
      assert zoneStates[..] == st.states[p := FULL_ZONE];
    }

    /** Some data zone is EMPTY: fill it, remap `z` to it, and only then reset the old zone of `z`. */
    method StoreFresh(ghost st: State, z: int, prevZone: int, zoneNumber: int, buffer: array<Block>)
      returns (ret: int, ghost chunks: seq<Chunk>)
      requires ImageLoaded(st, z, prevZone) && buffer.Length == g.zoneBlocks
      requires var d := FirstEmpty(g, st.states, g.logZones); d != -1 && zoneNumber == g.ZoneStart(d)
      modifies this`dataMap, dev, zoneStates, buffer
      ensures ret == 0 && buffer[..] == old(buffer[..])
      ensures View() == MergeZone(g, st, z, buffer[..])
      ensures Tiles(chunks, zoneNumber, g.zoneBlocks, g.Blocks(MDTS))
      ensures dev.commands == old(dev.commands) + CommandsOf(chunks, false)
                              + (if prevZone == -1 then [] else [Command(Resetting, prevZone, 0)])
    {
      ghost var d := FirstEmpty(g, st.states, g.logZones);
      MultipleDiv(d, g.zoneBlocks);
      assert g.IsDataZone(d);
      if z in st.dataMap {
        HomeStart(st, z);
      }
      ret, chunks := WriteZone(zoneNumber, buffer);
      dataMap := dataMap[z := zoneNumber];
      zoneStates[g.ZoneOf(zoneNumber)] := FULL_ZONE;
      if prevZone != -1 {
        dev.Reset(prevZone);
      }
    }

    /**
     One iteration of the merge loop: the image of logical zone `z` is built in `buffer` and stored in
     the first EMPTY data zone, or in place when there is none.
     */
    method MergeOneZone(z: int, group: map<int, int>, buffer: array<Block>) returns (ret: int)
      requires Wired() && MergeReady(g, View()) && g.IsDataZone(z) && GroupOk(g, View(), group)
      requires buffer.Length == g.zoneBlocks
      modifies this`dataMap, dev, zoneStates, buffer
      ensures ret == 0
      ensures buffer[..] == Merged(g, old(View()), old(buffer[..]), z, group)
      ensures View() == MergeZone(g, old(View()), z, buffer[..])
    {
      hide MergeZone, Allocated, DataMapOk, LogFilled, GroupOk, Overlay, FirstEmpty, Mul, Quot, Rem;
      ghost var st := View();
      ghost var chunks;
      var zoneNumber := NextEmptyZone();
      var prevZone, usedLog := -1, false;
      if zoneNumber == -1 {
        g.ZoneStartFits(g.logZones - 1);
        zoneNumber := U32(g.ZoneStart(g.logZones - 1));
        usedLog := true;
        AlwaysHome(g, st, z);
      }
      if z in dataMap {
        HomeStart(st, z);
        ret, chunks := ReadZone(dataMap[z], buffer);
        zoneStates[g.ZoneOf(dataMap[z])] := EMPTY_ZONE;
        prevZone := dataMap[z];
      }
      LoadGroup(st, group, buffer);
      if usedLog {
        ret, chunks := StoreInPlace(st, z, prevZone, zoneNumber, buffer);
      } else {
        ret, chunks := StoreFresh(st, z, prevZone, zoneNumber, buffer);
      }
    }

    /**
     `zone_merge`: merges all groups in whatever order the map yields them. The buffer is cleared once,
     before the first iteration.
     */
    method ZoneMerge(groups: map<int, map<int, int>>) returns (ret: int, ghost order: seq<int>)
      requires Wired() && MergeReady(g, View()) && GroupsOk(g, View(), groups)
      modifies this`dataMap, dev, zoneStates
      ensures ret == 0 && Enumerates(order, groups.Keys)
      ensures View() == MergeAll(g, old(View()), ZeroBuffer(g), groups, order).st
    {
      hide MergeReady, MergeZone, Merged, MergeAll;
      ghost var st := View();
      var buffer := new Block[g.zoneBlocks](_ => ZeroBlock(g));
      assert buffer[..] == ZeroBuffer(g);
      var remaining := groups.Keys;
      order, ret := [], 0;
      MergeAllNothing(g, st, ZeroBuffer(g), groups);
      while remaining != {}
        invariant remaining <= groups.Keys && Distinct(order) && ret == 0
        invariant forall z :: z in order <==> z in groups.Keys && z !in remaining
        invariant MergeAll(g, st, ZeroBuffer(g), groups, order) == MergeResult(View(), buffer[..])
        decreases |remaining|
      {
        ghost var some := AnyElement(remaining);
        var z :| z in remaining;
        MergeAllSnoc(g, st, ZeroBuffer(g), groups, order, z);
        ret := MergeOneZone(z, groups[z], buffer);
        remaining := remaining - {z};
        order := order + [z];
      }
      assert remaining == {};
      assert Enumerates(order, groups.Keys);
    }

    /** Groups the log by logical zone, clearing every entry of the log map on the way. */
    method GroupLog() returns (groups: map<int, map<int, int>>)
      requires Wired() && UserAddresses(g, logMap)
      modifies this`logMap
      ensures groups == Groups(g, old(logMap)) && logMap == Invalidate(old(logMap))
    {
      hide Groups, Group;
      ghost var was := logMap;
      var remaining := logMap.Keys;
      groups := map[];
      GroupsOfNothing(g);
      PartlyEnds(SignBit, was);
      while remaining != {}
        invariant remaining <= was.Keys
        invariant logMap == Partly(SignBit, was, remaining)
        invariant groups == Groups(g, was - remaining)
        decreases |remaining|
      {
        ghost var some := AnyElement(remaining);
        var a :| a in remaining;
        PartlyStep(SignBit, was, remaining, a);
        GroupsInsert(g, was - remaining, a, was[a]);
        var z, o := g.LogicalZone(a), g.OffsetInZone(a);
        var group := if z in groups then groups[z] else map[];
        if o !in group {
          group := group[o := logMap[a]];
        }
        groups := groups[z := group];
        logMap := logMap[a := SignBit(logMap[a])];
        remaining := remaining - {a};
      }
    }

    /** One pass of the collector thread's loop, from the trigger to the signal. */
    method RunCollector() returns (ghost order: seq<int>)
      requires Wired() && Exec(g, events) == Ran(View()) && triggerGc && g.NeedsGc(logEnd)
      modifies this, dev, zoneStates
      ensures Valid()
      ensures Enumerates(order, Groups(g, old(logMap)).Keys) && events == old(events) + [Collected(order)]
      ensures View() == Collect(g, old(View()), order) && !g.NeedsGc(logEnd)
    {
      hide MergeAll, Mul, Quot, Rem;
      ghost var st := View();
      LogHeadPositive(g, st);
      GroupsAreOk(g, st);
      var groups := GroupLog();
      var ret;
      ret, order := ZoneMerge(groups);
      assert View() == AfterMerge(g, st, order);
      ResetLogZones();
      logEnd := 0;
      logMap := map[];
      triggerGc := false;
      events := events + [Collected(order)];
      ExecSnoc(g, old(events), Collected(order));
      assert View() == Collect(g, st, order);
    }

    /** The resets of the log zones, first to last. */
    ghost function LogResets(n: nat): seq<Command> {
      seq(n, i => Command(Resetting, g.ZoneStart(i), 0))
    }

    /** Resets the log zones one by one. */
    method ResetLogZones()
      requires Wired() && |dev.zones| == g.Zones()
      modifies dev
      ensures dev.zones == ResetZones(old(dev.zones), g.logZones) && dev.programmed == old(dev.programmed)
      ensures dev.commands == old(dev.commands) + LogResets(g.logZones)
    {
      var i := 0;
      while i < g.logZones
        invariant 0 <= i <= g.logZones && dev.programmed == old(dev.programmed)
        invariant dev.zones == ResetZones(old(dev.zones), i)
        invariant dev.commands == old(dev.commands) + LogResets(i)
      {
        g.ZoneStartFits(i);
        assert LogResets(i + 1) == LogResets(i) + [Command(Resetting, g.ZoneStart(i), 0)];
        dev.Reset(U32(g.ZoneStart(i)));
        i := i + 1;
      }
    }

    /** Appends the blocks of `buffer` at the log head in one command and enters them into the log map. */
    method AppendToLog(address: int, buffer: array<Block>, size: int) returns (ret: int)
      requires Wired() && g.IsAligned(size) && 0 <= g.Blocks(size) <= buffer.Length
      requires TakesBlocks(g, View(), address, buffer[..g.Blocks(size)])
      modifies this`logMap, this`logEnd, dev
      ensures ret == 0
      ensures View() == WriteBlocks(g, old(View()), address, buffer[..g.Blocks(size)])
      ensures dev.commands == old(dev.commands) + [Command(Appending, g.ZoneStart(g.ZoneOf(old(logEnd))), g.Blocks(size))]
    {
      hide TakesBlocks, HeadZoneExists, Geometry.Valid, U32, I32;
      ghost var st := View();
      var blocks := g.Blocks(size);
      var prevLogZoneEnd, zoneNo := I32(logEnd), g.ZoneOf(logEnd);
      HeadFacts(g, st, address, buffer[..blocks]);
      var lba;
      var zslba := U32(g.ZoneStart(zoneNo));
      ret, lba := dev.Append(zslba, blocks - 1, buffer[..blocks]);
      logEnd := U32(lba + 1);
      for i := 0 to blocks
        invariant logMap == EnterBlocks(g, st.logMap, address, st.logEnd, i)
        modifies this`logMap
      {
        logMap := logMap[address + g.Bytes(i) := prevLogZoneEnd + i];
      }
      assert View() == WriteBlocks(g, st, address, buffer[..blocks]);
    }

    /** The append as an event of the history. */
    method AppendBlock(address: int, buffer: array<Block>, size: int) returns (ret: int)
      requires Valid() && !g.NeedsGc(logEnd) && g.IsAddress(address)
      requires size == g.lbaBytes && 1 <= buffer.Length
      modifies this, dev
      ensures ret == 0 && Valid()
      ensures events == old(events) + [Wrote(address, buffer[0])]
      ensures old(logEnd) < g.LogCapacity() && View() == Append(g, old(View()), address, buffer[0])
    {
      hide Append, Exec, TakesBlocks, WriteBlocks, Geometry.Valid;
      ghost var st, ev := View(), Wrote(address, buffer[0]);
      OneBlockSize(g, size);
      OneBlockTaken(g, st, address, buffer[0]);
      assert buffer[..1] == [buffer[0]];
      ret := AppendToLog(address, buffer, size);
      OneBlockIsAppend(g, st, address, buffer[0]);
      WroteIsApplied(g, st, address, buffer[0]);
      ExecSnoc(g, events, ev);
      events := events + [ev];
    }

    /**
     A write of one block. The collector runs first if the log is full, as `round` records; then the
     block is appended at the log head.
     */
    method Write(address: int, buffer: array<Block>, size: int) returns (ret: int, ghost round: seq<Event>)
      requires Valid()
      requires g.IsAligned(size) ==> size == g.lbaBytes && g.IsAddress(address) && 1 <= buffer.Length
      modifies this, dev, zoneStates
      ensures Valid()
      ensures !g.IsAligned(size) ==> ret == -1 && View() == old(View()) && events == old(events)
      ensures g.IsAligned(size) ==> ret == 0 && events == old(events) + round + [Wrote(address, buffer[0])]
      ensures g.IsAligned(size) ==> IsRound(round, old(g.NeedsGc(logEnd)))
      ensures g.IsAligned(size) ==> forall b :: g.IsAddress(b) ==>
        ValueAfterWrite(g, old(View()), View(), address, buffer[0], b)
    {
      hide Exec, Collect, Append, ValueAfterWrite;
      round := [];
      if !g.IsAligned(size) {
        return -1, [];
      }
      OneBlockSize(g, size);
      var blocks := g.Blocks(size);
      ghost var st0, order := View(), [];
      LogHeadPositive(g, st0);
      while FreeZoneNumber(blocks) <= g.watermark
        invariant Valid() && events == old(events) + round
        invariant IsRound(round, round != [])
        invariant round == [] ==> View() == st0
        invariant round != [] ==> g.NeedsGc(st0.logEnd) && !g.NeedsGc(logEnd)
        invariant round != [] ==> Enumerates(order, Groups(g, st0.logMap).Keys) && View() == Collect(g, st0, order)
        decreases |round| == 0
      {
        triggerGc := true;
        order := RunCollector();
        round := [Collected(order)];
      }
      ghost var st1 := View();
      ret := AppendBlock(address, buffer, size);
      forall b | g.IsAddress(b)
        ensures ValueAfterWrite(g, st0, View(), address, buffer[0], b)
      {
        WriteEffect(g, st0, st1, order, round != [], address, buffer[0], b);
      }
    }

    /** Translates one block address as the read path does; `found` tells whether any block holds it. */
    method TranslateBlock(address: int) returns (found: bool, entry: int)
      requires Wired() && Inv(g, View()) && 0 <= address
      ensures found <==> !Hole(g, View(), address)
      ensures found ==> Translate(g, View(), address) == Found(entry)
    {
      var readData := true;
      found, entry := true, 0;
      if address in logMap {
        entry := logMap[address];
        readData := entry < 0;
      }
      if readData {
        var zoneNumber := g.LogicalZone(address);
        if zoneNumber !in dataMap {
          return false, 0;
        }
        entry := dataMap[zoneNumber] + g.OffsetInZone(address);
      }
    }

    /** A read of any number of blocks below MDTS at any address, while no write or collection is under way. */
    method Read(address: int, buffer: array<Block>, size: int) returns (ret: int)
      requires Valid()
      requires g.IsAligned(size) ==>
        0 <= size < MDTS && size <= g.Bytes(buffer.Length) && 0 <= address
      modifies buffer, dev`commands
      ensures !g.IsAligned(size) ==> ret == -1 && buffer[..] == old(buffer[..])
      ensures g.IsAligned(size) ==> var n := g.Blocks(size);
        && ret == 0 && n <= buffer.Length && buffer[n..] == old(buffer[n..])
        && buffer[..n] == ReadResult(g, View(), address, n)
    {
      hide Exec, Inv, Hole, Translate, Lookup, BlockAddress, Geometry.IsAddress, Geometry.Bytes, Geometry.Blocks, Readable, Mul, Quot, Rem;
      if !g.IsAligned(size) {
        return -1;
      }
      ghost var st, n, k := View(), g.Blocks(size), 0;
      var blocks := g.Blocks(size);
      g.BlocksBound(size, buffer.Length);
      var i, numRead := address, 0;
      ReadLoopArith(g, address, 0, n);
      while i < address + g.Bytes(blocks)
        invariant 0 <= k <= n && i == BlockAddress(g, address, k) && numRead == g.Bytes(k)
        invariant forall j :: 0 <= j < k ==> !Hole(g, st, BlockAddress(g, address, j))
        invariant forall j :: 0 <= j < k ==> buffer[j] == Lookup(g, st, BlockAddress(g, address, j))
        invariant buffer[n..] == old(buffer[n..])
        invariant i < address + g.Bytes(blocks) <==> k < n
        decreases n - k
      {
        ReadLoopArith(g, address, k, n);
        var found, entry := TranslateBlock(i);
        if !found {
          forall j | 0 <= j < blocks {
            buffer[j] := ZeroBlock(g);
          }
          assert HasHole(g, st, address, n);
          return 0;
        }
        LookupAt(st, i, entry);
        var data;
        ret, data := dev.Read(entry, 0);
        buffer[g.Blocks(numRead)] := data[0];
        numRead := numRead + g.lbaBytes;
        i := i + g.lbaBytes;
        k := k + 1;
        ReadLoopArith(g, address, k, n);
      }
      return 0;
    }

    /** A found block can be read from the device, and is the value of its address. */
    lemma LookupAt(st: State, address: int, entry: int)
      requires Wired() && Inv(g, st) && st.zones == dev.zones && 0 <= address
      requires Translate(g, st, address) == Found(entry)
      ensures dev.CanRead(entry, 1) && 0 < dev.maxBlocks
      ensures dev.zones[g.ZoneOf(entry)][g.InZone(entry)..g.InZone(entry) + 1] == [Lookup(g, st, address)]
    {
      TranslateReadable(g, st, address);
      OneBlockReadable(st, entry);
    }
  }

  /** The byte counters of the read loop at its `k`-th block of `n`. */
  lemma ReadLoopArith(g: Geometry, a: int, k: int, n: int)
    requires g.Valid() && 0 <= k && 0 <= n
    ensures BlockAddress(g, a, k) < a + g.Bytes(n) <==> k < n
    ensures BlockAddress(g, a, 0) == a && g.Bytes(0) == 0
    ensures BlockAddress(g, a, k + 1) == BlockAddress(g, a, k) + g.lbaBytes
    ensures g.Bytes(k + 1) == g.Bytes(k) + g.lbaBytes && g.Blocks(g.Bytes(k)) == k
  {
    g.BytesDiv(k);
    if k < n { MulMono(k + 1, n, g.lbaBytes); } else { MulMono(n, k, g.lbaBytes); }
  }

  lemma OneBlockSize(g: Geometry, size: int)
    requires g.Valid() && size == g.lbaBytes
    ensures 0 < g.lbaBytes && 0 < g.zoneBlocks && g.Blocks(size) == 1
    ensures g.IsAligned(size) && g.Bytes(1) == size
  {
    g.BytesDiv(1);
  }

  lemma WroteIsApplied(g: Geometry, st: State, a: int, data: Block)
    requires Inv(g, st) && !g.NeedsGc(st.logEnd) && g.IsAddress(a)
    ensures st.logEnd < g.LogCapacity() && Enabled(g, st, Wrote(a, data))
    ensures Apply(g, st, Wrote(a, data)) == Append(g, st, a, data)
  {
    g.NeedsGcExactly(st.logEnd);
  }

  /** One collector round if one was needed, none otherwise. */
  ghost predicate IsRound(round: seq<Event>, needed: bool) {
    if needed then |round| == 1 && round[0].Collected? else round == []
  }

  /** The facts the append command needs about the log head. */
  lemma HeadFacts(g: Geometry, st: State, a: int, data: seq<Block>)
    requires TakesBlocks(g, st, a, data)
    ensures HeadZoneExists(g, st) && data != [] && I32(st.logEnd) == st.logEnd
    ensures var q := g.ZoneOf(st.logEnd);
      && 0 <= q < |st.zones| && U32(g.ZoneStart(q)) == g.ZoneStart(q)
      && 0 < g.zoneBlocks && g.ZoneOf(g.ZoneStart(q)) == q && g.InZone(g.ZoneStart(q)) == 0 <= g.ZoneStart(q)
      && |st.zones[q]| + |data| <= g.zoneBlocks && |data| <= g.Blocks(MDTS)
      && U32(g.ZoneStart(q) + |st.zones[q]| + 1) == g.ZoneStart(q) + |st.zones[q]| + 1
  {
    g.ZoneStartFits(g.ZoneOf(st.logEnd));
    g.TransferBlocks(|data|);
    QuotRem(st.logEnd, g.zoneBlocks);
  }

  /** A one-block write that passes the guard is a write the append takes. */
  lemma OneBlockTaken(g: Geometry, st: State, a: int, data: Block)
    requires Inv(g, st) && !g.NeedsGc(st.logEnd) && g.IsAddress(a)
    ensures st.logEnd < g.LogCapacity() && TakesBlocks(g, st, a, [data])
  {
    g.NeedsGcExactly(st.logEnd);
    HeadInLog(g, st);
    g.BytesDiv(1);
    assert g.Bytes(0) == 0 && g.Bytes(1) == g.lbaBytes;
  }

  lemma LogHeadPositive(g: Geometry, st: State)
    requires Inv(g, st)
    ensures g.NeedsGc(st.logEnd) ==> 0 < st.logEnd
    ensures !g.NeedsGc(0)
  {
    g.LogCapacityBounds();
    g.NeedsGcExactly(st.logEnd);
    g.NeedsGcExactly(0);
  }

  /** The address holds a value: it is in the log or its logical zone has a data zone. */
  ghost predicate HasValue(g: Geometry, st: State, a: int)
    requires g.Valid()
  {
    a in st.logMap || g.LogicalZone(a) in st.dataMap
  }

  /** After writing `data` to `a`, address `b` reads `data` if it is `a`, and otherwise what it read before. */
  ghost predicate ValueAfterWrite(g: Geometry, st: State, st': State, a: int, data: Block, b: int) {
    && Inv(g, st) && Inv(g, st') && g.IsAddress(b)
    && (b == a ==> HasValue(g, st', b) && Lookup(g, st', b) == data)
    && (b != a && HasValue(g, st, b) ==> HasValue(g, st', b) && Lookup(g, st', b) == Lookup(g, st, b))
    && (b != a && !HasValue(g, st', b) ==> Lookup(g, st', b) == Lookup(g, st, b) == ZeroBlock(g))
  }

  lemma WriteEffect(g: Geometry, st0: State, st1: State, order: seq<int>, ran: bool, a: int, data: Block, b: int)
    requires Inv(g, st0) && g.IsAddress(a) && g.IsAddress(b)
    requires if ran then Enumerates(order, Groups(g, st0.logMap).Keys) && st1 == Collect(g, st0, order) else st1 == st0
    requires Inv(g, st1) && st1.logEnd < g.LogCapacity()
    ensures ValueAfterWrite(g, st0, Append(g, st1, a, data), a, data, b)
  {
    if ran {
      CollectPreserves(g, st0, order, b);
    }
    AppendUpdates(g, st1, a, data, b);
    LookupCases(g, st0, b);
  }
}
