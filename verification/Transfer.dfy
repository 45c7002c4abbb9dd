/** Large transfers split into commands of at most MDTS bytes. */
module Transfer {
  import opened Arith
  import opened Geometry
  import opened FtlState
  import opened Flash

  /** One command of a split transfer: `count` blocks at device block `lba`, from buffer block `first`. */
  datatype Chunk = Chunk(lba: int, first: int, count: int)

  /**
   The chunks cover buffer blocks [0, n) in order, without gap or overlap and in step with the device;
   none moves more than `most` blocks and only the last may move fewer.
   */
  ghost predicate Tiles(chunks: seq<Chunk>, slba: int, n: int, most: int) {
    if chunks == [] then n == 0
    else
      var c, init := chunks[|chunks| - 1], chunks[..|chunks| - 1];
      && 0 < c.count <= most && c.first + c.count == n && c.lba == slba + c.first
      && Tiles(init, slba, c.first, most)
      && (init != [] ==> init[|init| - 1].count == most)
  }

  ghost predicate Moves(c: Chunk, k: int) { c.first <= k < c.first + c.count }

  lemma {:induction false} TilesWithin(chunks: seq<Chunk>, slba: int, n: int, most: int, i: int)
    requires Tiles(chunks, slba, n, most) && 0 <= i < |chunks|
    ensures 0 <= chunks[i].first < chunks[i].first + chunks[i].count <= n
    ensures chunks[i].lba == slba + chunks[i].first && chunks[i].count <= most
  {
    var c, init := chunks[|chunks| - 1], chunks[..|chunks| - 1];
    if i < |init| {
      TilesWithin(init, slba, c.first, most, i);
      assert init[i] == chunks[i];
    } else if init != [] {
      TilesWithin(init, slba, c.first, most, |init| - 1);
    }
  }

  lemma TilesSnoc(chunks: seq<Chunk>, slba: int, n: int, most: int, count: int)
    requires Tiles(chunks, slba, n, most) && 0 < count <= most
    requires chunks != [] ==> chunks[|chunks| - 1].count == most
    ensures Tiles(chunks + [Chunk(slba + n, n, count)], slba, n + count, most)
  {
    assert (chunks + [Chunk(slba + n, n, count)])[..|chunks|] == chunks;
  }

  /** Every block of the transfer is moved by exactly one command, at its own place on the device. */
  lemma {:induction false} TilesOnce(chunks: seq<Chunk>, slba: int, n: int, most: int, k: int) returns (i: int)
    requires Tiles(chunks, slba, n, most) && 0 <= k < n
    ensures 0 <= i < |chunks| && Moves(chunks[i], k)
    ensures chunks[i].lba + (k - chunks[i].first) == slba + k
    ensures forall j :: 0 <= j < |chunks| && Moves(chunks[j], k) ==> j == i
  {
    var c, init := chunks[|chunks| - 1], chunks[..|chunks| - 1];
    if c.first <= k {
      i := |init|;
      forall j | 0 <= j < |chunks| && Moves(chunks[j], k) ensures j == i {
        if j < |init| {
          TilesWithin(init, slba, c.first, most, j);
        }
      }
    } else {
      i := TilesOnce(init, slba, c.first, most, k);
      forall j | 0 <= j < |chunks| && Moves(chunks[j], k) ensures j == i {
        assert init[j] == chunks[j];
      }
    }
  }

  /** The device commands that the chunks stand for. */
  ghost function CommandsOf(chunks: seq<Chunk>, read: bool): (cmds: seq<Command>)
    ensures |cmds| == |chunks|
  {
    seq(|chunks|, i requires 0 <= i < |chunks| => Command(if read then Reading else Writing, chunks[i].lba, chunks[i].count))
  }

  lemma CommandsOfSnoc(chunks: seq<Chunk>, c: Chunk, read: bool)
    ensures CommandsOf(chunks + [c], read) == CommandsOf(chunks, read) + [Command(if read then Reading else Writing, c.lba, c.count)]
  {
  }

  /** The zero-based block count of a command that moves `bytes` bytes. */
  function LbaNum(g: Geometry, bytes: int): int { g.Blocks(bytes) - (if g.IsAligned(bytes) then 1 else 0) }

  /** Byte counts of one iteration, in blocks, with `left` blocks to go and `done` blocks behind. */
  lemma ChunkBlocks(g: Geometry, left: int, done: int)
    requires g.Valid() && 0 < left && 0 <= done
    ensures var most := g.Blocks(MDTS); var m := if most < left then most else left;
      && 0 < m
      && (if MDTS < g.Bytes(left) then MDTS else g.Bytes(left)) == g.Bytes(m)
      && LbaNum(g, g.Bytes(m)) == m - 1 && g.Blocks(g.Bytes(done)) == done
      && g.Bytes(left) - g.Bytes(m) == g.Bytes(left - m)
      && g.Bytes(done) + g.Bytes(m) == g.Bytes(done + m)
      && (0 < g.Bytes(left - m) <==> 0 < left - m)
  {
    hide Mul, Quot, Rem;
    var l, most := g.lbaBytes, g.Blocks(MDTS);
    var m := if most < left then most else left;
    QuotRem(MDTS, l);
    if most < left { MulMono(most + 1, left, l); } else { MulMono(left, most, l); }
    ChunkSums(l, left, m, done, most);
    g.BytesDiv(m);
    g.BytesDiv(done);
  }

  lemma ChunkSums(l: int, left: int, m: int, done: int, most: int)
    requires 512 <= l < MDTS && 0 <= m <= left && 0 <= done && MDTS == Mul(most, l)
    ensures Mul(left, l) - Mul(m, l) == Mul(left - m, l) && Mul(done, l) + Mul(m, l) == Mul(done + m, l)
    ensures 0 < Mul(left - m, l) <==> 0 < left - m
    ensures 0 < most && Mul(most + 1, l) == MDTS + l
  {
    MulAdd(left - m, m, l);
    MulAdd(done, m, l);
    MulAtLeast(left - m, l);
    MulMono(0, most, l);
  }

  /** Advancing a block pointer inside one zone moves only its offset. */
  lemma PointerInZone(slba: int, first: int, n: int, count: int)
    requires 0 <= slba && 0 < n && 0 <= first && 0 < count && Rem(slba, n) + first + count <= n
    ensures Quot(slba + first, n) == Quot(slba, n) && Rem(slba + first, n) == Rem(slba, n) + first
  {
    QuotRem(slba, n);
    DivModUnique(Quot(slba, n), Rem(slba, n) + first, n);
  }

  /** Device and buffer around a transfer. */
  datatype Media = Media(zones: seq<seq<Block>>, programmed: nat, buffer: seq<Block>)

  /**
   The `n` blocks at offset `o` of zone `z` and the buffer blocks from `first` on were copied: into the
   buffer when reading, onto the end of the zone when writing. Nothing else changed.
   */
  ghost predicate Copied(before: Media, after: Media, z: int, o: int, first: int, n: int, read: bool) {
    && 0 <= z < |before.zones| && 0 <= first && 0 <= n && first + n <= |before.buffer| && 0 <= o
    && if read then
         && o + n <= |before.zones[z]|
         && after == before.(buffer := before.buffer[..first] + before.zones[z][o..o + n] + before.buffer[first + n..])
       else
         && o == |before.zones[z]|
         && after == before.(zones := before.zones[z := before.zones[z] + before.buffer[first..first + n]],
                             programmed := before.programmed + n)
  }

  /** Two consecutive copies are one. */
  lemma CopiedTwice(m0: Media, m1: Media, m2: Media, z: int, o: int, first: int, n: int, k: int, read: bool)
    requires Copied(m0, m1, z, o, first, n, read) && Copied(m1, m2, z, o + n, first + n, k, read)
    ensures Copied(m0, m2, z, o, first, n + k, read)
  {
    if read {
      JoinSlices(m0.zones[z], o, n, k);
      assert m2.buffer == m0.buffer[..first] + (m0.zones[z][o..o + n] + m0.zones[z][o + n..o + n + k]) + m0.buffer[first + n + k..];
    } else {
      JoinSlices(m0.buffer, first, n, k);
      assert m2.zones[z] == m0.zones[z] + (m0.buffer[first..first + n] + m0.buffer[first + n..first + n + k]);
    }
  }

  lemma JoinSlices<T>(s: seq<T>, i: int, n: int, k: int)
    requires 0 <= i && 0 <= n && 0 <= k && i + n + k <= |s|
    ensures s[i..i + n] + s[i + n..i + n + k] == s[i..i + (n + k)]
  {
  }

  lemma CopiedNothing(m: Media, z: int, o: int, first: int, read: bool)
    requires 0 <= z < |m.zones| && 0 <= first <= |m.buffer| && 0 <= o
    requires if read then o <= |m.zones[z]| else o == |m.zones[z]|
    ensures Copied(m, m, z, o, first, 0, read)
  {
    assert m.buffer == m.buffer[..first] + m.zones[z][o..o + 0] + m.buffer[first + 0..];
    assert m.zones[z] == m.zones[z] + m.buffer[first..first + 0];
  }

  /** Block `lba` is block `o` of zone `z`. */
  ghost predicate PointsTo(zoneBlocks: int, lba: int, z: int, o: int) {
    0 < zoneBlocks && 0 <= lba && Quot(lba, zoneBlocks) == z && Rem(lba, zoneBlocks) == o
  }

  /** The device takes a command for `n` blocks at offset `o` of zone `z`. */
  ghost predicate Accepts(m: Media, zoneBlocks: int, z: int, o: int, n: int, read: bool) {
    && 0 <= z < |m.zones| && 0 <= o && 0 <= n && o + n <= zoneBlocks
    && if read then o + n <= |m.zones[z]| <= zoneBlocks else o == |m.zones[z]|
  }

  /** The next command of a transfer finds the device as it needs it. */
  lemma NextCommand(zoneBlocks: int, start: Media, now: Media, slba: int, z: int, o: int, n: int, done: int, count: int, read: bool)
    requires PointsTo(zoneBlocks, slba, z, o) && Accepts(start, zoneBlocks, z, o, n, read)
    requires 0 <= done && 0 < count && done + count <= n
    requires Copied(start, now, z, o, 0, done, read)
    ensures PointsTo(zoneBlocks, slba + done, z, o + done)
    ensures Accepts(now, zoneBlocks, z, o + done, count, read)
  {
    PointerInZone(slba, done, zoneBlocks, count);
  }

  ghost function MediaOf(dev: Flash, buffer: array<Block>): Media
    reads dev`zones, dev`programmed, buffer
  {
    Media(dev.zones, dev.programmed, buffer[..])
  }

  /** One command: `lbaNum + 1` blocks from buffer block `first` on. */
  method OneCommand(dev: Flash, slba: int, buffer: array<Block>, first: int, lbaNum: int, read: bool, ghost z: int, ghost o: int)
    returns (ret: int)
    requires PointsTo(dev.zoneBlocks, slba, z, o)
    requires 0 <= lbaNum && 0 <= first && first + lbaNum + 1 <= buffer.Length
    requires Accepts(MediaOf(dev, buffer), dev.zoneBlocks, z, o, lbaNum + 1, read) && lbaNum < dev.maxBlocks
    modifies dev, buffer
    ensures ret == 0
    ensures dev.commands == old(dev.commands) + [Command(if read then Reading else Writing, slba, lbaNum + 1)]
    ensures Copied(old(MediaOf(dev, buffer)), MediaOf(dev, buffer), z, o, first, lbaNum + 1, read)
  {
    if read {
      var data;
      ret, data := dev.Read(slba, lbaNum);
      forall i | 0 <= i < |data| {
        buffer[first + i] := data[i];
      }
      assert buffer[..] == old(buffer[..])[..first] + data + old(buffer[..])[first + lbaNum + 1..];
    } else {
      ret := dev.Write(slba, lbaNum, buffer[first..first + lbaNum + 1]);
    }
  }

  /** Where a transfer stands: `done` of `n` blocks copied by `chunks`, and the counters of the loop. */
  datatype Progress = Progress(done: nat, sizeToIo: int, bufPtr: int, writePointer: int, chunks: seq<Chunk>)

  ghost predicate Underway(g: Geometry, start: Media, now: Media, slba: int, z: int, o: int, n: nat, read: bool, p: Progress)
    requires g.Valid()
  {
    && PointsTo(g.zoneBlocks, slba, z, o) && Accepts(start, g.zoneBlocks, z, o, n, read)
    && p.done <= n <= |start.buffer|
    && p.sizeToIo == g.Bytes(n - p.done) && p.bufPtr == g.Bytes(p.done) && (0 < p.sizeToIo <==> p.done < n)
    && p.writePointer == slba + p.done
    && Tiles(p.chunks, slba, p.done, g.Blocks(MDTS))
    && (p.done < n && p.chunks != [] ==> p.chunks[|p.chunks| - 1].count == g.Blocks(MDTS))
    && Copied(start, now, z, o, 0, p.done, read)
  }

  /** The command that the loop issues next, in the terms of the loop. */
  function SingleIoSize(p: Progress): int { if MDTS < p.sizeToIo then MDTS else p.sizeToIo }

  lemma CommandAccepted(g: Geometry, start: Media, now: Media, slba: int, z: int, o: int, n: nat, read: bool, p: Progress)
    requires g.Valid() && Underway(g, start, now, slba, z, o, n, read, p) && 0 < p.sizeToIo
    ensures var lbaNum, first := LbaNum(g, SingleIoSize(p)), g.Blocks(p.bufPtr);
      && 0 <= lbaNum < g.Blocks(MDTS) && 0 <= first && first + lbaNum + 1 <= |now.buffer|
      && PointsTo(g.zoneBlocks, p.writePointer, z, o + first)
      && Accepts(now, g.zoneBlocks, z, o + first, lbaNum + 1, read)
  {
    hide Geometry.Bytes, Geometry.Blocks, LbaNum, Tiles, PointsTo, Accepts, Geometry.Valid;
    ChunkBlocks(g, n - p.done, p.done);
    NextCommand(g.zoneBlocks, start, now, slba, z, o, n, p.done, LbaNum(g, SingleIoSize(p)) + 1, read);
  }

  ghost function Advance(g: Geometry, p: Progress): Progress
    requires g.Valid()
  {
    var single, lbaNum := SingleIoSize(p), LbaNum(g, SingleIoSize(p));
    Progress(if lbaNum < 0 then 0 else p.done + lbaNum + 1, p.sizeToIo - single, p.bufPtr + single,
             p.writePointer + lbaNum + 1, p.chunks + [Chunk(p.writePointer, g.Blocks(p.bufPtr), lbaNum + 1)])
  }

  /** The counters after one command, in blocks. */
  lemma AdvanceInBlocks(g: Geometry, slba: int, n: nat, p: Progress)
    requires g.Valid() && p.done < n && p.writePointer == slba + p.done
    requires p.sizeToIo == g.Bytes(n - p.done) && p.bufPtr == g.Bytes(p.done)
    ensures var most := g.Blocks(MDTS); var m := if most < n - p.done then most else n - p.done;
      && 0 < m && LbaNum(g, SingleIoSize(p)) == m - 1 && g.Blocks(p.bufPtr) == p.done
      && Advance(g, p) == Progress(p.done + m, g.Bytes(n - (p.done + m)), g.Bytes(p.done + m), slba + (p.done + m),
                                   p.chunks + [Chunk(slba + p.done, p.done, m)])
      && (0 < g.Bytes(n - (p.done + m)) <==> p.done + m < n)
  {
    hide Geometry.Bytes, Geometry.Blocks, LbaNum, Geometry.Valid;
    ChunkBlocks(g, n - p.done, p.done);
  }

  lemma CommandAdvances(g: Geometry, start: Media, before: Media, now: Media,
                        slba: int, z: int, o: int, n: nat, read: bool, p: Progress)
    requires g.Valid() && Underway(g, start, before, slba, z, o, n, read, p) && 0 < p.sizeToIo
    requires var lbaNum, first := LbaNum(g, SingleIoSize(p)), g.Blocks(p.bufPtr);
      Copied(before, now, z, o + first, first, lbaNum + 1, read)
    ensures Underway(g, start, now, slba, z, o, n, read, Advance(g, p)) && p.done < Advance(g, p).done
  {
    hide Geometry.Bytes, Geometry.Blocks, LbaNum, Tiles, Copied, PointsTo, Accepts, Geometry.Valid, Advance, SingleIoSize;
    var m := LbaNum(g, SingleIoSize(p)) + 1;
    AdvanceInBlocks(g, slba, n, p);
    CopiedTwice(start, before, now, z, o, 0, p.done, m, read);
    TilesSnoc(p.chunks, slba, p.done, g.Blocks(MDTS), m);
  }

  /** The loop of `io_with_mdts`, for `n` blocks at offset `o` of zone `z`. */
  method MoveChunks(g: Geometry, dev: Flash, slba: int, buffer: array<Block>, size: int, read: bool,
                    ghost z: int, ghost o: int, ghost n: nat)
    returns (ret: int, ghost chunks: seq<Chunk>)
    requires g.Valid() && dev.zoneBlocks == g.zoneBlocks && dev.maxBlocks == g.Blocks(MDTS)
    requires Underway(g, MediaOf(dev, buffer), MediaOf(dev, buffer), slba, z, o, n, read, Progress(0, size, 0, slba, []))
    modifies dev, buffer
    ensures ret == 0 && Tiles(chunks, slba, n, g.Blocks(MDTS))
    ensures dev.commands == old(dev.commands) + CommandsOf(chunks, read)
    ensures Copied(old(MediaOf(dev, buffer)), MediaOf(dev, buffer), z, o, 0, n, read)
  {
    hide Underway, LbaNum, PointsTo, Accepts, Copied, Tiles, CommandsOf, Geometry.Valid, Geometry.Blocks, Geometry.Bytes, Mul, Quot, Rem;
    var sizeToIo, bufPtr, writePointer := size, 0, slba;
    ghost var start, p, issued := MediaOf(dev, buffer), Progress(0, size, 0, slba, []), dev.commands;
    while sizeToIo > 0
      invariant Underway(g, start, MediaOf(dev, buffer), slba, z, o, n, read, p)
      invariant p.sizeToIo == sizeToIo && p.bufPtr == bufPtr && p.writePointer == writePointer && p.done <= n
      invariant dev.commands == issued + CommandsOf(p.chunks, read)
      decreases n - p.done
    {
      ghost var before := MediaOf(dev, buffer);
      var singleIoSize := if MDTS < sizeToIo then MDTS else sizeToIo;
      var lbaNum, first := LbaNum(g, singleIoSize), g.Blocks(bufPtr);
      CommandAccepted(g, start, before, slba, z, o, n, read, p);
      ret := OneCommand(dev, writePointer, buffer, first, lbaNum, read, z, o + first);
      CommandAdvances(g, start, before, MediaOf(dev, buffer), slba, z, o, n, read, p);
      UnderwayBound(g, start, MediaOf(dev, buffer), slba, z, o, n, read, Advance(g, p));
      CommandsOfSnoc(p.chunks, Chunk(writePointer, first, lbaNum + 1), read);
      p := Advance(g, p);
      bufPtr := bufPtr + singleIoSize;
      sizeToIo := sizeToIo - singleIoSize;
      writePointer := writePointer + lbaNum + 1;
    }
    UnderwayBound(g, start, MediaOf(dev, buffer), slba, z, o, n, read, p);
    ret, chunks := 0, p.chunks;
  }

  lemma UnderwayBound(g: Geometry, start: Media, now: Media, slba: int, z: int, o: int, n: nat, read: bool, p: Progress)
    requires g.Valid() && Underway(g, start, now, slba, z, o, n, read, p)
    ensures p.done <= n
    ensures p.sizeToIo <= 0 ==> Tiles(p.chunks, slba, n, g.Blocks(MDTS)) && Copied(start, now, z, o, 0, n, read)
  {
  }

  /** What a caller provides, in blocks. */
  lemma TransferStart(g: Geometry, dev: Flash, slba: int, buffer: array<Block>, size: int, read: bool)
    requires g.Valid() && dev.zoneBlocks == g.zoneBlocks
    requires 0 <= size <= g.Bytes(buffer.Length) && g.IsAligned(size)
    requires read ==> dev.CanRead(slba, g.Blocks(size))
    requires !read ==> dev.CanWrite(slba, g.Blocks(size))
    ensures 0 <= g.Blocks(size) <= buffer.Length
    ensures Underway(g, MediaOf(dev, buffer), MediaOf(dev, buffer), slba, g.ZoneOf(slba), g.InZone(slba),
                     g.Blocks(size), read, Progress(0, size, 0, slba, []))
  {
    g.AlignedBytes(size);
    g.BlocksBound(size, buffer.Length);
    MulAtLeast(g.Blocks(size), g.lbaBytes);
    CopiedNothing(MediaOf(dev, buffer), g.ZoneOf(slba), g.InZone(slba), 0, read);
  }

  /**
   `io_with_mdts`: moves `size` bytes between `buffer` and the device, one command of at most MDTS
   bytes at a time. It amounts to one large command, and the commands it issues are those of `chunks`.
   */
  method IoWithMdts(g: Geometry, dev: Flash, slba: int, buffer: array<Block>, size: int, read: bool)
    returns (ret: int, ghost chunks: seq<Chunk>)
    requires g.Valid() && dev.zoneBlocks == g.zoneBlocks && dev.maxBlocks == g.Blocks(MDTS)
    requires 0 <= size <= g.Bytes(buffer.Length) && g.IsAligned(size)
    requires read ==> dev.CanRead(slba, g.Blocks(size))
    requires !read ==> dev.CanWrite(slba, g.Blocks(size))
    modifies dev, buffer
    ensures ret == 0 && 0 <= g.Blocks(size) <= buffer.Length
    ensures Tiles(chunks, slba, g.Blocks(size), g.Blocks(MDTS))
    ensures dev.commands == old(dev.commands) + CommandsOf(chunks, read)
    ensures Copied(old(MediaOf(dev, buffer)), MediaOf(dev, buffer),
                   g.ZoneOf(slba), g.InZone(slba), 0, g.Blocks(size), read)
  {
    hide Underway, Copied, Tiles;
    TransferStart(g, dev, slba, buffer, size, read);
    ret, chunks := MoveChunks(g, dev, slba, buffer, size, read,
                              g.ZoneOf(slba), g.InZone(slba), g.Blocks(size));
  }
}
