/**
 The translation layer beside the flat device, as the full-device check of the test programs runs them:
 every block goes to both, and what is read back must match.
 */
module Shadow {
  import opened Arith
  import opened Geometry
  import opened FtlState
  import opened Runs
  import opened ReadPath
  import opened FlatDevice
  import opened Ftl

  /** The flat file is what the history of the translation layer makes of an empty file. */
  ghost predicate Mirrored(ftl: Ftl, flat: FlatDevice)
    reads ftl, ftl.dev`zones, ftl.dev`programmed, ftl.zoneStates, flat.file
  {
    && ftl.Valid() && flat.Valid() && flat.g == ftl.g
    && flat.file[..] == FlatExec(ftl.g, ftl.events)
  }

  /** Two fresh devices mirror each other. */
  lemma FreshMirrored(ftl: Ftl, flat: FlatDevice)
    requires ftl.Valid() && flat.Valid() && flat.g == ftl.g && ftl.events == []
    requires forall i :: 0 <= i < flat.file.Length ==> flat.file[i] == ZeroBlock(flat.g)
    ensures Mirrored(ftl, flat)
  {
    assert flat.file[..] == FlatExec(ftl.g, []);
  }

  /** The collector rounds inside a write do not show on the flat device. */
  lemma FlatExecOfWrite(g: Geometry, events: seq<Event>, round: seq<Event>, a: int, data: Block)
    requires g.Valid() && g.IsAddress(a) && IsRound(round, round != [])
    ensures 0 <= g.Blocks(a) < FileBlocks(g)
    ensures FlatExec(g, events + round + [Wrote(a, data)]) == Overwrite(FlatExec(g, events), g.Blocks(a), [data])
    ensures Written(events + round + [Wrote(a, data)]) == Written(events) + {a}
  {
    g.BlockIndex(a);
    var mid := events + round;
    if round == [] {
      assert mid == events;
    } else {
      assert mid == events + [round[0]];
      assert mid[..|events|] == events;
      WrittenSnoc(events, round[0]);
    }
    assert (mid + [Wrote(a, data)])[..|mid|] == mid;
    WrittenSnoc(mid, Wrote(a, data));
  }

  /** Writes one block to both devices; in the flat file exactly that block changes. */
  method WriteBoth(ftl: Ftl, flat: FlatDevice, address: int, buffer: array<Block>) returns (ret: int)
    requires Mirrored(ftl, flat) && ftl.g.IsAddress(address) && buffer.Length == 1 && buffer != flat.file
    modifies ftl, ftl.dev, ftl.zoneStates, flat.file
    ensures ret == 0 && Mirrored(ftl, flat)
    ensures Written(ftl.events) == Written(old(ftl.events)) + {address}
    ensures 0 <= ftl.g.Blocks(address) < flat.file.Length
    ensures flat.file[..] == Overwrite(old(flat.file[..]), ftl.g.Blocks(address), [buffer[0]])
  {
    hide FlatExec, Exec, Written, ValueAfterWrite, Mul, Quot, Rem, Geometry.Fits;
    var g := ftl.g;
    OneBlockSize(g, g.lbaBytes);
    BlockFits(g, address);
    ghost var before := ftl.events;
    ghost var round;
    ret, round := ftl.Write(address, buffer, g.lbaBytes);
    FlatExecOfWrite(g, before, round, address, buffer[0]);
    ghost var file := flat.file[..];
    ret := flat.Write(address, buffer, g.lbaBytes);
    assert flat.file[..] == Overwrite(file, g.Blocks(address), [buffer[0]]);
  }

  lemma BlockFits(g: Geometry, address: int)
    requires g.Valid() && g.IsAddress(address)
    ensures address + g.lbaBytes <= g.CapacityBytes()
  {
    g.BlockIndex(address);
    MulAssoc(g.dataZones, g.zoneBlocks, g.lbaBytes);
    MulMono(g.Blocks(address) + 1, Mul(g.dataZones, g.zoneBlocks), g.lbaBytes);
  }

  /** `v1` and `v2` are what the two devices hold at `address`. */
  ghost predicate ReadFrom(ftl: Ftl, flat: FlatDevice, address: int, v1: Block, v2: Block)
    reads ftl, ftl.dev`zones, ftl.dev`programmed, ftl.zoneStates, flat.file
  {
    && Inv(ftl.g, ftl.View()) && 0 <= address && v1 == Lookup(ftl.g, ftl.View(), address)
    && 0 <= ftl.g.Blocks(address) < flat.file.Length && v2 == flat.file[ftl.g.Blocks(address)]
  }

  /** Reads one written block from both devices into `b1` and `b2` and compares; the two always match. */
  method ReadBoth(ftl: Ftl, flat: FlatDevice, address: int, b1: array<Block>, b2: array<Block>) returns (same: bool)
    requires Mirrored(ftl, flat) && ftl.g.IsAddress(address) && address in Written(ftl.events)
    requires b1.Length == b2.Length == 1 && b1 != b2 && b1 != flat.file && b2 != flat.file
    modifies b1, b2, ftl.dev`commands
    ensures Mirrored(ftl, flat) && flat.file[..] == old(flat.file[..])
    ensures ReadFrom(ftl, flat, address, b1[0], b2[0])
    ensures same <==> b1[0] == b2[0]
    ensures same
  {
    hide FlatExec, Written, Inv, Lookup, Mul, Quot, Rem;
    var g := ftl.g;
    OneBlockSize(g, g.lbaBytes);
    BlockFits(g, address);
    g.BlockIndex(address);
    OneBlockRange(g, ftl.events, address);
    var ret := ftl.Read(address, b1, g.lbaBytes);
    ret := flat.Read(address, b2, g.lbaBytes);
    assert b1[..1][0] == b1[0] && b2[..1][0] == b2[0];
    return b1[0] == b2[0];
  }

  /** A one-block read of a written address returns the block of the flat file. */
  lemma OneBlockRange(g: Geometry, events: seq<Event>, a: int)
    requires g.Valid() && Exec(g, events).Ran? && g.IsAddress(a) && a in Written(events)
    ensures IsRange(g, a, 1) && 0 <= g.Blocks(a) < FileBlocks(g)
    ensures ReadResult(g, Exec(g, events).st, a, 1) == [Lookup(g, Exec(g, events).st, a)]
    ensures Lookup(g, Exec(g, events).st, a) == FlatExec(g, events)[g.Blocks(a)]
  {
    hide Exec, FlatExec, Written, Inv, Lookup, Geometry.IsAddress, Geometry.LogicalZone, Geometry.OffsetInZone;
    assert BlockAddress(g, a, 0) == a;
    HoleExactly(g, Exec(g, events).st, a);
    RunRefinesFlat(g, events, a);
    g.BlockIndex(a);
  }

  /** No address after the `j`-th and before the `n`-th is the same as the `j`-th. */
  ghost predicate LastAmong(addresses: seq<int>, j: int, n: int) {
    0 <= j < n <= |addresses| && forall k :: j < k < n ==> addresses[k] != addresses[j]
  }

  /** The file holds, for each of the first `n` addresses, the block that was written there last. */
  ghost predicate Stored(g: Geometry, file: seq<Block>, addresses: seq<int>, blocks: seq<Block>, n: int)
    requires g.Valid() && |file| == FileBlocks(g) && |blocks| == |addresses|
    requires forall i :: 0 <= i < |addresses| ==> g.IsAddress(addresses[i])
  {
    forall j :: LastAmong(addresses, j, n) ==> FlatBlock(g, file, addresses[j]) == blocks[j]
  }

  lemma NothingStored(g: Geometry, file: seq<Block>, addresses: seq<int>, blocks: seq<Block>)
    requires g.Valid() && |file| == FileBlocks(g) && |blocks| == |addresses|
    requires forall i :: 0 <= i < |addresses| ==> g.IsAddress(addresses[i])
    ensures Stored(g, file, addresses, blocks, 0)
  {
  }

  lemma StoredStep(g: Geometry, file: seq<Block>, addresses: seq<int>, blocks: seq<Block>, n: int)
    requires g.Valid() && |file| == FileBlocks(g) && |blocks| == |addresses| && 0 <= n < |addresses|
    requires forall i :: 0 <= i < |addresses| ==> g.IsAddress(addresses[i])
    requires Stored(g, file, addresses, blocks, n)
    ensures 0 <= g.Blocks(addresses[n]) < |file|
    ensures Stored(g, Overwrite(file, g.Blocks(addresses[n]), [blocks[n]]), addresses, blocks, n + 1)
  {
    hide Geometry.IsAddress, FileBlocks;
    g.BlockIndex(addresses[n]);
    var file' := Overwrite(file, g.Blocks(addresses[n]), [blocks[n]]);
    forall j | LastAmong(addresses, j, n + 1)
      ensures FlatBlock(g, file', addresses[j]) == blocks[j]
    {
      g.BlockIndex(addresses[j]);
      if j < n {
        assert LastAmong(addresses, j, n) && addresses[n] != addresses[j];
      }
    }
  }

  lemma MirroredFile(ftl: Ftl, flat: FlatDevice)
    requires Mirrored(ftl, flat)
    ensures ftl.g.Valid() && flat.file.Length == FileBlocks(ftl.g)
  {
  }

  /** What is read back is what was written last to the address. */
  lemma ReadBack(ftl: Ftl, flat: FlatDevice, addresses: seq<int>, blocks: seq<Block>, j: int, v1: Block, v2: Block)
    requires ftl.g.Valid() && flat.file.Length == FileBlocks(ftl.g) && |blocks| == |addresses|
    requires forall i :: 0 <= i < |addresses| ==> ftl.g.IsAddress(addresses[i])
    requires Stored(ftl.g, flat.file[..], addresses, blocks, |addresses|) && LastAmong(addresses, j, |addresses|)
    requires ReadFrom(ftl, flat, addresses[j], v1, v2)
    ensures 0 <= j < |blocks| && v2 == blocks[j]
  {
    assert FlatBlock(ftl.g, flat.file[..], addresses[j]) == blocks[j];
  }

  /** Reads all addresses back from both devices and compares. */
  method VerifyAll(ftl: Ftl, flat: FlatDevice, addresses: seq<int>)
    returns (ok: bool, read1: seq<Block>, read2: seq<Block>)
    requires Mirrored(ftl, flat)
    requires forall i :: 0 <= i < |addresses| ==> ftl.g.IsAddress(addresses[i]) && addresses[i] in Written(ftl.events)
    modifies ftl.dev`commands
    ensures Mirrored(ftl, flat) && |read1| == |read2| == |addresses|
    ensures forall i :: 0 <= i < |addresses| ==> ReadFrom(ftl, flat, addresses[i], read1[i], read2[i])
    ensures ok <==> read1 == read2
    ensures ok
  {
    hide Mirrored, Written, ReadFrom, Geometry.IsAddress;
    ok, read1, read2 := true, [], [];
    var b1, b2 := new Block[1](_ => ZeroBlock(ftl.g)), new Block[1](_ => ZeroBlock(ftl.g));
    for i := 0 to |addresses|
      modifies b1, b2, ftl.dev`commands
      invariant Mirrored(ftl, flat) && |read1| == |read2| == i && ok && read1 == read2
      invariant forall j :: 0 <= j < i ==> ReadFrom(ftl, flat, addresses[j], read1[j], read2[j])
    {
      var same := ReadBoth(ftl, flat, addresses[i], b1, b2);
      read1, read2 := read1 + [b1[0]], read2 + [b2[0]];
      ok := ok && same;
    }
  }

  /**
   Writes all blocks to both devices in the given order, then reads all addresses back and compares.
   What is read is the block written last to the address, and both devices always agree.
   */
  method WriteAndVerify(ftl: Ftl, flat: FlatDevice, addresses: seq<int>, blocks: seq<Block>)
    returns (ok: bool, read1: seq<Block>, read2: seq<Block>)
    requires Mirrored(ftl, flat) && |blocks| == |addresses|
    requires forall i :: 0 <= i < |addresses| ==> ftl.g.IsAddress(addresses[i])
    modifies ftl, ftl.dev, ftl.zoneStates, flat.file
    ensures Mirrored(ftl, flat) && |read1| == |read2| == |addresses|
    ensures forall i :: 0 <= i < |addresses| ==>
      addresses[i] in Written(ftl.events) && ReadFrom(ftl, flat, addresses[i], read1[i], read2[i])
    ensures forall i, j :: 0 <= i < |addresses| && LastAmong(addresses, j, |addresses|) && addresses[i] == addresses[j] ==>
      read1[i] == blocks[j]
    ensures ok <==> read1 == read2
    ensures ok
  {
    hide Mirrored, Written, Overwrite, ReadFrom, FlatBlock, Stored, Geometry.IsAddress, Geometry.Valid;
    MirroredFile(ftl, flat);
    NothingStored(ftl.g, flat.file[..], addresses, blocks);
    for n := 0 to |addresses|
      invariant Mirrored(ftl, flat)
      invariant forall j :: 0 <= j < n ==> addresses[j] in Written(ftl.events)
      invariant Stored(ftl.g, flat.file[..], addresses, blocks, n)
    {
      var buffer := new Block[1](_ => blocks[n]);
      StoredStep(ftl.g, flat.file[..], addresses, blocks, n);
      var ret := WriteBoth(ftl, flat, addresses[n], buffer);
    }
    ok, read1, read2 := VerifyAll(ftl, flat, addresses);
    forall i, j | 0 <= i < |addresses| && LastAmong(addresses, j, |addresses|) && addresses[i] == addresses[j]
      ensures read1[i] == blocks[j]
    {
      ReadBack(ftl, flat, addresses, blocks, j, read1[i], read2[i]);
    }
  }
}
