/**
 Reads of several blocks below MDTS. The loop stops at the first block that translates nowhere and
 zeroes the whole buffer, including blocks it has already read.
 */
module ReadPath {
  import opened Arith
  import opened Geometry
  import opened FtlState
  import opened LogWrite
  import opened Runs

  /** Address of the `k`-th block of a request at `a`. */
  function BlockAddress(g: Geometry, a: int, k: int): (b: int)
    ensures a <= b
  {
    a + g.Bytes(k)
  }

  predicate IsRange(g: Geometry, a: int, n: int)
  {
    0 <= a && 0 <= n && forall k :: 0 <= k < n ==> g.IsAddress(BlockAddress(g, a, k))
  }

  /** Neither the log nor the data zones hold the block. */
  ghost predicate Hole(g: Geometry, st: State, a: int)
    requires g.Valid()
  {
    Translate(g, st, a).Nowhere?
  }

  lemma HoleExactly(g: Geometry, st: State, a: int)
    requires Inv(g, st)
    ensures Hole(g, st, a) <==> a !in st.logMap && g.LogicalZone(a) !in st.dataMap
  {
  }

  ghost predicate HasHole(g: Geometry, st: State, a: int, n: int)
    requires g.Valid()
  {
    exists k :: 0 <= k < n && Hole(g, st, BlockAddress(g, a, k))
  }

  /** What a read of `n` blocks at `a` leaves in the buffer, whatever the address. */
  ghost function ReadResult(g: Geometry, st: State, a: int, n: int): (out: seq<Block>)
    requires Inv(g, st) && 0 <= a && 0 <= n
    ensures |out| == n
  {
    if HasHole(g, st, a, n) then seq(n, _ => ZeroBlock(g))
    else seq(n, k requires 0 <= k < n => Lookup(g, st, BlockAddress(g, a, k)))
  }

  /** The same read of the flat device. */
  ghost function FlatRead(g: Geometry, file: seq<Block>, a: int, n: int): (out: seq<Block>)
    requires g.Valid() && IsRange(g, a, n) && |file| == FileBlocks(g)
    ensures |out| == n
  {
    seq(n, k requires 0 <= k < n => FlatBlock(g, file, BlockAddress(g, a, k)))
  }

  ghost function FlatBlock(g: Geometry, file: seq<Block>, a: int): Block
    requires g.Valid() && g.IsAddress(a) && |file| == FileBlocks(g)
  {
    g.BlockIndex(a);
    file[g.Blocks(a)]
  }

  /** The `k`-th block of a request is `k` file blocks after the first. */
  lemma BlockAddressIndex(g: Geometry, a: int, k: int)
    requires g.Valid() && 0 <= a && 0 <= k && g.IsAddress(BlockAddress(g, a, k))
    ensures g.Blocks(BlockAddress(g, a, k)) == g.Blocks(a) + k
    ensures 0 <= g.Blocks(a) + k < FileBlocks(g)
  {
    ModOfSum(k, a, g.lbaBytes);
    g.BlockIndex(BlockAddress(g, a, k));
  }

  /** Consecutive blocks of a request are consecutive blocks of the file. */
  lemma FlatReadIsSlice(g: Geometry, file: seq<Block>, a: int, n: int)
    requires g.Valid() && IsRange(g, a, n) && 0 < n && |file| == FileBlocks(g)
    ensures 0 <= g.Blocks(a) && g.Blocks(a) + n <= |file|
    ensures FlatRead(g, file, a, n) == file[g.Blocks(a)..g.Blocks(a) + n]
  {
    hide BlockAddress, FileBlocks, Geometry.IsAddress;
    var i := g.Blocks(a);
    BlockAddressIndex(g, a, 0);
    BlockAddressIndex(g, a, n - 1);
    forall k | 0 <= k < n
      ensures FlatRead(g, file, a, n)[k] == file[i + k]
    {
      BlockAddressIndex(g, a, k);
    }
  }

  /** The run fixes what `a` must read: it was written, or nothing was ever merged into its zone. */
  ghost predicate Determined(g: Geometry, st: State, written: set<int>, a: int)
    requires g.Valid()
  {
    a in written || g.LogicalZone(a) !in st.dataMap
  }

  /** Block by block, a read without a hole agrees with the flat device after any run. */
  lemma BlocksAgree(g: Geometry, events: seq<Event>, a: int)
    requires g.Valid() && Exec(g, events).Ran? && g.IsAddress(a)
    requires Determined(g, Exec(g, events).st, Written(events), a)
    ensures Lookup(g, Exec(g, events).st, a) == FlatBlock(g, FlatExec(g, events), a)
  {
    RunRefinesFlat(g, events, a);
  }

  /** The last write of the run to `b` left something other than zeros there. */
  ghost predicate LeftNonZero(g: Geometry, events: seq<Event>, b: int) {
    exists i :: LastWrite(events, i) && events[i].address == b && events[i].data != ZeroBlock(g)
  }

  /** The flat device holds zeros at `b` unless the last write there was of something else. */
  lemma FlatZeroExactly(g: Geometry, events: seq<Event>, b: int)
    requires g.Valid() && Exec(g, events).Ran? && g.IsAddress(b)
    ensures FlatBlock(g, FlatExec(g, events), b) == ZeroBlock(g) <==> !LeftNonZero(g, events, b)
  {
    hide Exec, FlatExec, Inv, Lookup, Translate, Geometry.IsAddress;
    if b in Written(events) {
      var i := LastWriteTo(events, b);
      FlatHoldsLastWrite(g, events, i);
    } else {
      RunRefinesFlat(g, events, b);
    }
  }

  /**
   After any run, a read of several determined blocks returns what the flat device returns if and only
   if the range has no hole, or no block of the range was last written with anything but zeros.
   */
  lemma MultiBlockReadExactly(g: Geometry, events: seq<Event>, a: int, n: int)
    requires g.Valid() && Exec(g, events).Ran? && IsRange(g, a, n)
    requires forall k :: 0 <= k < n ==> Determined(g, Exec(g, events).st, Written(events), BlockAddress(g, a, k))
    ensures var st, flat := Exec(g, events).st, FlatRead(g, FlatExec(g, events), a, n);
      ReadResult(g, st, a, n) == flat <==>
      (!HasHole(g, st, a, n) || forall k :: 0 <= k < n ==> !LeftNonZero(g, events, BlockAddress(g, a, k)))
  {
    hide LeftNonZero;
    var st, flat := Exec(g, events).st, FlatRead(g, FlatExec(g, events), a, n);
    forall k | 0 <= k < n
      ensures flat[k] == ZeroBlock(g) <==> !LeftNonZero(g, events, BlockAddress(g, a, k))
    {
      FlatZeroExactly(g, events, BlockAddress(g, a, k));
    }
    if HasHole(g, st, a, n) {
      assert forall k :: 0 <= k < n ==> ReadResult(g, st, a, n)[k] == ZeroBlock(g);
      if forall k :: 0 <= k < n ==> flat[k] == ZeroBlock(g) {
        assert ReadResult(g, st, a, n) == flat;
      }
    } else {
      forall k | 0 <= k < n ensures ReadResult(g, st, a, n)[k] == flat[k] {
        BlocksAgree(g, events, BlockAddress(g, a, k));
      }
      assert ReadResult(g, st, a, n) == flat;
    }
  }

  /** The last block of the first data zone; the block after it lies in the second data zone. */
  function LastOfFirst(g: Geometry): int { g.AddressOf(g.logZones, g.zoneBlocks - 1) }

  lemma TwoBlockRange(g: Geometry)
    requires g.Valid() && 2 <= g.dataZones
    ensures IsRange(g, LastOfFirst(g), 2)
    ensures g.LogicalZone(BlockAddress(g, LastOfFirst(g), 1)) == g.logZones + 1
    ensures BlockAddress(g, LastOfFirst(g), 0) == LastOfFirst(g) != BlockAddress(g, LastOfFirst(g), 1)
  {
    g.JoinThenSplit(g.logZones, g.zoneBlocks - 1);
    g.JoinThenSplit(g.logZones + 1, 0);
    assert BlockAddress(g, LastOfFirst(g), 1) == g.AddressOf(g.logZones + 1, 0);
  }

  /**
   One write to the last block of a zone, then a read of that block and the next: both come back as
   zeros, although a read of the one block returns what was written.
   */
  lemma WrittenBlockReadAsZeros(g: Geometry, x: Block)
    requires g.Valid() && 2 <= g.dataZones && g.Bytes(2) < MDTS && x != ZeroBlock(g)
    ensures var a, events := LastOfFirst(g), [Wrote(LastOfFirst(g), x)];
      && Exec(g, events).Ran? && IsRange(g, a, 2) && a in Written(events)
      && ReadResult(g, Exec(g, events).st, a, 1) == [x]
      && ReadResult(g, Exec(g, events).st, a, 2) == [ZeroBlock(g), ZeroBlock(g)]
  {
    var a, ev := LastOfFirst(g), Wrote(LastOfFirst(g), x);
    TwoBlockRange(g);
    g.NeedsGcExactly(0);
    ExecSnoc(g, [], ev);
    assert [] + [ev] == [ev];
    AppendUpdates(g, Init(g), a, x, a);
    var st := Append(g, Init(g), a, x);
    assert st.logMap == map[a := 0] && !Hole(g, st, a);
    assert Hole(g, st, BlockAddress(g, a, 1));
  }
}
