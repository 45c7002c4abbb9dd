/**
 The zoned device. Each command's `requires` is the condition under which the device accepts it
 (Zone Management Send and Zone Append, sections 4.3 and 4.5 of the NVMe Zoned Namespace Command
 Set, TP 4053); under that condition it does not fail. Contents below the write pointer persist,
 contents above it do not exist.
 */
module Flash {
  import opened Arith
  import opened FtlState

  datatype Kind = Reading | Writing | Appending | Resetting

  /** A command as the device sees it: the first block and the number of blocks; a reset has no blocks. */
  datatype Command = Command(kind: Kind, lba: int, count: int)

  class Flash {
    const zoneBlocks: nat
    const maxBlocks: nat              // most blocks in one transfer (MDTS)
    var zones: seq<seq<Block>>
    var programmed: nat
    ghost var commands: seq<Command>  // all commands so far

    constructor (zoneBlocks: nat, maxBlocks: nat, contents: seq<seq<Block>>)
      ensures this.zoneBlocks == zoneBlocks && this.maxBlocks == maxBlocks
      ensures zones == contents && programmed == 0 && commands == []
    {
      this.zoneBlocks, this.maxBlocks, zones, programmed, commands := zoneBlocks, maxBlocks, contents, 0, [];
    }

    /** `slba` is the first block of an existing zone. */
    ghost predicate ZoneStart(slba: int)
      reads this
    {
      0 < zoneBlocks && 0 <= slba && Rem(slba, zoneBlocks) == 0 && Quot(slba, zoneBlocks) < |zones|
    }

    /** The `n` blocks from `slba` on lie in one zone, below its write pointer. */
    ghost predicate CanRead(slba: int, n: int)
      reads this
    {
      && 0 < zoneBlocks && 0 <= slba && 0 <= n && Quot(slba, zoneBlocks) < |zones|
      && Rem(slba, zoneBlocks) + n <= |zones[Quot(slba, zoneBlocks)]| <= zoneBlocks
    }

    /** `slba` is the write pointer of its zone and the zone has room for `n` blocks. */
    ghost predicate CanWrite(slba: int, n: int)
      reads this
    {
      && 0 < zoneBlocks && 0 <= slba && 0 <= n && Quot(slba, zoneBlocks) < |zones|
      && Rem(slba, zoneBlocks) == |zones[Quot(slba, zoneBlocks)]|
      && |zones[Quot(slba, zoneBlocks)]| + n <= zoneBlocks
    }

    /** Zone Append of `nlb + 1` blocks; the device answers where it put them. */
    method Append(zslba: int, nlb: int, data: seq<Block>) returns (ret: int, lba: int)
      requires ZoneStart(zslba) && 0 < |data| == nlb + 1 <= maxBlocks
      requires |zones[Quot(zslba, zoneBlocks)]| + |data| <= zoneBlocks
      modifies this
      ensures ret == 0 && lba == zslba + old(|zones[Quot(zslba, zoneBlocks)]|)
      ensures zones == old(zones)[Quot(zslba, zoneBlocks) := old(zones[Quot(zslba, zoneBlocks)]) + data]
      ensures programmed == old(programmed) + |data|
      ensures commands == old(commands) + [Command(Appending, zslba, nlb + 1)]
    {
      commands := commands + [Command(Appending, zslba, nlb + 1)];
      var z := Quot(zslba, zoneBlocks);
      lba := zslba + |zones[z]|;
      zones := zones[z := zones[z] + data];
      programmed := programmed + |data|;
      ret := 0;
    }

    method Write(slba: int, nlb: int, data: seq<Block>) returns (ret: int)
      requires 0 < |data| == nlb + 1 <= maxBlocks && CanWrite(slba, |data|)
      modifies this
      ensures ret == 0
      ensures zones == old(zones)[Quot(slba, zoneBlocks) := old(zones[Quot(slba, zoneBlocks)]) + data]
      ensures programmed == old(programmed) + |data|
      ensures commands == old(commands) + [Command(Writing, slba, nlb + 1)]
    {
      commands := commands + [Command(Writing, slba, nlb + 1)];
      var z := Quot(slba, zoneBlocks);
      zones := zones[z := zones[z] + data];
      programmed := programmed + |data|;
      ret := 0;
    }

    method Read(slba: int, nlb: int) returns (ret: int, data: seq<Block>)
      requires 0 <= nlb < maxBlocks && CanRead(slba, nlb + 1)
      modifies this`commands
      ensures ret == 0 && commands == old(commands) + [Command(Reading, slba, nlb + 1)]
      ensures data == zones[Quot(slba, zoneBlocks)][Rem(slba, zoneBlocks)..Rem(slba, zoneBlocks) + nlb + 1]
    {
      commands := commands + [Command(Reading, slba, nlb + 1)];
      data := zones[Quot(slba, zoneBlocks)][Rem(slba, zoneBlocks)..Rem(slba, zoneBlocks) + nlb + 1];
      ret := 0;
    }

    /** Zone Management Send, reset: the write pointer goes back and the contents are gone. */
    method Reset(slba: int)
      requires ZoneStart(slba)
      modifies this
      ensures zones == old(zones)[Quot(slba, zoneBlocks) := []]
      ensures programmed == old(programmed) && commands == old(commands) + [Command(Resetting, slba, 0)]
    {
      commands := commands + [Command(Resetting, slba, 0)];
      zones := zones[Quot(slba, zoneBlocks) := []];
    }

    /** The same for all zones in one command. */
    method ResetAll()
      modifies this`zones
      ensures zones == seq(old(|zones|), _ => [])
      ensures programmed == old(programmed)
    {
      zones := seq(|zones|, _ => []);
    }

    /** Zone state as the zone report gives it (upper half of the ZS field), for a completed command. */
    function ReportedState(z: int): int
      requires 0 <= z < |zones|
      reads this
    {
      if zones[z] == [] then EMPTY_ZONE else if |zones[z]| == zoneBlocks then FULL_ZONE else 2
    }
  }
}
