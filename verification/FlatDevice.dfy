/**
 The flat device: one backing file that holds the whole data capacity, block after block. It offers
 the same calls as the translation layer and is its specification.
 */
module FlatDevice {
  import opened Arith
  import opened Geometry
  import opened FtlState

  const EINVAL: int := 22

  /** `file` with `data` written over it from block `index` on. */
  ghost function Overwrite(file: seq<Block>, index: int, data: seq<Block>): (r: seq<Block>)
    requires 0 <= index <= index + |data| <= |file|
    ensures |r| == |file|
    ensures forall k :: 0 <= k < |file| ==> r[k] == if index <= k < index + |data| then data[k - index] else file[k]
  {
    file[..index] + data + file[index + |data|..]
  }

  class FlatDevice {
    const g: Geometry
    const file: array<Block>

    ghost predicate Valid() {
      g.Valid() && file.Length == Mul(g.dataZones, g.zoneBlocks)
    }

    function CapacityBytes(): int { g.CapacityBytes() }

    constructor (g: Geometry)
      requires g.Valid()
      ensures Valid() && this.g == g && fresh(file)
      ensures forall i :: 0 <= i < file.Length ==> file[i] == ZeroBlock(g)
    {
      this.g := g;
      file := new Block[Mul(g.dataZones, g.zoneBlocks)](_ => ZeroBlock(g));
    }

    /** A block-aligned range inside the capacity, in blocks. */
    lemma RangeInFile(address: int, size: int)
      requires Valid() && 0 <= address && 0 <= size
      requires g.IsAligned(address) && g.IsAligned(size)
      ensures address + size <= CapacityBytes() <==> g.Blocks(address) + g.Blocks(size) <= file.Length
    {
      var i, n := g.Blocks(address), g.Blocks(size);
      g.AlignedBytes(address);
      g.AlignedBytes(size);
      MulAdd(i, n, g.lbaBytes);
      MulAssoc(g.dataZones, g.zoneBlocks, g.lbaBytes);
      if i + n <= file.Length {
        MulMono(i + n, file.Length, g.lbaBytes);
      } else {
        MulMono(file.Length + 1, i + n, g.lbaBytes);
      }
    }

    method Write(address: int, buffer: array<Block>, size: int) returns (ret: int)
      requires Valid() && 0 <= address && 0 <= size <= g.Bytes(buffer.Length)
      requires buffer != file
      modifies file
      ensures ret == 0 || ret == -EINVAL
      ensures ret == 0 <==> address + size <= CapacityBytes() && g.IsAligned(address) && g.IsAligned(size)
      ensures ret == 0 ==> g.Blocks(address) + g.Blocks(size) <= file.Length && g.Blocks(size) <= buffer.Length
      ensures ret == 0 ==> forall k :: 0 <= k < g.Blocks(size) ==> file[g.Blocks(address) + k] == buffer[k]
      ensures ret == 0 ==> forall k :: 0 <= k < file.Length && !(g.Blocks(address) <= k < g.Blocks(address) + g.Blocks(size)) ==>
        file[k] == old(file[k])
      ensures ret != 0 ==> file[..] == old(file[..])
    {
      if address + size > CapacityBytes() {
        return -EINVAL;
      }
      if !g.IsAligned(address) || !g.IsAligned(size) {
        return -EINVAL;
      }
      var index, n := g.Blocks(address), g.Blocks(size);
      RangeInFile(address, size);
      g.BlocksBound(size, buffer.Length);
      forall i | 0 <= i < n {
        file[index + i] := buffer[i];
      }
      return 0;
    }

    /** A short read leaves the buffer unspecified; a read of nothing is never short, wherever it is. */
    method Read(address: int, buffer: array<Block>, size: int) returns (ret: int)
      requires Valid() && 0 <= address && 0 <= size <= g.Bytes(buffer.Length)
      requires buffer != file
      modifies buffer
      ensures !g.IsAligned(address) || !g.IsAligned(size) ==> ret == -EINVAL && buffer[..] == old(buffer[..])
      ensures g.IsAligned(address) && g.IsAligned(size) ==>
                ret == if size == 0 || address + size <= CapacityBytes() then 0 else -1
      ensures ret == 0 && size == 0 ==> buffer[..] == old(buffer[..])
      ensures ret == 0 && 0 < size ==> g.Blocks(address) + g.Blocks(size) <= file.Length && g.Blocks(size) <= buffer.Length
      ensures ret == 0 && 0 < size ==> buffer[..g.Blocks(size)] == file[g.Blocks(address)..g.Blocks(address) + g.Blocks(size)]
      ensures ret == 0 && 0 < size ==> buffer[g.Blocks(size)..] == old(buffer[g.Blocks(size)..])
    {
      if !g.IsAligned(address) || !g.IsAligned(size) {
        return -EINVAL;
      }
      if size == 0 {
        return 0;
      }
      var index, n := g.Blocks(address), g.Blocks(size);
      RangeInFile(address, size);
      g.BlocksBound(size, buffer.Length);
      if file.Length < index + n {
        return -1;
      }
      forall i | 0 <= i < n {
        buffer[i] := file[index + i];
      }
      return 0;
    }

    /** A buffer written anywhere and read back into another comes back whole. */
    method WriteThenRead(address: int, buffer: array<Block>, size: int, copy: array<Block>) returns (ret: int)
      requires Valid() && 0 <= address && 0 <= size <= g.Bytes(buffer.Length) && copy.Length == buffer.Length
      requires buffer != file && copy != file && buffer != copy
      modifies file, copy
      ensures ret == 0 <==> address + size <= CapacityBytes() && g.IsAligned(address) && g.IsAligned(size)
      ensures ret == 0 ==> g.Blocks(size) <= buffer.Length && copy[..g.Blocks(size)] == buffer[..g.Blocks(size)]
      ensures ret != 0 ==> file[..] == old(file[..]) && copy[..] == old(copy[..])
    {
      ret := Write(address, buffer, size);
      if ret != 0 {
        return ret;
      }
      ret := Read(address, copy, size);
      g.AlignedBytes(size);
    }
  }
}
