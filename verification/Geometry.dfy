/**
 Layout of the device and the address arithmetic of the translation layer.

 The first `logZones` zones hold the page-mapped log, the remaining `dataZones` zones hold
 zone-mapped data. User addresses are byte addresses into a flat space the size of the data
 zones. The C code mixes 32-bit and 64-bit integers; the places where a 32-bit result is
 stored are written out with `U32` and `I32`.
 */
module Geometry {
  import opened Arith

  const TWO_32: int := 0x1_0000_0000
  const TWO_31: int := 0x8000_0000

  /** Largest single transfer in bytes. */
  const MDTS: int := 64 * 4096

  function U32(x: int): int { x % TWO_32 }

  function I32(x: int): int { (x + TWO_31) % TWO_32 - TWO_31 }

  datatype Geometry = Geometry(logZones: nat, dataZones: nat, zoneBlocks: nat, watermark: nat, lbaBytes: nat)
  {
    /** What a device and its configuration must satisfy for 32-bit block numbers to be exact. */
    predicate Fits() {
      && 1 <= watermark < logZones
      && 1 <= zoneBlocks
      && 512 <= lbaBytes < MDTS
      && Rem(MDTS, lbaBytes) == 0
      && Mul(zoneBlocks, lbaBytes) < TWO_32
      && Mul(logZones + dataZones, zoneBlocks) <= TWO_31
    }

    /** In addition the log takes at least one block before the collector must run. */
    predicate Valid() {
      Fits() && 2 <= Mul(logZones - watermark, zoneBlocks)
    }

    function Zones(): nat { logZones + dataZones }

    /** Number of blocks the log takes before the collector must run. */
    function LogCapacity(): int { Mul(logZones - watermark, zoneBlocks) - 1 }

    /** Zone size in bytes, computed in 32 bits. */
    function ZoneBytes(): int { U32(Mul(zoneBlocks, lbaBytes)) }

    /** First block of zone `z`. */
    function ZoneStart(z: int): int { Mul(z, zoneBlocks) }

    /** The zone that block `lba` lies in. */
    function ZoneOf(lba: int): int { Quot(lba, zoneBlocks) }

    /** Where in its zone block `lba` lies. */
    function InZone(lba: int): int { Rem(lba, zoneBlocks) }

    /** `free_zone_number`: an unsigned 32-bit computation. */
    function FreeZones(logEnd: int, offset: int): int { U32(logZones - Quot(U32(logEnd + offset), zoneBlocks)) }

    /** The guard under which a one-block write wakes the collector. */
    predicate NeedsGc(logEnd: int) { FreeZones(logEnd, 1) <= watermark }

    predicate IsDataZone(z: int) { logZones <= z < logZones + dataZones }

    /** Size of the user's address space. */
    function CapacityBytes(): int { Mul(dataZones, Mul(zoneBlocks, lbaBytes)) }

    /** Addresses the user may pass: block aligned and inside the data capacity. */
    predicate IsAddress(a: int) { 0 <= a < CapacityBytes() && Rem(a, lbaBytes) == 0 }

    function LogicalZone(a: int): int { Quot(a, ZoneBytes()) + logZones }

    function OffsetInZone(a: int): int { Quot(Rem(a, ZoneBytes()), lbaBytes) }

    /** The address of block `o` of logical zone `z`; the inverse of the two functions above. */
    function AddressOf(z: int, o: int): int { Mul(Mul(z - logZones, zoneBlocks) + o, lbaBytes) }

    /** A byte count or byte address in whole blocks. */
    function Blocks(bytes: int): int { Quot(bytes, lbaBytes) }

    /** `k` blocks in bytes. */
    function Bytes(k: int): int { Mul(k, lbaBytes) }

    predicate IsAligned(bytes: int) { Rem(bytes, lbaBytes) == 0 }

    /** Blocks to bytes and back. */
    lemma BytesDiv(k: int)
      requires 0 < lbaBytes && 0 <= k
      ensures Blocks(Bytes(k)) == k && IsAligned(Bytes(k)) && 0 <= Bytes(k)
    {
      MultipleDiv(k, lbaBytes);
    }

    /** An aligned byte count is its blocks in bytes. */
    lemma AlignedBytes(bytes: int)
      requires 0 < lbaBytes && 0 <= bytes && IsAligned(bytes)
      ensures bytes == Bytes(Blocks(bytes)) && 0 <= Blocks(bytes)
    {
      QuotRem(bytes, lbaBytes);
    }

    /** A byte count that fits into `k` blocks' worth of bytes is at most `k` blocks. */
    lemma BlocksBound(bytes: int, k: int)
      requires 0 < lbaBytes && 0 <= k && 0 <= bytes <= Bytes(k)
      ensures 0 <= Blocks(bytes) <= k
    {
      QuotRem(bytes, lbaBytes);
      DivBound(bytes, k + 1, lbaBytes);
    }

    /** The layout in `*`, `/` and `%`, as the C code computes it. */
    lemma InNativeArithmetic(a: int, lba: int)
      requires Fits() && 0 <= a && 0 <= lba
      ensures LogCapacity() == (logZones - watermark) * zoneBlocks - 1
      ensures CapacityBytes() == dataZones * (zoneBlocks * lbaBytes)
      ensures ZoneOf(lba) == lba / zoneBlocks && InZone(lba) == lba % zoneBlocks
      ensures 0 < zoneBlocks * lbaBytes && LogicalZone(a) == a / (zoneBlocks * lbaBytes) + logZones
      ensures OffsetInZone(a) == a % (zoneBlocks * lbaBytes) / lbaBytes
      ensures Blocks(a) == a / lbaBytes && (IsAligned(a) <==> a % lbaBytes == 0)
    {
      ZoneBytesPositive();
      MulIs(logZones - watermark, zoneBlocks);
      MulIs(zoneBlocks, lbaBytes);
      MulIs(dataZones, zoneBlocks * lbaBytes);
      QuotRemIs(lba, zoneBlocks);
      QuotRemIs(a, zoneBlocks * lbaBytes);
      QuotRemIs(a % (zoneBlocks * lbaBytes), lbaBytes);
      QuotRemIs(a, lbaBytes);
    }

    /** At least one block fits into a largest transfer, and so does any byte count up to MDTS. */
    lemma TransferBlocks(k: int)
      requires Fits() && 0 <= k && Bytes(k) <= MDTS
      ensures 1 <= Blocks(MDTS) && k <= Blocks(MDTS)
    {
      DivBound(MDTS, 1, lbaBytes);
      DivBound(MDTS, k, lbaBytes);
    }

    lemma ZoneBytesPositive()
      requires Fits()
      ensures ZoneBytes() == Mul(zoneBlocks, lbaBytes)
      ensures 0 < ZoneBytes()
    {
      MulAtLeast(zoneBlocks, lbaBytes);
    }

    /** Any byte address, aligned or not, lies in some block of its zone. */
    lemma OffsetInside(a: int)
      requires Valid() && 0 <= a
      ensures 0 <= OffsetInZone(a) < zoneBlocks
    {
      ZoneBytesPositive();
      QuotRem(a, ZoneBytes());
      DivBound(Rem(a, ZoneBytes()), zoneBlocks, lbaBytes);
    }

    /** Splitting an address gives an existing data zone and an offset, and nothing is lost. */
    lemma SplitThenJoin(a: int)
      requires Valid() && IsAddress(a)
      ensures IsDataZone(LogicalZone(a)) && 0 <= OffsetInZone(a) < zoneBlocks
      ensures AddressOf(LogicalZone(a), OffsetInZone(a)) == a
    {
      ZoneBytesPositive();
      QuotRem(a, ZoneBytes());
      DivBound(a, dataZones, ZoneBytes());
      SplitAligned(a, Quot(a, ZoneBytes()), Rem(a, ZoneBytes()));
    }

    /** An aligned number is an aligned remainder past a whole number of zones. */
    lemma SplitAligned(a: int, zi: int, r: int)
      requires 0 < lbaBytes && Rem(a, lbaBytes) == 0 && 0 <= zi && 0 <= r < Mul(zoneBlocks, lbaBytes)
      requires a == Mul(zi, Mul(zoneBlocks, lbaBytes)) + r
      ensures 0 <= Quot(r, lbaBytes) < zoneBlocks && a == Mul(Mul(zi, zoneBlocks) + Quot(r, lbaBytes), lbaBytes)
    {
      hide Mul, Quot, Rem;
      var k, o := Mul(zi, zoneBlocks), Quot(r, lbaBytes);
      MulMono(0, zi, zoneBlocks);
      MulAssoc(zi, zoneBlocks, lbaBytes);
      ModOfSum(k, r, lbaBytes);
      DivBound(r, zoneBlocks, lbaBytes);
      QuotRem(r, lbaBytes);
      MulAdd(k, o, lbaBytes);
    }

    /** Every (data zone, offset) pair is the split of exactly one address. */
    lemma JoinThenSplit(z: int, o: int)
      requires Valid() && IsDataZone(z) && 0 <= o < zoneBlocks
      ensures IsAddress(AddressOf(z, o))
      ensures LogicalZone(AddressOf(z, o)) == z && OffsetInZone(AddressOf(z, o)) == o
    {
      hide Quot, Rem;
      ZoneBytesPositive();
      var zi, zb := z - logZones, ZoneBytes();
      MulMono(0, zi, zoneBlocks);
      MulAdd(Mul(zi, zoneBlocks), o, lbaBytes);
      MulAssoc(zi, zoneBlocks, lbaBytes);
      MulMono(o + 1, zoneBlocks, lbaBytes);
      MultipleDiv(o, lbaBytes);
      DivModUnique(zi, Mul(o, lbaBytes), zb);
      MultipleDiv(Mul(zi, zoneBlocks) + o, lbaBytes);
      MulMono(zi + 1, dataZones, zb);
    }

    /** Addresses number the blocks of a flat device. */
    lemma BlockIndex(a: int)
      requires 0 < lbaBytes && IsAddress(a)
      ensures 0 <= Blocks(a) < Mul(dataZones, zoneBlocks) && a == Mul(Blocks(a), lbaBytes)
    {
      MulAssoc(dataZones, zoneBlocks, lbaBytes);
      MulMono(0, dataZones, zoneBlocks);
      QuotRem(a, lbaBytes);
      DivBound(a, Mul(dataZones, zoneBlocks), lbaBytes);
    }

    /** The log holds at least one block and never reaches the last log zone. */
    lemma LogCapacityBounds()
      requires Valid()
      ensures 1 <= LogCapacity() < ZoneStart(logZones - 1) <= ZoneStart(logZones) <= TWO_31
    {
      MulMono(logZones - watermark, logZones - 1, zoneBlocks);
      MulMono(logZones - 1, logZones, zoneBlocks);
      MulMono(logZones, logZones + dataZones, zoneBlocks);
    }

    /**
     Up to the capacity the 32-bit free-zone count is exact, and the collector is wanted
     precisely when the log is full to its capacity.
     */
    lemma NeedsGcExactly(e: int)
      requires Valid() && 0 <= e <= LogCapacity()
      ensures FreeZones(e, 1) == logZones - ZoneOf(e + 1)
      ensures watermark <= FreeZones(e, 1) <= logZones
      ensures NeedsGc(e) <==> e == LogCapacity()
    {
      LogCapacityBounds();
      LogQuotient(e);
      MulAtLeast(logZones, zoneBlocks);
    }

    /**
     The guard for `n` blocks fires exactly from the watermark on and up to the end of the log: past it the
     unsigned count wraps around and the guard lets the write through.
     */
    lemma GuardExactly(e: int, n: int)
      requires Fits() && 0 <= e && 0 <= n && e + n < TWO_32
      ensures FreeZones(e, n) <= watermark <==> (logZones - watermark) * zoneBlocks <= e + n < (logZones + 1) * zoneBlocks
    {
      hide FreeZones;
      GuardInMul(e, n);
      MulIs(logZones - watermark, zoneBlocks);
      MulIs(logZones + 1, zoneBlocks);
    }

    /** With the log full, a write of this many blocks is let through although no smaller one is. */
    lemma GuardWraps()
      requires Valid()
      ensures FreeZones(LogCapacity(), (watermark + 1) * zoneBlocks + 1) > watermark
      ensures forall n :: 1 <= n <= (watermark + 1) * zoneBlocks ==> FreeZones(LogCapacity(), n) <= watermark
    {
      hide FreeZones, Mul, Quot, Rem;
      LogCapacityBounds();
      MulIs(watermark + 1, zoneBlocks);
      MulAdd(logZones - watermark, watermark + 1, zoneBlocks);
      MulAtLeast(logZones, zoneBlocks);
      MulAdd(logZones, 1, zoneBlocks);
      BlocksBelow32();
      GuardInMul(LogCapacity(), (watermark + 1) * zoneBlocks + 1);
      forall n | 1 <= n <= (watermark + 1) * zoneBlocks
        ensures FreeZones(LogCapacity(), n) <= watermark
      {
        GuardInMul(LogCapacity(), n);
      }
    }

    lemma BlocksBelow32()
      requires Valid()
      ensures Mul(logZones + 1, zoneBlocks) < TWO_32
    {
      MulAdd(logZones, 1, zoneBlocks);
      MulMono(logZones, logZones + dataZones, zoneBlocks);
      MulMono(1, logZones + dataZones, zoneBlocks);
      assert Mul(1, zoneBlocks) == zoneBlocks;
    }

    lemma GuardInMul(e: int, n: int)
      requires Fits() && 0 <= e && 0 <= n && e + n < TWO_32
      ensures FreeZones(e, n) <= watermark <==> Mul(logZones - watermark, zoneBlocks) <= e + n < Mul(logZones + 1, zoneBlocks)
    {
      hide Mul, Quot, Rem;
      var q := Quot(e + n, zoneBlocks);
      QuotRem(e + n, zoneBlocks);
      DivBound(e + n, logZones - watermark, zoneBlocks);
      DivBound(e + n, logZones + 1, zoneBlocks);
      MulAtLeast(q, zoneBlocks);
      MulAtLeast(logZones + dataZones, zoneBlocks);
    }

    lemma LogQuotient(e: int)
      requires Valid() && 0 <= e <= LogCapacity()
      ensures 0 <= ZoneOf(e + 1) <= logZones - watermark
      ensures ZoneOf(e + 1) == logZones - watermark <==> e == LogCapacity()
    {
      var k := logZones - watermark;
      QuotRem(e + 1, zoneBlocks);
      DivBound(e + 1, k, zoneBlocks);
      MultipleDiv(k, zoneBlocks);
    }

    /**
     An empty log lets a write through exactly when the log takes a block at all; otherwise a write
     would wait for one collector round after the other.
     */
    lemma EmptyLogAdmitsWrite()
      requires Fits()
      ensures !NeedsGc(0) <==> 2 <= Mul(logZones - watermark, zoneBlocks)
    {
      if 2 <= Mul(logZones - watermark, zoneBlocks) {
        LogCapacityBounds();
        NeedsGcExactly(0);
      } else {
        MulAtLeast(logZones - watermark, zoneBlocks);
        assert logZones - watermark == 1 && Mul(1, zoneBlocks) == zoneBlocks == 1;
        assert Quot(1, 1) == 1;
        MulAtLeast(logZones + dataZones, zoneBlocks);
      }
    }

    /**
     A zone start passes unchanged through the `int` that `next_empty_zone` returns exactly when it is
     below 2^31, and is mistaken for the failure value -1 exactly when it is one below a multiple of 2^32.
     */
    lemma ZoneStartExactly(z: int)
      requires 0 <= z < Zones()
      ensures I32(ZoneStart(z)) == ZoneStart(z) <==> ZoneStart(z) < TWO_31
      ensures I32(ZoneStart(z)) == -1 <==> ZoneStart(z) % TWO_32 == TWO_32 - 1
    {
      MulMono(0, z, zoneBlocks);
    }

    /** Under the layout assumed here zone starts fit the `int` that `next_empty_zone` returns, so they are never mistaken for -1. */
    lemma ZoneStartFits(z: int)
      requires Valid() && 0 <= z < Zones()
      ensures 0 <= ZoneStart(z) <= TWO_31 - zoneBlocks
      ensures I32(ZoneStart(z)) == ZoneStart(z) && U32(ZoneStart(z)) == ZoneStart(z)
      ensures ZoneOf(ZoneStart(z)) == z && InZone(ZoneStart(z)) == 0
    {
      MultipleDiv(z, zoneBlocks);
      MulMono(z + 1, Zones(), zoneBlocks);
    }
  }
}
