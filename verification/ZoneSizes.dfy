/** zoneindex: the size class of a slab request. */
module ZoneSizes {

  const NZONES: nat := 72

  const ZONE_LIMIT: nat := 16384

  /** (n + m - 1) & ~(m - 1) for a power of two. */
  function Round(n: nat, m: nat): (r: nat)
    requires m > 0
  {
    (n + m - 1) / m * m
  }

  /** The rounded size and the index of its zone list. */
  datatype Class = Class(chunk: nat, index: int)

  function ZoneIndex(n: nat): Class {
    if n < 128 then Class(Round(n, 8), Round(n, 8) / 8 - 1)
    else if n < 256 then Class(Round(n, 16), Round(n, 16) / 16 + 7)
    else if n < 512 then Class(Round(n, 32), Round(n, 32) / 32 + 15)
    else if n < 1024 then Class(Round(n, 64), Round(n, 64) / 64 + 23)
    else if n < 2048 then Class(Round(n, 128), Round(n, 128) / 128 + 31)
    else if n < 4096 then Class(Round(n, 256), Round(n, 256) / 256 + 39)
    else if n < 8192 then Class(Round(n, 512), Round(n, 512) / 512 + 47)
    else if n < 16384 then Class(Round(n, 1024), Round(n, 1024) / 1024 + 55)
    else Class(n, 0)
  }

  /** The chunk size of each zone list. */
  function ChunkOf(index: nat): nat
    requires index < NZONES
  {
    if index < 16 then 8 * (index + 1)
    else if index < 24 then 16 * (index - 7)
    else if index < 32 then 32 * (index - 15)
    else if index < 40 then 64 * (index - 23)
    else if index < 48 then 128 * (index - 31)
    else if index < 56 then 256 * (index - 39)
    else if index < 64 then 512 * (index - 47)
    else 1024 * (index - 55)
  }

  lemma ChunkEightfold(index: nat)
    requires index < NZONES
    ensures ChunkOf(index) % 8 == 0
  {
    assert ChunkOf(index) == 8 * (ChunkOf(index) / 8);
  }

  /** The index is in range, and names the smallest chunk size of all lists that covers the request. */
  lemma SmallestFit(n: nat)
    requires 0 < n < ZONE_LIMIT
    ensures 0 <= ZoneIndex(n).index < NZONES
    ensures var (i, c) := (ZoneIndex(n).index, ZoneIndex(n).chunk);
      c == ChunkOf(i) && n <= c && (0 < i ==> ChunkOf(i - 1) < n)
  {
    if n < 128 {
      assert Round(n, 8) / 8 == (n + 7) / 8;
    } else if n < 256 {
      assert Round(n, 16) / 16 == (n + 15) / 16;
    } else if n < 512 {
      assert Round(n, 32) / 32 == (n + 31) / 32;
    } else if n < 1024 {
      assert Round(n, 64) / 64 == (n + 63) / 64;
    } else if n < 2048 {
      assert Round(n, 128) / 128 == (n + 127) / 128;
    } else if n < 4096 {
      assert Round(n, 256) / 256 == (n + 255) / 256;
    } else if n < 8192 {
      assert Round(n, 512) / 512 == (n + 511) / 512;
    } else {
      assert Round(n, 1024) / 1024 == (n + 1023) / 1024;
    }
  }

  lemma ChunksGrow(i: nat, j: nat)
    requires i < j < NZONES
    ensures ChunkOf(i) < ChunkOf(j)
  {
  }

  lemma ChunksOrdered(i: nat, j: nat)
    requires i < NZONES && j < NZONES
    ensures i <= j <==> ChunkOf(i) <= ChunkOf(j)
  {
    if i < j {
      ChunksGrow(i, j);
    } else if j < i {
      ChunksGrow(j, i);
    }
  }

  /** Two requests go to the same list exactly when they get the same chunk size, so that a zone
      found by its index serves the rounded size; and larger requests get no smaller chunks. */
  lemma SameIndexSameChunk(n: nat, m: nat)
    requires 0 < n < ZONE_LIMIT && 0 < m < ZONE_LIMIT
    ensures ZoneIndex(n).index == ZoneIndex(m).index <==> ZoneIndex(n).chunk == ZoneIndex(m).chunk
    ensures n <= m ==> ZoneIndex(n).index <= ZoneIndex(m).index && ZoneIndex(n).chunk <= ZoneIndex(m).chunk
  {
    SmallestFit(n);
    SmallestFit(m);
    var i, j := ZoneIndex(n).index, ZoneIndex(m).index;
    hide ZoneIndex, ChunkOf;
    ChunksOrdered(i, j);
    ChunksOrdered(j, i);
    if j < i {
      ChunksOrdered(j, i - 1);
    }
  }

  /** Every list is in use: its chunk size, or for the last list one byte less, falls into its class. */
  lemma EveryIndexUsed(index: nat)
    requires index < NZONES
    ensures var n := if index < NZONES - 1 then ChunkOf(index) else ChunkOf(index) - 1;
      0 < n < ZONE_LIMIT && ZoneIndex(n) == Class(ChunkOf(index), index)
  {
    if index < NZONES - 1 {
      ChunksGrow(index, NZONES - 1);
      assert ChunkOf(NZONES - 1) == ZONE_LIMIT;
    }
    var n := if index < NZONES - 1 then ChunkOf(index) else ChunkOf(index) - 1;
    if index > 0 {
      ChunksGrow(index - 1, index);
      assert index == NZONES - 1 ==> ChunkOf(index - 1) < n;
    }
    SmallestFit(n);
    var i := ZoneIndex(n).index;
    hide ZoneIndex, ChunkOf;
    ChunksOrdered(index, i);
    ChunksOrdered(i, index);
    if 0 < i {
      ChunksOrdered(index, i - 1);
    }
    if 0 < index {
      ChunksOrdered(i, index - 1);
    }
  }

  /** The waste: at most 7 bytes for a request below 128, less than an eighth of any other. */
  lemma WasteBounded(n: nat)
    requires 0 < n < ZONE_LIMIT
    ensures n <= ZoneIndex(n).chunk
    ensures if n < 128 then ZoneIndex(n).chunk - n <= 7 else 8 * (ZoneIndex(n).chunk - n) < n
  {
  }

  /** Rounding a rounded size changes nothing, as long as it is below the limit. */
  lemma RoundedStays(n: nat)
    requires 0 < n < ZONE_LIMIT && ZoneIndex(n).chunk < ZONE_LIMIT
    ensures ZoneIndex(ZoneIndex(n).chunk) == ZoneIndex(n)
  {
    SmallestFit(n);
    var i := ZoneIndex(n).index;
    if i < NZONES - 1 {
      hide ZoneIndex, ChunkOf;
      EveryIndexUsed(i);
    }
  }
}
