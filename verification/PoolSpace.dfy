/** What the space counters of source/kernel/src/Memory.c amount to: per pool, over the whole heap, and when the 32-bit
    counters and the test made before the scan are right. */
module PoolSpace {
  import opened Base
  import opened PoolTiles
  import opened PoolTable
  import opened PoolGaps
  import opened PoolLive

  // ----- all pools together -----

  /** The bytes of all allocations in the first m pools. */
  function AllUsed(pools: seq<seq<Tile>>, m: nat): nat
    requires m <= |pools|
  {
    if m == 0 then 0 else AllUsed(pools, m - 1) + UsedBytes(pools[m - 1])
  }

  function AllSizes(pools: seq<seq<Tile>>, m: nat): nat
    requires m <= |pools|
  {
    if m == 0 then 0 else AllSizes(pools, m - 1) + Size(pools[m - 1])
  }

  ghost function Range(lo: int, hi: int): (r: set<int>)
    ensures forall k :: k in r <==> lo <= k < hi
    ensures lo <= hi ==> |r| == hi - lo
    decreases hi - lo
  {
    if lo < hi then {lo} + Range(lo + 1, hi) else {}
  }

  /** The heap indices of a pool. */
  ghost function Indices(p: Pmb): (r: set<int>)
    ensures forall k :: k in r <==> Owns(p, k)
  {
    if p.poolSize == 0 then {} else Range(p.startIndex, p.endIndex + 1)
  }

  /** The heap indices of the first m pools. */
  ghost function Covered(table: seq<Pmb>, m: nat): set<int>
    requires m <= |table|
  {
    if m == 0 then {} else Covered(table, m - 1) + Indices(table[m - 1])
  }

  lemma {:induction false} CoveredIsOwned(table: seq<Pmb>, m: nat, k: int) returns (id: nat)
    requires m <= |table| && k in Covered(table, m)
    ensures id < m && Owns(table[id], k)
    decreases m
  {
    if k in Indices(table[m - 1]) {
      id := m - 1;
    } else {
      id := CoveredIsOwned(table, m - 1, k);
    }
  }

  /** Disjoint pools take as many indices as their sizes add up to. */
  lemma {:induction false} SizesAreCovered(h: Heap, table: seq<Pmb>, pools: seq<seq<Tile>>, m: nat)
    requires Consistent(h, table, pools) && m <= |table|
    ensures AllSizes(pools, m) == |Covered(table, m)|
    decreases m
  {
    if m > 0 {
      SizesAreCovered(h, table, pools, m - 1);
      CoveredGrows(h, table, pools, m - 1);
    }
  }

  lemma CoveredGrows(h: Heap, table: seq<Pmb>, pools: seq<seq<Tile>>, m: nat)
    requires Consistent(h, table, pools) && m < |table|
    ensures |Covered(table, m + 1)| == |Covered(table, m)| + Size(pools[m])
  {
    NextIsApart(h, table, pools, m);
    SizeIsIndices(h, table[m], pools[m]);
  }

  lemma SizeIsIndices(h: Heap, p: Pmb, ts: seq<Tile>)
    requires PoolOk(h, p, ts)
    ensures |Indices(p)| == Size(ts)
  {}

  lemma NextIsApart(h: Heap, table: seq<Pmb>, pools: seq<seq<Tile>>, m: nat)
    requires Consistent(h, table, pools) && m < |table|
    ensures Covered(table, m) !! Indices(table[m])
  {
    forall k | k in Covered(table, m)
      ensures k !in Indices(table[m])
    {
      var id := CoveredIsOwned(table, m, k);
      assert Apart(table[id], table[m]);
    }
  }

  lemma {:induction false} UsedWithinSizes(h: Heap, table: seq<Pmb>, pools: seq<seq<Tile>>, m: nat)
    requires Consistent(h, table, pools) && m <= |table|
    ensures AllUsed(pools, m) <= AllSizes(pools, m)
    decreases m
  {
    if m > 0 {
      UsedWithinSizes(h, table, pools, m - 1);
      PoolUsed(h, table[m - 1], pools[m - 1]);
    }
  }

  /** All allocations together fit the heap. */
  lemma AllUsedFits(h: Heap, table: seq<Pmb>, pools: seq<seq<Tile>>, m: nat)
    requires Consistent(h, table, pools) && m <= |table|
    ensures AllUsed(pools, m) <= |h|
  {
    UsedWithinSizes(h, table, pools, m);
    SizesAreCovered(h, table, pools, m);
    forall k | k in Covered(table, m)
      ensures k in Range(0, |h|)
    {
      var id := CoveredIsOwned(table, m, k);
      PoolAligned(h, table, pools, id);
    }
    CardinalityLeq(Covered(table, m), Range(0, |h|));
  }

  lemma CardinalityLeq(a: set<int>, b: set<int>)
    requires a <= b
    ensures |a| <= |b|
  {
    assert b == a + (b - a);
  }

  /** What the loop over the pools adds for entry m. */
  lemma NextUsed(h: Heap, table: seq<Pmb>, pools: seq<seq<Tile>>, m: nat, total: U32)
    requires Consistent(h, table, pools) && m < |table| && total == AllUsed(pools, m)
    ensures AllUsed(pools, m + 1) <= |h|
    ensures AllUsed(pools, m + 1) ==
            if table[m].poolSize != 0 then Add32(total, Sub32(table[m].poolSize, table[m].memLeft)) else total
  {
    AllUsedFits(h, table, pools, m + 1);
    UsedOf(h, table, pools, m);
    NoCarry(total, UsedBytes(pools[m]));
  }

  lemma UsedOf(h: Heap, table: seq<Pmb>, pools: seq<seq<Tile>>, m: nat)
    requires Consistent(h, table, pools) && m < |table|
    ensures UsedBytes(pools[m]) == if table[m].poolSize != 0 then Sub32(table[m].poolSize, table[m].memLeft) else 0
  {
    PoolUsed(h, table[m], pools[m]);
  }

  lemma NoCarry(x: nat, y: nat)
    requires x + y < 0x1_0000_0000
    ensures Add32(x, y) == x + y
  {}

  // ----- one pool -----

  /** pool_size - mem_left, in U32_t, is the sum of the live sizes; for every pool size. */
  lemma PoolUsed(h: Heap, p: Pmb, ts: seq<Tile>)
    requires PoolOk(h, p, ts) && |h| < 0x1_0000_0000
    ensures Sub32(p.poolSize, p.memLeft) == UsedBytes(ts) <= Size(ts) <= |h|
  {
    if p.poolSize > 0 {
      LaidOutFits(h, p.startIndex, ts);
      SizeBounds(ts);
      WrapBack(p.poolSize, UsedBytes(ts));
    }
  }

  lemma WrapBack(size: U32, used: U32)
    ensures Sub32(size, Sub32(size, used)) == used
  {}

  /** Conservation: in a pool of whole blocks the free-space counter and the live sizes make up the pool, with no wrap.
      */
  lemma Conserved(h: Heap, p: Pmb, ts: seq<Tile>)
    requires PoolOk(h, p, ts) && |h| < 0x1_0000_0000 && p.poolSize % BLOCK_SIZE == 0
    ensures p.poolSize == p.memLeft + UsedBytes(ts)
    ensures p.poolSize > 0 ==> p.n == UsedCount(ts)
  {
    if p.poolSize > 0 {
      RoundedUp(p.poolSize);
      LaidOutFits(h, p.startIndex, ts);
      SizeBounds(ts);
    }
  }

  lemma RoundedUp(x: nat)
    ensures BLOCK_SIZE * Blocks(x) == if x % BLOCK_SIZE == 0 then x else x + BLOCK_SIZE - x % BLOCK_SIZE
  {}

  /** On a pool of whole blocks MemAlloc asks for no wrapped size: what it admits leaves room for the header. */
  lemma AdmittedDoesNotWrap(h: Heap, p: Pmb, ts: seq<Tile>, size: U32)
    requires PoolOk(h, p, ts) && |h| < 0x1_0000_0000 && p.poolSize % BLOCK_SIZE == 0 && 0 < size <= p.memLeft
    ensures Add32(size, HEADER_SIZE) == size + HEADER_SIZE && Blocks(Add32(size, HEADER_SIZE)) > 0
  {
    Conserved(h, p, ts);
    assert p.poolSize <= 0xFFFF_FFF0;
    NoCarry(size, HEADER_SIZE);
  }

  /** A request that fits a pool of whole blocks is admitted. */
  lemma SatisfiableIsAdmitted(h: Heap, p: Pmb, ts: seq<Tile>, size: U32)
    requires PoolOk(h, p, ts) && |h| < 0x1_0000_0000 && p.poolSize > 0 && p.poolSize % BLOCK_SIZE == 0
    requires 0 < size <= 0xFFFF_FFFB && !NoFit(ts, Blocks(size + HEADER_SIZE))
    ensures size <= p.memLeft
  {
    var j: nat :| Fits(ts, j, Blocks(size + HEADER_SIZE));
    LaidOutFits(h, p.startIndex, ts);
    FitLeavesRoom(ts, j, Blocks(size + HEADER_SIZE));
    RoundedUp(p.poolSize);
    Conserved(h, p, ts);
  }

  lemma FitLeavesRoom(ts: seq<Tile>, j: nat, n: nat)
    requires ValidTiles(ts) && Fits(ts, j, n) && n > 0
    ensures UsedBytes(ts) + BLOCK_SIZE * n <= Size(ts) && UsedBytes(ts) % BLOCK_SIZE == 0
  {
    AllocateSums(ts, j, n);
    SizeBounds(Allocate(ts, j, n));
    SizeBounds(ts);
  }
}
