/** Live allocations: where they are, the walk over the headers of a pool, and what allocating, freeing and writing keep
    (source/kernel/src/Memory.c). */
module PoolLive {
  import opened Base
  import opened PoolTiles
  import opened PoolTable

  /** Tile j of pool id is a live allocation whose data starts at index a. */
  ghost predicate Live(table: seq<Pmb>, pools: seq<seq<Tile>>, id: nat, j: nat, a: int) {
    && id < |table| && id < |pools| && j < |pools[id]|
    && pools[id][j].Used? && a == TileStart(table[id], pools[id], j) + HEADER_SIZE
  }

  /** The pool that contains a pointer, as IPoolIdFromPointer tests it. */
  predicate Contains(p: Pmb, a: int) { p.poolSize > 0 && p.startIndex <= a < p.endIndex }

  predicate InPool(table: seq<Pmb>, id: nat, a: Option<U32>) {
    a.Some? && id < |table| && Contains(table[id], a.value)
  }

  predicate InNoPool(table: seq<Pmb>, a: Option<U32>) {
    a.None? || forall id :: 0 <= id < |table| ==> !Contains(table[id], a.value)
  }

  lemma LiveIsContained(h: Heap, table: seq<Pmb>, pools: seq<seq<Tile>>, id: nat, j: nat, a: int)
    requires Consistent(h, table, pools) && Live(table, pools, id, j, a)
    ensures Contains(table[id], a) && ValidTile(pools[id][j])
    ensures a - HEADER_SIZE + pools[id][j].size <= table[id].endIndex + 1 <= |h|
    ensures Word(h, a - HEADER_SIZE) == pools[id][j].size
  {
    assert PoolOk(h, table[id], pools[id]);
    TileAt(h, table[id].startIndex, pools[id], j);
  }

  lemma {:induction false} TilesAscend(ts: seq<Tile>, i: nat, j: nat)
    requires i < j <= |ts|
    ensures Size(ts[..i]) + Length(ts[i]) <= Size(ts[..j])
    decreases j
  {
    assert ts[..j] == ts[..j - 1] + [ts[j - 1]];
    Concat(ts[..j - 1], [ts[j - 1]]);
    if i < j - 1 {
      TilesAscend(ts, i, j - 1);
    }
  }

  /** Two live allocations, of the same or of different pools, share no byte. */
  lemma LiveAreApart(h: Heap, table: seq<Pmb>, pools: seq<seq<Tile>>, id: nat, j: nat, a: int, id': nat, j': nat,
                     b: int)
    requires Consistent(h, table, pools) && Live(table, pools, id, j, a) && Live(table, pools, id', j', b)
    requires id != id' || j != j'
    ensures a - HEADER_SIZE + pools[id][j].size <= b - HEADER_SIZE
            || b - HEADER_SIZE + pools[id'][j'].size <= a - HEADER_SIZE
  {
    LiveIsContained(h, table, pools, id, j, a);
    LiveIsContained(h, table, pools, id', j', b);
    if id != id' {
      assert Apart(table[if id < id' then id else id'], table[if id < id' then id' else id]);
    } else {
      TilesAscend(pools[id], if j < j' then j else j', if j < j' then j' else j);
    }
  }

  lemma ContainedOnce(h: Heap, table: seq<Pmb>, pools: seq<seq<Tile>>, i: nat, j: nat, a: int)
    requires Consistent(h, table, pools) && i < |table| && j < |table| && Contains(table[i], a) && Contains(table[j], a)
    ensures i == j
  {}

  lemma LiveOnce(h: Heap, table: seq<Pmb>, pools: seq<seq<Tile>>, id: nat, j: nat, id': nat, j': nat, a: int)
    requires Consistent(h, table, pools) && Live(table, pools, id, j, a) && Live(table, pools, id', j', a)
    ensures id == id' && j == j'
  {
    LiveIsContained(h, table, pools, id, j, a);
    LiveIsContained(h, table, pools, id', j', a);
    ContainedOnce(h, table, pools, id, id', a);
    if j < j' {
      TilesAscend(pools[id], j, j');
    } else if j' < j {
      TilesAscend(pools[id], j', j);
    }
  }

  lemma LiveIsCounted(h: Heap, table: seq<Pmb>, pools: seq<seq<Tile>>, id: nat, j: nat)
    requires Consistent(h, table, pools) && id < |table| && j < |pools[id]| && pools[id][j].Used?
    ensures table[id].n > 0
  {
    assert PoolOk(h, table[id], pools[id]);
    TileAt(h, table[id].startIndex, pools[id], j);
    ReleaseSums(pools[id], j);
  }

  lemma OnlyPool(h: Heap, table: seq<Pmb>, pools: seq<seq<Tile>>, id: nat, other: nat, a: int)
    requires Consistent(h, table, pools) && id < |table| && Contains(table[id], a)
    ensures other < |table| && Contains(table[other], a) ==> other == id
  {
    if other < |table| && Contains(table[other], a) {
      ContainedOnce(h, table, pools, id, other, a);
    }
  }

  // ----- walking over the headers of a pool -----

  /** The walk lands exactly on the index after the pool. */
  lemma WalkEnds(h: Heap, table: seq<Pmb>, pools: seq<seq<Tile>>, id: nat, j: nat)
    requires Consistent(h, table, pools) && id < |table| && table[id].poolSize > 0 && j <= |pools[id]|
    ensures TileStart(table[id], pools[id], j) >= table[id].endIndex <==> j == |pools[id]|
    ensures j == |pools[id]| ==> TileStart(table[id], pools[id], j) == table[id].endIndex + 1
  {
    var ts := pools[id];
    assert PoolOk(h, table[id], ts);
    if j < |ts| {
      TileAt(h, table[id].startIndex, ts, j);
      LaidOutFits(h, table[id].startIndex, ts);
      SizeBounds(ts[j + 1..]);
    } else {
      assert ts[..j] == ts;
    }
  }

  /** One step of the walk, at tile j, before the end of the pool. */
  lemma WalkStep(h: Heap, table: seq<Pmb>, pools: seq<seq<Tile>>, id: nat, j: nat)
    requires Consistent(h, table, pools) && id < |table| && table[id].poolSize > 0 && j <= |pools[id]|
    requires TileStart(table[id], pools[id], j) < table[id].endIndex
    ensures j < |pools[id]| && ValidTile(pools[id][j])
    ensures var a := TileStart(table[id], pools[id], j);
            && a + Length(pools[id][j]) <= |h| && Word(h, a) == Header(pools[id][j])
            && TileStart(table[id], pools[id], j + 1) == a + Length(pools[id][j])
  {
    WalkEnds(h, table, pools, id, j);
    assert PoolOk(h, table[id], pools[id]);
    TileAt(h, table[id].startIndex, pools[id], j);
  }

  /** The state of the scan of MemAlloc: at tile j, with 'found' free blocks behind it. */
  ghost predicate Walking(p: Pmb, ts: seq<Tile>, j: nat, index: int, offset: int, found: nat, n: nat) {
    && Scanning(ts, j, found, n) && offset == BLOCK_SIZE * found
    && index + offset == TileStart(p, ts, j) && index == TileStart(p, ts, j - found)
  }

  lemma WalkOn(h: Heap, table: seq<Pmb>, pools: seq<seq<Tile>>, id: nat, j: nat, index: nat, offset: nat, found: nat,
               n: nat)
    requires Consistent(h, table, pools) && id < |table| && table[id].poolSize > 0
    requires Walking(table[id], pools[id], j, index, offset, found, n) && found < n
             && index + offset < table[id].endIndex
    ensures j < |pools[id]| && index + offset + BLOCK_SIZE <= |h|
    ensures var w := Word(h, index + offset);
            if w == 0 then Walking(table[id], pools[id], j + 1, index, offset + BLOCK_SIZE, found + 1, n)
            else index + offset + w <= |h| && Walking(table[id], pools[id], j + 1, index + offset + w, 0, 0, n)
  {
    WalkStep(h, table, pools, id, j);
    if pools[id][j].Used? {
      ScanUsed(pools[id], j, found, n);
    } else {
      ScanFree(pools[id], j, found, n);
    }
  }

  lemma WalkDone(h: Heap, table: seq<Pmb>, pools: seq<seq<Tile>>, id: nat, j: nat, index: nat, offset: nat,
                 found: nat, n: nat)
    requires Consistent(h, table, pools) && id < |table| && table[id].poolSize > 0
    requires Walking(table[id], pools[id], j, index, offset, found, n)
             && (found >= n || index + offset >= table[id].endIndex)
    ensures if found >= n then FirstFit(pools[id], j - found, n) && index == TileStart(table[id], pools[id], j - found)
            else NoFit(pools[id], n)
  {
    WalkEnds(h, table, pools, id, j);
    ScanEnds(pools[id], j, found, n);
  }

  lemma FitIsInside(h: Heap, table: seq<Pmb>, pools: seq<seq<Tile>>, id: nat, j: nat, n: nat)
    requires Consistent(h, table, pools) && id < |table| && table[id].poolSize > 0 && FirstFit(pools[id], j, n)
    ensures TileStart(table[id], pools[id], j) + HEADER_SIZE <= |h|
    ensures BLOCK_SIZE * n < 0x1_0000_0000
  {
    var ts := pools[id];
    assert PoolOk(h, table[id], ts);
    LaidOutFits(h, table[id].startIndex, ts);
    SizeBounds(ts);
    if n > 0 {
      AllocateSums(ts, j, n);
      SizeBounds(ts[j + n..]);
    } else {
      assert Fits(ts, 0, 0);
    }
  }

  /** What MemAlloc does when n free blocks of a pool, from tile j on, are its first fit. */
  ghost predicate Allocates(h: Heap, table: seq<Pmb>, pools: seq<seq<Tile>>, id: nat, n: nat, j: nat, a: int,
                            h': Heap, table': seq<Pmb>, pools': seq<seq<Tile>>)
  {
    && id < |table| && id < |pools| && table[id].n < 0xFFFF_FFFF
    && FirstFit(pools[id], j, n) && a == TileStart(table[id], pools[id], j) + HEADER_SIZE
    && SameOutside(h, h', a - HEADER_SIZE, a) && a <= |h'| && Word(h', a - HEADER_SIZE) == BLOCK_SIZE * n
    && table' == table[id := AllocatedEntry(table[id], n)]
    && pools' == pools[id := Allocate(pools[id], j, n)]
  }

  lemma AllocatesKeeps(h: Heap, table: seq<Pmb>, pools: seq<seq<Tile>>, id: nat, n: nat, j: nat, a: int,
                       h': Heap, table': seq<Pmb>, pools': seq<seq<Tile>>)
    requires Consistent(h, table, pools) && Allocates(h, table, pools, id, n, j, a, h', table', pools')
    requires n > 0 && table[id].poolSize > 0
    ensures Consistent(h', table', pools') && Live(table', pools', id, j, a)
  {
    var ts, ts' := pools[id], Allocate(pools[id], j, n);
    assert PoolOk(h, table[id], ts);
    AllocKeepsPool(h, h', table[id], ts, j, n);
    PoolChanged(h, h', table, pools, id, table'[id], ts', a - HEADER_SIZE, a);
    assert ts'[..j] == ts[..j];
  }

  /** An allocation takes nothing from a live one: its data stay where they are, with the same bytes. */
  lemma AllocatesKeepsOthers(h: Heap, table: seq<Pmb>, pools: seq<seq<Tile>>, id: nat, n: nat, j: nat, a: int,
                             h': Heap, table': seq<Pmb>, pools': seq<seq<Tile>>, id1: nat, j1: nat, b: int, k: int)
    requires Consistent(h, table, pools) && Allocates(h, table, pools, id, n, j, a, h', table', pools')
    requires n > 0 && table[id].poolSize > 0 && Live(table, pools, id1, j1, b)
    requires b - HEADER_SIZE <= k < b - HEADER_SIZE + pools[id1][j1].size
    ensures k < |h| && h'[k] == h[k] && (k < a - HEADER_SIZE || k >= a - HEADER_SIZE + BLOCK_SIZE * n)
    ensures Live(table', pools', id1, if id1 == id && j1 > j then j1 - n + 1 else j1, b)
  {
    AllocatesKeeps(h, table, pools, id, n, j, a, h', table', pools');
    LiveIsContained(h, table, pools, id1, j1, b);
    var ts, ts' := pools[id], Allocate(pools[id], j, n);
    var j1' := if id1 == id && j1 > j then j1 - n + 1 else j1;
    if id1 == id {
      StartsKept(ts, j, n, j1);
    }
    assert Live(table', pools', id1, j1', b);
    LiveAreApart(h', table', pools', id, j, a, id1, j1', b);
  }

  lemma StartsKept(ts: seq<Tile>, j: nat, n: nat, j1: nat)
    requires Fits(ts, j, n) && n > 0 && j1 < |ts| && ts[j1].Used?
    ensures var j1' := if j1 > j then j1 - n + 1 else j1;
            && j1' != j && j1' < |Allocate(ts, j, n)| && Allocate(ts, j, n)[j1'] == ts[j1]
            && Size(Allocate(ts, j, n)[..j1']) == Size(ts[..j1])
  {
    var ts' := Allocate(ts, j, n);
    if j1 < j {
      assert ts'[..j1] == ts[..j1];
    } else {
      assert j1 >= j + n;
      var cut := ts[..j1];
      assert Fits(cut, j, n);
      AllocateSums(cut, j, n);
      assert ts'[..j1 - n + 1] == Allocate(cut, j, n);
    }
  }

  /** What MemFree does to the live allocation at tile j of a pool. */
  ghost predicate Frees(h: Heap, table: seq<Pmb>, pools: seq<seq<Tile>>, id: nat, j: nat, a: int,
                        h': Heap, table': seq<Pmb>, pools': seq<seq<Tile>>)
  {
    && Live(table, pools, id, j, a) && table[id].n > 0
    && var size := pools[id][j].size;
       && SameOutside(h, h', a - HEADER_SIZE, a - HEADER_SIZE + size)
       && (forall k :: a - HEADER_SIZE <= k < a - HEADER_SIZE + size && k < |h'| ==> h'[k] == 0)
       && table' == table[id := ReleasedEntry(table[id], size)]
       && pools' == pools[id := Release(pools[id], j)]
  }

  lemma FreesKeeps(h: Heap, table: seq<Pmb>, pools: seq<seq<Tile>>, id: nat, j: nat, a: int,
                   h': Heap, table': seq<Pmb>, pools': seq<seq<Tile>>)
    requires Consistent(h, table, pools) && Frees(h, table, pools, id, j, a, h', table', pools')
    ensures Consistent(h', table', pools')
  {
    LiveIsContained(h, table, pools, id, j, a);
    var size := pools[id][j].size;
    ReleaseKeepsPool(h, h', table[id], pools[id], j);
    PoolChanged(h, h', table, pools, id, table'[id], Release(pools[id], j), a - HEADER_SIZE, a - HEADER_SIZE + size);
  }

  /** Freeing one allocation leaves every other where it is. */
  lemma FreesKeepsLive(h: Heap, table: seq<Pmb>, pools: seq<seq<Tile>>, id: nat, j: nat, a: int,
                       h': Heap, table': seq<Pmb>, pools': seq<seq<Tile>>, id1: nat, j1: nat, b: int)
    requires Consistent(h, table, pools) && Frees(h, table, pools, id, j, a, h', table', pools')
    requires Live(table, pools, id1, j1, b) && (id1 != id || j1 != j)
    ensures var j1' := if id1 == id && j1 > j then j1 + pools[id][j].size / BLOCK_SIZE - 1 else j1;
            Live(table', pools', id1, j1', b) && pools'[id1][j1'] == pools[id1][j1]
  {
    LiveIsContained(h, table, pools, id, j, a);
    if id1 == id {
      StartsKeptByRelease(pools[id], j, j1);
    }
  }

  /** Freeing one allocation changes no byte of any other. */
  lemma FreesKeepsBytes(h: Heap, table: seq<Pmb>, pools: seq<seq<Tile>>, id: nat, j: nat, a: int,
                        h': Heap, table': seq<Pmb>, pools': seq<seq<Tile>>, id1: nat, j1: nat, b: int, k: int)
    requires Consistent(h, table, pools) && Frees(h, table, pools, id, j, a, h', table', pools')
    requires Live(table, pools, id1, j1, b) && (id1 != id || j1 != j)
    requires b - HEADER_SIZE <= k < b - HEADER_SIZE + pools[id1][j1].size
    ensures k < |h| && h'[k] == h[k]
  {
    LiveIsContained(h, table, pools, id1, j1, b);
    LiveAreApart(h, table, pools, id, j, a, id1, j1, b);
  }

  lemma StartsKeptByRelease(ts: seq<Tile>, j: nat, j1: nat)
    requires j < |ts| && ts[j].Used? && ValidTile(ts[j]) && j1 < |ts| && j1 != j
    ensures var j1' := if j1 > j then j1 + ts[j].size / BLOCK_SIZE - 1 else j1;
            && j1' < |Release(ts, j)| && Release(ts, j)[j1'] == ts[j1]
            && Size(Release(ts, j)[..j1']) == Size(ts[..j1])
  {
    var r, n := Release(ts, j), ts[j].size / BLOCK_SIZE;
    if j1 < j {
      assert r[..j1] == ts[..j1];
    } else {
      ReleaseSums(ts[..j1], j);
      assert r[..j1 + n - 1] == Release(ts[..j1], j);
    }
  }

  /** Freeing what was just allocated restores the table and the tiles. */
  lemma AllocThenFree(h: Heap, table: seq<Pmb>, pools: seq<seq<Tile>>, id: nat, n: nat, j: nat, a: int,
                      h': Heap, table': seq<Pmb>, pools': seq<seq<Tile>>, id': nat, j': nat,
                      h'': Heap, table'': seq<Pmb>, pools'': seq<seq<Tile>>)
    requires Consistent(h, table, pools) && Allocates(h, table, pools, id, n, j, a, h', table', pools')
    requires n > 0 && table[id].poolSize > 0
    requires Frees(h', table', pools', id', j', a, h'', table'', pools'')
    ensures table'' == table && pools'' == pools
  {
    AllocatesKeeps(h, table, pools, id, n, j, a, h', table', pools');
    LiveOnce(h', table', pools', id, j, id', j', a);
    AllocateThenRelease(pools[id], j, n);
    EntryRestored(table[id], n);
    assert pools'[id][j] == Used(BLOCK_SIZE * n);
  }

  lemma EntryRestored(p: Pmb, n: nat)
    requires p.n < 0xFFFF_FFFF
    ensures ReleasedEntry(AllocatedEntry(p, n), BLOCK_SIZE * n) == p
  {}

  /** Writing data into a live allocation. */
  lemma WriteKeeps(h: Heap, h': Heap, table: seq<Pmb>, pools: seq<seq<Tile>>, id: nat, j: nat, a: int)
    requires Consistent(h, table, pools) && Live(table, pools, id, j, a)
    requires SameOutside(h, h', a, a - HEADER_SIZE + pools[id][j].size)
    ensures Consistent(h', table, pools)
  {
    LiveIsContained(h, table, pools, id, j, a);
    WriteKeepsPool(h, h', table[id], pools[id], j);
    PoolChanged(h, h', table, pools, id, table[id], pools[id], a, a - HEADER_SIZE + pools[id][j].size);
    assert table[id := table[id]] == table && pools[id := pools[id]] == pools;
  }
}
