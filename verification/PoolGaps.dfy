/** Creating and deleting pools: gaps in the heap, the scan for the lowest one, and what the pool table keeps
    (source/kernel/src/Memory.c). */
module PoolGaps {
  import opened Base
  import opened PoolTiles
  import opened PoolTable

  /** k blocks from s on, inside the heap, start in no pool. */
  ghost predicate Gap(size: nat, table: seq<Pmb>, s: nat, k: nat) {
    && s % BLOCK_SIZE == 0 && s + BLOCK_SIZE * k <= size
    && forall b :: 0 <= b < k ==> Outside(table, s + BLOCK_SIZE * b)
  }

  ghost predicate LowestGap(size: nat, table: seq<Pmb>, s: nat, k: nat) {
    Gap(size, table, s, k) && forall s' :: 0 <= s' < s ==> !Gap(size, table, s', k)
  }

  ghost predicate NoGap(size: nat, table: seq<Pmb>, k: nat) { forall s :: 0 <= s <= size ==> !Gap(size, table, s, k) }

  lemma PoolAligned(h: Heap, table: seq<Pmb>, pools: seq<seq<Tile>>, id: nat)
    requires Consistent(h, table, pools) && id < |table| && table[id].poolSize > 0
    ensures table[id].startIndex % BLOCK_SIZE == 0 && (table[id].endIndex + 1) % BLOCK_SIZE == 0
    ensures table[id].startIndex < table[id].endIndex < |h|
  {
    assert PoolOk(h, table[id], pools[id]);
  }

  predicate FirstUnused(table: seq<Pmb>, id: nat) {
    id < |table| && table[id].poolSize == 0 && forall k :: 0 <= k < id ==> table[k].poolSize > 0
  }

  lemma FirstUnusedOnce(table: seq<Pmb>, id: nat, id': nat)
    requires FirstUnused(table, id) && FirstUnused(table, id')
    ensures id == id'
  {}

  // ----- the scan, for any heap size -----

  /** Above this size the indices of the scan wrap around. */
  const MAX_HEAP: U32 := 0xFFFF_FFF0

  /** What the scan accepts: k blocks that start in no pool and before the last byte of the heap. */
  ghost predicate Scanned(size: nat, table: seq<Pmb>, s: nat, k: nat) {
    && s % BLOCK_SIZE == 0 && k > 0 && s + BLOCK_SIZE * (k - 1) < size - 1
    && forall b :: 0 <= b < k ==> Outside(table, s + BLOCK_SIZE * b)
  }

  ghost predicate LowestScanned(size: nat, table: seq<Pmb>, s: nat, k: nat) {
    Scanned(size, table, s, k) && forall s' :: 0 <= s' < s ==> !Scanned(size, table, s', k)
  }

  ghost predicate NoneScanned(size: nat, table: seq<Pmb>, k: nat) { forall s: nat :: !Scanned(size, table, s, k) }

  /** Pools start and end at block borders. */
  ghost predicate Aligned(table: seq<Pmb>) {
    forall id :: 0 <= id < |table| && table[id].poolSize > 0 ==>
      && table[id].startIndex % BLOCK_SIZE == 0 && (table[id].endIndex + 1) % BLOCK_SIZE == 0
      && table[id].endIndex < MAX_HEAP
  }

  /** In the middle of the scan: 'found' such blocks from 'index' on, and k of them start nowhere before. */
  ghost predicate Probing(size: nat, table: seq<Pmb>, index: nat, found: nat, k: nat) {
    && index % BLOCK_SIZE == 0 && found <= k && (found > 0 ==> Scanned(size, table, index, found))
    && forall s :: 0 <= s < index ==> !Scanned(size, table, s, k)
  }

  lemma ProbeFree(size: nat, table: seq<Pmb>, index: nat, found: nat, k: nat)
    requires Probing(size, table, index, found, k) && found < k && Outside(table, index + BLOCK_SIZE * found)
    requires index + BLOCK_SIZE * found < size - 1
    ensures Probing(size, table, index, found + 1, k)
  {}

  /** A pool in the way rules out every start up to its end. */
  lemma ProbeOwned(size: nat, table: seq<Pmb>, index: nat, found: nat, k: nat, id: nat)
    requires Probing(size, table, index, found, k) && found < k && id < |table|
             && Owns(table[id], index + BLOCK_SIZE * found)
    requires Aligned(table)
    ensures Probing(size, table, table[id].endIndex + 1, 0, k)
  {
    var x := index + BLOCK_SIZE * found;
    forall s: nat | index <= s <= table[id].endIndex
      ensures !Scanned(size, table, s, k)
    {
      if s % BLOCK_SIZE == 0 {
        var b := if s <= x then (x - s) / BLOCK_SIZE else 0;
        assert s <= x ==> s + BLOCK_SIZE * b == x;
        assert 0 <= b < k && Owns(table[id], s + BLOCK_SIZE * b);
      }
    }
  }

  lemma ProbeEnds(size: nat, table: seq<Pmb>, index: nat, found: nat, k: nat)
    requires Probing(size, table, index, found, k) && k > 0 && (found == k || index + BLOCK_SIZE * found >= size - 1)
    ensures if found == k then LowestScanned(size, table, index, k) else NoneScanned(size, table, k)
  {}

  /** The scan never leaves the heap, whatever the pools and the request, exactly if the heap size is a multiple of 16
      or one more; it never misses a gap. */
  lemma ScanStaysInsideIff(size: U32)
    requires size > 0
    ensures size % BLOCK_SIZE <= 1 <==>
            forall table, s: nat, poolSize: U32 ::
              poolSize <= size && Scanned(size, table, s, Blocks(poolSize)) ==> Gap(size, table, s, Blocks(poolSize))
    ensures forall table, s: nat, k: nat :: k > 0 && Gap(size, table, s, k) ==> Scanned(size, table, s, k)
  {
    if size % BLOCK_SIZE > 1 {
      var k := Blocks(size);
      assert BLOCK_SIZE * (k - 1) < size - 1 && BLOCK_SIZE * k > size;
      assert Scanned(size, [], 0, Blocks(size)) && !Gap(size, [], 0, Blocks(size));
    }
  }

  /** In a heap of whole blocks what the scan finds is the lowest gap. */
  lemma ScannedIsGap(size: U32, table: seq<Pmb>, s: nat, k: nat)
    requires size % BLOCK_SIZE == 0 && k > 0
    ensures Scanned(size, table, s, k) <==> Gap(size, table, s, k)
  {}

  lemma LowestIsGap(size: U32, table: seq<Pmb>, k: nat)
    requires size % BLOCK_SIZE == 0 && k > 0
    ensures NoneScanned(size, table, k) <==> NoGap(size, table, k)
    ensures forall s :: LowestScanned(size, table, s, k) <==> LowestGap(size, table, s, k)
  {
    forall s: nat
      ensures Scanned(size, table, s, k) <==> Gap(size, table, s, k)
    {
      ScannedIsGap(size, table, s, k);
    }
    assert forall s: nat :: Gap(size, table, s, k) ==> s <= size;
  }

  /** With no pool, the scan ends at the start of the heap, unless the last block would start with its last byte. */
  lemma FirstScan(size: U32, table: seq<Pmb>, poolSize: U32)
    requires (forall id :: 0 <= id < |table| ==> table[id].poolSize == 0) && 0 < poolSize <= size
    ensures NoneScanned(size, table, Blocks(poolSize)) <==> poolSize == size && size % BLOCK_SIZE == 1
    ensures forall s :: LowestScanned(size, table, s, Blocks(poolSize)) ==> s == 0
  {
    var k := Blocks(poolSize);
    assert forall i :: Outside(table, i);
    if poolSize == size && size % BLOCK_SIZE == 1 {
      assert BLOCK_SIZE * (k - 1) == size - 1;
    } else {
      assert Scanned(size, table, 0, k);
    }
  }

  /** Testing the block starts is enough: pools cover whole blocks. */
  lemma GapIsApart(h: Heap, p: Pmb, ts: seq<Tile>, s: nat, k: nat)
    requires PoolOk(h, p, ts) && p.poolSize > 0 && s % BLOCK_SIZE == 0 && k > 0
    requires forall b :: 0 <= b < k ==> !Owns(p, s + BLOCK_SIZE * b)
    ensures s + BLOCK_SIZE * k <= p.startIndex || p.endIndex < s
  {
    var b := if s < p.startIndex then (p.startIndex - s) / BLOCK_SIZE else 0;
    assert s < p.startIndex ==> s + BLOCK_SIZE * b == p.startIndex;
    assert b < k ==> !Owns(p, s + BLOCK_SIZE * b);
  }

  function NewEntry(s: nat, size: U32): (p: Pmb)
    requires size > 0 && s + BLOCK_SIZE * Blocks(size) <= 0xFFFF_FFFF
  {
    Pmb(s, s + BLOCK_SIZE * Blocks(size) - 1, size, size, 0)
  }

  lemma GapIsFreeBlocks(h: Heap, table: seq<Pmb>, pools: seq<seq<Tile>>, s: nat, k: nat)
    requires Consistent(h, table, pools) && Gap(|h|, table, s, k)
    ensures LaidOut(h, s, FreeBlocks(k))
  {
    forall b | 0 <= b < k
      ensures Word(h, s + BLOCK_SIZE * b) == 0
    {
      assert Outside(table, s + BLOCK_SIZE * b);
    }
    ZeroHeadersAreFree(h, s, k);
  }

  lemma NewPoolOk(h: Heap, s: nat, size: U32)
    requires size > 0 && s % BLOCK_SIZE == 0 && s + BLOCK_SIZE * Blocks(size) <= |h| < 0x1_0000_0000
    requires LaidOut(h, s, FreeBlocks(Blocks(size)))
    ensures PoolOk(h, NewEntry(s, size), FreeBlocks(Blocks(size)))
  {
    FreeBlocksSums(Blocks(size));
  }

  lemma NewPoolApart(h: Heap, table: seq<Pmb>, pools: seq<seq<Tile>>, id: nat, s: nat, size: U32)
    requires Consistent(h, table, pools) && size > 0 && Gap(|h|, table, s, Blocks(size)) && id < |table|
    ensures Apart(table[id], NewEntry(s, size)) && Apart(NewEntry(s, size), table[id])
  {
    if table[id].poolSize > 0 {
      forall b | 0 <= b < Blocks(size)
        ensures !Owns(table[id], s + BLOCK_SIZE * b)
      {
        assert Outside(table, s + BLOCK_SIZE * b);
      }
      GapIsApart(h, table[id], pools[id], s, Blocks(size));
    }
  }

  lemma CreateKeeps(h: Heap, table: seq<Pmb>, pools: seq<seq<Tile>>, id: nat, s: nat, size: U32)
    requires Consistent(h, table, pools) && id < |table| && table[id].poolSize == 0 && size > 0
    requires Gap(|h|, table, s, Blocks(size))
    ensures Consistent(h, table[id := NewEntry(s, size)], pools[id := FreeBlocks(Blocks(size))])
  {
    var table' := table[id := NewEntry(s, size)];
    GapIsFreeBlocks(h, table, pools, s, Blocks(size));
    NewPoolOk(h, s, size);
    forall i, j | 0 <= i < j < |table|
      ensures Apart(table'[i], table'[j])
    {
      NewPairApart(h, table, pools, id, s, size, i, j);
    }
    forall i | Outside(table', i)
      ensures Outside(table, i)
    {
      UnusedOwnsNothing(table, id, NewEntry(s, size), i);
    }
  }

  lemma NewPairApart(h: Heap, table: seq<Pmb>, pools: seq<seq<Tile>>, id: nat, s: nat, size: U32, i: nat, j: nat)
    requires Consistent(h, table, pools) && id < |table| && size > 0 && Gap(|h|, table, s, Blocks(size))
             && i < j < |table|
    ensures var table' := table[id := NewEntry(s, size)]; Apart(table'[i], table'[j])
  {
    if i == id {
      NewPoolApart(h, table, pools, j, s, size);
    } else if j == id {
      NewPoolApart(h, table, pools, i, s, size);
    }
  }

  lemma UnusedOwnsNothing(table: seq<Pmb>, id: nat, p: Pmb, i: int)
    requires id < |table| && table[id].poolSize == 0 && Outside(table[id := p], i)
    ensures Outside(table, i)
  {
    forall k | 0 <= k < |table|
      ensures !Owns(table[k], i)
    {
      assert !Owns(table[id := p][k], i);
    }
  }

  /** Formatting writes all but the last byte of a pool; with the entry cleared, its range holds zero headers again. */
  lemma DeleteKeeps(h: Heap, h': Heap, table: seq<Pmb>, pools: seq<seq<Tile>>, id: nat)
    requires Consistent(h, table, pools) && id < |table| && table[id].poolSize > 0
    requires SameOutside(h, h', table[id].startIndex, table[id].endIndex)
    requires forall k :: table[id].startIndex <= k < table[id].endIndex && k < |h'| ==> h'[k] == 0
    ensures Consistent(h', table[id := UNUSED], pools[id := []])
  {
    var p, table' := table[id], table[id := UNUSED];
    forall k | 0 <= k < |table| && k != id
      ensures PoolOk(h', table[k], pools[k])
    {
      OtherPoolUnaffected(h, h', table, pools, id, p.startIndex, p.endIndex, k);
    }
    forall i: nat | i % BLOCK_SIZE == 0 && i < |h'| && Outside(table', i)
      ensures i + HEADER_SIZE <= |h'| && Word(h', i) == 0
    {
      DeletedHeader(h, h', table, pools, id, i);
    }
  }

  lemma DeletedHeader(h: Heap, h': Heap, table: seq<Pmb>, pools: seq<seq<Tile>>, id: nat, i: nat)
    requires Consistent(h, table, pools) && id < |table| && table[id].poolSize > 0
    requires SameOutside(h, h', table[id].startIndex, table[id].endIndex)
    requires forall k :: table[id].startIndex <= k < table[id].endIndex && k < |h'| ==> h'[k] == 0
    requires i % BLOCK_SIZE == 0 && i < |h'| && Outside(table[id := UNUSED], i)
    ensures i + HEADER_SIZE <= |h'| && Word(h', i) == 0
  {
    assert PoolOk(h, table[id], pools[id]);
    if Owns(table[id], i) {
      HeaderZeroed(h', table[id], i);
    } else {
      OutsideBefore(table, id, i);
      HeaderUntouched(h, h', table[id], table[id].startIndex, table[id].endIndex, i, pools[id]);
    }
  }

  lemma HeaderZeroed(h: Heap, p: Pmb, i: nat)
    requires p.startIndex % BLOCK_SIZE == 0 && (p.endIndex + 1) % BLOCK_SIZE == 0 && p.endIndex < |h|
    requires i % BLOCK_SIZE == 0 && Owns(p, i) && forall k :: p.startIndex <= k < p.endIndex && k < |h| ==> h[k] == 0
    ensures i + HEADER_SIZE <= |h| && Word(h, i) == 0
  {
    assert i + BLOCK_SIZE <= p.endIndex + 1;
  }

  lemma OutsideBefore(table: seq<Pmb>, id: nat, i: int)
    requires id < |table| && Outside(table[id := UNUSED], i) && !Owns(table[id], i)
    ensures Outside(table, i)
  {
    forall k | 0 <= k < |table|
      ensures !Owns(table[k], i)
    {
      assert !Owns(table[id := UNUSED][k], i);
    }
  }

  /** The allocation count of an unused entry means nothing. */
  lemma UnusedStaysUnused(h: Heap, table: seq<Pmb>, pools: seq<seq<Tile>>, id: nat, p: Pmb)
    requires Consistent(h, table, pools) && id < |table| && table[id].poolSize == 0 && p == table[id].(n := p.n)
    ensures Consistent(h, table[id := p], pools[id := []]) && pools[id] == []
  {
    var table' := table[id := p];
    assert PoolOk(h, table[id], pools[id]);
    forall i | Outside(table', i)
      ensures Outside(table, i)
    {
      UnusedOwnsNothing(table, id, p, i);
    }
  }

  /** A heap of zeros with no pools. */
  lemma EmptyIsConsistent(h: Heap, table: seq<Pmb>)
    requires |h| % BLOCK_SIZE == 0 && 0 < |h| < 0x1_0000_0000 && forall k :: 0 <= k < |h| ==> h[k] == 0
    requires forall id :: 0 <= id < |table| ==> table[id].poolSize == table[id].startIndex == 0
    requires forall id :: 0 <= id < |table| ==> table[id].endIndex == table[id].memLeft == 0
    ensures Consistent(h, table, seq(|table|, _ => []))
  {}
}
