/** Where the 32-bit counters of source/kernel/src/Memory.c stop being right: which pool sizes let the free-space
    counter wrap, which turn satisfiable requests down, and what a request does whose size wraps. */
module PoolLimits {
  import opened Base
  import opened PoolTiles
  import opened PoolTable
  import opened PoolLive
  import opened PoolSpace

  function MemLeft(size: U32, ts: seq<Tile>): U32 { (size - UsedBytes(ts)) % 0x1_0000_0000 }

  // ----- what requests make of a pool -----

  /** A request of so many bytes is served, with the blocks from tile j on. */
  ghost predicate Serves(poolSize: U32, ts: seq<Tile>, size: U32, j: nat, ts': seq<Tile>) {
    && 0 < size <= MemLeft(poolSize, ts)
    && var n := Blocks(Add32(size, HEADER_SIZE));
       n > 0 && FirstFit(ts, j, n) && ts' == Allocate(ts, j, n)
  }

  ghost predicate Served(poolSize: U32, ts: seq<Tile>, ts': seq<Tile>) {
    exists size, j :: Serves(poolSize, ts, size, j, ts')
  }

  ghost predicate Freed(ts: seq<Tile>, ts': seq<Tile>) {
    exists j :: 0 <= j < |ts| && ts[j].Used? && ts' == Release(ts, j)
  }

  /** The tiles of a pool from its creation on, request by request. */
  ghost predicate History(poolSize: U32, trace: seq<seq<Tile>>) {
    && trace != [] && trace[0] == FreeBlocks(Blocks(poolSize))
    && forall i :: 0 <= i < |trace| - 1 ==> Served(poolSize, trace[i], trace[i + 1]) || Freed(trace[i], trace[i + 1])
  }

  ghost predicate Reached(poolSize: U32, ts: seq<Tile>) {
    exists trace :: History(poolSize, trace) && trace[|trace| - 1] == ts
  }

  lemma {:induction false} HistoryTiles(poolSize: U32, trace: seq<seq<Tile>>, i: nat)
    requires History(poolSize, trace) && i < |trace|
    ensures ValidTiles(trace[i]) && Size(trace[i]) == BLOCK_SIZE * Blocks(poolSize)
    decreases i
  {
    if i == 0 {
      FreeBlocksSums(Blocks(poolSize));
    } else {
      HistoryTiles(poolSize, trace, i - 1);
      var ts, ts' := trace[i - 1], trace[i];
      assert Served(poolSize, ts, trace[i - 1 + 1]) || Freed(ts, trace[i - 1 + 1]);
      StepTiles(poolSize, ts, ts');
    }
  }

  lemma StepTiles(poolSize: U32, ts: seq<Tile>, ts': seq<Tile>)
    requires ValidTiles(ts) && (Served(poolSize, ts, ts') || Freed(ts, ts'))
    ensures ValidTiles(ts') && Size(ts') == Size(ts)
  {
    if Freed(ts, ts') {
      var j :| 0 <= j < |ts| && ts[j].Used? && ts' == Release(ts, j);
      ReleasedTiles(ts, j);
    } else {
      var size, j :| Serves(poolSize, ts, size, j, ts');
      AllocatedTiles(ts, j, Blocks(Add32(size, HEADER_SIZE)));
    }
  }

  lemma ReleasedTiles(ts: seq<Tile>, j: nat)
    requires ValidTiles(ts) && j < |ts| && ts[j].Used?
    ensures ValidTiles(Release(ts, j)) && Size(Release(ts, j)) == Size(ts)
  {
    ReleaseSums(ts, j);
  }

  lemma AllocatedTiles(ts: seq<Tile>, j: nat, n: nat)
    requires ValidTiles(ts) && Fits(ts, j, n) && n > 0
    ensures ValidTiles(Allocate(ts, j, n)) && Size(Allocate(ts, j, n)) == Size(ts)
  {
    AllocateSums(ts, j, n);
  }

  lemma ReachedTiles(poolSize: U32, ts: seq<Tile>)
    requires Reached(poolSize, ts)
    ensures ValidTiles(ts) && Size(ts) == BLOCK_SIZE * Blocks(poolSize)
  {
    var trace :| History(poolSize, trace) && trace[|trace| - 1] == ts;
    HistoryTiles(poolSize, trace, |trace| - 1);
  }

  lemma NewIsReached(poolSize: U32)
    ensures Reached(poolSize, FreeBlocks(Blocks(poolSize)))
  {
    assert History(poolSize, [FreeBlocks(Blocks(poolSize))]);
  }

  // ----- the free-space counter -----

  /** i blocks taken one by one, and the others free. */
  function OneByOne(i: nat, k: nat): seq<Tile>
    requires i <= k
  {
    seq(i, _ => Used(BLOCK_SIZE)) + FreeBlocks(k - i)
  }

  lemma {:induction false} OneByOneSums(i: nat, k: nat)
    requires i <= k
    ensures UsedBytes(OneByOne(i, k)) == BLOCK_SIZE * i
    decreases i
  {
    if i == 0 {
      assert OneByOne(0, k) == FreeBlocks(k);
      FreeBlocksSums(k);
    } else {
      OneByOneSums(i - 1, k);
      OneMore(i - 1, k);
    }
  }

  /** A request of one byte takes the next block. */
  lemma OneMore(i: nat, k: nat)
    requires i < k
    ensures FirstFit(OneByOne(i, k), i, 1) && Allocate(OneByOne(i, k), i, 1) == OneByOne(i + 1, k)
    ensures UsedBytes(OneByOne(i + 1, k)) == UsedBytes(OneByOne(i, k)) + BLOCK_SIZE
  {
    var ts := OneByOne(i, k);
    assert ts[i] == FreeBlock && forall j :: 0 <= j < i ==> ts[j] == Used(BLOCK_SIZE);
    forall j | 0 <= j < i
      ensures !Fits(ts, j, 1)
    {
      assert ts[j] != FreeBlock;
    }
    AllocateSums(ts, i, 1);
    assert Allocate(ts, i, 1) == OneByOne(i + 1, k);
  }

  lemma OneByteServed(poolSize: U32, i: nat)
    requires 0 < poolSize <= 0xFFFF_FFF0 && i < Blocks(poolSize)
    ensures var k := Blocks(poolSize); Serves(poolSize, OneByOne(i, k), 1, i, OneByOne(i + 1, k))
  {
    var k := Blocks(poolSize);
    OneByOneSums(i, k);
    OneMore(i, k);
    RoundedUp(poolSize);
    assert Blocks(Add32(1, HEADER_SIZE)) == 1;
  }

  /** Requests of one byte fill any pool. */
  lemma FullIsReached(poolSize: U32)
    requires 0 < poolSize <= 0xFFFF_FFF0
    ensures var k := Blocks(poolSize); Reached(poolSize, OneByOne(k, k)) && UsedBytes(OneByOne(k, k)) == BLOCK_SIZE * k
  {
    var k := Blocks(poolSize);
    var trace := seq(k + 1, i requires 0 <= i < k + 1 => OneByOne(i, k));
    assert OneByOne(0, k) == FreeBlocks(k);
    forall i | 0 <= i < |trace| - 1
      ensures Served(poolSize, trace[i], trace[i + 1])
    {
      OneByteServed(poolSize, i);
      assert Serves(poolSize, trace[i], 1, i, trace[i + 1]);
    }
    assert History(poolSize, trace) && trace[|trace| - 1] == OneByOne(k, k);
    OneByOneSums(k, k);
  }

  /** Exactly in pools of whole blocks no sequence of requests makes the free-space counter wrap. */
  lemma CountersExactIff(poolSize: U32)
    requires 0 < poolSize <= 0xFFFF_FFF0
    ensures poolSize % BLOCK_SIZE == 0 <==> forall ts :: Reached(poolSize, ts) ==> UsedBytes(ts) <= poolSize
  {
    var k := Blocks(poolSize);
    FullIsReached(poolSize);
    RoundedUp(poolSize);
    if poolSize % BLOCK_SIZE != 0 {
      assert Reached(poolSize, OneByOne(k, k)) && UsedBytes(OneByOne(k, k)) > poolSize;
    } else {
      forall ts | Reached(poolSize, ts)
        ensures UsedBytes(ts) <= poolSize
      {
        ReachedTiles(poolSize, ts);
        SizeBounds(ts);
      }
    }
  }

  // ----- requests that could be served and are not -----

  /** The test of mem_left before the scan turns a satisfiable request down. */
  ghost predicate TurnsDown(poolSize: U32, ts: seq<Tile>, j: nat, size: U32) {
    && 0 < size <= 0xFFFF_FFFB && Fits(ts, j, Blocks(size + HEADER_SIZE)) && MemLeft(poolSize, ts) < size
  }

  /** Exactly the pools whose last block lacks more than a header come to turn satisfiable requests down. */
  lemma TurnsDownIff(poolSize: U32)
    requires 0 < poolSize <= 0xFFFF_FFF0
    ensures (exists ts, j, size :: Reached(poolSize, ts) && TurnsDown(poolSize, ts, j, size))
            <==> 0 < poolSize % BLOCK_SIZE < BLOCK_SIZE - HEADER_SIZE
  {
    if 0 < poolSize % BLOCK_SIZE < BLOCK_SIZE - HEADER_SIZE {
      NewTurnsDown(poolSize);
    }
    forall ts, j: nat, size: U32 | Reached(poolSize, ts) && TurnsDown(poolSize, ts, j, size)
      ensures 0 < poolSize % BLOCK_SIZE < BLOCK_SIZE - HEADER_SIZE
    {
      ReachedTiles(poolSize, ts);
      TurnedDown(poolSize, ts, j, size);
    }
  }

  /** The request for a whole new pool. */
  lemma NewTurnsDown(poolSize: U32)
    requires 0 < poolSize <= 0xFFFF_FFF0 && 0 < poolSize % BLOCK_SIZE < BLOCK_SIZE - HEADER_SIZE
    ensures var k := Blocks(poolSize);
            Reached(poolSize, FreeBlocks(k)) && TurnsDown(poolSize, FreeBlocks(k), 0, BLOCK_SIZE * k - HEADER_SIZE)
  {
    var k := Blocks(poolSize);
    NewIsReached(poolSize);
    FreeBlocksSums(k);
    assert Fits(FreeBlocks(k), 0, k);
    assert Blocks(BLOCK_SIZE * k) == k;
  }

  lemma TurnedDown(poolSize: U32, ts: seq<Tile>, j: nat, size: U32)
    requires ValidTiles(ts) && Size(ts) == BLOCK_SIZE * Blocks(poolSize) && poolSize > 0
    requires TurnsDown(poolSize, ts, j, size)
    ensures 0 < poolSize % BLOCK_SIZE < BLOCK_SIZE - HEADER_SIZE
  {
    var n := Blocks(size + HEADER_SIZE);
    FitLeavesRoom(ts, j, n);
    RoundedUp(poolSize);
  }

  // ----- requests whose size wraps -----

  /** Only one size wraps, with its header, to no blocks at all. */
  lemma WrapsToNothing(size: U32)
    requires size > 0
    ensures Blocks(Add32(size, HEADER_SIZE)) == 0 <==> size == 0xFFFF_FFFC
  {}

  /** Exactly the pools whose last block lacks at most a header, and something, come to admit such a request. */
  lemma AdmitsWrapIff(poolSize: U32)
    requires 0 < poolSize <= 0xFFFF_FFF0
    ensures (exists ts :: Reached(poolSize, ts) && MemLeft(poolSize, ts) >= 0xFFFF_FFFC)
            <==> poolSize % BLOCK_SIZE >= BLOCK_SIZE - HEADER_SIZE
  {
    var k := Blocks(poolSize);
    FullIsReached(poolSize);
    RoundedUp(poolSize);
    if poolSize % BLOCK_SIZE >= BLOCK_SIZE - HEADER_SIZE {
      assert MemLeft(poolSize, OneByOne(k, k)) >= 0xFFFF_FFFC;
    }
    forall ts | Reached(poolSize, ts) && MemLeft(poolSize, ts) >= 0xFFFF_FFFC
      ensures poolSize % BLOCK_SIZE >= BLOCK_SIZE - HEADER_SIZE
    {
      ReachedTiles(poolSize, ts);
      SizeBounds(ts);
    }
  }

  /** A pool whose counter admits such a request is full. */
  lemma AdmitsWrapWhenFull(h: Heap, p: Pmb, ts: seq<Tile>)
    requires PoolOk(h, p, ts) && |h| < 0x1_0000_0000 && |h| % BLOCK_SIZE == 0 && p.memLeft >= 0xFFFF_FFFC
    ensures p.poolSize > 0 && UsedBytes(ts) == Size(ts) > 0
  {
    LaidOutFits(h, p.startIndex, ts);
    SizeBounds(ts);
    FullWhenWrapped(p.poolSize, UsedBytes(ts), Size(ts), p.memLeft);
  }

  lemma FullWhenWrapped(poolSize: U32, used: nat, size: nat, memLeft: U32)
    requires used <= size == BLOCK_SIZE * Blocks(poolSize) <= 0xFFFF_FFF0 && used % BLOCK_SIZE == 0
    requires memLeft == (poolSize - used) % 0x1_0000_0000 >= 0xFFFF_FFFC
    ensures poolSize > 0 && used == size > 0
  {
    RoundedUp(poolSize);
  }

  /** A pool that starts with a zero header is not full. */
  lemma FreeStartIsNotFull(h: Heap, p: Pmb, ts: seq<Tile>)
    requires Tiled(h, p, ts) && p.poolSize > 0 && p.startIndex + HEADER_SIZE <= |h| && Word(h, p.startIndex) == 0
    ensures UsedBytes(ts) < Size(ts)
  {
    assert ts != [];
    assert ts[0] == FreeBlock;
    LaidOutFits(h, p.startIndex, ts);
    assert ts == [ts[0]] + ts[1..];
    SizeBounds(ts[1..]);
  }

  /** The counter tells how much is used, whatever the tiles. */
  lemma SameUsed(h: Heap, p: Pmb, ts: seq<Tile>, h': Heap, p': Pmb, ts': seq<Tile>)
    requires PoolOk(h, p, ts) && PoolOk(h', p', ts') && |h| == |h'| < 0x1_0000_0000
    requires p'.poolSize == p.poolSize > 0 && p'.memLeft == p.memLeft
    ensures UsedBytes(ts') == UsedBytes(ts) && Size(ts') == Size(ts)
  {
    PoolUsed(h, p, ts);
    PoolUsed(h', p', ts');
  }

  /** After a request that wraps to no blocks was granted, no tiling of the pools fits the heap and the counters. */
  lemma WrappedBreaks(h: Heap, table: seq<Pmb>, pools: seq<seq<Tile>>, id: nat, j: nat, a: int,
                      h': Heap, table': seq<Pmb>, pools': seq<seq<Tile>>, any: seq<seq<Tile>>)
    requires Consistent(h, table, pools) && Allocates(h, table, pools, id, 0, j, a, h', table', pools')
    requires table[id].memLeft >= 0xFFFF_FFFC
    ensures !Consistent(h', table', any)
  {
    assert PoolOk(h, table[id], pools[id]);
    AdmitsWrapWhenFull(h, table[id], pools[id]);
    assert Fits(pools[id], 0, 0);
    if Consistent(h', table', any) {
      assert PoolOk(h', table'[id], any[id]);
      NoSuchPool(h, table[id], pools[id], h', table'[id], any[id]);
    }
  }

  /** A full pool whose first header was zeroed, with the counter as it was, has no tiles. */
  lemma NoSuchPool(h: Heap, p: Pmb, ts: seq<Tile>, h': Heap, p': Pmb, ts': seq<Tile>)
    requires PoolOk(h, p, ts) && p.poolSize > 0 && UsedBytes(ts) == Size(ts) && |h| == |h'| < 0x1_0000_0000
    requires p' == p.(n := p'.n) && p.startIndex + HEADER_SIZE <= |h'| && Word(h', p.startIndex) == 0
    ensures !PoolOk(h', p', ts')
  {
    if PoolOk(h', p', ts') {
      SameUsed(h, p, ts, h', p', ts');
      FreeStartIsNotFull(h', p', ts');
    }
  }

  /** No tiling of the pools fits the heap and the counters. */
  ghost predicate Broken(h: Heap, table: seq<Pmb>) { forall any :: !Consistent(h, table, any) }

  /** A granted request leaves pools that can be tiled if and only if its size does not wrap to no blocks. */
  lemma GrantedKeepsIff(h: Heap, table: seq<Pmb>, pools: seq<seq<Tile>>, id: nat, size: U32, j: nat, a: int,
                        h': Heap, table': seq<Pmb>, pools': seq<seq<Tile>>)
    requires Consistent(h, table, pools) && id < |table| && 0 < size <= table[id].memLeft
    requires Allocates(h, table, pools, id, Blocks(Add32(size, HEADER_SIZE)), j, a, h', table', pools')
    ensures Broken(h', table') <==> Blocks(Add32(size, HEADER_SIZE)) == 0
  {
    assert PoolOk(h, table[id], pools[id]);
    WrapsToNothing(size);
    if Blocks(Add32(size, HEADER_SIZE)) > 0 {
      AllocatesKeeps(h, table, pools, id, Blocks(Add32(size, HEADER_SIZE)), j, a, h', table', pools');
      assert Consistent(h', table', pools');
    } else {
      forall any
        ensures !Consistent(h', table', any)
      {
        WrappedBreaks(h, table, pools, id, j, a, h', table', pools', any);
      }
    }
  }

  /** A request that is admitted and gets blocks gets as many bytes as it asked for, in every pool: a size that wraps is
      admitted in full pools only, where no block is left. */
  lemma GrantedHolds(h: Heap, table: seq<Pmb>, pools: seq<seq<Tile>>, id: nat, size: U32, j: nat)
    requires Consistent(h, table, pools) && id < |table| && 0 < size <= table[id].memLeft
    requires var n := Blocks(Add32(size, HEADER_SIZE)); n > 0 ==> Fits(pools[id], j, n)
    ensures var n := Blocks(Add32(size, HEADER_SIZE)); n > 0 ==> BLOCK_SIZE * n >= size + HEADER_SIZE
  {
    var n := Blocks(Add32(size, HEADER_SIZE));
    assert PoolOk(h, table[id], pools[id]);
    if n > 0 && size >= 0xFFFF_FFFC {
      AdmitsWrapWhenFull(h, table[id], pools[id]);
      LaidOutFits(h, table[id].startIndex, pools[id]);
      FitLeavesRoom(pools[id], j, n);
    }
  }

  // ----- an example -----

  /** A heap of 32 bytes that starts with this word and is zero otherwise. */
  function SmallHeap(first: U8): Heap { seq(32, i => if i == 0 then first else 0) }

  /** The entry of a pool of 28 bytes, which takes two blocks, when 32 bytes were allocated. */
  const FULL := Pmb(0, 31, 28, 0xFFFF_FFFC, 1)

  lemma FullIsConsistent()
    ensures Consistent(SmallHeap(32), [FULL], [[Used(32)]])
  {
    var h, ts := SmallHeap(32), [Used(32)];
    OneUsed(32);
    assert ts[1..] == [];
    assert Word(h, 0) == 32;
    assert Blocks(28) == 2;
    assert PoolOk(h, FULL, ts);
    forall i | 0 <= i < |h|
      ensures !Outside([FULL], i)
    {
      assert Owns([FULL][0], i);
    }
  }

  /** A pool of 28 bytes whose two blocks are one allocation: its counter has wrapped to 2^32 - 4 and admits a request
      of that size, which with its header needs no block; the scan grants it at the start of the live allocation, and
      nothing can describe the heap that is left. */
  lemma WrappedRequest(h: Heap, table: seq<Pmb>, pools: seq<seq<Tile>>, id: nat, j: nat, a: int,
                       h': Heap, table': seq<Pmb>, pools': seq<seq<Tile>>)
    requires Consistent(h, table, pools) && id < |table| && table[id].poolSize == 28 && pools[id] == [Used(32)]
    ensures table[id].memLeft == 0xFFFF_FFFC && Blocks(Add32(0xFFFF_FFFC, HEADER_SIZE)) == 0
    ensures FirstFit(pools[id], 0, 0) && Live(table, pools, id, 0, table[id].startIndex + HEADER_SIZE)
    ensures Allocates(h, table, pools, id, 0, j, a, h', table', pools') ==>
              a == table[id].startIndex + HEADER_SIZE && Broken(h', table')
  {
    assert PoolOk(h, table[id], pools[id]);
    OneUsed(32);
    if Allocates(h, table, pools, id, 0, j, a, h', table', pools') {
      assert Fits(pools[id], 0, 0);
      GrantedKeepsIff(h, table, pools, id, 0xFFFF_FFFC, j, a, h', table', pools');
    }
  }

  /** That state exists, and so do the heap and the table that the request leaves. */
  lemma WrappedExample()
    ensures Consistent(SmallHeap(32), [FULL], [[Used(32)]])
    ensures exists table', pools' :: Allocates(SmallHeap(32), [FULL], [[Used(32)]], 0, 0, 0, HEADER_SIZE,
                                               SmallHeap(0), table', pools') && Broken(SmallHeap(0), table')
  {
    FullIsConsistent();
    var table', pools' := [AllocatedEntry(FULL, 0)], [Allocate([Used(32)], 0, 0)];
    assert Word(SmallHeap(0), 0) == 0;
    assert Size([Used(32)][..0]) == 0;
    assert Allocates(SmallHeap(32), [FULL], [[Used(32)]], 0, 0, 0, HEADER_SIZE, SmallHeap(0), table', pools');
    WrappedRequest(SmallHeap(32), [FULL], [[Used(32)]], 0, 0, HEADER_SIZE, SmallHeap(0), table', pools');
  }
}
