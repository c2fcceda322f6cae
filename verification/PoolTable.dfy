/** The pool table over the heap (source/kernel/src/Memory.c): what every operation keeps, on values. */
module PoolTable {
  import opened Base
  import opened PoolTiles

  /** Pmb_t. */
  datatype Pmb = Pmb(startIndex: U32, endIndex: U32, poolSize: U32, memLeft: U32, n: U32)

  const UNUSED := Pmb(0, 0, 0, 0, 0)

  predicate Owns(p: Pmb, i: int) { p.poolSize > 0 && p.startIndex <= i <= p.endIndex }

  predicate Apart(p: Pmb, q: Pmb) {
    p.poolSize == 0 || q.poolSize == 0 || p.endIndex < q.startIndex || q.endIndex < p.startIndex
  }

  /** The tiles fill the pool exactly: a walk over the headers ends at endIndex + 1. */
  ghost predicate Tiled(h: Heap, p: Pmb, ts: seq<Tile>) {
    && p.startIndex % BLOCK_SIZE == 0
    && p.endIndex + 1 == p.startIndex + Size(ts) <= |h|
    && Size(ts) == BLOCK_SIZE * Blocks(p.poolSize)
    && LaidOut(h, p.startIndex, ts)
  }

  /** The counters say what the tiles hold. The free-space counter is a U32_t that starts at the requested size while
      whole blocks are taken from it, hence the subtraction modulo 2^32. */
  predicate Counted(p: Pmb, ts: seq<Tile>) {
    p.n == UsedCount(ts) && p.memLeft == (p.poolSize - UsedBytes(ts)) % 0x1_0000_0000
  }

  ghost predicate PoolOk(h: Heap, p: Pmb, ts: seq<Tile>) {
    if p.poolSize == 0 then ts == [] && p.startIndex == p.endIndex == p.memLeft == 0
    else Tiled(h, p, ts) && Counted(p, ts)
  }

  predicate Outside(table: seq<Pmb>, i: int) { forall id :: 0 <= id < |table| ==> !Owns(table[id], i) }

  ghost predicate Consistent(h: Heap, table: seq<Pmb>, pools: seq<seq<Tile>>) {
    && |h| % BLOCK_SIZE == 0 && 0 < |h| < 0x1_0000_0000
    && |pools| == |table|
    && (forall id :: 0 <= id < |table| ==> PoolOk(h, table[id], pools[id]))
    && (forall i, j :: 0 <= i < j < |table| ==> Apart(table[i], table[j]))
    && (forall i: nat :: i % BLOCK_SIZE == 0 && i < |h| && Outside(table, i) ==>
      i + HEADER_SIZE <= |h| && Word(h, i) == 0)
  }

  ghost predicate SameOutside(h: Heap, h': Heap, lo: int, hi: int) {
    |h| == |h'| && forall k :: 0 <= k < |h| && !(lo <= k < hi) ==> h[k] == h'[k]
  }

  lemma PoolUnaffected(h: Heap, h': Heap, p: Pmb, ts: seq<Tile>, lo: int, hi: int)
    requires PoolOk(h, p, ts) && SameOutside(h, h', lo, hi)
    requires p.poolSize > 0 ==> hi <= p.startIndex || p.endIndex < lo
    ensures PoolOk(h', p, ts)
  {
    if p.poolSize > 0 {
      LaidOutSame(h, h', p.startIndex, ts);
    }
  }

  lemma OtherPoolUnaffected(h: Heap, h': Heap, table: seq<Pmb>, pools: seq<seq<Tile>>, id: nat, lo: nat, hi: nat,
                            k: nat)
    requires Consistent(h, table, pools) && id < |table| && table[id].poolSize > 0
    requires table[id].startIndex <= lo <= hi <= table[id].endIndex + 1 && SameOutside(h, h', lo, hi)
    requires k < |table| && k != id
    ensures PoolOk(h', table[k], pools[k])
  {
    assert Apart(table[if k < id then k else id], table[if k < id then id else k]);
    PoolUnaffected(h, h', table[k], pools[k], lo, hi);
  }

  /** Writing inside one pool, and bringing its table entry up to date, keeps everything else. */
  lemma PoolChanged(h: Heap, h': Heap, table: seq<Pmb>, pools: seq<seq<Tile>>, id: nat, p: Pmb, ts: seq<Tile>,
                    lo: nat, hi: nat)
    requires Consistent(h, table, pools) && id < |table| && table[id].poolSize > 0
    requires table[id].startIndex <= lo <= hi <= table[id].endIndex + 1 && SameOutside(h, h', lo, hi)
    requires p.startIndex == table[id].startIndex && p.endIndex == table[id].endIndex
    requires p.poolSize == table[id].poolSize && PoolOk(h', p, ts)
    ensures Consistent(h', table[id := p], pools[id := ts])
  {
    var table' := table[id := p];
    forall k | 0 <= k < |table| && k != id
      ensures PoolOk(h', table[k], pools[k])
    {
      OtherPoolUnaffected(h, h', table, pools, id, lo, hi, k);
    }
    forall i: nat | i % BLOCK_SIZE == 0 && i < |h'| && Outside(table', i)
      ensures i + HEADER_SIZE <= |h'| && Word(h', i) == 0
    {
      OutsideSame(table, id, p, i);
      HeaderUntouched(h, h', table[id], lo, hi, i, pools[id]);
    }
  }

  lemma OutsideSame(table: seq<Pmb>, id: nat, p: Pmb, i: int)
    requires id < |table| && p.startIndex == table[id].startIndex && p.endIndex == table[id].endIndex
    requires p.poolSize == table[id].poolSize && Outside(table[id := p], i)
    ensures Outside(table, i)
  {
    forall k | 0 <= k < |table|
      ensures !Owns(table[k], i)
    {
      assert !Owns(table[id := p][k], i);
    }
  }

  lemma HeaderUntouched(h: Heap, h': Heap, p: Pmb, lo: nat, hi: nat, i: nat, ts: seq<Tile>)
    requires SameOutside(h, h', lo, hi) && PoolOk(h, p, ts) && p.poolSize > 0
    requires p.startIndex <= lo <= hi <= p.endIndex + 1
    requires i % BLOCK_SIZE == 0 && i + HEADER_SIZE <= |h| && !Owns(p, i)
    ensures Word(h', i) == Word(h, i)
  {
    assert i + BLOCK_SIZE <= p.startIndex || p.endIndex < i;
  }

  // ----- the operations inside one pool -----

  /** Where tile j of a pool starts. */
  function TileStart(p: Pmb, ts: seq<Tile>, j: nat): nat
    requires j <= |ts|
  {
    p.startIndex + Size(ts[..j])
  }

  lemma LaidOutMiddle(h: Heap, base: nat, a: seq<Tile>, b: seq<Tile>, c: seq<Tile>)
    ensures LaidOut(h, base, a + b + c) <==>
            LaidOut(h, base, a) && LaidOut(h, base + Size(a), b) && LaidOut(h, base + Size(a) + Size(b), c)
    ensures Size(a + b + c) == Size(a) + Size(b) + Size(c)
  {
    LaidOutConcat(h, base, a, b);
    LaidOutConcat(h, base, a + b, c);
    Concat(a, b);
    Concat(a + b, c);
  }

  /** Exchanging tiles b by tiles b' of the same size, when only their bytes change. */
  lemma LaidOutReplaced(h: Heap, h': Heap, base: nat, a: seq<Tile>, b: seq<Tile>, c: seq<Tile>, b': seq<Tile>)
    requires LaidOut(h, base, a + b + c) && Size(b) == Size(b')
    requires SameOutside(h, h', base + Size(a), base + Size(a) + Size(b))
    requires LaidOut(h', base + Size(a), b')
    ensures LaidOut(h', base, a + b' + c)
  {
    LaidOutMiddle(h, base, a, b, c);
    LaidOutAround(h, h', base, a, Size(b), c);
    LaidOutMiddle(h', base, a, b', c);
  }

  lemma LaidOutAround(h: Heap, h': Heap, base: nat, a: seq<Tile>, n: nat, c: seq<Tile>)
    requires LaidOut(h, base, a) && LaidOut(h, base + Size(a) + n, c)
    requires SameOutside(h, h', base + Size(a), base + Size(a) + n)
    ensures LaidOut(h', base, a) && LaidOut(h', base + Size(a) + n, c)
  {
    LaidOutSame(h, h', base, a);
    LaidOutSame(h, h', base + Size(a) + n, c);
  }

  lemma WrapAdd(x: int, y: int, d: int)
    requires y == x % 0x1_0000_0000
    ensures (y + d) % 0x1_0000_0000 == (x + d) % 0x1_0000_0000
  {}

  function AllocatedEntry(p: Pmb, n: nat): Pmb
    requires p.n < 0xFFFF_FFFF
  {
    p.(memLeft := (p.memLeft - BLOCK_SIZE * n) % 0x1_0000_0000, n := p.n + 1)
  }

  lemma AllocLayout(h: Heap, h': Heap, base: nat, ts: seq<Tile>, j: nat, n: nat)
    requires LaidOut(h, base, ts) && base + Size(ts) <= |h| && Fits(ts, j, n) && n > 0
    requires var a := base + Size(ts[..j]);
             SameOutside(h, h', a, a + HEADER_SIZE) && a + HEADER_SIZE <= |h'| && Word(h', a) == BLOCK_SIZE * n
    ensures LaidOut(h', base, Allocate(ts, j, n))
  {
    FitIsFreeBlocks(ts, j, n);
    AllocateSums(ts, j, n);
    FreeBlocksSums(n);
    OneTile(h', base + Size(ts[..j]), BLOCK_SIZE * n);
    LaidOutReplaced(h, h', base, ts[..j], FreeBlocks(n), ts[j + n..], [Used(BLOCK_SIZE * n)]);
  }

  lemma AllocKeepsTiles(h: Heap, h': Heap, p: Pmb, ts: seq<Tile>, j: nat, n: nat)
    requires Tiled(h, p, ts) && Fits(ts, j, n) && n > 0
    requires var a := TileStart(p, ts, j);
             SameOutside(h, h', a, a + HEADER_SIZE) && a + HEADER_SIZE <= |h'| && Word(h', a) == BLOCK_SIZE * n
    ensures Tiled(h', p, Allocate(ts, j, n))
    ensures TileStart(p, ts, j) + BLOCK_SIZE * n <= p.endIndex + 1
  {
    AllocateSums(ts, j, n);
    AllocLayout(h, h', p.startIndex, ts, j, n);
  }

  lemma OneTile(h: Heap, base: nat, size: nat)
    requires size > 0 && size % BLOCK_SIZE == 0 && base + size <= |h| && Word(h, base) == size
    ensures LaidOut(h, base, [Used(size)]) && Size([Used(size)]) == size
  {
    assert [Used(size)][1..] == [];
  }

  lemma AllocKeepsCounts(p: Pmb, ts: seq<Tile>, j: nat, n: nat)
    requires Counted(p, ts) && p.n < 0xFFFF_FFFF && Fits(ts, j, n) && n > 0
    ensures Counted(AllocatedEntry(p, n), Allocate(ts, j, n))
  {
    AllocateSums(ts, j, n);
    WrapAdd(p.poolSize - UsedBytes(ts), p.memLeft, -(BLOCK_SIZE * n));
  }

  lemma CountBound(h: Heap, p: Pmb, ts: seq<Tile>)
    requires Tiled(h, p, ts) && Counted(p, ts) && |h| < 0x1_0000_0000
    ensures p.n < 0x1000_0000 && UsedBytes(ts) <= Size(ts) && UsedBytes(ts) % BLOCK_SIZE == 0
  {
    AllocatedBounds(h, p.startIndex, ts);
    LaidOutFits(h, p.startIndex, ts);
    SizeBounds(ts);
  }

  lemma AllocKeepsPool(h: Heap, h': Heap, p: Pmb, ts: seq<Tile>, j: nat, n: nat)
    requires PoolOk(h, p, ts) && p.poolSize > 0 && Fits(ts, j, n) && n > 0 && |h| < 0x1_0000_0000
    requires var a := TileStart(p, ts, j);
             SameOutside(h, h', a, a + HEADER_SIZE) && a + HEADER_SIZE <= |h'| && Word(h', a) == BLOCK_SIZE * n
    ensures p.n < 0xFFFF_FFFF && PoolOk(h', AllocatedEntry(p, n), Allocate(ts, j, n))
    ensures TileStart(p, ts, j) + BLOCK_SIZE * n <= p.endIndex + 1
  {
    CountBound(h, p, ts);
    AllocKeepsTiles(h, h', p, ts, j, n);
    AllocKeepsCounts(p, ts, j, n);
  }

  lemma AllocatedBounds(h: Heap, base: nat, ts: seq<Tile>)
    requires LaidOut(h, base, ts) && base <= |h|
    ensures UsedBytes(ts) <= Size(ts) <= |h| && UsedCount(ts) * BLOCK_SIZE <= |h|
  {
    LaidOutFits(h, base, ts);
    SizeBounds(ts);
  }

  function ReleasedEntry(p: Pmb, size: nat): Pmb
    requires p.n > 0
  {
    p.(memLeft := (p.memLeft + size) % 0x1_0000_0000, n := p.n - 1)
  }

  lemma ReleaseLayout(h: Heap, h': Heap, base: nat, ts: seq<Tile>, j: nat)
    requires LaidOut(h, base, ts) && base + Size(ts) <= |h| && j < |ts| && ts[j].Used?
    requires var a := base + Size(ts[..j]);
             && SameOutside(h, h', a, a + ts[j].size)
             && forall k :: a <= k < a + ts[j].size && k < |h'| ==> h'[k] == 0
    ensures ValidTile(ts[j]) && LaidOut(h', base, Release(ts, j))
  {
    var n := ts[j].size / BLOCK_SIZE;
    TileAt(h, base, ts, j);
    assert ts == ts[..j] + [ts[j]] + ts[j + 1..];
    FreeBlocksSums(n);
    OneTile(h, base + Size(ts[..j]), ts[j].size);
    ZeroHeadersAreFree(h', base + Size(ts[..j]), n);
    LaidOutReplaced(h, h', base, ts[..j], [ts[j]], ts[j + 1..], FreeBlocks(n));
  }

  lemma ReleaseKeepsTiles(h: Heap, h': Heap, p: Pmb, ts: seq<Tile>, j: nat)
    requires Tiled(h, p, ts) && j < |ts| && ts[j].Used?
    requires var a := TileStart(p, ts, j);
             && SameOutside(h, h', a, a + ts[j].size)
             && forall k :: a <= k < a + ts[j].size && k < |h'| ==> h'[k] == 0
    ensures ValidTile(ts[j]) && TileStart(p, ts, j) + ts[j].size <= p.endIndex + 1
    ensures Tiled(h', p, Release(ts, j))
  {
    TileAt(h, p.startIndex, ts, j);
    ReleaseLayout(h, h', p.startIndex, ts, j);
    ReleaseSums(ts, j);
  }

  lemma ReleaseKeepsPool(h: Heap, h': Heap, p: Pmb, ts: seq<Tile>, j: nat)
    requires PoolOk(h, p, ts) && p.poolSize > 0 && j < |ts| && ts[j].Used?
    requires var a := TileStart(p, ts, j);
             && SameOutside(h, h', a, a + ts[j].size)
             && forall k :: a <= k < a + ts[j].size && k < |h'| ==> h'[k] == 0
    ensures ValidTile(ts[j]) && TileStart(p, ts, j) + ts[j].size <= p.endIndex + 1
    ensures p.n > 0 && PoolOk(h', ReleasedEntry(p, ts[j].size), Release(ts, j))
  {
    ReleaseKeepsTiles(h, h', p, ts, j);
    ReleaseSums(ts, j);
    WrapAdd(p.poolSize - UsedBytes(ts), p.memLeft, ts[j].size);
  }

  lemma FormatKeepsPool(h: Heap, h': Heap, p: Pmb, ts: seq<Tile>)
    requires PoolOk(h, p, ts) && p.poolSize > 0 && |h| == |h'|
    requires forall k :: p.startIndex <= k < p.endIndex && k < |h'| ==> h'[k] == 0
    ensures PoolOk(h', p.(memLeft := p.poolSize, n := 0), FreeBlocks(Blocks(p.poolSize)))
  {
    var n := Blocks(p.poolSize);
    FreeBlocksSums(n);
    ZeroHeadersAreFree(h', p.startIndex, n);
  }

  /** Writing into the data of a live allocation. */
  lemma WriteKeepsPool(h: Heap, h': Heap, p: Pmb, ts: seq<Tile>, j: nat)
    requires PoolOk(h, p, ts) && p.poolSize > 0 && j < |ts| && ts[j].Used?
    requires var a := TileStart(p, ts, j);
             SameOutside(h, h', a + HEADER_SIZE, a + ts[j].size)
    ensures ValidTile(ts[j]) && TileStart(p, ts, j) + ts[j].size <= p.endIndex + 1
    ensures PoolOk(h', p, ts)
  {
    var a, c := ts[..j], ts[j + 1..];
    TileAt(h, p.startIndex, ts, j);
    assert ts == a + [ts[j]] + c;
    assert [ts[j]][1..] == [];
    LaidOutReplaced(h, h', p.startIndex, a, [ts[j]], c, [ts[j]]);
  }
}
