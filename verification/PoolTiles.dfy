/** How a memory pool (source/kernel/src/Memory.c) is divided: into free 16-byte blocks, whose first word is 0, and
    allocations, whose first word is their size. A pool is described by the sequence of its tiles. */
module PoolTiles {
  import opened Base

  const BLOCK_SIZE := 16
  const HEADER_SIZE := 4

  datatype Tile = FreeBlock | Used(size: nat)

  predicate ValidTile(t: Tile) { t.Used? ==> t.size > 0 && t.size % BLOCK_SIZE == 0 }

  predicate ValidTiles(ts: seq<Tile>) { forall k :: 0 <= k < |ts| ==> ValidTile(ts[k]) }

  function Length(t: Tile): (n: nat)
    ensures ValidTile(t) ==> n >= BLOCK_SIZE && n % BLOCK_SIZE == 0
  {
    if t.FreeBlock? then BLOCK_SIZE else t.size
  }

  /** The word at the start of a tile. */
  function Header(t: Tile): nat { if t.FreeBlock? then 0 else t.size }

  function Size(ts: seq<Tile>): nat
    decreases |ts|
  {
    if ts == [] then 0 else Length(ts[0]) + Size(ts[1..])
  }

  function UsedBytes(ts: seq<Tile>): nat
    decreases |ts|
  {
    if ts == [] then 0 else Header(ts[0]) + UsedBytes(ts[1..])
  }

  function UsedCount(ts: seq<Tile>): nat
    decreases |ts|
  {
    if ts == [] then 0 else (if ts[0].Used? then 1 else 0) + UsedCount(ts[1..])
  }

  function FreeBlocks(n: nat): (ts: seq<Tile>)
    ensures |ts| == n && ValidTiles(ts) && forall k :: 0 <= k < n ==> ts[k] == FreeBlock
  {
    seq(n, _ => FreeBlock)
  }

  lemma {:induction false} Concat(a: seq<Tile>, b: seq<Tile>)
    ensures Size(a + b) == Size(a) + Size(b)
    ensures UsedBytes(a + b) == UsedBytes(a) + UsedBytes(b)
    ensures UsedCount(a + b) == UsedCount(a) + UsedCount(b)
    decreases |a|
  {
    if a == [] {
      assert a + b == b;
    } else {
      assert (a + b)[1..] == a[1..] + b;
      Concat(a[1..], b);
    }
  }

  lemma {:induction false} FreeBlocksSums(n: nat)
    ensures Size(FreeBlocks(n)) == BLOCK_SIZE * n && UsedBytes(FreeBlocks(n)) == 0 && UsedCount(FreeBlocks(n)) == 0
    decreases n
  {
    if n > 0 {
      assert FreeBlocks(n)[1..] == FreeBlocks(n - 1);
      FreeBlocksSums(n - 1);
    }
  }

  lemma {:induction false} SizeBounds(ts: seq<Tile>)
    requires ValidTiles(ts)
    ensures Size(ts) % BLOCK_SIZE == 0 && UsedBytes(ts) % BLOCK_SIZE == 0
    ensures UsedBytes(ts) <= Size(ts) && BLOCK_SIZE * |ts| <= Size(ts)
    ensures UsedCount(ts) * BLOCK_SIZE <= UsedBytes(ts)
    decreases |ts|
  {
    if ts != [] {
      SizeBounds(ts[1..]);
    }
  }

  // ----- the heap words -----

  type Heap = seq<U8>

  /** *((U32_t *)&OsHeap[i]), little-endian. */
  function Word(h: Heap, i: nat): U32
    requires i + HEADER_SIZE <= |h|
  {
    var b0: int, b1: int, b2: int, b3: int := h[i], h[i + 1], h[i + 2], h[i + 3];
    b0 + 0x100 * b1 + 0x1_0000 * b2 + 0x100_0000 * b3
  }

  /** Dividing by 0x100 once more. */
  lemma NextByte(w: nat, n: nat)
    requires n == 0x100 || n == 0x1_0000
    ensures w / n / 0x100 == w / (n * 0x100)
    ensures n * (w / n % 0x100) + n * 0x100 * (w / (n * 0x100)) == n * (w / n)
  {}

  lemma BytesOfWord(w: U32)
    ensures w / 0x100_0000 < 0x100
    ensures w % 0x100 + 0x100 * (w / 0x100 % 0x100) + 0x1_0000 * (w / 0x1_0000 % 0x100) + 0x100_0000 * (w / 0x100_0000)
            == w
  {
    NextByte(w, 0x100);
    NextByte(w, 0x1_0000);
  }

  /** The tiles lie one after the other from 'base' on, each with its header. */
  ghost predicate LaidOut(h: Heap, base: nat, ts: seq<Tile>)
    decreases |ts|
  {
    ts == [] ||
    (&& ValidTile(ts[0])
     && base + Length(ts[0]) <= |h|
     && Word(h, base) == Header(ts[0])
     && LaidOut(h, base + Length(ts[0]), ts[1..]))
  }

  lemma {:induction false} LaidOutConcat(h: Heap, base: nat, a: seq<Tile>, b: seq<Tile>)
    ensures LaidOut(h, base, a + b) <==> LaidOut(h, base, a) && LaidOut(h, base + Size(a), b)
    decreases |a|
  {
    if a == [] {
      assert a + b == b;
    } else {
      assert (a + b)[1..] == a[1..] + b;
      LaidOutConcat(h, base + Length(a[0]), a[1..], b);
    }
  }

  /** A layout depends on the bytes of its range only. */
  lemma {:induction false} LaidOutSame(h: Heap, h': Heap, base: nat, ts: seq<Tile>)
    requires LaidOut(h, base, ts) && |h| == |h'|
    requires forall k :: base <= k < base + Size(ts) && k < |h| ==> h[k] == h'[k]
    ensures LaidOut(h', base, ts)
    decreases |ts|
  {
    if ts != [] {
      LaidOutSame(h, h', base + Length(ts[0]), ts[1..]);
    }
  }

  lemma {:induction false} LaidOutFits(h: Heap, base: nat, ts: seq<Tile>)
    requires LaidOut(h, base, ts) && base <= |h|
    ensures base + Size(ts) <= |h| && ValidTiles(ts)
    decreases |ts|
  {
    if ts != [] {
      LaidOutFits(h, base + Length(ts[0]), ts[1..]);
      assert forall k :: 1 <= k < |ts| ==> ts[k] == ts[1..][k - 1];
    }
  }

  /** Zero headers are free blocks. */
  lemma {:induction false} ZeroHeadersAreFree(h: Heap, base: nat, n: nat)
    requires base + BLOCK_SIZE * n <= |h|
    requires forall k :: 0 <= k < n ==> Word(h, base + BLOCK_SIZE * k) == 0
    ensures LaidOut(h, base, FreeBlocks(n))
    decreases n
  {
    if n > 0 {
      assert FreeBlocks(n)[1..] == FreeBlocks(n - 1);
      assert Word(h, base + BLOCK_SIZE * 0) == 0;
      forall k | 0 <= k < n - 1
        ensures Word(h, base + BLOCK_SIZE + BLOCK_SIZE * k) == 0
      {
        assert base + BLOCK_SIZE + BLOCK_SIZE * k == base + BLOCK_SIZE * (k + 1);
      }
      ZeroHeadersAreFree(h, base + BLOCK_SIZE, n - 1);
    }
  }

  /** What a header walk sees at tile j. */
  lemma TileAt(h: Heap, base: nat, ts: seq<Tile>, j: nat)
    requires LaidOut(h, base, ts) && j < |ts|
    ensures var a := base + Size(ts[..j]);
            && ValidTile(ts[j]) && a + Length(ts[j]) <= |h| && Word(h, a) == Header(ts[j])
            && Size(ts[..j + 1]) == Size(ts[..j]) + Length(ts[j])
            && Size(ts[..j]) + Length(ts[j]) + Size(ts[j + 1..]) == Size(ts)
  {
    assert ts == ts[..j] + ts[j..];
    LaidOutConcat(h, base, ts[..j], ts[j..]);
    Concat(ts[..j], ts[j..]);
    assert ts[j..][1..] == ts[j + 1..];
    assert ts[..j + 1] == ts[..j] + [ts[j]];
    Concat(ts[..j], [ts[j]]);
  }

  // ----- allocation and release on tiles -----

  /** Blocks needed for a number of bytes: MEM_BYTES_TO_BLOCKS. */
  function Blocks(bytes: nat): (n: nat)
    ensures BLOCK_SIZE * n >= bytes && (n > 0 ==> BLOCK_SIZE * (n - 1) < bytes)
  {
    if bytes % BLOCK_SIZE != 0 then bytes / BLOCK_SIZE + 1 else bytes / BLOCK_SIZE
  }

  /** n free blocks start at tile j. */
  predicate Fits(ts: seq<Tile>, j: nat, n: nat) {
    j + n <= |ts| && forall k :: j <= k < j + n ==> ts[k] == FreeBlock
  }

  /** Tile j is the first that n free blocks start at. */
  ghost predicate FirstFit(ts: seq<Tile>, j: nat, n: nat) {
    Fits(ts, j, n) && forall k :: 0 <= k < j ==> !Fits(ts, k, n)
  }

  ghost predicate NoFit(ts: seq<Tile>, n: nat) { forall k :: 0 <= k <= |ts| ==> !Fits(ts, k, n) }

  /** n blocks from tile j on become one allocation. */
  function Allocate(ts: seq<Tile>, j: nat, n: nat): seq<Tile>
    requires j + n <= |ts|
  {
    ts[..j] + [Used(BLOCK_SIZE * n)] + ts[j + n..]
  }

  /** The allocation at tile j becomes free blocks. */
  function Release(ts: seq<Tile>, j: nat): seq<Tile>
    requires j < |ts|
  {
    ts[..j] + FreeBlocks(Length(ts[j]) / BLOCK_SIZE) + ts[j + 1..]
  }

  // ----- the first-fit scan -----

  /** j tiles have been walked; the last 'found' of them are free, and no fit starts before those. */
  ghost predicate Scanning(ts: seq<Tile>, j: nat, found: nat, n: nat) {
    && found <= j <= |ts| && found <= n
    && (forall k :: j - found <= k < j ==> ts[k] == FreeBlock)
    && (forall k :: 0 <= k < j - found ==> !Fits(ts, k, n))
  }

  lemma ScanFree(ts: seq<Tile>, j: nat, found: nat, n: nat)
    requires Scanning(ts, j, found, n) && j < |ts| && found < n && ts[j] == FreeBlock
    ensures Scanning(ts, j + 1, found + 1, n)
  {}

  /** An allocation rules out every start up to itself. */
  lemma ScanUsed(ts: seq<Tile>, j: nat, found: nat, n: nat)
    requires Scanning(ts, j, found, n) && j < |ts| && found < n && ts[j].Used?
    ensures Scanning(ts, j + 1, 0, n)
  {
    forall k | 0 <= k < j + 1
      ensures !Fits(ts, k, n)
    {
      if k >= j - found {
        assert k <= j < k + n;
      }
    }
  }

  lemma ScanEnds(ts: seq<Tile>, j: nat, found: nat, n: nat)
    requires Scanning(ts, j, found, n) && (found == n || j == |ts|)
    ensures if found == n then FirstFit(ts, j - found, n) else NoFit(ts, n)
  {}

  lemma FitIsFreeBlocks(ts: seq<Tile>, j: nat, n: nat)
    requires Fits(ts, j, n)
    ensures ts == ts[..j] + FreeBlocks(n) + ts[j + n..]
  {}

  lemma MiddleSums(a: seq<Tile>, b: seq<Tile>, c: seq<Tile>)
    ensures Size(a + b + c) == Size(a) + Size(b) + Size(c)
    ensures UsedBytes(a + b + c) == UsedBytes(a) + UsedBytes(b) + UsedBytes(c)
    ensures UsedCount(a + b + c) == UsedCount(a) + UsedCount(b) + UsedCount(c)
  {
    Concat(a, b);
    Concat(a + b, c);
  }

  lemma OneUsed(size: nat)
    ensures Size([Used(size)]) == UsedBytes([Used(size)]) == size && UsedCount([Used(size)]) == 1
  {
    assert [Used(size)][1..] == [];
  }

  lemma AllocateSums(ts: seq<Tile>, j: nat, n: nat)
    requires Fits(ts, j, n) && n > 0
    ensures Size(Allocate(ts, j, n)) == Size(ts)
    ensures UsedBytes(Allocate(ts, j, n)) == UsedBytes(ts) + BLOCK_SIZE * n
    ensures UsedCount(Allocate(ts, j, n)) == UsedCount(ts) + 1
    ensures Size(ts[..j]) + BLOCK_SIZE * n + Size(ts[j + n..]) == Size(ts)
  {
    FitIsFreeBlocks(ts, j, n);
    FreeBlocksSums(n);
    OneUsed(BLOCK_SIZE * n);
    MiddleSums(ts[..j], FreeBlocks(n), ts[j + n..]);
    MiddleSums(ts[..j], [Used(BLOCK_SIZE * n)], ts[j + n..]);
  }

  lemma ReleaseSums(ts: seq<Tile>, j: nat)
    requires j < |ts| && ts[j].Used? && ValidTile(ts[j])
    ensures Size(Release(ts, j)) == Size(ts)
    ensures UsedBytes(Release(ts, j)) == UsedBytes(ts) - ts[j].size
    ensures UsedCount(Release(ts, j)) == UsedCount(ts) - 1
  {
    var n := ts[j].size / BLOCK_SIZE;
    assert ts == ts[..j] + [ts[j]] + ts[j + 1..];
    FreeBlocksSums(n);
    OneUsed(ts[j].size);
    MiddleSums(ts[..j], FreeBlocks(n), ts[j + 1..]);
    MiddleSums(ts[..j], [ts[j]], ts[j + 1..]);
  }

  /** Allocating and releasing again restores the pool. */
  lemma AllocateThenRelease(ts: seq<Tile>, j: nat, n: nat)
    requires Fits(ts, j, n)
    ensures Release(Allocate(ts, j, n), j) == ts
  {
    var u := Allocate(ts, j, n);
    assert u[..j] == ts[..j] && u[j + 1..] == ts[j + n..];
    FitIsFreeBlocks(ts, j, n);
  }
}
