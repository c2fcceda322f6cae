/** The pool allocator (source/kernel/src/Memory.c). OsHeap and PoolTable are arrays written in place; the ghost field
    'pools' holds the tiles of every pool. Pointers into the heap are indices of it, and "kernelMode" is the kernel-mode
    flag at the time of the call. */
module Memory {
  import opened Base
  import opened PoolTiles
  import opened PoolTable
  import opened PoolGaps
  import opened PoolLive
  import opened PoolSpace
  import opened PoolLimits
  import PoolRuns

  /** The void* a caller hands to MemFree by reference; None is NULL. */
  class Pointer {
    var target: Option<U32>

    constructor (target: Option<U32>)
      ensures this.target == target
    {
      this.target := target;
    }
  }

  class Memory {
    const heap: array<U8>
    const table: array<Pmb>
    var objectPoolId: U32
    ghost var pools: seq<seq<Tile>>

    ghost predicate Valid()
      reads this, heap, table
    {
      table.Length < ID_INVALID && Consistent(heap[..], table[..], pools)
    }

    constructor (heap: array<U8>, table: array<Pmb>)
      ensures this.heap == heap && this.table == table
    {
      this.heap, this.table := heap, table;
      objectPoolId, pools := ID_INVALID, [];
    }

    ghost function State(): PoolRuns.Mem
      reads this`pools, heap, table
    {
      PoolRuns.Mem(heap[..], table[..], pools)
    }

    function ReadWord(i: nat): (w: U32)
      requires i + HEADER_SIZE <= heap.Length
      reads heap
      ensures w == Word(heap[..], i)
    {
      var b0: int, b1: int, b2: int, b3: int := heap[i], heap[i + 1], heap[i + 2], heap[i + 3];
      b0 + 0x100 * b1 + 0x1_0000 * b2 + 0x100_0000 * b3
    }

    method WriteWord(i: nat, w: U32)
      requires i + HEADER_SIZE <= heap.Length
      modifies heap
      ensures SameOutside(old(heap[..]), heap[..], i, i + HEADER_SIZE) && Word(heap[..], i) == w
    {
      var b0, b1, b2, b3 := w % 0x100, w / 0x100 % 0x100, w / 0x1_0000 % 0x100, w / 0x100_0000;
      BytesOfWord(w);
      heap[i], heap[i + 1], heap[i + 2], heap[i + 3] := b0, b1, b2, b3;
    }

    method ZeroBytes(lo: nat, hi: nat)
      requires hi <= heap.Length
      modifies heap
      ensures SameOutside(old(heap[..]), heap[..], lo, hi)
      ensures forall k :: lo <= k < hi ==> heap[k] == 0
    {
      var i := lo;
      while i < hi
        invariant lo <= i && (i <= hi || i == lo)
        invariant SameOutside(old(heap[..]), heap[..], lo, hi)
        invariant forall k :: lo <= k < i && k < hi ==> heap[k] == 0
      {
        heap[i] := 0;
        i := i + 1;
      }
    }

    // ----- pools -----

    /** IPoolIdFromIndex. */
    method PoolIdFromIndex(index: U32) returns (r: U32)
      requires table.Length < ID_INVALID
      ensures if r == ID_INVALID then Outside(table[..], index) else r < table.Length && Owns(table[r], index)
    {
      var i := 0;
      while i < table.Length
        invariant 0 <= i <= table.Length
        invariant forall k :: 0 <= k < i ==> !Owns(table[k], index)
      {
        if Owns(table[i], index) {
          return i;
        }
        i := i + 1;
      }
      return ID_INVALID;
    }

    /** IPoolIdFromPointer; NULL is in no pool. */
    method PoolIdFromPointer(a: Option<U32>) returns (r: U32)
      requires table.Length < ID_INVALID
      ensures if r == ID_INVALID then InNoPool(table[..], a) else InPool(table[..], r, a)
    {
      if a.None? {
        return ID_INVALID;
      }
      var i := 0;
      while i < table.Length
        invariant 0 <= i <= table.Length
        invariant forall k :: 0 <= k < i ==> !Contains(table[k], a.value)
      {
        if Contains(table[i], a.value) {
          return i;
        }
        i := i + 1;
      }
      return ID_INVALID;
    }

    /** The first unused table entry. */
    method UnusedEntry() returns (r: nat)
      ensures if r < table.Length then FirstUnused(table[..], r)
              else forall id :: 0 <= id < table.Length ==> table[id].poolSize > 0
    {
      r := 0;
      while r < table.Length && table[r].poolSize > 0
        invariant r <= table.Length && forall k :: 0 <= k < r ==> table[k].poolSize > 0
      {
        r := r + 1;
      }
    }

    /** What creating a pool relies on, in heaps of any size. */
    ghost predicate Ready()
      reads this`pools, table
    {
      table.Length < ID_INVALID && 0 < heap.Length <= MAX_HEAP && |pools| == table.Length && Aligned(table[..])
    }

    lemma ValidIsReady()
      requires Valid()
      ensures Ready()
    {
      forall id | 0 <= id < table.Length && table[id].poolSize > 0
        ensures table[..][id].startIndex % BLOCK_SIZE == 0 && (table[..][id].endIndex + 1) % BLOCK_SIZE == 0
        ensures table[..][id].endIndex < MAX_HEAP
      {
        PoolAligned(heap[..], table[..], pools, id);
      }
    }

    /** The search loop of MemPoolCreate: the lowest k blocks that it accepts. */
    method FindGap(k: nat) returns (r: Option<U32>)
      requires Ready() && k > 0
      ensures if r.Some? then LowestScanned(heap.Length, table[..], r.value, k)
              else NoneScanned(heap.Length, table[..], k)
    {
      var index: U32, offset: U32, found := 0, 0, 0;
      while found < k && index + offset < heap.Length - 1
        invariant offset == BLOCK_SIZE * found
        invariant Probing(heap.Length, table[..], index, found, k)
        decreases heap.Length - (index + offset)
      {
        var id := PoolIdFromIndex(index + offset);
        if id == ID_INVALID {
          ProbeFree(heap.Length, table[..], index, found, k);
          offset, found := offset + BLOCK_SIZE, found + 1;
        } else {
          ProbeOwned(heap.Length, table[..], index, found, k, id);
          index, offset, found := table[..][id].endIndex + 1, 0, 0;
        }
      }
      ProbeEnds(heap.Length, table[..], index, found, k);
      r := if found >= k then Some(index) else None;
    }

    method MemPoolCreate(poolSize: U32) returns (r: U32)
      requires Ready()
      modifies this`pools, table
      ensures Ready() && (old(Valid()) ==> Valid())
      ensures r != ID_INVALID <==>
              && 0 < poolSize <= heap.Length
              && (exists id :: FirstUnused(old(table[..]), id))
              && !NoneScanned(heap.Length, old(table[..]), Blocks(poolSize))
      ensures r == ID_INVALID ==> table[..] == old(table[..]) && pools == old(pools)
      ensures r != ID_INVALID ==>
                && FirstUnused(old(table[..]), r)
                && LowestScanned(heap.Length, old(table[..]), table[r].startIndex, Blocks(poolSize))
                && table[..] == old(table[..])[r := NewEntry(table[r].startIndex, poolSize)]
                && pools == old(pools)[r := FreeBlocks(Blocks(poolSize))]
      ensures old(Valid()) && poolSize > 0 ==>
                (NoneScanned(heap.Length, old(table[..]), Blocks(poolSize)) <==>
                 NoGap(heap.Length, old(table[..]), Blocks(poolSize)))
      ensures old(Valid()) && r != ID_INVALID ==>
                PoolRuns.Step(old(State()), PoolRuns.Create(r, poolSize, table[r].startIndex), State())
    {
      if poolSize > 0 && heap.Length % BLOCK_SIZE == 0 {
        LowestIsGap(heap.Length, table[..], Blocks(poolSize));
      }
      if poolSize == 0 || poolSize > heap.Length {
        return ID_INVALID;
      }
      var id := UnusedEntry();
      if id >= table.Length {
        return ID_INVALID;
      }
      var gap := FindGap(Blocks(poolSize));
      if gap.None? {
        return ID_INVALID;
      }
      TakeGap(id, gap.value, poolSize);
      r := id;
    }

    /** The part of MemPoolCreate that writes the entry. */
    method TakeGap(id: U32, gap: U32, poolSize: U32)
      requires Ready() && FirstUnused(table[..], id) && poolSize > 0
      requires LowestScanned(heap.Length, table[..], gap, Blocks(poolSize))
      modifies this`pools, table
      ensures Ready() && (old(Valid()) ==> Valid())
      ensures gap + BLOCK_SIZE * Blocks(poolSize) <= MAX_HEAP
      ensures table[..] == old(table[..])[id := NewEntry(gap, poolSize)]
      ensures pools == old(pools)[id := FreeBlocks(Blocks(poolSize))]
    {
      ghost var t := table[..];
      ghost var valid := Valid();
      if valid {
        ScannedIsGap(heap.Length, t, gap, Blocks(poolSize));
        CreateKeeps(heap[..], t, pools, id, gap, poolSize);
      }
      table[id] := NewEntry(gap, poolSize);
      pools := pools[id := FreeBlocks(Blocks(poolSize))];
      assert table[..] == t[id := NewEntry(gap, poolSize)];
    }

    /** MemPoolFormat. */
    method MemPoolFormat(id: U32, kernelMode: bool) returns (r: OsResult)
      requires Valid()
      modifies this`pools, heap, table
      ensures Valid()
      ensures r == (if id >= table.Length then InvalidId
                    else if id == objectPoolId && !kernelMode then Restricted else Ok)
      ensures r != Ok ==> heap[..] == old(heap[..]) && table[..] == old(table[..]) && pools == old(pools)
      ensures r == Ok ==> var p := old(table[id]);
                && SameOutside(old(heap[..]), heap[..], p.startIndex, p.endIndex)
                && (forall k :: p.startIndex <= k < p.endIndex && k < heap.Length ==> heap[k] == 0)
                && table[..] == old(table[..])[id := p.(memLeft := p.poolSize, n := 0)]
                && pools == old(pools)[id := FreeBlocks(Blocks(p.poolSize))]
      ensures r == Ok ==> PoolRuns.Step(old(State()), PoolRuns.Format(id), State())
    {
      if id >= table.Length {
        return InvalidId;
      }
      if id == objectPoolId && !kernelMode {
        return Restricted;
      }
      ghost var h, t, ps, p := heap[..], table[..], pools, table[id];
      assert PoolOk(h, p, ps[id]);
      ZeroBytes(table[id].startIndex, table[id].endIndex);
      table[id] := table[id].(memLeft := table[id].poolSize, n := 0);
      pools := pools[id := FreeBlocks(Blocks(table[id].poolSize))];
      if p.poolSize > 0 {
        FormatKeepsPool(h, heap[..], p, ps[id]);
        PoolChanged(h, heap[..], t, ps, id, table[id], pools[id], p.startIndex, p.endIndex);
      } else {
        UnusedStaysUnused(h, t, ps, id, table[id]);
        assert heap[..] == h && pools == ps;
      }
      r := Ok;
    }

    method MemPoolDelete(id: U32) returns (r: OsResult)
      requires Valid()
      modifies this`pools, heap, table
      ensures Valid()
      ensures r == (if id >= table.Length then InvalidId else if id == objectPoolId then Restricted else Ok)
      ensures r != Ok ==> heap[..] == old(heap[..]) && table[..] == old(table[..]) && pools == old(pools)
      ensures r == Ok ==> var p := old(table[id]);
                && SameOutside(old(heap[..]), heap[..], p.startIndex, p.endIndex)
                && (forall k :: p.startIndex <= k < p.endIndex && k < heap.Length ==> heap[k] == 0)
                && table[..] == old(table[..])[id := UNUSED]
                && pools == old(pools)[id := []]
      ensures r == Ok ==> PoolRuns.Step(old(State()), PoolRuns.Delete(id), State())
    {
      if id >= table.Length {
        return InvalidId;
      }
      if id == objectPoolId {
        return Restricted;
      }
      ghost var h, t, ps := heap[..], table[..], pools;
      var _ := MemPoolFormat(id, false);
      table[id] := table[id].(poolSize := 0, endIndex := 0, startIndex := 0, memLeft := 0);
      pools := pools[id := []];
      assert table[..] == t[id := UNUSED] && pools == ps[id := []];
      if t[id].poolSize > 0 {
        DeleteKeeps(h, heap[..], t, ps, id);
      } else {
        assert PoolOk(h, t[id], ps[id]);
        UnusedStaysUnused(h, t, ps, id, UNUSED);
        assert heap[..] == h;
      }
      r := Ok;
    }

    // ----- allocations -----

    /** The search loop of MemAlloc, which walks the headers. */
    method Scan(id: nat, n: nat) returns (index: U32, offset: U32, found: nat, ghost j: nat)
      requires Valid() && id < table.Length && table[id].poolSize > 0
      ensures Walking(table[id], pools[id], j, index, offset, found, n)
      ensures found >= n || index + offset >= table[id].endIndex
    {
      index, offset, found, j := table[id].startIndex, 0, 0, 0;
      while found < n && index + offset < table[id].endIndex
        invariant Walking(table[id], pools[id], j, index, offset, found, n)
        decreases |pools[id]| - j
      {
        WalkOn(heap[..], table[..], pools, id, j, index, offset, found, n);
        var w := ReadWord(index + offset);
        if w == 0 {
          found, offset := found + 1, offset + BLOCK_SIZE;
        } else {
          found, index, offset := 0, index + (offset + w), 0;
        }
        j := j + 1;
      }
    }

    /** What it finds: the first fit of n blocks. */
    method FindFit(id: nat, n: nat) returns (r: Option<U32>, ghost j: nat)
      requires Valid() && id < table.Length && table[id].poolSize > 0
      ensures if r.Some? then FirstFit(pools[id], j, n) && r.value == TileStart(table[id], pools[id], j)
              else NoFit(pools[id], n)
    {
      var index, offset, found;
      ghost var k;
      index, offset, found, k := Scan(id, n);
      WalkDone(heap[..], table[..], pools, id, k, index, offset, found, n);
      if found < n {
        return None, k;
      }
      return Some(index), k - found;
    }

    /** MemAlloc gets to its scan. */
    predicate Admits(id: U32, size: U32, kernelMode: bool)
      reads this`objectPoolId, table
    {
      size > 0 && id < table.Length && table[id].memLeft >= size && !(id == objectPoolId && !kernelMode)
    }

    /** The size plus its header, in U32_t, rounded up to blocks: 0 only when that sum wraps. Then, and only then, a
        granted request leaves a heap that no tiling describes. */
    method MemAlloc(id: U32, size: U32, kernelMode: bool) returns (r: Option<U32>)
      requires Valid()
      modifies this`pools, heap, table
      ensures Valid() <==> r.None? || Blocks(Add32(size, HEADER_SIZE)) > 0
      ensures r.None? ==> State() == old(State())
      ensures r.Some? <==> old(Admits(id, size, kernelMode)) && !NoFit(old(pools)[id], Blocks(Add32(size, HEADER_SIZE)))
      ensures r.Some? ==> exists j: nat ::
                Allocates(old(heap[..]), old(table[..]), old(pools), id, Blocks(Add32(size, HEADER_SIZE)), j, r.value,
                          heap[..], table[..], pools)
      ensures r.Some? ==> (Broken(heap[..], table[..]) <==> Blocks(Add32(size, HEADER_SIZE)) == 0)
      ensures r.Some? && Blocks(Add32(size, HEADER_SIZE)) > 0 ==>
                BLOCK_SIZE * Blocks(Add32(size, HEADER_SIZE)) >= size + HEADER_SIZE
      ensures r.Some? && Blocks(Add32(size, HEADER_SIZE)) > 0 ==> exists j: nat ::
                PoolRuns.Step(old(State()), PoolRuns.Alloc(id, Blocks(Add32(size, HEADER_SIZE)), j, r.value), State())
    {
      if !Admits(id, size, kernelMode) {
        return None;
      }
      ghost var m := State();
      assert PoolOk(m.heap, m.table[id], m.pools[id]);
      var n := Blocks(Add32(size, HEADER_SIZE));
      var index, j := FindFit(id, n);
      if index.None? {
        return None;
      }
      var a := AllocAt(id, n, index.value, j);
      GrantedKeepsIff(m.heap, m.table, m.pools, id, size, j, a, heap[..], table[..], pools);
      GrantedHolds(m.heap, m.table, m.pools, id, size, j);
      assert n > 0 ==> PoolRuns.Step(m, PoolRuns.Alloc(id, n, j, a), State());
      r := Some(a);
    }

    /** The part of MemAlloc that takes the blocks. */
    method AllocAt(id: U32, n: nat, index: U32, ghost j: nat) returns (a: U32)
      requires Valid() && id < table.Length && table[id].poolSize > 0
      requires FirstFit(pools[id], j, n) && index == TileStart(table[id], pools[id], j)
      modifies this`pools, heap, table
      ensures n > 0 ==> Valid()
      ensures Allocates(old(heap[..]), old(table[..]), old(pools), id, n, j, a, heap[..], table[..], pools)
    {
      ghost var h, t, ps := heap[..], table[..], pools;
      assert PoolOk(h, t[id], ps[id]);
      CountBound(h, t[id], ps[id]);
      FitIsInside(h, t, ps, id, j, n);
      WriteWord(index, BLOCK_SIZE * n);
      table[id] := AllocatedEntry(table[id], n);
      pools := pools[id := Allocate(pools[id], j, n)];
      a := index + HEADER_SIZE;
      assert table[..] == t[id := AllocatedEntry(t[id], n)];
      assert Allocates(h, t, ps, id, n, j, a, heap[..], table[..], pools);
      if n > 0 {
        AllocatesKeeps(h, t, ps, id, n, j, a, heap[..], table[..], pools);
      }
    }

    /** The pointer is one that the program may free: if it is in a pool, it is the address of a live allocation. */
    ghost predicate Freeable(a: Option<U32>)
      requires |pools| == table.Length
      reads this`pools, table
    {
      a.Some? ==>
      forall id :: 0 <= id < table.Length && Contains(table[id], a.value) ==>
             exists j: nat :: Live(table[..], pools, id, j, a.value)
    }

    method MemFree(ref: Pointer?, kernelMode: bool) returns (r: OsResult)
      requires Valid() && (ref != null ==> Freeable(ref.target))
      modifies this`pools, heap, table, ref
      ensures Valid()
      ensures r == InvalidArgument <==> ref == null
      ensures r == Error <==> ref != null && InNoPool(old(table[..]), old(ref.target))
      ensures r == Restricted <==> ref != null && !kernelMode && InPool(old(table[..]), objectPoolId, old(ref.target))
      ensures r in {InvalidArgument, Error, Restricted, Ok}
      ensures r == Ok ==> ref.target == None && exists id: nat, j: nat ::
                PoolRuns.Step(old(State()), PoolRuns.Free(id, j, old(ref.target).value), State())
      ensures r != Ok ==> State() == old(State())
      ensures r != Ok && ref != null ==> ref.target == old(ref.target)
    {
      if ref == null {
        return InvalidArgument;
      }
      var id := PoolIdFromPointer(ref.target);
      if id == ID_INVALID {
        return Error;
      }
      var a := ref.target.value;
      OnlyPool(heap[..], table[..], pools, id, objectPoolId, a);
      if id == objectPoolId && !kernelMode {
        return Restricted;
      }
      FreeAt(id, a);
      ref.target := None;
      r := Ok;
    }

    /** The part of MemFree that releases. */
    method FreeAt(id: U32, a: U32)
      requires Valid() && exists j: nat :: Live(table[..], pools, id, j, a)
      modifies this`pools, heap, table
      ensures Valid()
      ensures exists j: nat :: PoolRuns.Step(old(State()), PoolRuns.Free(id, j, a), State())
    {
      ghost var h, t, ps := heap[..], table[..], pools;
      ghost var j: nat :| Live(t, ps, id, j, a);
      LiveIsContained(h, t, ps, id, j, a);
      LiveIsCounted(h, t, ps, id, j);
      var start := a - HEADER_SIZE;
      var size := ReadWord(start);
      ZeroBytes(start, start + size);
      table[id] := ReleasedEntry(table[id], size);
      pools := pools[id := Release(pools[id], j)];
      assert table[..] == t[id := ReleasedEntry(t[id], size)];
      assert Frees(h, t, ps, id, j, a, heap[..], table[..], pools);
      assert PoolRuns.Step(PoolRuns.Mem(h, t, ps), PoolRuns.Free(id, j, a), State());
      FreesKeeps(h, t, ps, id, j, a, heap[..], table[..], pools);
    }

    /** A program writes into memory it was given. */
    method Write(a: U32, b: U8, ghost id: nat, ghost j: nat, ghost start: nat)
      requires Valid() && Live(table[..], pools, id, j, start) && start <= a < start + pools[id][j].size - HEADER_SIZE
      requires a < heap.Length
      modifies heap
      ensures Valid() && heap[..] == old(heap[..])[a := b]
      ensures PoolRuns.Step(old(State()), PoolRuns.Write(id, j, start), State())
    {
      ghost var h := heap[..];
      heap[a] := b;
      WriteKeeps(h, heap[..], table[..], pools, id, j, start);
    }

    // ----- space -----

    method MemPoolFreeSpaceGet(id: U32) returns (r: U32)
      requires Valid()
      ensures if id >= table.Length then r == 0 else r == table[id].memLeft
      ensures id < table.Length && table[id].poolSize % BLOCK_SIZE == 0 ==>
              r == table[id].poolSize - UsedBytes(pools[id])
    {
      if id >= table.Length {
        return 0;
      }
      if table[id].poolSize % BLOCK_SIZE == 0 {
        Conserved(heap[..], table[..][id], pools[id]);
      }
      r := table[id].memLeft;
    }

    method MemPoolUsedSpaceGet(id: U32) returns (r: U32)
      requires Valid()
      ensures r == if id >= table.Length then 0 else UsedBytes(pools[id])
    {
      if id >= table.Length {
        return 0;
      }
      PoolUsed(heap[..], table[..][id], pools[id]);
      r := Sub32(table[id].poolSize, table[id].memLeft);
    }

    /** The loop counter is a U8_t, which reaches at most 255. */
    method MemOsHeapFreeSpaceGet() returns (r: U32)
      requires Valid() && table.Length <= 0xFF
      ensures r == heap.Length - AllUsed(pools, table.Length)
    {
      var total: U32, i: U8 := 0, 0;
      while i < table.Length
        invariant i <= table.Length && total == AllUsed(pools, i) <= heap.Length
      {
        NextUsed(heap[..], table[..], pools, i, total);
        if table[i].poolSize != 0 {
          total := Add32(total, Sub32(table[i].poolSize, table[i].memLeft));
        }
        i := i + 1;
      }
      r := Sub32(heap.Length, total);
    }

    // ----- start -----

    /** KMemInit: everything is cleared and the object pool takes what the user heap leaves. That fails for the whole of
        a heap whose last byte alone would be in the last block. */
    method KMemInit(userHeapSize: U32) returns (r: OsResult)
      requires heap.Length <= MAX_HEAP && table.Length < ID_INVALID
      modifies this, heap, table
      ensures r == if heap.Length == 0 then InvalidArgument
                   else if userHeapSize < heap.Length && table.Length > 0
                           && !(userHeapSize == 0 && heap.Length % BLOCK_SIZE == 1) then Ok else CritError
      ensures r != InvalidArgument ==> Ready() && forall k :: 0 <= k < heap.Length ==> heap[k] == 0
      ensures r != InvalidArgument && heap.Length % BLOCK_SIZE == 0 ==> Valid()
      ensures r == Ok ==> && objectPoolId == 0 && Blocks(heap.Length - userHeapSize) <= MAX_HEAP / BLOCK_SIZE
                          && table[0] == NewEntry(0, heap.Length - userHeapSize)
                          && pools[0] == FreeBlocks(Blocks(heap.Length - userHeapSize))
      ensures r != InvalidArgument ==>
                forall id :: (if r == Ok then 1 else 0) <= id < table.Length ==> table[id].poolSize == 0
    {
      if heap.Length == 0 {
        return InvalidArgument;
      }
      ClearAll();
      objectPoolId := CreateFirst(Sub32(heap.Length, userHeapSize));
      r := if objectPoolId == ID_INVALID then CritError else Ok;
    }

    /** The two loops of KMemInit. */
    method ClearAll()
      requires 0 < heap.Length <= MAX_HEAP && table.Length < ID_INVALID
      modifies this`pools, heap, table
      ensures Ready() && (heap.Length % BLOCK_SIZE == 0 ==> Valid())
      ensures forall k :: 0 <= k < heap.Length ==> heap[k] == 0
      ensures forall id :: 0 <= id < table.Length ==> table[..][id].poolSize == 0
    {
      ClearTable();
      ZeroBytes(0, heap.Length);
      pools := seq(table.Length, _ => []);
      if heap.Length % BLOCK_SIZE == 0 {
        EmptyIsConsistent(heap[..], table[..]);
      }
    }

    /** Creating a pool when there is none. */
    method CreateFirst(size: U32) returns (r: U32)
      requires Ready() && forall id :: 0 <= id < table.Length ==> table[..][id].poolSize == 0
      modifies this`pools, table
      ensures Ready() && (old(Valid()) ==> Valid())
      ensures r == if 0 < size <= heap.Length && table.Length > 0 && !(size == heap.Length && size % BLOCK_SIZE == 1)
                   then 0 else ID_INVALID
      ensures r == 0 ==> && Blocks(size) <= MAX_HEAP / BLOCK_SIZE && table[..] == old(table[..])[0 := NewEntry(0, size)]
                         && pools == old(pools)[0 := FreeBlocks(Blocks(size))]
      ensures r != 0 ==> table[..] == old(table[..])
    {
      ghost var t := table[..];
      if 0 < size <= heap.Length {
        FirstScan(heap.Length, t, size);
      }
      assert table.Length > 0 ==> FirstUnused(t, 0);
      r := MemPoolCreate(size);
      if r != ID_INVALID {
        FirstUnusedOnce(t, 0, r);
        assert table[..][0].startIndex == 0;
      }
    }

    method ClearTable()
      modifies table
      ensures forall id :: 0 <= id < table.Length ==> table[id] == UNUSED.(n := old(table[id]).n)
    {
      var i := 0;
      while i < table.Length
        invariant 0 <= i <= table.Length
        invariant forall id :: 0 <= id < i ==> table[id] == UNUSED.(n := old(table[id]).n)
        invariant forall id :: i <= id < table.Length ==> table[id] == old(table[id])
      {
        table[i] := table[i].(startIndex := 0, endIndex := 0, poolSize := 0, memLeft := 0);
        i := i + 1;
      }
    }
  }
}
