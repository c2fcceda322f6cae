/** Runs of the allocator: any sequence of the effects that the operations of source/kernel/src/Memory.c have. */
module PoolRuns {
  import opened Base
  import opened PoolTiles
  import opened PoolTable
  import opened PoolGaps
  import opened PoolLive
  import opened PoolSpace

  /** OsHeap, PoolTable and the tiles of the pools. */
  datatype Mem = Mem(heap: Heap, table: seq<Pmb>, pools: seq<seq<Tile>>)

  ghost predicate Ok(m: Mem) { Consistent(m.heap, m.table, m.pools) }

  datatype Effect =
    | Create(id: nat, size: U32, at: nat)
    | Delete(id: nat)
    | Format(id: nat)
    | Alloc(id: nat, n: nat, j: nat, data: int)
    | Free(id: nat, j: nat, data: int)
    | Write(id: nat, j: nat, data: int)

  ghost predicate Zeroed(h: Heap, h': Heap, p: Pmb) {
    && SameOutside(h, h', p.startIndex, p.endIndex)
    && forall k :: p.startIndex <= k < p.endIndex && k < |h'| ==> h'[k] == 0
  }

  /** The effect of an operation: the methods of module Memory ensure that they are such steps. An allocation is of at
      least one block; formatting or deleting an unused entry changes no more than its allocation count. */
  ghost predicate Step(m: Mem, e: Effect, m': Mem) {
    match e
    case Create(id, size, at) =>
      && FirstUnused(m.table, id) && id < |m.pools| && size > 0 && LowestGap(|m.heap|, m.table, at, Blocks(size))
      && at + BLOCK_SIZE * Blocks(size) <= 0xFFFF_FFFF
      && m' == Mem(m.heap, m.table[id := NewEntry(at, size)], m.pools[id := FreeBlocks(Blocks(size))])
    case Delete(id) =>
      && id < |m.table| && id < |m.pools| && Zeroed(m.heap, m'.heap, m.table[id])
      && m'.table == m.table[id := UNUSED] && m'.pools == m.pools[id := []]
    case Format(id) =>
      && id < |m.table| && id < |m.pools| && Zeroed(m.heap, m'.heap, m.table[id])
      && m'.table == m.table[id := m.table[id].(memLeft := m.table[id].poolSize, n := 0)]
      && m'.pools == m.pools[id := FreeBlocks(Blocks(m.table[id].poolSize))]
    case Alloc(id, n, j, data) =>
      && n > 0 && Allocates(m.heap, m.table, m.pools, id, n, j, data, m'.heap, m'.table, m'.pools)
      && m.table[id].poolSize > 0
    case Free(id, j, data) => Frees(m.heap, m.table, m.pools, id, j, data, m'.heap, m'.table, m'.pools)
    case Write(id, j, data) =>
      && Live(m.table, m.pools, id, j, data) && m'.table == m.table && m'.pools == m.pools
      && SameOutside(m.heap, m'.heap, data, data - HEADER_SIZE + m.pools[id][j].size)
  }

  lemma FormatKeeps(m: Mem, id: nat, m': Mem)
    requires Ok(m) && Step(m, Format(id), m')
    ensures Ok(m')
  {
    var p := m.table[id];
    assert PoolOk(m.heap, p, m.pools[id]);
    if p.poolSize > 0 {
      FormatKeepsPool(m.heap, m'.heap, p, m.pools[id]);
      PoolChanged(m.heap, m'.heap, m.table, m.pools, id, m'.table[id], m'.pools[id], p.startIndex, p.endIndex);
    } else {
      assert m'.heap == m.heap;
      UnusedStaysUnused(m.heap, m.table, m.pools, id, m'.table[id]);
    }
  }

  lemma DeletionKeeps(m: Mem, id: nat, m': Mem)
    requires Ok(m) && Step(m, Delete(id), m')
    ensures Ok(m')
  {
    assert PoolOk(m.heap, m.table[id], m.pools[id]);
    if m.table[id].poolSize > 0 {
      DeleteKeeps(m.heap, m'.heap, m.table, m.pools, id);
    } else {
      assert m'.heap == m.heap;
      UnusedStaysUnused(m.heap, m.table, m.pools, id, UNUSED);
    }
  }

  lemma StepKeeps(m: Mem, e: Effect, m': Mem)
    requires Ok(m) && Step(m, e, m')
    ensures Ok(m')
  {
    match e
    case Create(id, size, at) => CreateKeeps(m.heap, m.table, m.pools, id, at, size);
    case Delete(id) => DeletionKeeps(m, id, m');
    case Format(id) => FormatKeeps(m, id, m');
    case Alloc(id, n, j, data) =>
      AllocatesKeeps(m.heap, m.table, m.pools, id, n, j, data, m'.heap, m'.table, m'.pools);
    case Free(id, j, data) => FreesKeeps(m.heap, m.table, m.pools, id, j, data, m'.heap, m'.table, m'.pools);
    case Write(id, j, data) => WriteKeeps(m.heap, m'.heap, m.table, m.pools, id, j, data);
  }

  ghost predicate IsRun(states: seq<Mem>, effects: seq<Effect>) {
    |states| == |effects| + 1 && forall i :: 0 <= i < |effects| ==> Step(states[i], effects[i], states[i + 1])
  }

  /** In every run each pool stays tiled exactly, pools stay apart, and headers outside all pools stay zero. */
  lemma {:induction false} RunKeeps(states: seq<Mem>, effects: seq<Effect>, k: nat)
    requires IsRun(states, effects) && Ok(states[0]) && k < |states|
    ensures Ok(states[k])
    decreases k
  {
    if k > 0 {
      RunKeeps(states, effects, k - 1);
      assert Step(states[k - 1], effects[k - 1], states[k - 1 + 1]);
      StepKeeps(states[k - 1], effects[k - 1], states[k]);
    }
  }

  /** Memory is conserved in every run: in a pool of whole blocks the free counter and the live sizes make up the pool,
      and over all pools the live sizes never exceed the heap. */
  lemma RunConserves(states: seq<Mem>, effects: seq<Effect>, k: nat, id: nat)
    requires IsRun(states, effects) && Ok(states[0]) && k < |states| && id < |states[k].table|
    ensures id < |states[k].pools| && AllUsed(states[k].pools, |states[k].pools|) <= |states[k].heap|
    ensures states[k].table[id].poolSize % BLOCK_SIZE == 0 ==>
              states[k].table[id].poolSize == states[k].table[id].memLeft + UsedBytes(states[k].pools[id])
    ensures states[k].table[id].poolSize > 0 ==> states[k].table[id].n == UsedCount(states[k].pools[id])
  {
    RunKeeps(states, effects, k);
    var m := states[k];
    AllUsedFits(m.heap, m.table, m.pools, |m.table|);
    assert PoolOk(m.heap, m.table[id], m.pools[id]);
    if m.table[id].poolSize % BLOCK_SIZE == 0 {
      Conserved(m.heap, m.table[id], m.pools[id]);
    }
  }

  // ----- what runs leave alone -----

  predicate SamePlace(p: Pmb, q: Pmb) {
    q.startIndex == p.startIndex && q.endIndex == p.endIndex && q.poolSize == p.poolSize
  }

  /** A pool stays where it is until it is deleted. */
  lemma StepKeepsPlace(m: Mem, e: Effect, m': Mem, id: nat)
    requires Ok(m) && Step(m, e, m') && id < |m.table| && m.table[id].poolSize > 0 && e != Delete(id)
    ensures |m'.table| == |m.table| && SamePlace(m.table[id], m'.table[id])
  {}

  /** The k-th effect of a run, at a state that is described by tiles. */
  lemma RunStep(states: seq<Mem>, effects: seq<Effect>, k: nat) returns (m: Mem, e: Effect, m': Mem)
    requires IsRun(states, effects) && Ok(states[0]) && k < |effects|
    ensures m == states[k] && e == effects[k] && m' == states[k + 1] && Ok(m) && Step(m, e, m')
  {
    m, e, m' := states[k], effects[k], states[k + 1];
    RunKeeps(states, effects, k);
  }

  predicate StaysPut(m: Mem, m': Mem, id: nat) {
    id < |m.table| && m.table[id].poolSize > 0 ==> |m'.table| == |m.table| && SamePlace(m.table[id], m'.table[id])
  }

  lemma StaysPutAt(states: seq<Mem>, effects: seq<Effect>, k: nat, id: nat)
    requires IsRun(states, effects) && Ok(states[0]) && k < |effects| && effects[k] != Delete(id)
    ensures StaysPut(states[k], states[k + 1], id)
  {
    var m, e, m' := RunStep(states, effects, k);
    if id < |m.table| && m.table[id].poolSize > 0 {
      StepKeepsPlace(m, e, m', id);
    }
  }

  lemma {:induction false} StaysPutThrough(states: seq<Mem>, i: nat, k: nat, id: nat)
    requires i <= k < |states| && forall x :: i <= x < k ==> StaysPut(states[x], states[x + 1], id)
    ensures StaysPut(states[i], states[k], id)
    decreases k
  {
    if i < k {
      StaysPutThrough(states, i, k - 1, id);
      assert StaysPut(states[k - 1], states[k - 1 + 1], id);
    }
  }

  lemma PoolStays(states: seq<Mem>, effects: seq<Effect>, i: nat, k: nat, id: nat)
    requires IsRun(states, effects) && Ok(states[0]) && i <= k < |states|
    requires forall x :: i <= x < k ==> effects[x] != Delete(id)
    ensures StaysPut(states[i], states[k], id)
  {
    forall x | i <= x < k
      ensures StaysPut(states[x], states[x + 1], id)
    {
      StaysPutAt(states, effects, x, id);
    }
    StaysPutThrough(states, i, k, id);
  }

  /** The effect ends the allocation of pool id whose data start at a. */
  predicate Releases(e: Effect, id: nat, a: int) {
    match e
    case Free(_, _, data) => data == a
    case Delete(i) => i == id
    case Format(i) => i == id
    case _ => false
  }

  predicate Writes(e: Effect, a: int) { e.Write? && e.data == a }

  predicate SameBytes(h: Heap, h': Heap, lo: int, hi: int) {
    |h'| == |h| && forall k :: 0 <= k < |h| && lo <= k < hi ==> h'[k] == h[k]
  }

  /** A live allocation stays live at its address, with its size, through every other effect than its release. */
  lemma StepKeepsLive(m: Mem, e: Effect, m': Mem, id: nat, j: nat, a: int) returns (j': nat)
    requires Ok(m) && Step(m, e, m') && Live(m.table, m.pools, id, j, a) && !Releases(e, id, a)
    ensures Live(m'.table, m'.pools, id, j', a) && m'.pools[id][j'] == m.pools[id][j]
    ensures !Writes(e, a) ==> SameBytes(m.heap, m'.heap, a - HEADER_SIZE, a - HEADER_SIZE + m.pools[id][j].size)
  {
    LiveIsContained(m.heap, m.table, m.pools, id, j, a);
    j' := j;
    match e
    case Create(i, _, _) => assert PoolOk(m.heap, m.table[i], m.pools[i]);
    case Delete(i) => ZeroedElsewhere(m, i, m'.heap, id, j, a);
    case Format(i) => ZeroedElsewhere(m, i, m'.heap, id, j, a);
    case Alloc(i, n, k, data) => j' := AllocKeepsLive(m, i, n, k, data, m', id, j, a);
    case Free(i, k, data) => j' := FreeKeepsLive(m, i, k, data, m', id, j, a);
    case Write(i, k, data) => WriteElsewhere(m, i, k, data, m', id, j, a);
  }

  lemma ZeroedElsewhere(m: Mem, i: nat, h': Heap, id: nat, j: nat, a: int)
    requires Ok(m) && i < |m.table| && Zeroed(m.heap, h', m.table[i]) && Live(m.table, m.pools, id, j, a) && i != id
    ensures SameBytes(m.heap, h', a - HEADER_SIZE, a - HEADER_SIZE + m.pools[id][j].size)
  {
    LiveIsContained(m.heap, m.table, m.pools, id, j, a);
    assert PoolOk(m.heap, m.table[i], m.pools[i]);
    if m.table[i].poolSize > 0 {
      assert Apart(m.table[if i < id then i else id], m.table[if i < id then id else i]);
    }
  }

  lemma AllocKeepsLive(m: Mem, i: nat, n: nat, k: nat, data: int, m': Mem, id: nat, j: nat, a: int) returns (j': nat)
    requires Ok(m) && Step(m, Alloc(i, n, k, data), m') && Live(m.table, m.pools, id, j, a)
    ensures Live(m'.table, m'.pools, id, j', a) && m'.pools[id][j'] == m.pools[id][j] && (id != i || j' != k)
    ensures SameBytes(m.heap, m'.heap, a - HEADER_SIZE, a - HEADER_SIZE + m.pools[id][j].size)
  {
    var lo, hi := a - HEADER_SIZE, a - HEADER_SIZE + m.pools[id][j].size;
    LiveIsContained(m.heap, m.table, m.pools, id, j, a);
    j' := if id == i && j > k then j - n + 1 else j;
    if id == i {
      StartsKept(m.pools[i], k, n, j);
    }
    AllocatesKeepsOthers(m.heap, m.table, m.pools, i, n, k, data, m'.heap, m'.table, m'.pools, id, j, a, lo);
    forall x | 0 <= x < |m.heap| && lo <= x < hi
      ensures m'.heap[x] == m.heap[x]
    {
      AllocatesKeepsOthers(m.heap, m.table, m.pools, i, n, k, data, m'.heap, m'.table, m'.pools, id, j, a, x);
    }
  }

  lemma FreeKeepsLive(m: Mem, i: nat, k: nat, data: int, m': Mem, id: nat, j: nat, a: int) returns (j': nat)
    requires Ok(m) && Step(m, Free(i, k, data), m') && Live(m.table, m.pools, id, j, a) && data != a
    ensures Live(m'.table, m'.pools, id, j', a) && m'.pools[id][j'] == m.pools[id][j]
    ensures SameBytes(m.heap, m'.heap, a - HEADER_SIZE, a - HEADER_SIZE + m.pools[id][j].size)
  {
    j' := FreeKeepsPlace(m, i, k, data, m', id, j, a);
    FreeKeepsBytes(m, i, k, data, m', id, j, a);
  }

  lemma FreeKeepsPlace(m: Mem, i: nat, k: nat, data: int, m': Mem, id: nat, j: nat, a: int) returns (j': nat)
    requires Ok(m) && Step(m, Free(i, k, data), m') && Live(m.table, m.pools, id, j, a) && data != a
    ensures Live(m'.table, m'.pools, id, j', a) && m'.pools[id][j'] == m.pools[id][j]
  {
    FreesKeepsLive(m.heap, m.table, m.pools, i, k, data, m'.heap, m'.table, m'.pools, id, j, a);
    j' := j;
    if id == i && j > k {
      var n := m.pools[i][k].size / BLOCK_SIZE;
      j' := j - 1 + n;
    }
  }

  lemma FreeKeepsBytes(m: Mem, i: nat, k: nat, data: int, m': Mem, id: nat, j: nat, a: int)
    requires Ok(m) && Step(m, Free(i, k, data), m') && Live(m.table, m.pools, id, j, a) && data != a
    ensures SameBytes(m.heap, m'.heap, a - HEADER_SIZE, a - HEADER_SIZE + m.pools[id][j].size)
  {
    LiveAreApart(m.heap, m.table, m.pools, i, k, data, id, j, a);
  }

  lemma WriteElsewhere(m: Mem, i: nat, k: nat, data: int, m': Mem, id: nat, j: nat, a: int)
    requires Ok(m) && Step(m, Write(i, k, data), m') && Live(m.table, m.pools, id, j, a)
    ensures data != a ==> SameBytes(m.heap, m'.heap, a - HEADER_SIZE, a - HEADER_SIZE + m.pools[id][j].size)
  {
    if data != a {
      LiveAreApart(m.heap, m.table, m.pools, i, k, data, id, j, a);
    }
  }

  /** The allocation of a pool whose data start at a. */
  ghost predicate Holds(m: Mem, id: nat, a: int, t: Tile) {
    exists j: nat :: Live(m.table, m.pools, id, j, a) && m.pools[id][j] == t
  }

  /** What lasts of it: its place and size, and unless it is written its bytes, header included. */
  ghost predicate Lasts(m: Mem, m': Mem, id: nat, a: int, t: Tile, written: bool) {
    && t.Used? && Holds(m', id, a, t)
    && (!written ==> SameBytes(m.heap, m'.heap, a - HEADER_SIZE, a - HEADER_SIZE + t.size))
  }

  lemma LastsAt(states: seq<Mem>, effects: seq<Effect>, k: nat, id: nat, a: int, t: Tile)
    requires IsRun(states, effects) && Ok(states[0]) && k < |effects| && !Releases(effects[k], id, a)
    ensures Holds(states[k], id, a, t) ==> Lasts(states[k], states[k + 1], id, a, t, Writes(effects[k], a))
  {
    var m, e, m' := RunStep(states, effects, k);
    if Holds(m, id, a, t) {
      var j: nat :| Live(m.table, m.pools, id, j, a) && m.pools[id][j] == t;
      var j' := StepKeepsLive(m, e, m', id, j, a);
    }
  }

  lemma {:induction false} LastsThrough(states: seq<Mem>, written: seq<bool>, i: nat, k: nat, id: nat, a: int, t: Tile)
    requires i <= k < |states| && k <= |written| && t.Used? && Holds(states[i], id, a, t)
    requires forall x :: i <= x < k ==> Holds(states[x], id, a, t) ==>
                                          Lasts(states[x], states[x + 1], id, a, t, written[x])
    ensures Lasts(states[i], states[k], id, a, t, exists x :: i <= x < k && written[x])
    decreases k
  {
    if i < k {
      LastsThrough(states, written, i, k - 1, id, a, t);
      assert Lasts(states[k - 1], states[k - 1 + 1], id, a, t, written[k - 1]);
    }
  }

  /** In every run an allocation that is not released stays at its address with its size, and its bytes, header
      included, are changed by nothing but writing its own data. */
  lemma AllocationLasts(states: seq<Mem>, effects: seq<Effect>, i: nat, k: nat, id: nat, a: int, t: Tile)
    requires IsRun(states, effects) && Ok(states[0]) && i <= k < |states| && t.Used? && Holds(states[i], id, a, t)
    requires forall x :: i <= x < k ==> !Releases(effects[x], id, a)
    ensures Lasts(states[i], states[k], id, a, t, exists x :: i <= x < k && Writes(effects[x], a))
  {
    var written := seq(|effects|, x requires 0 <= x < |effects| => Writes(effects[x], a));
    forall x | i <= x < k
      ensures Holds(states[x], id, a, t) ==> Lasts(states[x], states[x + 1], id, a, t, written[x])
    {
      LastsAt(states, effects, x, id, a, t);
    }
    LastsThrough(states, written, i, k, id, a, t);
  }

  /** So no byte is handed out twice: what a later allocation of any run gets, header included, is apart from what an
      earlier one got, unless that was released in between. */
  lemma NeverHandedOutTwice(states: seq<Mem>, effects: seq<Effect>, i: nat, k: nat)
    requires IsRun(states, effects) && Ok(states[0]) && i < k < |effects| && effects[i].Alloc? && effects[k].Alloc?
    requires forall x :: i < x < k ==> !Releases(effects[x], effects[i].id, effects[i].data)
    ensures var a, b := effects[i].data - HEADER_SIZE, effects[k].data - HEADER_SIZE;
            a + BLOCK_SIZE * effects[i].n <= b || b + BLOCK_SIZE * effects[k].n <= a
  {
    var a, t := effects[i].data, Used(BLOCK_SIZE * effects[i].n);
    GrantHolds(states, effects, i);
    AllocationLasts(states, effects, i + 1, k, effects[i].id, a, t);
    var m, f, m' := RunStep(states, effects, k);
    var j: nat :| Live(m.table, m.pools, effects[i].id, j, a) && m.pools[effects[i].id][j] == t;
    GrantsApart(m, f, m', effects[i].id, j, a);
  }

  lemma GrantHolds(states: seq<Mem>, effects: seq<Effect>, k: nat)
    requires IsRun(states, effects) && Ok(states[0]) && k < |effects| && effects[k].Alloc?
    ensures Holds(states[k + 1], effects[k].id, effects[k].data, Used(BLOCK_SIZE * effects[k].n))
  {
    var m, e, m' := RunStep(states, effects, k);
    GrantIsLive(m, e, m');
  }

  lemma GrantIsLive(m: Mem, e: Effect, m': Mem)
    requires Ok(m) && Step(m, e, m') && e.Alloc?
    ensures Live(m'.table, m'.pools, e.id, e.j, e.data) && m'.pools[e.id][e.j] == Used(BLOCK_SIZE * e.n)
  {
    AllocatesKeeps(m.heap, m.table, m.pools, e.id, e.n, e.j, e.data, m'.heap, m'.table, m'.pools);
  }

  lemma GrantsApart(m: Mem, f: Effect, m': Mem, id: nat, j: nat, a: int)
    requires Ok(m) && Step(m, f, m') && f.Alloc? && Live(m.table, m.pools, id, j, a)
    ensures a - HEADER_SIZE + m.pools[id][j].size <= f.data - HEADER_SIZE
            || f.data - HEADER_SIZE + BLOCK_SIZE * f.n <= a - HEADER_SIZE
  {
    StepKeeps(m, f, m');
    GrantIsLive(m, f, m');
    var j' := AllocKeepsLive(m, f.id, f.n, f.j, f.data, m', id, j, a);
    LiveAreApart(m'.heap, m'.table, m'.pools, f.id, f.j, f.data, id, j', a);
  }
}
