/** The one-byte reader/writer lock of lists and nodes (source/kernel/src/List.c, UtilLock and UtilUnlock). */
module RwLock {
  import opened Base

  const MODE_READ: U8 := 0
  const MODE_WRITE: U8 := 1
  const READ_COUNT_MAX: nat := 63
  const MASK_MODE: bv8 := 0x80
  const MASK_COUNT: bv8 := 0x3f

  function Count(lock: bv8): nat { (lock & MASK_COUNT) as nat }

  predicate InWriteMode(lock: bv8) { lock & MASK_MODE != 0 }

  function Increment(lock: bv8): bv8 { if Count(lock) < READ_COUNT_MAX then lock + 1 else lock }

  function Decrement(lock: bv8): bv8 { if Count(lock) > 0 then lock - 1 else lock }

  /** UtilLock: the result and the lock byte left behind. */
  function Lock(lock: bv8, mode: U8): (OsResult, bv8) {
    if mode == MODE_READ then
      if InWriteMode(lock) || Count(lock) == READ_COUNT_MAX then (Locked, lock) else (Ok, Increment(lock))
    else if mode == MODE_WRITE then
      if Count(lock) == 0 then (Ok, Increment(lock | MASK_MODE)) else (Locked, lock)
    else (Error, lock)
  }

  /** UtilUnlock. */
  function Unlock(lock: bv8): (OsResult, bv8) {
    if Count(lock) == 0 then (Error, lock)
    else
      var less := Decrement(lock);
      (Ok, if Count(less) == 0 then less & !MASK_MODE else less)
  }

  // ----- the lock byte as a reader/writer state -----

  datatype State = Free | Readers(n: nat) | Writer

  /** The lock byte stands for the state; bit 6 is never set, and write mode goes with a count of one. */
  predicate Encodes(lock: bv8, s: State) {
    && lock & 0x40 == 0
    && match s
       case Free => lock == 0
       case Readers(n) => 1 <= n && !InWriteMode(lock) && Count(lock) == n
       case Writer => lock == 0x81
  }

  function LockState(s: State, mode: U8): (OsResult, State) {
    if mode == MODE_READ then
      match s
      case Free => (Ok, Readers(1))
      case Readers(n) => if n < READ_COUNT_MAX then (Ok, Readers(n + 1)) else (Locked, s)
      case Writer => (Locked, s)
    else if mode == MODE_WRITE then
      if s == Free then (Ok, Writer) else (Locked, s)
    else (Error, s)
  }

  function UnlockState(s: State): (OsResult, State) {
    match s
    case Free => (Error, s)
    case Readers(n) => (Ok, if n <= 1 then Free else Readers(n - 1))
    case Writer => (Ok, Free)
  }

  lemma CountSteps(lock: bv8)
    requires lock & 0xc0 == 0
    ensures Count(lock) < READ_COUNT_MAX ==> Count(lock + 1) == Count(lock) + 1 && (lock + 1) & 0xc0 == 0
    ensures Count(lock) > 0 ==> Count(lock - 1) == Count(lock) - 1 && (lock - 1) & 0xc0 == 0
    ensures Count(lock) == 0 <==> lock == 0
  {}

  /** On every byte that encodes a state, the byte operations do what the reader/writer lock does. */
  lemma LockRefines(lock: bv8, s: State, mode: U8)
    requires Encodes(lock, s)
    ensures Lock(lock, mode).0 == LockState(s, mode).0
    ensures Encodes(Lock(lock, mode).1, LockState(s, mode).1)
  {
    if s != Writer {
      CountSteps(lock);
    }
  }

  lemma UnlockRefines(lock: bv8, s: State)
    requires Encodes(lock, s)
    ensures Unlock(lock).0 == UnlockState(s).0
    ensures Encodes(Unlock(lock).1, UnlockState(s).1)
  {
    if s != Writer {
      CountSteps(lock);
    }
  }

  // ----- every interleaving of clients that unlock only what they hold -----

  type Client = nat

  datatype Step = Acquire(client: Client, mode: U8) | Release(client: Client)

  /** The lock byte, the read locks held (a client may hold several) and the write lock. */
  datatype World = World(lock: bv8, readers: multiset<Client>, writer: Option<Client>)

  predicate Holds(w: World, c: Client) { c in w.readers || w.writer == Some(c) }

  function Next(w: World, step: Step): World {
    match step
    case Acquire(c, mode) =>
      var (result, lock) := Lock(w.lock, mode);
      if result != Ok then w.(lock := lock)
      else if mode == MODE_WRITE then World(lock, w.readers, Some(c))
      else World(lock, w.readers + multiset{c}, w.writer)
    case Release(c) =>
      if !Holds(w, c) then w
      else
        var (_, lock) := Unlock(w.lock);
        if w.writer == Some(c) then World(lock, w.readers, None)
        else World(lock, w.readers - multiset{c}, w.writer)
  }

  function Run(steps: seq<Step>): World
    decreases |steps|
  {
    if steps == [] then World(0, multiset{}, None)
    else Next(Run(steps[..|steps| - 1]), steps[|steps| - 1])
  }

  function StateOf(w: World): State {
    if w.writer.Some? then Writer else if |w.readers| == 0 then Free else Readers(|w.readers|)
  }

  predicate Safe(w: World) {
    && (w.writer.Some? ==> w.readers == multiset{})
    && |w.readers| <= READ_COUNT_MAX
    && Encodes(w.lock, StateOf(w))
  }

  lemma NextIsSafe(w: World, step: Step)
    requires Safe(w)
    ensures Safe(Next(w, step))
  {
    match step
    case Acquire(c, mode) => AcquiredIsSafe(w, c, mode);
    case Release(c) => ReleasedIsSafe(w, c);
  }

  lemma AcquiredIsSafe(w: World, c: Client, mode: U8)
    requires Safe(w)
    ensures Safe(Next(w, Acquire(c, mode)))
  {
    LockRefines(w.lock, StateOf(w), mode);
  }

  lemma ReleasedIsSafe(w: World, c: Client)
    requires Safe(w)
    ensures Safe(Next(w, Release(c)))
  {
    UnlockRefines(w.lock, StateOf(w));
  }

  /** In every run a writer excludes everyone else, there are at most 63 readers, and the byte says who is there. */
  lemma {:induction false} EveryRunIsSafe(steps: seq<Step>)
    ensures Safe(Run(steps))
    decreases |steps|
  {
    if steps != [] {
      EveryRunIsSafe(steps[..|steps| - 1]);
      NextIsSafe(Run(steps[..|steps| - 1]), steps[|steps| - 1]);
    }
  }

  /** A request is granted exactly when the reader/writer discipline allows it. */
  lemma GrantedWhenAllowed(steps: seq<Step>, mode: U8)
    ensures var w := Run(steps);
            (Lock(w.lock, mode).0 == Ok <==>
              || (mode == MODE_READ && w.writer == None && |w.readers| < READ_COUNT_MAX)
              || (mode == MODE_WRITE && w.writer == None && w.readers == multiset{}))
  {
    EveryRunIsSafe(steps);
    LockRefines(Run(steps).lock, StateOf(Run(steps)), mode);
  }

  /** Unlocking right after a granted lock brings the byte back. */
  lemma LockThenUnlock(lock: bv8, s: State, mode: U8)
    requires Encodes(lock, s) && Lock(lock, mode).0 == Ok
    ensures Unlock(Lock(lock, mode).1) == (Ok, lock)
  {
    if s != Writer {
      CountSteps(lock);
      CountSteps(lock + 1);
    }
  }
}
