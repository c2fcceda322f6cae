/** What every run of the kernel keeps. */
module KernelRuns {
  import opened Base
  import opened Events
  import opened Tasks
  import opened Broker
  import opened BrokerExact
  import opened BrokerOrder
  import opened Kernel
  import Fletcher
  import IdType

  // ----- the invariant -----

  function RunningCount(s: Sys, id: U32): nat { if s.running.Holds? && s.running.value.id == id then 1 else 0 }

  /** In how many places the task is: waiting list, idle list, execution queue, running. */
  function Places(s: Sys, id: U32): nat { Total(s.lists, id) + RunningCount(s, id) }

  predicate Waiters(l: seq<Task>) { forall i :: 0 <= i < |l| ==> l[i].events != [] }

  predicate Resters(l: seq<Task>) { forall i :: 0 <= i < |l| ==> l[i].events == [] }

  /** States match places, the two lists ascend, and the queue is in order. */
  predicate ListsOk(l: Lists) {
    && AllIn(l.wait, Waiting) && AllIn(l.idle, Idle) && AllIn(l.queue, Active)
    && Ascending(l.wait) && Ascending(l.idle) && InOrder(l)
    && Waiters(l.wait) && Resters(l.idle)
  }

  /** The idle task waits for nothing, is not flagged, and is of the lowest category. */
  predicate Safe(t: Task, idleId: U32) { t.id == idleId ==> t.events == [] && !t.delete && t.category == CAT_LOW }

  predicate AllSafe(l: seq<Task>, idleId: U32) { forall i :: 0 <= i < |l| ==> Safe(l[i], idleId) }

  predicate ListsSafe(l: Lists, idleId: U32) {
    AllSafe(l.wait, idleId) && AllSafe(l.idle, idleId) && AllSafe(l.queue, idleId)
  }

  predicate RunningOk(s: Sys) {
    match s.running
    case Nobody => s.lists.wait == [] && s.lists.queue == []
    case Holds(t) => t.state == Running && Safe(t, s.idleId)
    case FreedIdle => false
  }

  /** The mock event is the first emitted one, and the identifiers differ. */
  predicate EventsOk(l: seq<Event>) { IdsDistinct(l) && l != [] && IsMock(l[0]) }

  predicate Issued(s: Sys, id: U32) {
    IdType.MakeId(GROUP_TASK, 0) <= id < IdType.MakeId(GROUP_TASK, 0) + s.issued
  }

  ghost predicate Inv(s: Sys) {
    && ListsOk(s.lists) && ListsSafe(s.lists, s.idleId) && RunningOk(s) && EventsOk(s.events)
    && s.issued <= IdType.SEQ_NUM_MAX
    && Places(s, s.idleId) == 1
    && (forall id: U32 :: Places(s, id) <= 1 && (Places(s, id) > 0 ==> Issued(s, id)))
  }

  // ----- how the places change -----

  /** The task that the action creates. */
  predicate Born(s: Sys, a: Action, id: U32) {
    a.Create? && Creatable(s, a.category, a.level, a.kernelMode) && id == NextId(s)
  }

  predicate Deleted(s: Sys, t: Task) { t.events == [] && t.delete && (t.category != CAT_OS || t.id != s.idleId) }

  /** The task that the action destroys: a running one flagged for deletion that waits for nothing, when it is switched.
      */
  predicate Died(s: Sys, a: Action, id: U32) {
    a.Ticks? && a.dispatch && s.running.Holds? && s.running.value.id == id && Deleted(s, s.running.value)
  }

  lemma AddSortedCounts(l: seq<Task>, t: Task, id: U32)
    requires Ascending(l) && Count(l, t.id) == 0
    ensures Count(AddSorted(l, t), id) == Count(l, id) + if t.id == id then 1 else 0
  {
    AddSortedKeeps(l, t, id);
  }

  lemma PutAwayCounts(s: Sys, t: Task, id: U32)
    requires ListsOk(s.lists) && Total(s.lists, t.id) == 0
    ensures Total(PutAway(s.lists, t, s.idleId), id)
            == Total(s.lists, id) + if t.id == id && !Deleted(s, t) then 1 else 0
  {
    AddSortedCounts(s.lists.wait, t.(state := Waiting), id);
    AddSortedCounts(s.lists.idle, t.(state := Idle), id);
    AddSortedCounts(s.lists.idle, t.(state := Idle, delete := false), id);
  }

  lemma TakeNextCounts(l: Lists, idleId: U32, id: U32)
    ensures var (r, l') := TakeNext(l, idleId);
            Total(l', id) + (if r.Holds? && r.value.id == id then 1 else 0) == Total(l, id)
  {
    if l.queue != [] {
      assert l.queue == [l.queue[0]] + l.queue[1..];
      CountConcat([l.queue[0]], l.queue[1..], id);
      CountOne(l.queue[0], id);
    } else if Find(l.idle, idleId) < |l.idle| {
      CountWithout(l.idle, Find(l.idle, idleId), id);
    }
  }

  lemma SwitchCounts(s: Sys, id: U32)
    requires Inv(s) && s.running.Holds?
    ensures Places(SwitchTask(s), id)
            == Places(s, id) - if id == s.running.value.id && Deleted(s, s.running.value) then 1 else 0
  {
    var t := s.running.value;
    assert Places(s, t.id) <= 1;
    PutAwayCounts(s, t, id);
    TakeNextCounts(PutAway(s.lists, t, s.idleId), s.idleId, id);
  }

  lemma ChangeFoundCounts(l: Lists, id: U32, c: Change, other: U32)
    ensures Total(ChangeFound(l, id, c), other) == Total(l, other)
  {
    CountSame(ChangeFound(l, id, c).idle, l.idle, other);
    CountSame(ChangeFound(l, id, c).wait, l.wait, other);
  }

  /** The operations of the running task on itself. */
  predicate OnlyRunning(s: Sys, s': Sys) {
    s'.running.Holds? == s.running.Holds? && s' == s.(running := s'.running)
    && (s.running.Holds? ==>
          s'.running.value.id == s.running.value.id && s'.running.value.state == s.running.value.state)
  }

  lemma OnRunning(s: Sys, a: Action)
    requires Allowed(s, a) && (a.RegisterEvent? || a.Handle? || a.Remove?)
    ensures OnlyRunning(s, Do(s, a))
    ensures s.running.Holds? && Safe(s.running.value, s.idleId) ==> Safe(Do(s, a).running.value, s.idleId)
  {}

  lemma DeleteCounts(s: Sys, target: Option<U32>, id: U32)
    ensures Places(TaskDelete(s, target).1, id) == Places(s, id)
  {
    if target.Some? {
      ChangeFoundCounts(s.lists, target.value, FlagDelete, id);
    }
  }

  lemma PriorityCounts(s: Sys, task: U32, level: U8, id: U32)
    ensures Places(TaskPrioritySet(s, task, level).1, id) == Places(s, id)
  {
    ChangeFoundCounts(s.lists, task, SetLevel(level), id);
  }

  lemma StartCounts(s: Sys, first: U32, id: U32)
    requires s.running.Nobody?
    ensures Places(OsStart(s, first), id) == Places(s, id)
  {
    var wanted := if first != ID_INVALID && Found(s.lists, first) then first else s.idleId;
    var i := Find(s.lists.idle, wanted);
    if i < |s.lists.idle| {
      CountWithout(s.lists.idle, i, id);
    }
  }

  lemma NextIsNew(s: Sys)
    requires Inv(s) && NextId(s) != ID_INVALID
    ensures Places(s, NextId(s)) == 0 && NextId(s) != s.idleId
  {
    assert !Issued(s, NextId(s)) && Places(s, s.idleId) > 0;
  }

  lemma CreateCounts(s: Sys, category: U8, level: U8, kernelMode: bool, start: bool, id: U32)
    requires Inv(s)
    ensures Places(TaskCreate(s, category, level, kernelMode, start).1, id)
            == Places(s, id) + if Creatable(s, category, level, kernelMode) && id == NextId(s) then 1 else 0
  {
    if Creatable(s, category, level, kernelMode) {
      var made := NextId(s);
      NextIsNew(s);
      AddSortedKeeps(s.lists.idle, Task(made, category, CalculatePriority(category, level), Idle, false, []), id);
    }
  }

  lemma TickCounts(s: Sys, dispatch: bool, unlocked: bool, delta: U32, id: U32)
    requires Inv(s)
    ensures Places(Tick(s, dispatch, unlocked, delta), id)
            == Places(s, id) - if Died(s, Ticks(dispatch, unlocked, delta), id) then 1 else 0
  {
    if s.running.Holds? {
      if dispatch {
        SwitchCounts(s, id);
      }
      var s1 := if dispatch then SwitchTask(s) else s;
      CycleConserves(s1.lists, s1.events, delta, id);
    }
  }

  /** No task is lost or doubled: an action changes the number of places a task is in only for the one it creates and
      for the one it destroys. */
  lemma ActionCounts(s: Sys, a: Action, id: U32)
    requires Inv(s) && Allowed(s, a)
    ensures Places(Do(s, a), id)
            == Places(s, id) + (if Born(s, a, id) then 1 else 0) - (if Died(s, a, id) then 1 else 0)
  {
    match a
    case Create(category, level, kernelMode, start) => CreateCounts(s, category, level, kernelMode, start, id);
    case Delete(target) => DeleteCounts(s, target, id);
    case SetPriority(task, level) => PriorityCounts(s, task, level, id);
    case RegisterEvent(_, _, _, _) => OnRunning(s, a);
    case Handle(_) => OnRunning(s, a);
    case Remove(_, _) => OnRunning(s, a);
    case EmitEvent(source, code, flags) =>
    case Start(first) => StartCounts(s, first, id);
    case Ticks(dispatch, unlocked, delta) => TickCounts(s, dispatch, unlocked, delta, id);
  }

  // ----- the lists -----

  lemma AddSortedListsOk(l: seq<Task>, t: Task)
    requires Ascending(l) && Count(l, t.id) == 0
    ensures Ascending(AddSorted(l, t))
    ensures AllIn(l, t.state) ==> AllIn(AddSorted(l, t), t.state)
    ensures Waiters(l) && t.events != [] ==> Waiters(AddSorted(l, t))
    ensures Resters(l) && t.events == [] ==> Resters(AddSorted(l, t))
    ensures forall idleId :: AllSafe(l, idleId) && Safe(t, idleId) ==> AllSafe(AddSorted(l, t), idleId)
  {
    AddSortedKeeps(l, t, t.id);
    var r := AddSorted(l, t);
    forall i | 0 <= i < |r|
      ensures r[i] == t || exists j :: 0 <= j < |l| && l[j] == r[i]
    {
      assert r[i] in r;
    }
  }

  lemma PutAwayOk(s: Sys, t: Task)
    requires ListsOk(s.lists) && ListsSafe(s.lists, s.idleId) && Total(s.lists, t.id) == 0 && Safe(t, s.idleId)
    ensures ListsOk(PutAway(s.lists, t, s.idleId)) && ListsSafe(PutAway(s.lists, t, s.idleId), s.idleId)
  {
    if t.events != [] {
      AddSortedListsOk(s.lists.wait, t.(state := Waiting));
    } else if !t.delete {
      AddSortedListsOk(s.lists.idle, t.(state := Idle));
    } else {
      AddSortedListsOk(s.lists.idle, t.(state := Idle, delete := false));
    }
  }

  lemma WithoutOk(l: seq<Task>, i: nat)
    requires i < |l|
    ensures forall k :: 0 <= k < |Without(l, i)| ==> Without(l, i)[k] == l[if k < i then k else k + 1]
  {}

  lemma TakeNextOk(l: Lists, idleId: U32)
    requires ListsOk(l) && ListsSafe(l, idleId) && (l.queue == [] ==> Find(l.idle, idleId) < |l.idle|)
    ensures var (r, l') := TakeNext(l, idleId);
            ListsOk(l') && ListsSafe(l', idleId) && r.Holds? && r.value.state == Running && Safe(r.value, idleId)
  {
    OrderedDescends(l.entered);
    if l.queue != [] {
      PopServesNext(l.entered);
      assert Keys(l.queue[1..]) == Keys(l.queue)[1..];
    } else {
      WithoutOk(l.idle, Find(l.idle, idleId));
    }
  }

  /** The queue serves its tasks by priority, and first come first served among equals: the task taken is the earliest
      of maximal priority among all that came into the queue and have not been taken. */
  lemma TakesNextArrival(l: Lists, idleId: U32)
    requires InOrder(l) && l.queue != []
    ensures l.entered != [] && KeyOf(l.queue[0]) == l.entered[Next(l.entered)]
    ensures TakeNext(l, idleId).0.Holds? && KeyOf(TakeNext(l, idleId).0.value) == l.entered[Next(l.entered)]
    ensures TakeNext(l, idleId).1.entered == Served(l.entered)
    ensures Descending(Keys(l.queue))
  {
    OrderedDescends(l.entered);
    PopServesNext(l.entered);
  }

  // ----- the broker cycle -----

  lemma {:induction false} SplitSafe(l: seq<Task>, a: Args, idleId: U32)
    requires AllSafe(l, idleId)
    ensures AllSafe(Kept(l, a), idleId) && AllSafe(Moved(l, a), idleId)
    decreases |l|
  {
    if l != [] {
      SplitSafe(l[..|l| - 1], a, idleId);
      assert Safe(l[|l| - 1], idleId);
    }
  }

  lemma {:induction false} EnqueueSafe(q: seq<Task>, moved: seq<Task>, idleId: U32)
    requires AllSafe(q, idleId) && AllSafe(moved, idleId)
    ensures AllSafe(Enqueue(q, moved), idleId)
    decreases |moved|
  {
    if moved != [] {
      EnqueueSafe(q, moved[..|moved| - 1], idleId);
    }
  }

  lemma PassSafe(l: Lists, a: Args, idleId: U32)
    requires ListsSafe(l, idleId)
    ensures ListsSafe(Pass(l, a), idleId)
  {
    SplitSafe(l.wait, a, idleId);
    SplitSafe(l.idle, a, idleId);
    var moved := Moved(l.wait, a) + Moved(l.idle, a);
    EnqueueSafe(l.queue, moved, idleId);
    var q := Enqueue(l.queue, moved);
    forall i | 0 <= i < |q|
      ensures Safe(CompareTask(q[i], a), idleId)
    {
      assert Safe(q[i], idleId);
    }
  }

  lemma AddressSafe(l: Lists, id: U32, idleId: U32)
    requires ListsSafe(l, idleId)
    ensures ListsSafe(Address(l, id), idleId)
  {
    var i, j := Find(l.idle, id), Find(l.wait, id);
    if i < |l.idle| {
      WithoutOk(l.idle, i);
    } else if j < |l.wait| {
      WithoutOk(l.wait, j);
    }
  }

  lemma {:induction false} CycleSafe(l: Lists, todo: seq<Event>, delta: U32, idleId: U32)
    requires ListsSafe(l, idleId)
    ensures ListsSafe(Cycle(l, todo, delta), idleId)
    decreases |todo|
  {
    if todo != [] {
      var a := Args(todo[0], |todo| == 1, delta);
      AddressSafe(l, a.event.source, idleId);
      PassSafe(if a.event.flags.addressed then Address(l, a.event.source) else l, a, idleId);
      CycleSafe(Turn(l, a), todo[1..], delta, idleId);
    }
  }

  lemma RemainingWaits(l: seq<Task>, todo: seq<Event>, delta: U32)
    ensures Waiters(l) ==> Waiters(Remaining(l, todo, delta))
    ensures Resters(l) ==> Resters(Remaining(l, todo, delta))
  {
    RemainingOrigin(l, todo, delta);
    var r := Remaining(l, todo, delta);
    forall i | 0 <= i < |r|
      ensures exists j :: 0 <= j < |l| && |r[i].events| == |l[j].events|
    {
      assert r[i] in r;
      var j :| 0 <= j < |l| && !Woken(l[j], todo, delta) && r[i] == Stayed(l[j], delta);
    }
  }

  lemma CycleListsOk(l: Lists, todo: seq<Event>, delta: U32)
    requires ListsOk(l) && AtMostOnce(l) && todo != []
    ensures ListsOk(Cycle(l, todo, delta))
  {
    CycleRemains(l, todo, delta);
    CycleActive(l, todo, delta);
    CycleInOrder(l, todo, delta);
    RemainingAscends(l.wait, todo, delta);
    RemainingAscends(l.idle, todo, delta);
    RemainingStates(l.wait, todo, delta, Waiting);
    RemainingStates(l.idle, todo, delta, Idle);
    RemainingWaits(l.wait, todo, delta);
    RemainingWaits(l.idle, todo, delta);
  }

  /** The mock event stays at the head. */
  lemma EventsAfterOk(l: seq<Event>, delta: U32)
    requires EventsOk(l)
    ensures EventsOk(EventsAfter(l, delta)) && EventsAfter(l, delta)[0] == l[0]
  {
    EventsAfterExact(l, delta);
    assert l == [l[0]] + l[1..];
    EventsAfterConcat([l[0]], l[1..], delta);
    assert [l[0]][..0] == [];
    assert EventsAfter([l[0]], delta) == EventAfter(l[0], delta);
  }

  // ----- every action keeps the invariant -----

  /** The part of the invariant that does not count. */
  predicate Shape(s: Sys) {
    ListsOk(s.lists) && ListsSafe(s.lists, s.idleId) && RunningOk(s) && EventsOk(s.events)
  }

  /** Whenever the queue is empty and the idle task does not run, it is in the idle list. */
  lemma IdleIsReady(s: Sys)
    requires Inv(s) && s.lists.queue == [] && (s.running.Holds? ==> s.running.value.id != s.idleId)
    ensures Find(s.lists.idle, s.idleId) < |s.lists.idle|
  {
    CountPositive(s.lists.idle, s.idleId);
    CountPositive(s.lists.wait, s.idleId);
    CountPositive(s.lists.queue, s.idleId);
    assert Find(s.lists.idle, s.idleId) < |s.lists.idle| by {
      assert Count(s.lists.wait, s.idleId) == 0;
    }
  }

  lemma SwitchShape(s: Sys)
    requires Inv(s) && s.running.Holds?
    ensures Shape(SwitchTask(s)) && SwitchTask(s).running.Holds?
  {
    var t := s.running.value;
    assert Places(s, t.id) <= 1;
    PutAwayOk(s, t);
    PutAwayCounts(s, t, s.idleId);
    var l := PutAway(s.lists, t, s.idleId);
    CountPositive(l.idle, s.idleId);
    CountPositive(l.wait, s.idleId);
    CountPositive(l.queue, s.idleId);
    assert Count(l.wait, s.idleId) == 0;
    assert Total(l, s.idleId) == 1;
    TakeNextOk(l, s.idleId);
  }

  lemma CycleShape(s: Sys, delta: U32)
    requires Inv(s)
    ensures Shape(SchedulerCycle(s, delta).(running := s.running)) || s.running.Nobody?
  {
    forall id: U32
      ensures Total(s.lists, id) <= 1
    {
      assert Places(s, id) <= 1;
    }
    CycleListsOk(s.lists, s.events, delta);
    CycleSafe(s.lists, s.events, delta, s.idleId);
    EventsAfterOk(s.events, delta);
  }

  lemma EmitShape(s: Sys, source: U32, code: U32, flags: Flags)
    requires Shape(s)
    ensures Shape(EventEmit(s, source, code, flags).1)
  {
    EmitKeeps(s.events, source, code, flags, s.lifetime);
  }

  lemma ChangeFoundShape(l: Lists, id: U32, c: Change, idleId: U32)
    requires ListsOk(l) && ListsSafe(l, idleId) && (c.FlagDelete? ==> id != idleId)
    ensures ListsOk(ChangeFound(l, id, c)) && ListsSafe(ChangeFound(l, id, c), idleId)
  {
    var i, j := Find(l.idle, id), Find(l.wait, id);
    if i < |l.idle| {
      ChangedListOk(l.idle, i, c, idleId);
    } else if j < |l.wait| {
      ChangedListOk(l.wait, j, c, idleId);
    }
  }

  lemma ChangedListOk(l: seq<Task>, i: nat, c: Change, idleId: U32)
    requires i < |l| && (c.FlagDelete? ==> l[i].id != idleId)
    ensures var l' := l[i := Changed(l[i], c)];
            && (Ascending(l) ==> Ascending(l')) && (Waiters(l) ==> Waiters(l')) && (Resters(l) ==> Resters(l'))
            && (forall st :: AllIn(l, st) ==> AllIn(l', st)) && (AllSafe(l, idleId) ==> AllSafe(l', idleId))
  {}

  lemma DeleteShape(s: Sys, target: Option<U32>)
    requires Inv(s) && Allowed(s, Delete(target))
    ensures Shape(TaskDelete(s, target).1)
  {
    if target.Some? {
      ChangedListsShape(s, target.value, FlagDelete);
    }
    if target.None? || target.value == s.running.value.id {
      ChangedRunningShape(s, FlagDelete);
    }
  }

  lemma ChangedRunningShape(s: Sys, c: Change)
    requires Shape(s) && s.running.Holds? && (c.FlagDelete? ==> s.running.value.id != s.idleId)
    ensures Shape(s.(running := Holds(Changed(s.running.value, c))))
  {}

  lemma ChangedListsShape(s: Sys, id: U32, c: Change)
    requires Shape(s) && (c.FlagDelete? ==> id != s.idleId)
    ensures Shape(s.(lists := ChangeFound(s.lists, id, c)))
  {
    ChangeFoundShape(s.lists, id, c, s.idleId);
  }

  lemma PriorityShape(s: Sys, task: U32, level: U8)
    requires Inv(s)
    ensures Shape(TaskPrioritySet(s, task, level).1)
  {
    ChangedListsShape(s, task, SetLevel(level));
    if s.running.Holds? {
      ChangedRunningShape(s, SetLevel(level));
    }
  }

  lemma StartShape(s: Sys, first: U32)
    requires Inv(s) && s.running.Nobody?
    ensures Shape(OsStart(s, first)) && OsStart(s, first).running.Holds?
  {
    IdleIsReady(s);
    var wanted := if first != ID_INVALID && Found(s.lists, first) then first else s.idleId;
    TakenShape(s, Find(s.lists.idle, wanted));
  }

  lemma TakenShape(s: Sys, i: nat)
    requires Shape(s) && i < |s.lists.idle|
    ensures Shape(s.(running := Holds(s.lists.idle[i].(state := Running)),
                     lists := s.lists.(idle := Without(s.lists.idle, i))))
  {
    WithoutOk(s.lists.idle, i);
  }

  lemma CreateShape(s: Sys, category: U8, level: U8, kernelMode: bool, start: bool)
    requires Inv(s)
    ensures Shape(TaskCreate(s, category, level, kernelMode, start).1)
  {
    if Creatable(s, category, level, kernelMode) {
      var made := NextId(s);
      NextIsNew(s);
      var t := Task(made, category, CalculatePriority(category, level), Idle, false, []);
      AddSortedListsOk(s.lists.idle, t);
      var s' := s.(lists := s.lists.(idle := AddSorted(s.lists.idle, t)), issued := s.issued + 1);
      assert Shape(s');
      EmitShape(s', made, TASK_EVENT_ACTIVATE, ADDRESSED);
    }
  }

  lemma ActionShape(s: Sys, a: Action)
    requires Inv(s) && Allowed(s, a)
    ensures Shape(Do(s, a))
  {
    match a
    case Create(category, level, kernelMode, start) => CreateShape(s, category, level, kernelMode, start);
    case Delete(target) => DeleteShape(s, target);
    case SetPriority(task, level) => PriorityShape(s, task, level);
    case RegisterEvent(_, _, _, _) => OnRunning(s, a);
    case Handle(_) => OnRunning(s, a);
    case Remove(_, _) => OnRunning(s, a);
    case EmitEvent(source, code, flags) => EmitShape(s, source, code, flags);
    case Start(first) => StartShape(s, first);
    case Ticks(dispatch, unlocked, delta) => TickShape(s, dispatch, unlocked, delta);
  }

  lemma TickShape(s: Sys, dispatch: bool, unlocked: bool, delta: U32)
    requires Inv(s)
    ensures Shape(Tick(s, dispatch, unlocked, delta))
  {
    if s.running.Holds? {
      var s1 := if dispatch then SwitchTask(s) else s;
      if dispatch {
        SwitchKeeps(s);
      }
      CycleShape(s1, delta);
    }
  }

  lemma SwitchKeeps(s: Sys)
    requires Inv(s) && s.running.Holds?
    ensures Inv(SwitchTask(s)) && SwitchTask(s).running.Holds?
  {
    SwitchShape(s);
    forall id: U32
      ensures Places(SwitchTask(s), id) <= Places(s, id)
    {
      SwitchCounts(s, id);
    }
    SwitchCounts(s, s.idleId);
  }

  /** What a switch relies on: the running task is in no list, and the idle task can be found when the queue is empty.
      */
  predicate CanSwitch(l: Lists, t: Task, idleId: U32) {
    && Count(l.wait, t.id) == Count(l.idle, t.id) == 0
    && (l.queue == [] ==> var i := PutAway(l, t, idleId).idle; Find(i, idleId) < |i|)
  }

  /** What a tick relies on. */
  predicate CanTick(s: Sys) { s.running.Holds? ==> CanSwitch(s.lists, s.running.value, s.idleId) && s.events != [] }

  lemma InvCanTick(s: Sys)
    requires Inv(s)
    ensures CanTick(s)
  {
    if s.running.Holds? {
      assert Places(s, s.running.value.id) <= 1;
      SwitchShape(s);
    }
  }

  /** What OsStart relies on. */
  predicate CanStart(s: Sys) { s.lists.wait == [] && Find(s.lists.idle, s.idleId) < |s.lists.idle| }

  /** What TaskCreate relies on. */
  predicate IdIsFree(s: Sys) { NextId(s) != ID_INVALID ==> Total(s.lists, NextId(s)) == 0 && NextId(s) != s.idleId }

  lemma InvCanStart(s: Sys)
    requires Inv(s)
    ensures s.running.Nobody? ==> CanStart(s)
    ensures IdIsFree(s)
  {
    if s.running.Nobody? {
      IdleIsReady(s);
    }
    if NextId(s) != ID_INVALID {
      NextIsNew(s);
    }
  }

  /** Every action keeps the invariant. */
  lemma ActionKeeps(s: Sys, a: Action)
    requires Inv(s) && Allowed(s, a)
    ensures Inv(Do(s, a))
  {
    ActionShape(s, a);
    ActionIssues(s, a);
    forall id: U32
      ensures PlaceOk(Do(s, a), id)
    {
      ActionPlaces(s, a, id);
    }
    ActionCounts(s, a, s.idleId);
    InvIs(Do(s, a));
  }

  lemma InvIs(s: Sys)
    requires Shape(s) && s.issued <= IdType.SEQ_NUM_MAX && Places(s, s.idleId) == 1 && forall id: U32 :: PlaceOk(s, id)
    ensures Inv(s)
  {
    forall id: U32
      ensures Places(s, id) <= 1 && (Places(s, id) > 0 ==> Issued(s, id))
    {
      assert PlaceOk(s, id);
    }
  }

  predicate PlaceOk(s: Sys, id: U32) { Places(s, id) <= 1 && (Places(s, id) > 0 ==> Issued(s, id)) }

  /** The identifiers handed out, and that of the idle task. */
  predicate Issues(s: Sys, s': Sys, n: nat) { s'.issued == s.issued + n && s'.idleId == s.idleId }

  /** How many identifiers an action hands out. */
  function IssuedBy(s: Sys, a: Action): nat {
    if a.Create? && Creatable(s, a.category, a.level, a.kernelMode) then 1 else 0
  }

  lemma ActionIssues(s: Sys, a: Action)
    requires Inv(s) && Allowed(s, a)
    ensures Issues(s, Do(s, a), IssuedBy(s, a))
  {
    match a
    case Create(category, level, kernelMode, start) => CreateIssues(s, category, level, kernelMode, start);
    case RegisterEvent(_, _, _, _) => OnRunning(s, a);
    case Handle(_) => OnRunning(s, a);
    case Remove(_, _) => OnRunning(s, a);
    case Ticks(dispatch, unlocked, delta) => TickIssues(s, dispatch, unlocked, delta);
    case Delete(_) =>
    case SetPriority(_, _) =>
    case EmitEvent(_, _, _) =>
    case Start(_) =>
  }

  lemma CreateIssues(s: Sys, category: U8, level: U8, kernelMode: bool, start: bool)
    ensures var n := if Creatable(s, category, level, kernelMode) then 1 else 0;
            Issues(s, TaskCreate(s, category, level, kernelMode, start).1, n)
  {}

  lemma TickIssues(s: Sys, dispatch: bool, unlocked: bool, delta: U32)
    ensures Issues(s, Tick(s, dispatch, unlocked, delta), 0)
  {}

  lemma ActionPlaces(s: Sys, a: Action, id: U32)
    requires Inv(s) && Allowed(s, a)
    ensures PlaceOk(Do(s, a), id)
  {
    assert Places(s, id) <= 1;
    ActionCounts(s, a, id);
    ActionIssues(s, a);
    BornOrDied(s, a, id);
    PlacesStay(s, a, id, Do(s, a));
  }

  lemma PlacesStay(s: Sys, a: Action, id: U32, s': Sys)
    requires Places(s, id) <= 1 && (Places(s, id) > 0 ==> Issued(s, id)) && (Born(s, a, id) ==> Places(s, id) == 0)
    requires Places(s', id) == Places(s, id) + (if Born(s, a, id) then 1 else 0) - (if Died(s, a, id) then 1 else 0)
    requires Issues(s, s', IssuedBy(s, a))
    ensures PlaceOk(s', id)
  {}

  /** The identifier is that of a task which was there or is created, and which is not destroyed by the last action. */
  predicate Exists(s: Sys, actions: seq<Action>, id: U32, before: bool)
    requires AllowedRun(s, actions)
    decreases |actions|
  {
    if actions == [] then before
    else Exists(Do(s, actions[0]), actions[1..], id, (before || Born(s, actions[0], id)) && !Died(s, actions[0], id))
  }

  /** In every run each task that was created and not destroyed is in exactly one place, and no other is in any. */
  lemma {:induction false} ExistsInOnePlace(s: Sys, actions: seq<Action>, id: U32)
    requires Inv(s) && AllowedRun(s, actions)
    ensures Places(Run(s, actions), id) == if Exists(s, actions, id, Places(s, id) == 1) then 1 else 0
    decreases |actions|
  {
    assert Places(s, id) <= 1;
    if actions != [] {
      ActionKeeps(s, actions[0]);
      ActionCounts(s, actions[0], id);
      BornOrDied(s, actions[0], id);
      ExistsInOnePlace(Do(s, actions[0]), actions[1..], id);
    }
  }

  /** Only what is nowhere is created, and only what is somewhere is destroyed. */
  lemma BornOrDied(s: Sys, a: Action, id: U32)
    requires Inv(s) && Allowed(s, a)
    ensures Born(s, a, id) ==> Places(s, id) == 0
    ensures Died(s, a, id) ==> Places(s, id) == 1
  {
    assert Places(s, id) <= 1;
    if Born(s, a, id) {
      NextIsNew(s);
    }
  }

  lemma InitialShape(lifetime: U32)
    ensures Shape(InitialSys(lifetime))
  {}

  lemma InitialInv(lifetime: U32)
    ensures Inv(InitialSys(lifetime))
  {
    var s := InitialSys(lifetime);
    InitialShape(lifetime);
    forall id: U32
      ensures Places(s, id) == if id == s.idleId then 1 else 0
    {
      CountOne(s.lists.idle[0], id);
    }
  }

  lemma {:induction false} RunKeeps(s: Sys, actions: seq<Action>)
    requires Inv(s) && AllowedRun(s, actions)
    ensures Inv(Run(s, actions))
    decreases |actions|
  {
    if actions != [] {
      ActionKeeps(s, actions[0]);
      RunKeeps(Do(s, actions[0]), actions[1..]);
    }
  }

  /** Every run from the start of the system keeps the invariant. */
  lemma EveryRun(lifetime: U32, actions: seq<Action>)
    ensures AllowedRun(InitialSys(lifetime), actions) ==> Inv(Run(InitialSys(lifetime), actions))
  {
    InitialInv(lifetime);
    if AllowedRun(InitialSys(lifetime), actions) {
      RunKeeps(InitialSys(lifetime), actions);
    }
  }
}
