/** Wake-ups, times and priorities over runs of the kernel. */
module KernelTimes {
  import opened Base
  import opened Events
  import opened Tasks
  import opened Broker
  import opened BrokerExact
  import opened BrokerOrder
  import opened Kernel
  import opened KernelRuns
  import Fletcher
  import IdType

  // ----- wake-ups -----

  /** In every reachable state, one tick takes a task that is in the waiting or the idle list (after the switch, if
      there is one) to the queue exactly if it wakes by the events emitted so far; otherwise it stays, with only its
      counters advanced. The running task is not touched. */
  lemma TickWakes(s: Sys, dispatch: bool, delta: U32, i: nat, waiting: bool)
    requires Inv(s) && s.running.Holds?
    requires var l := (if dispatch then SwitchTask(s) else s).lists; i < if waiting then |l.wait| else |l.idle|
    ensures var s1, s' := if dispatch then SwitchTask(s) else s, Tick(s, dispatch, true, delta);
            var t := if waiting then s1.lists.wait[i] else s1.lists.idle[i];
            && Count(s'.lists.queue, t.id) == (if Woken(t, s.events, delta) then 1 else 0)
            && (!Woken(t, s.events, delta) ==> Stayed(t, delta) in if waiting then s'.lists.wait else s'.lists.idle)
            && s'.running == s1.running
  {
    var s1 := if dispatch then SwitchTask(s) else s;
    if dispatch {
      SwitchKeeps(s);
    }
    forall id: U32
      ensures Total(s1.lists, id) <= 1
    {
      assert Places(s1, id) <= 1;
    }
    WokenIffQueued(s1.lists, s1.events, delta, i, waiting);
  }

  /** The task of the idle list, or else of the waiting list, with an identifier. */
  function Listed(l: Lists, id: U32): (t: Task)
    requires Found(l, id)
    ensures t.id == id && (t in l.idle || t in l.wait)
  {
    var i := Find(l.idle, id);
    if i < |l.idle| then l.idle[i] else l.wait[Find(l.wait, id)]
  }

  lemma ListedIs(s: Sys, t: Task)
    requires Inv(s) && (t in s.lists.idle || t in s.lists.wait)
    ensures Found(s.lists, t.id) && Listed(s.lists, t.id) == t
  {
    assert Places(s, t.id) <= 1;
    CountPositive(s.lists.idle, t.id);
    CountPositive(s.lists.wait, t.id);
    if t in s.lists.idle {
      var k :| 0 <= k < |s.lists.idle| && s.lists.idle[k] == t;
      FindIs(s.lists.idle, k);
    } else {
      var k :| 0 <= k < |s.lists.wait| && s.lists.wait[k] == t;
      FindIs(s.lists.wait, k);
    }
  }

  /** A switch takes no task out of the waiting list, and none but the idle task out of the idle list. */
  lemma SwitchKeepsListed(s: Sys, id: U32)
    requires Inv(s) && s.running.Holds? && Found(s.lists, id) && id != s.idleId
    ensures Found(SwitchTask(s).lists, id) && Listed(SwitchTask(s).lists, id) == Listed(s.lists, id)
  {
    var t := Listed(s.lists, id);
    SwitchKeeps(s);
    PutAwayHas(s, t);
    TakeNextHas(PutAway(s.lists, s.running.value, s.idleId), s.idleId, t);
    ListedIs(SwitchTask(s), t);
  }

  lemma PutAwayHas(s: Sys, t: Task)
    requires Inv(s) && s.running.Holds? && (t in s.lists.idle || t in s.lists.wait)
    ensures var l := PutAway(s.lists, s.running.value, s.idleId); t in l.idle || t in l.wait
  {
    var x := s.running.value;
    assert Places(s, x.id) <= 1;
    AddSortedKeeps(s.lists.wait, x.(state := Waiting), t.id);
    AddSortedKeeps(s.lists.idle, x.(state := Idle), t.id);
    AddSortedKeeps(s.lists.idle, x.(state := Idle, delete := false), t.id);
  }

  lemma TakeNextHas(l: Lists, idleId: U32, t: Task)
    requires (t in l.idle || t in l.wait) && t.id != idleId
    ensures var l' := TakeNext(l, idleId).1; t in l'.idle || t in l'.wait
  {
    var i := Find(l.idle, idleId);
    if i < |l.idle| {
      assert l.idle == l.idle[..i] + [l.idle[i]] + l.idle[i + 1..];
    }
  }

  /** After a tick the task is in the queue. */
  predicate Queued(s: Sys, dispatch: bool, delta: U32, id: U32) {
    Count(Tick(s, dispatch, true, delta).lists.queue, id) == 1
  }

  /** A tick queues a task that rests or waits exactly if it wakes, be it with a switch before or without. */
  lemma TickQueues(s: Sys, id: U32, dispatch: bool, delta: U32)
    requires Inv(s) && s.running.Holds? && Found(s.lists, id) && (dispatch ==> id != s.idleId)
    ensures Queued(s, dispatch, delta, id) <==> Woken(Listed(s.lists, id), s.events, delta)
  {
    if dispatch {
      SwitchKeepsListed(s, id);
    }
    var l := (if dispatch then SwitchTask(s) else s).lists;
    var waiting := Find(l.idle, id) == |l.idle|;
    TickWakes(s, dispatch, delta, Find(if waiting then l.wait else l.idle, id), waiting);
  }

  /** Refreshing an emitted event wakes nobody else. */
  lemma RefreshedWake(t: Task, todo: seq<Event>, i: nat, delta: U32)
    requires i < |todo|
    ensures Woken(t, todo[i := LifeTimeReset(todo[i])], delta) <==> Woken(t, todo, delta)
  {
    var todo' := todo[i := LifeTimeReset(todo[i])];
    assert forall k :: 0 <= k < |todo| ==> todo'[k].flags == todo[k].flags && todo'[k].source == todo[k].source;
    forall e
      ensures Matched(todo', e) <==> Matched(todo, e)
    {
      assert forall k :: 0 <= k < |todo| ==> (Compared(todo', k) <==> Compared(todo, k));
    }
  }

  lemma ResumedEvents(s: Sys, id: U32, t: Task, delta: U32)
    requires Inv(s) && t.id == id
    ensures Woken(t, Resume(s, id).1.events, delta) <==> Resume(s, id).0 == Ok || Woken(t, s.events, delta)
  {
    var l := Resume(s, id).1.events;
    if Resume(s, id).0 == Ok {
      EmitKeeps(s.events, id, TASK_EVENT_ACTIVATE, ADDRESSED, s.lifetime);
      assert l[|s.events|].flags.addressed && l[|s.events|].source == id;
    } else {
      RefreshedWake(t, s.events, IndexOf(s.events, Fletcher.EventToHash(id, TASK_EVENT_ACTIVATE)), delta);
    }
  }

  /** A task that is resumed while it rests or waits is in the queue after the next cycle exactly if the request is
      accepted or the task wakes without it. When the tick also dispatches, the idle task may run at once. */
  lemma ResumeWakesIff(s: Sys, id: U32, dispatch: bool, delta: U32)
    requires Inv(s) && s.running.Holds? && Found(s.lists, id) && (dispatch ==> id != s.idleId)
    ensures Queued(Resume(s, id).1, dispatch, delta, id)
            <==> Resume(s, id).0 == Ok || Woken(Listed(s.lists, id), s.events, delta)
  {
    ResumeKeeps(s, id);
    TickQueues(Resume(s, id).1, id, dispatch, delta);
    ResumedEvents(s, id, Listed(s.lists, id), delta);
  }

  /** In particular it is if the request is accepted, or refused because the task is already being activated: only
      another event with the same hash can make the request fail. */
  lemma ResumeWakes(s: Sys, id: U32, dispatch: bool, delta: U32)
    requires Inv(s) && s.running.Holds? && (dispatch ==> id != s.idleId)
    requires Resume(s, id).0 == Ok || AddressedTo(s.events, id)
    requires Count(s.lists.idle, id) + Count(s.lists.wait, id) > 0
    ensures Count(Tick(Resume(s, id).1, dispatch, true, delta).lists.queue, id) == 1
  {
    CountPositive(s.lists.idle, id);
    CountPositive(s.lists.wait, id);
    ResumeWakesIff(s, id, dispatch, delta);
  }

  lemma ResumeKeeps(s: Sys, id: U32)
    requires Inv(s)
    ensures Inv(Resume(s, id).1)
  {
    ActionKeeps(s, EmitEvent(id, TASK_EVENT_ACTIVATE, ADDRESSED));
  }

  // ----- the lifetimes of emitted events -----

  /** The time since each event was last emitted, by identifier, after an action. */
  function AgesAfter(s: Sys, ages: map<U16, nat>, a: Action): map<U16, nat> {
    match a
    case EmitEvent(source, code, _) => ages[Fletcher.EventToHash(source, code) := 0]
    case Create(category, level, kernelMode, start) =>
      if start && Creatable(s, category, level, kernelMode)
      then ages[Fletcher.EventToHash(NextId(s), TASK_EVENT_ACTIVATE) := 0] else ages
    case Ticks(_, unlocked, delta) =>
      if s.running.Holds? && unlocked then map id | id in ages :: ages[id] + delta else ages
    case _ => ages
  }

  predicate AgeOk(e: Event, ages: map<U16, nat>, lifetime: U32) {
    !IsMock(e) ==> e.id in ages && e.cnt == ages[e.id] < lifetime == e.life
  }

  /** Each emitted event's counter is its true age, and below the lifetime. */
  ghost predicate AgesOk(s: Sys, ages: map<U16, nat>) {
    s.lifetime > 0 && forall i :: 0 <= i < |s.events| ==> AgeOk(s.events[i], ages, s.lifetime)
  }

  /** The sum of a counter and a time cannot wrap. */
  predicate NoWrap(s: Sys, a: Action) { a.Ticks? ==> a.delta + s.lifetime <= 0x1_0000_0000 }

  lemma EmitAges(s: Sys, source: U32, code: U32, flags: Flags, ages: map<U16, nat>)
    requires AgesOk(s, ages) && IdsDistinct(s.events)
    ensures AgesOk(EventEmit(s, source, code, flags).1, ages[Fletcher.EventToHash(source, code) := 0])
  {
    var hash := Fletcher.EventToHash(source, code);
    var i := IndexOf(s.events, hash);
    var l' := EventEmit(s, source, code, flags).1.events;
    EmittedAges(s, source, code, flags, ages, i);
    forall k | 0 <= k < |l'|
      ensures AgeOk(l'[k], ages[hash := 0], s.lifetime)
    {
      if k != i {
        assert l'[k] == s.events[k] && s.events[k].id != hash;
        assert AgeOk(s.events[k], ages, s.lifetime);
      }
    }
  }

  lemma EmittedAges(s: Sys, source: U32, code: U32, flags: Flags, ages: map<U16, nat>, i: nat)
    requires AgesOk(s, ages) && i == IndexOf(s.events, Fletcher.EventToHash(source, code))
    ensures var e := if i < |s.events| then LifeTimeReset(s.events[i]) else NewEvent(source, code, flags, s.lifetime);
            AgeOk(e, ages[Fletcher.EventToHash(source, code) := 0], s.lifetime)
  {
    if i < |s.events| {
      assert AgeOk(s.events[i], ages, s.lifetime);
    }
  }

  /** An emitted event goes in the first cycle in which its age reaches the lifetime, and not before. */
  lemma CycleAges(s: Sys, delta: U32, ages: map<U16, nat>)
    requires IdsDistinct(s.events) && AgesOk(s, ages) && delta + s.lifetime <= 0x1_0000_0000
    ensures AgesOk(SchedulerCycle(s, delta), map id | id in ages :: ages[id] + delta)
    ensures forall i :: 0 <= i < |s.events| && !IsMock(s.events[i]) ==>
              ((exists e' :: e' in EventsAfter(s.events, delta) && e'.id == s.events[i].id)
               <==> ages[s.events[i].id] + delta < s.lifetime)
  {
    EventsAfterExact(s.events, delta);
    var l' := EventsAfter(s.events, delta);
    var ages' := map id | id in ages :: ages[id] + delta;
    forall k | 0 <= k < |l'|
      ensures AgeOk(l'[k], ages', s.lifetime)
    {
      assert l'[k] in l';
      assert Survives(l'[k], s.events, delta);
      var i :| 0 <= i < |s.events| && EventAfter(s.events[i], delta) == [l'[k]];
      OneAges(s.events[i], delta, ages, s.lifetime);
    }
    forall i | 0 <= i < |s.events| && !IsMock(s.events[i])
      ensures (exists e' :: e' in l' && e'.id == s.events[i].id) <==> ages[s.events[i].id] + delta < s.lifetime
    {
      SurvivesIff(s, delta, ages, i);
    }
  }

  lemma OneAges(e: Event, delta: U32, ages: map<U16, nat>, lifetime: U32)
    requires AgeOk(e, ages, lifetime) && delta + lifetime <= 0x1_0000_0000
    ensures !IsMock(e) ==> (EventAfter(e, delta) != [] <==> ages[e.id] + delta < lifetime)
    ensures EventAfter(e, delta) != [] ==> |EventAfter(e, delta)| == 1 && EventAfter(e, delta)[0].id == e.id
    ensures EventAfter(e, delta) != [] ==>
            AgeOk(EventAfter(e, delta)[0], map id | id in ages :: ages[id] + delta, lifetime)
  {}

  lemma SurvivesIff(s: Sys, delta: U32, ages: map<U16, nat>, i: nat)
    requires IdsDistinct(s.events) && AgesOk(s, ages) && delta + s.lifetime <= 0x1_0000_0000
    requires i < |s.events| && !IsMock(s.events[i])
    ensures (exists e' :: e' in EventsAfter(s.events, delta) && e'.id == s.events[i].id)
            <==> ages[s.events[i].id] + delta < s.lifetime
  {
    EventsAfterExact(s.events, delta);
    OneAges(s.events[i], delta, ages, s.lifetime);
    var l' := EventsAfter(s.events, delta);
    if EventAfter(s.events[i], delta) != [] {
      var e' := EventAfter(s.events[i], delta)[0];
      assert EventAfter(s.events[i], delta) == [e'];
      assert Survives(e', s.events, delta) && e' in l' && e'.id == s.events[i].id;
    }
    if e' :| e' in l' && e'.id == s.events[i].id {
      assert Survives(e', s.events, delta);
      var j :| 0 <= j < |s.events| && EventAfter(s.events[j], delta) == [e'];
      OneAges(s.events[j], delta, ages, s.lifetime);
      assert i == j;
    }
  }

  lemma ActionAges(s: Sys, a: Action, ages: map<U16, nat>)
    requires Inv(s) && Allowed(s, a) && AgesOk(s, ages) && NoWrap(s, a)
    ensures AgesOk(Do(s, a), AgesAfter(s, ages, a)) && Do(s, a).lifetime == s.lifetime
  {
    match a
    case Create(category, level, kernelMode, start) =>
      if start && Creatable(s, category, level, kernelMode) {
        var s' := TaskCreate(s, category, level, kernelMode, false).1;
        EmitAges(s', NextId(s), TASK_EVENT_ACTIVATE, ADDRESSED, ages);
      }
    case EmitEvent(source, code, flags) => EmitAges(s, source, code, flags, ages);
    case Ticks(dispatch, unlocked, delta) =>
      if s.running.Holds? && unlocked {
        CycleAges(if dispatch then SwitchTask(s) else s, delta, ages);
      }
    case Delete(_) =>
    case SetPriority(_, _) =>
    case RegisterEvent(_, _, _, _) => OnRunning(s, a);
    case Handle(_) => OnRunning(s, a);
    case Remove(_, _) => OnRunning(s, a);
    case Start(_) =>
  }

  function AgesRun(s: Sys, ages: map<U16, nat>, actions: seq<Action>): map<U16, nat>
    requires AllowedRun(s, actions)
    decreases |actions|
  {
    if actions == [] then ages else AgesRun(Do(s, actions[0]), AgesAfter(s, ages, actions[0]), actions[1..])
  }

  /** In every run whose ticks are short enough for the 32-bit sums, the counters are the true ages. */
  lemma {:induction false} RunAges(s: Sys, ages: map<U16, nat>, actions: seq<Action>)
    requires Inv(s) && AllowedRun(s, actions) && AgesOk(s, ages)
    requires forall i :: 0 <= i < |actions| ==> NoWrap(s, actions[i])
    ensures AgesOk(Run(s, actions), AgesRun(s, ages, actions))
    decreases |actions|
  {
    if actions != [] {
      var s' := Do(s, actions[0]);
      ActionKeeps(s, actions[0]);
      assert NoWrap(s, actions[0]);
      ActionAges(s, actions[0], ages);
      forall i | 0 <= i < |actions| - 1
        ensures NoWrap(s', actions[1..][i])
      {
        assert NoWrap(s, actions[i + 1]);
      }
      RunAges(s', AgesAfter(s, ages, actions[0]), actions[1..]);
    }
  }

  // ----- the timeouts of registered events -----

  predicate Waits(s: Sys, id: U32) { Find(s.lists.wait, id) < |s.lists.wait| }

  function Waiter(s: Sys, id: U32): Task
    requires Waits(s, id)
  {
    s.lists.wait[Find(s.lists.wait, id)]
  }

  /** The task is in the waiting list now and after each of the actions. */
  predicate StaysWaiting(s: Sys, actions: seq<Action>, id: U32)
    requires AllowedRun(s, actions)
    decreases |actions|
  {
    Waits(s, id) && (actions == [] || StaysWaiting(Do(s, actions[0]), actions[1..], id))
  }

  /** The time that an action lets go by for those who wait: that of a tick that runs the scheduler. */
  function Spent(a: Action): nat { if a.Ticks? && a.unlocked then a.delta else 0 }

  function TimeSpent(actions: seq<Action>): nat
    decreases |actions|
  {
    if actions == [] then 0 else Spent(actions[0]) + TimeSpent(actions[1..])
  }

  lemma FindIs(l: seq<Task>, i: nat)
    requires Ascending(l) && i < |l|
    ensures Find(l, l[i].id) == i
  {}

  /** What a switch leaves of a waiting task: all of it. */
  lemma SwitchKeepsWaiter(s: Sys, id: U32)
    requires Inv(s) && s.running.Holds? && Waits(s, id)
    ensures Inv(SwitchTask(s)) && SwitchTask(s).running.Holds?
    ensures Waits(SwitchTask(s), id) && Waiter(SwitchTask(s), id) == Waiter(s, id)
  {
    var l := PutAway(s.lists, s.running.value, s.idleId);
    SwitchKeeps(s);
    assert Places(s, s.running.value.id) <= 1;
    PutAwayWaits(s.lists, s.running.value, s.idleId, Waiter(s, id));
    TakeNextWaits(l, s.idleId);
    FindMember(SwitchTask(s).lists.wait, Waiter(s, id));
  }

  lemma PutAwayWaits(l: Lists, t: Task, idleId: U32, x: Task)
    requires Ascending(l.wait) && Count(l.wait, t.id) == 0 && x in l.wait
    ensures x in PutAway(l, t, idleId).wait
  {
    AddSortedKeeps(l.wait, t.(state := Waiting), x.id);
  }

  lemma TakeNextWaits(l: Lists, idleId: U32)
    ensures TakeNext(l, idleId).1.wait == l.wait
  {}

  lemma FindMember(l: seq<Task>, x: Task)
    requires Ascending(l) && x in l
    ensures Find(l, x.id) < |l| && l[Find(l, x.id)] == x
  {
    var k :| 0 <= k < |l| && l[k] == x;
    FindIs(l, k);
  }

  /** What a cycle leaves of a waiting task that goes on waiting. */
  lemma CycleKeepsWaiter(s: Sys, delta: U32, id: U32)
    requires Inv(s) && s.running.Holds? && Waits(s, id) && Waits(SchedulerCycle(s, delta), id)
    ensures Waiter(SchedulerCycle(s, delta), id) == Stayed(Waiter(s, id), delta)
    ensures !Woken(Waiter(s, id), s.events, delta)
  {
    forall other: U32
      ensures Total(s.lists, other) <= 1
    {
      assert Places(s, other) <= 1;
    }
    CycleRemains(s.lists, s.events, delta);
    RemainingIs(s.lists.wait, s.events, delta, id);
  }

  lemma RemainingIs(l: seq<Task>, todo: seq<Event>, delta: U32, id: U32)
    requires Ascending(l) && Find(Remaining(l, todo, delta), id) < |Remaining(l, todo, delta)|
    ensures var r := Remaining(l, todo, delta);
            && Find(l, id) < |l| && r[Find(r, id)] == Stayed(l[Find(l, id)], delta)
            && !Woken(l[Find(l, id)], todo, delta)
  {
    var r := Remaining(l, todo, delta);
    RemainingOrigin(l, todo, delta);
    assert r[Find(r, id)] in r;
    var k :| 0 <= k < |l| && !Woken(l[k], todo, delta) && r[Find(r, id)] == Stayed(l[k], delta);
    FindIs(l, k);
  }

  /** An action that leaves a task waiting leaves its events, but for the counters that a cycle advances. */
  lemma ActionKeepsWaiter(s: Sys, a: Action, id: U32)
    requires Inv(s) && Allowed(s, a) && Waits(s, id) && Waits(Do(s, a), id)
    ensures var t, t' := Waiter(s, id), Waiter(Do(s, a), id);
            if a.Ticks? && a.unlocked then t'.events == Stayed(t, a.delta).events && !Woken(t, s.events, a.delta)
            else t'.events == t.events
  {
    match a
    case Ticks(dispatch, unlocked, delta) => TickKeepsWaiter(s, dispatch, unlocked, delta, id);
    case Delete(target) => DeleteKeepsWaiter(s, target, id);
    case SetPriority(task, level) => PriorityKeepsWaiter(s, task, level, id);
    case Create(category, level, kernelMode, start) => CreateKeepsWait(s, category, level, kernelMode, start);
    case RegisterEvent(_, _, _, _) => OnRunning(s, a);
    case Handle(_) => OnRunning(s, a);
    case Remove(_, _) => OnRunning(s, a);
    case EmitEvent(_, _, _) =>
    case Start(_) =>
  }

  lemma TickKeepsWaiter(s: Sys, dispatch: bool, unlocked: bool, delta: U32, id: U32)
    requires Inv(s) && Waits(s, id) && Waits(Tick(s, dispatch, unlocked, delta), id)
    ensures var t, t' := Waiter(s, id), Waiter(Tick(s, dispatch, unlocked, delta), id);
            if unlocked then t' == Stayed(t, delta) && !Woken(t, s.events, delta) else t' == t
  {
    if dispatch {
      SwitchKeepsWaiter(s, id);
    }
    if unlocked {
      CycleKeepsWaiter(if dispatch then SwitchTask(s) else s, delta, id);
    }
  }

  lemma CreateKeepsWait(s: Sys, category: U8, level: U8, kernelMode: bool, start: bool)
    ensures TaskCreate(s, category, level, kernelMode, start).1.lists.wait == s.lists.wait
  {}

  lemma DeleteKeepsWaiter(s: Sys, target: Option<U32>, id: U32)
    requires Waits(s, id)
    ensures var s' := TaskDelete(s, target).1; Waits(s', id) && Waiter(s', id).events == Waiter(s, id).events
  {
    if target.Some? {
      ChangeKeepsWaiter(s.lists, target.value, FlagDelete, id);
    }
  }

  lemma PriorityKeepsWaiter(s: Sys, task: U32, level: U8, id: U32)
    requires Waits(s, id)
    ensures var s' := TaskPrioritySet(s, task, level).1; Waits(s', id) && Waiter(s', id).events == Waiter(s, id).events
  {
    ChangeKeepsWaiter(s.lists, task, SetLevel(level), id);
  }

  lemma ChangeKeepsWaiter(l: Lists, other: U32, c: Change, id: U32)
    requires Find(l.wait, id) < |l.wait|
    ensures var w := ChangeFound(l, other, c).wait;
            Find(w, id) < |w| && w[Find(w, id)].events == l.wait[Find(l.wait, id)].events
  {
    var j := Find(l.wait, other);
    if j < |l.wait| {
      ChangeKeepsFind(l.wait, j, c, id);
    }
  }

  lemma ChangeKeepsFind(l: seq<Task>, j: nat, c: Change, id: U32)
    requires j < |l| && Find(l, id) < |l|
    ensures var l' := l[j := Changed(l[j], c)];
            Find(l', id) == Find(l, id) && l'[Find(l, id)].events == l[Find(l, id)].events
  {
    FoundAt(l[j := Changed(l[j], c)], id, Find(l, id));
  }

  lemma FoundAt(l: seq<Task>, id: U32, i: nat)
    requires i < |l| && l[i].id == id && forall k :: 0 <= k < i ==> l[k].id != id
    ensures Find(l, id) == i
  {}

  predicate MayTimeOut(t: Task, j: nat) {
    j < |t.events| && !t.events[j].flags.noTimeout && t.events[j].cnt < t.events[j].life
  }

  predicate Short(a: Action, life: U32) { a.Ticks? ==> a.delta + life <= 0x1_0000_0000 }

  /** While its task waits, a registered event counts the time of the cycles, and stays below its lifetime. */
  lemma ActionCountsTime(s: Sys, a: Action, id: U32, j: nat)
    requires Inv(s) && Allowed(s, a) && Waits(s, id) && Waits(Do(s, a), id)
    requires MayTimeOut(Waiter(s, id), j) && Short(a, Waiter(s, id).events[j].life)
    ensures MayTimeOut(Waiter(Do(s, a), id), j)
    ensures var e := Waiter(s, id).events[j]; Waiter(Do(s, a), id).events[j] == e.(cnt := e.cnt + Spent(a))
  {
    ActionKeepsWaiter(s, a, id);
    if a.Ticks? && a.unlocked {
      StayedCounts(Waiter(s, id), s.events, a.delta, j);
    }
  }

  lemma StayedCounts(t: Task, todo: seq<Event>, delta: U32, j: nat)
    requires MayTimeOut(t, j) && !Woken(t, todo, delta) && delta + t.events[j].life <= 0x1_0000_0000
    ensures MayTimeOut(Stayed(t, delta), j)
    ensures var e := t.events[j]; Stayed(t, delta).events[j] == e.(cnt := e.cnt + delta)
  {
    assert !Wakes(todo, delta, t.events[j]);
    IncrementRightIff(t.events[j], delta);
  }

  /** In every run through which a task waits, the counter of its registered event is the initial one and the time of
      all cycles since, and below the lifetime. */
  lemma {:induction false} WaitingCounts(s: Sys, actions: seq<Action>, id: U32, j: nat)
    requires Inv(s) && AllowedRun(s, actions) && StaysWaiting(s, actions, id) && MayTimeOut(Waiter(s, id), j)
    requires forall i :: 0 <= i < |actions| ==> Short(actions[i], Waiter(s, id).events[j].life)
    ensures var s' := Run(s, actions); Inv(s') && Waits(s', id) && MayTimeOut(Waiter(s', id), j)
    ensures var e, e' := Waiter(s, id).events[j], Waiter(Run(s, actions), id).events[j];
            e'.cnt == e.cnt + TimeSpent(actions) && e' == e.(cnt := e'.cnt)
    decreases |actions|
  {
    if actions != [] {
      var s1 := Do(s, actions[0]);
      ActionKeeps(s, actions[0]);
      assert Short(actions[0], Waiter(s, id).events[j].life) && Waits(s1, id);
      ActionCountsTime(s, actions[0], id, j);
      forall i | 0 <= i < |actions| - 1
        ensures Short(actions[1..][i], Waiter(s1, id).events[j].life)
      {
        assert Short(actions[i + 1], Waiter(s, id).events[j].life);
      }
      WaitingCounts(s1, actions[1..], id, j);
    }
  }

  /** An event that is not matched wakes its waiting task in the first tick in which the time of all cycles since its
      last reset reaches its lifetime, and in none before: with no other event and no address, that is when the task
      wakes. */
  lemma TimesOutOnTime(s: Sys, actions: seq<Action>, id: U32, j: nat, dispatch: bool, delta: U32)
    requires Inv(s) && AllowedRun(s, actions) && StaysWaiting(s, actions, id) && MayTimeOut(Waiter(s, id), j)
    requires forall i :: 0 <= i < |actions| ==> Short(actions[i], Waiter(s, id).events[j].life)
    requires delta + Waiter(s, id).events[j].life <= 0x1_0000_0000
    requires !Flagged(Waiter(s, id).events[j]) && !Matched(Run(s, actions).events, Waiter(s, id).events[j])
    ensures var e, s' := Waiter(s, id).events[j], Run(s, actions);
            Inv(s') && Waits(s', id) && j < |Waiter(s', id).events|
            && NextTickDecides(s', id, j, dispatch, delta, e.cnt + TimeSpent(actions) + delta >= e.life)
  {
    WaitingCounts(s, actions, id, j);
    var s' := Run(s, actions);
    MatchedSame(s'.events, Waiter(s, id).events[j], Waiter(s', id).events[j]);
    DueWakes(s', id, j, dispatch, delta);
  }

  /** The event wakes its task in the next tick exactly if it is due; it is then in the queue, and, if nothing else can
      wake it, only then. */
  predicate NextTickDecides(s: Sys, id: U32, j: nat, dispatch: bool, delta: U32, due: bool)
    requires Waits(s, id) && j < |Waiter(s, id).events|
  {
    && (Wakes(s.events, delta, Waiter(s, id).events[j]) <==> due)
    && (due ==> Queued(s, dispatch, delta, id))
    && (!AddressedTo(s.events, id) && |Waiter(s, id).events| == 1 ==> (Queued(s, dispatch, delta, id) <==> due))
  }

  lemma DueWakes(s: Sys, id: U32, j: nat, dispatch: bool, delta: U32)
    requires Inv(s) && Waits(s, id) && MayTimeOut(Waiter(s, id), j)
             && delta + Waiter(s, id).events[j].life <= 0x1_0000_0000
    requires !Flagged(Waiter(s, id).events[j]) && !Matched(s.events, Waiter(s, id).events[j])
    ensures var e := Waiter(s, id).events[j]; NextTickDecides(s, id, j, dispatch, delta, e.cnt + delta >= e.life)
  {
    IncrementRightIff(Waiter(s, id).events[j], delta);
    WokenWaiterIsQueued(s, id, dispatch, delta);
    OneEventWakes(Waiter(s, id), s.events, delta, j);
  }

  lemma OneEventWakes(t: Task, todo: seq<Event>, delta: U32, j: nat)
    requires j < |t.events|
    ensures Wakes(todo, delta, t.events[j]) ==> Woken(t, todo, delta)
    ensures |t.events| == 1 && !AddressedTo(todo, t.id) ==> (Woken(t, todo, delta) <==> Wakes(todo, delta, t.events[j]))
  {}

  lemma WokenWaiterIsQueued(s: Sys, id: U32, dispatch: bool, delta: U32)
    requires Inv(s) && Waits(s, id)
    ensures Queued(s, dispatch, delta, id) <==> Woken(Waiter(s, id), s.events, delta)
  {
    ListedIs(s, Waiter(s, id));
    TickQueues(s, id, dispatch, delta);
  }

  lemma MatchedSame(todo: seq<Event>, e: Event, e': Event)
    requires IsEqual(e, e')
    ensures Matched(todo, e) <==> Matched(todo, e')
  {}

  // ----- priorities -----

  /** A change through KTcbFromId reaches every task of the idle and the waiting list with the identifier, and no other
      task and no task of the queue. */
  lemma ChangesOnlyFound(s: Sys, id: U32, c: Change)
    requires Inv(s)
    ensures var l, l' := s.lists, ChangeFound(s.lists, id, c);
            && l'.queue == l.queue && l'.entered == l.entered && |l'.idle| == |l.idle| && |l'.wait| == |l.wait|
            && (forall i :: 0 <= i < |l.idle| ==>
              l'.idle[i] == if l.idle[i].id == id then Changed(l.idle[i], c) else l.idle[i])
            && (forall i :: 0 <= i < |l.wait| ==>
              l'.wait[i] == if l.wait[i].id == id then Changed(l.wait[i], c) else l.wait[i])
  {
    assert Places(s, id) <= 1;
    CountPositive(s.lists.idle, id);
    CountPositive(s.lists.wait, id);
  }

  /** The same task with the combined priority of its category and the level. */
  predicate HasLevel(t: Task, t': Task, level: U8) {
    t' == t.(priority := t'.priority) && t'.priority == CalculatePriority(t.category, level)
  }

  /** The tasks with the identifier have the level, and the others are the same. */
  predicate Leveled(l: seq<Task>, l': seq<Task>, id: U32, level: U8) {
    |l'| == |l| && forall i :: 0 <= i < |l| ==> if l[i].id == id then HasLevel(l[i], l'[i], level) else l'[i] == l[i]
  }

  /** TaskPrioritySet gives a task that rests or waits, or the running one, the combined priority of its category and
      the level, and changes nothing else; it fails for all others. */
  lemma PrioritySetIff(s: Sys, id: U32, level: U8)
    requires Inv(s) && PRIO_LIMIT_LOW <= level <= PRIO_LIMIT_HIGH
    ensures TaskPrioritySet(s, id, level).0 == Ok <==>
            if id == ID_INVALID then s.running.Holds? else Count(s.lists.idle, id) + Count(s.lists.wait, id) == 1
    ensures TaskPrioritySet(s, id, level).0 != Ok ==> TaskPrioritySet(s, id, level).1 == s
    ensures TaskPrioritySet(s, id, level).0 == Ok ==>
              var s' := TaskPrioritySet(s, id, level).1;
              if id == ID_INVALID
              then s'.running.Holds? && s' == s.(running := s'.running)
                   && HasLevel(s.running.value, s'.running.value, level)
              else && s' == s.(lists := s.lists.(idle := s'.lists.idle, wait := s'.lists.wait))
                   && Leveled(s.lists.idle, s'.lists.idle, id, level) && Leveled(s.lists.wait, s'.lists.wait, id, level)
  {
    assert Places(s, id) <= 1;
    CountPositive(s.lists.idle, id);
    CountPositive(s.lists.wait, id);
    ChangesOnlyFound(s, id, SetLevel(level));
  }

  /** A task in the queue is out of reach of TaskPrioritySet, which therefore cannot disturb its order. */
  lemma QueuedIsOutOfReach(s: Sys, id: U32, level: U8)
    requires Inv(s) && Count(s.lists.queue, id) > 0
    ensures TaskPrioritySet(s, id, level).1 == s && TaskPrioritySet(s, id, level).0 != Ok
  {
    assert Places(s, id) <= 1 && Issued(s, id);
    CountPositive(s.lists.idle, id);
    CountPositive(s.lists.wait, id);
  }

  /** A switch takes the earliest arrival of maximal priority from the queue, or else the idle task. */
  lemma SwitchTakes(s: Sys)
    requires Inv(s) && s.running.Holds?
    ensures SwitchTask(s).running.Holds?
    ensures if s.lists.queue == [] then SwitchTask(s).running.value.id == s.idleId
            else s.lists.entered != []
                 && KeyOf(SwitchTask(s).running.value) == s.lists.entered[Next(s.lists.entered)]
                 && SwitchTask(s).lists.entered == Served(s.lists.entered)
  {
    SwitchKeeps(s);
    var l := PutAway(s.lists, s.running.value, s.idleId);
    if s.lists.queue != [] {
      TakesNextArrival(l, s.idleId);
    }
  }

  /** A created task rests, with no event, not flagged, with the combined priority of its arguments, and nothing else
      changes in the lists. */
  lemma CreatedTask(s: Sys, category: U8, level: U8, kernelMode: bool, start: bool)
    requires Inv(s) && Creatable(s, category, level, kernelMode)
    ensures var (id, s') := TaskCreate(s, category, level, kernelMode, start);
            && id != ID_INVALID && Places(s, id) == 0
            && s'.lists == s.lists.(idle := s'.lists.idle) && s'.running == s.running
            && forall t :: t in s'.lists.idle <==>
                             t in s.lists.idle || t == Task(id, category, CalculatePriority(category, level), Idle,
                                               false, [])
  {
    NextIsNew(s);
    var t := Task(NextId(s), category, CalculatePriority(category, level), Idle, false, []);
    AddSortedKeeps(s.lists.idle, t, t.id);
  }

  /** A handled event is no longer flagged if it is permanent, and gone otherwise; the others stay as they are. */
  lemma HandledEvent(s: Sys, i: nat)
    requires s.running.Holds? && i < |s.running.value.events|
    ensures EventHandle(s, i).running.Holds? && EventHandle(s, i) == s.(running := EventHandle(s, i).running)
    ensures EventIsHandled(s.running.value.events, i, EventHandle(s, i).running.value.events)
  {
    WithoutAt(s.running.value.events, i);
  }

  predicate EventIsHandled(l: seq<Event>, i: nat, l': seq<Event>)
    requires i < |l|
  {
    if l[i].flags.permanent
    then && |l'| == |l|
         && l'[i] == l[i].(flags := l[i].flags.(occurred := false, timedOut := false), cnt := 0, occ := 0)
         && forall k :: 0 <= k < |l| && k != i ==> l'[k] == l[k]
    else |l'| == |l| - 1 && forall k :: 0 <= k < |l'| ==> l'[k] == l[if k < i then k else k + 1]
  }

  lemma WithoutAt(l: seq<Event>, i: nat)
    requires i < |l|
    ensures |Without(l, i)| == |l| - 1
    ensures forall k :: 0 <= k < |l| - 1 ==> Without(l, i)[k] == l[if k < i then k else k + 1]
  {}

  /** OsStart runs the wanted task if there is one, and otherwise the idle task. */
  lemma StartRuns(s: Sys, id: U32)
    requires Inv(s) && s.running.Nobody?
    ensures var t := OsStart(s, id).running;
            && t.Holds? && t.value.state == Running
            && t.value.id == if id != ID_INVALID && Places(s, id) == 1 then id else s.idleId
  {
    IdleIsReady(s);
    CountPositive(s.lists.idle, id);
    CountPositive(s.lists.wait, id);
    CountPositive(s.lists.queue, id);
    assert Places(s, id) <= 1;
  }

  // ----- deletion -----

  /** The guard of a flagged task spares only a task that is the idle task and of the OS category; the idle task is of
      the low category. So once it is flagged, its next switch destroys it, and with an empty queue the TCB just freed
      is made the running one. */
  lemma IdleIsNotProtected(s: Sys)
    requires Inv(s) && s.running.Holds? && s.running.value.id == s.idleId
    ensures var s' := SwitchTask(s.(running := Holds(Changed(s.running.value, FlagDelete))));
            Places(s', s.idleId) == 0 && (s'.running == FreedIdle <==> s.lists.queue == [])
  {
    assert Total(s.lists, s.idleId) == 0;
    CountPositive(s.lists.idle, s.idleId);
    TakeNextCounts(s.lists, s.idleId, s.idleId);
  }

  /** A flagged task goes exactly when it is switched with no event left to wait for. */
  lemma DestroyedIff(s: Sys)
    requires Inv(s) && s.running.Holds?
    ensures Places(SwitchTask(s), s.running.value.id) == 0 <==> s.running.value.delete && s.running.value.events == []
  {
    assert Places(s, s.running.value.id) == 1;
    SwitchCounts(s, s.running.value.id);
  }
}
