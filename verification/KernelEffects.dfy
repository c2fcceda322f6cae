/** What each operation of the kernel does to the task it is about, and that it leaves everything else
    (source/kernel/src Core.c, Event.c and Task.c); and what stays of a task over whole runs. */
module KernelEffects {
  import opened Base
  import opened Events
  import opened Tasks
  import opened Broker
  import opened BrokerExact
  import opened BrokerOrder
  import opened BrokerTasks
  import opened Kernel
  import opened KernelRuns
  import opened KernelTimes
  import Fletcher
  import IdType

  // ----- the events of the running task -----

  /** Nothing but the events of the running task changes. */
  predicate OnlyEvents(s: Sys, s': Sys) {
    && s.running.Holds? && s'.running.Holds?
    && s' == s.(running := Holds(s.running.value.(events := s'.running.value.events)))
  }

  predicate HasHash(l: seq<Event>, hash: U16) { exists k :: 0 <= k < |l| && l[k].id == hash }

  /** A live registration starts its lifetime anew, unless it has none; otherwise a fresh one comes at the end. */
  predicate Registered(l: seq<Event>, source: U32, code: U32, flags: Flags, life: U32, l': seq<Event>) {
    var hash := Fletcher.EventToHash(source, code);
    if HasHash(l, hash) then
      && |l'| == |l|
      && forall k :: 0 <= k < |l| ==>
           l'[k] == if l[k].id == hash && !l[k].flags.noTimeout then l[k].(cnt := 0) else l[k]
    else
      && |l'| == |l| + 1 && l'[..|l|] == l && Fresh(l'[|l|], source, code, life)
      && FlagsAsked(l'[|l|], code, WithTimeout(flags, life))
  }

  /** Registering an event records it in the running task. */
  lemma RegisterEffect(s: Sys, source: U32, code: U32, flags: Flags, life: U32)
    requires s.running.Holds? && IdsDistinct(s.running.value.events)
    ensures var (r, s') := EventRegister(s, source, code, flags, life);
            && OnlyEvents(s, s')
            && Registered(s.running.value.events, source, code, flags, life, s'.running.value.events)
            && r == (if HasHash(s.running.value.events, Fletcher.EventToHash(source, code)) then Fail else Ok)
  {
    RegisterKeeps(s.running.value.events, source, code, flags, life);
  }

  /** The registration with the hash is gone, the others stay in order. */
  predicate RemovedFrom(l: seq<Event>, hash: U16, l': seq<Event>) {
    if HasHash(l, hash)
    then exists i :: 0 <= i < |l| && l[i].id == hash && l' == l[..i] + l[i + 1..]
    else l' == l
  }

  lemma RemoveEffect(s: Sys, source: U32, code: U32)
    requires s.running.Holds?
    ensures var (r, s') := PollRemove(s, source, code);
            && OnlyEvents(s, s')
            && RemovedFrom(s.running.value.events, Fletcher.EventToHash(source, code), s'.running.value.events)
            && r == (if HasHash(s.running.value.events, Fletcher.EventToHash(source, code)) then Ok else Error)
  {
    var l, hash := s.running.value.events, Fletcher.EventToHash(source, code);
    var i := IndexOf(l, hash);
    if i < |l| {
      assert l[i].id == hash && Without(l, i) == l[..i] + l[i + 1..];
    }
  }

  lemma HandleEffect(s: Sys, i: nat)
    requires s.running.Holds? && i < |s.running.value.events|
    ensures var s' := EventHandle(s, i);
            OnlyEvents(s, s') && EventIsHandled(s.running.value.events, i, s'.running.value.events)
  {
    HandledEvent(s, i);
  }

  // ----- emission -----

  /** An emission changes nothing but the list of emitted events, as Events.EmitKeeps says, with the lifetime of the
      system. */
  lemma EmitEffect(s: Sys, source: U32, code: U32, flags: Flags)
    requires Inv(s)
    ensures var (r, s') := EventEmit(s, source, code, flags);
            && s' == s.(events := s'.events)
            && r == (if HasHash(s.events, Fletcher.EventToHash(source, code)) then Fail else Ok)
            && (r == Fail ==> |s'.events| == |s.events| && forall k :: 0 <= k < |s.events| ==>
                  s'.events[k] == if s.events[k].id == Fletcher.EventToHash(source, code) then s.events[k].(cnt := 0)
                                  else s.events[k])
            && (r == Ok ==> |s'.events| == |s.events| + 1 && s'.events[..|s.events|] == s.events
                            && Fresh(s'.events[|s.events|], source, code, s.lifetime)
                            && FlagsAsked(s'.events[|s.events|], code, flags))
  {
    EmitKeeps(s.events, source, code, flags, s.lifetime);
  }

  /** A registration for this source and the lower 24 bits of this code. */
  predicate Awaits(t: Task, source: U32, code: U32) {
    exists j :: 0 <= j < |t.events| && t.events[j].source == source && t.events[j].code == code % CODE_UNIT
  }

  /** An event that is emitted to nobody in particular is compared by the next cycle, as the last one so far. */
  lemma WokenByNew(t: Task, todo: seq<Event>, e: Event, code: U32, delta: U32)
    requires !e.flags.addressed && e.code == code % CODE_UNIT
    ensures Awaits(t, e.source, code) ==> Woken(t, todo + [e], delta)
    ensures Woken(t, todo + [e], delta) ==> Woken(t, todo, delta) || Awaits(t, e.source, code)
  {
    var l := todo + [e];
    if Awaits(t, e.source, code) {
      var j :| 0 <= j < |t.events| && t.events[j].source == e.source && t.events[j].code == code % CODE_UNIT;
      assert Compared(l, |todo|) && IsEqual(l[|todo|], t.events[j]);
      assert Wakes(l, delta, t.events[j]);
    }
    if Woken(t, l, delta) && !Awaits(t, e.source, code) {
      if AddressedTo(l, t.id) {
        var i :| 0 <= i < |l| && l[i].flags.addressed && l[i].source == t.id;
        assert todo[i].source == t.id;
      } else {
        var j :| 0 <= j < |t.events| && Wakes(l, delta, t.events[j]);
        MatchedBefore(todo, e, t.events[j]);
        assert Wakes(todo, delta, t.events[j]);
      }
    }
  }

  lemma MatchedBefore(todo: seq<Event>, e: Event, f: Event)
    requires !e.flags.addressed && !IsEqual(e, f)
    ensures Matched(todo + [e], f) ==> Matched(todo, f)
  {
    if Matched(todo + [e], f) {
      var i :| 0 <= i < |todo| + 1 && Compared(todo + [e], i) && IsEqual((todo + [e])[i], f);
      assert Compared(todo, i) && IsEqual(todo[i], f);
    }
  }

  /** An accepted emission without address queues every task that rests or waits and is registered for it in the next
      cycle, and no task besides that would not wake anyway. */
  lemma EmissionWakes(s: Sys, source: U32, code: U32, flags: Flags, id: U32, dispatch: bool, delta: U32)
    requires Inv(s) && s.running.Holds? && Found(s.lists, id) && (dispatch ==> id != s.idleId)
    requires !flags.addressed && code / 0x1000_0000 % 2 == 0 && EventEmit(s, source, code, flags).0 == Ok
    ensures var s' := EventEmit(s, source, code, flags).1;
            && (Awaits(Listed(s.lists, id), source, code) ==> Queued(s', dispatch, delta, id))
            && (Queued(s', dispatch, delta, id) ==>
                  Awaits(Listed(s.lists, id), source, code) || Woken(Listed(s.lists, id), s.events, delta))
  {
    var s' := EventEmit(s, source, code, flags).1;
    EmitEffect(s, source, code, flags);
    ActionKeeps(s, EmitEvent(source, code, flags));
    assert s'.events == s.events + [s'.events[|s.events|]];
    WokenByNew(Listed(s.lists, id), s.events, s'.events[|s.events|], code, delta);
    TickQueues(s', id, dispatch, delta);
  }

  // ----- the switch -----

  /** The running task, put away. */
  function PutState(t: Task): Task { t.(state := if t.events != [] then Waiting else Idle) }

  /** The task that comes next: the head of the queue, or the idle task, from its list or the one just put there. */
  function NextTask(s: Sys): Task
    requires s.running.Holds?
    requires s.lists.queue == [] && s.running.value.id != s.idleId ==> Found(s.lists, s.idleId)
  {
    if s.lists.queue != [] then s.lists.queue[0]
    else if s.running.value.id == s.idleId then PutState(s.running.value)
    else Listed(s.lists, s.idleId)
  }

  lemma NextExists(s: Sys)
    requires Inv(s) && s.running.Holds?
    ensures s.lists.queue == [] && s.running.value.id != s.idleId ==> Found(s.lists, s.idleId)
  {
    if s.lists.queue == [] && s.running.value.id != s.idleId {
      IdleIsReady(s);
    }
  }

  /** A switch changes only the states: the running task goes to the waiting list if it has registered events, to the
      idle list if it has none and is not flagged, and nowhere otherwise; the next task runs; all others stay. */
  lemma SwitchEffect(s: Sys)
    requires Inv(s) && s.running.Holds?
    ensures s.lists.queue == [] && s.running.value.id != s.idleId ==> Found(s.lists, s.idleId)
    ensures var t, s', q := s.running.value, SwitchTask(s), s.lists.queue;
            && s' == s.(running := Holds(NextTask(s).(state := Running)), lists := s'.lists)
            && s'.lists.queue == (if q == [] then [] else q[1..])
            && (forall x :: x in s'.lists.wait <==> x in s.lists.wait || (t.events != [] && x == PutState(t)))
            && (forall x :: x in s'.lists.idle <==>
                  && (x in s.lists.idle || (t.events == [] && !t.delete && x == PutState(t)))
                  && (q == [] ==> x.id != s.idleId))
  {
    var t, l := s.running.value, PutAway(s.lists, s.running.value, s.idleId);
    NextExists(s);
    assert Places(s, t.id) <= 1;
    PutAwayMembers(s, t);
    PutAwayOk(s, t);
    SwitchKeeps(s);
    TakeNextMembers(l, s.idleId);
    IdleIs(s, l);
  }

  lemma PutAwayMembers(s: Sys, t: Task)
    requires ListsOk(s.lists) && Total(s.lists, t.id) == 0 && Safe(t, s.idleId)
    ensures var l := PutAway(s.lists, t, s.idleId);
            && l.queue == s.lists.queue && l.entered == s.lists.entered
            && (forall x :: x in l.wait <==> x in s.lists.wait || (t.events != [] && x == PutState(t)))
            && (forall x :: x in l.idle <==> x in s.lists.idle || (t.events == [] && !t.delete && x == PutState(t)))
  {
    AddSortedKeeps(s.lists.wait, t.(state := Waiting), t.id);
    AddSortedKeeps(s.lists.idle, t.(state := Idle), t.id);
  }

  lemma TakeNextMembers(l: Lists, idleId: U32)
    requires Ascending(l.idle)
    ensures var l' := TakeNext(l, idleId).1;
            && l'.wait == l.wait && l'.queue == (if l.queue == [] then [] else l.queue[1..])
            && forall x :: x in l'.idle <==> x in l.idle && (l.queue == [] ==> x.id != idleId)
  {
    var i := Find(l.idle, idleId);
    if l.queue == [] && i < |l.idle| {
      WithoutMembers(l.idle, i);
    }
  }

  lemma WithoutMembers(l: seq<Task>, i: nat)
    requires Ascending(l) && i < |l|
    ensures forall x :: x in Without(l, i) <==> x in l && x.id != l[i].id
  {
    assert l == l[..i] + [l[i]] + l[i + 1..];
  }

  /** The idle task that a switch takes, from the idle list after the first part. */
  lemma IdleIs(s: Sys, l: Lists)
    requires Inv(s) && s.running.Holds? && l == PutAway(s.lists, s.running.value, s.idleId)
    requires s.lists.queue == [] && s.running.value.id != s.idleId ==> Found(s.lists, s.idleId)
    ensures s.lists.queue == [] ==> Find(l.idle, s.idleId) < |l.idle| && l.idle[Find(l.idle, s.idleId)] == NextTask(s)
  {
    var t := s.running.value;
    if s.lists.queue == [] {
      assert Places(s, t.id) <= 1 && Places(s, s.idleId) <= 1;
      PutAwayMembers(s, t);
      PutAwayOk(s, t);
      if t.id != s.idleId {
        IdleListed(s);
      }
      FindMember(l.idle, NextTask(s));
    }
  }

  lemma IdleListed(s: Sys)
    requires Inv(s) && s.running.Holds? && s.lists.queue == [] && s.running.value.id != s.idleId
    ensures Found(s.lists, s.idleId) && Listed(s.lists, s.idleId) in s.lists.idle
  {
    IdleIsReady(s);
  }

  // ----- deletion -----

  /** The tasks with the identifier are flagged, and the others are the same. */
  predicate Flagging(l: seq<Task>, l': seq<Task>, id: U32) {
    |l'| == |l| && forall i :: 0 <= i < |l| ==> l'[i] == if l[i].id == id then l[i].(delete := true) else l[i]
  }

  predicate IsRunning(s: Sys, target: Option<U32>) {
    s.running.Holds? && (target.None? || target.value == s.running.value.id)
  }

  predicate IsListed(s: Sys, target: Option<U32>) {
    target.Some? && Count(s.lists.idle, target.value) + Count(s.lists.wait, target.value) == 1
  }

  /** TaskDelete flags the running task, or one that rests or waits, and nothing else; it fails for all others. */
  lemma DeleteIff(s: Sys, target: Option<U32>)
    requires Inv(s)
    ensures var (r, s') := TaskDelete(s, target);
            && (r == Ok <==> IsRunning(s, target) || IsListed(s, target))
            && (r != Ok ==> r == Error && s' == s)
            && (IsRunning(s, target) ==> s' == s.(running := Holds(s.running.value.(delete := true))))
            && (r == Ok && !IsRunning(s, target) ==>
                  && s' == s.(lists := s.lists.(idle := s'.lists.idle, wait := s'.lists.wait))
                  && Flagging(s.lists.idle, s'.lists.idle, target.value)
                  && Flagging(s.lists.wait, s'.lists.wait, target.value))
  {
    if target.Some? {
      assert Places(s, target.value) <= 1;
      CountPositive(s.lists.idle, target.value);
      CountPositive(s.lists.wait, target.value);
      ChangesOnlyFound(s, target.value, FlagDelete);
    }
  }

  /** A task that deletes itself and waits for nothing is in no place after the next tick that dispatches. */
  lemma DeletedIsGone(s: Sys, unlocked: bool, delta: U32)
    requires Inv(s) && s.running.Holds? && s.running.value.id != s.idleId && s.running.value.events == []
    ensures Places(Tick(TaskDelete(s, None).1, true, unlocked, delta), s.running.value.id) == 0
  {
    var id, s1 := s.running.value.id, TaskDelete(s, None).1;
    DeleteIff(s, None);
    ActionKeeps(s, Delete(None));
    assert Places(s1, id) <= 1;
    TickCounts(s1, true, unlocked, delta, id);
  }

  // ----- creation -----

  /** A created task with the start parameter is activated: the event addressed to it is emitted, or refused as any. */
  lemma CreateEffect(s: Sys, category: U8, level: U8, kernelMode: bool, start: bool)
    requires Inv(s)
    ensures var (id, s') := TaskCreate(s, category, level, kernelMode, start);
            if Creatable(s, category, level, kernelMode)
            then && id == NextId(s)
                 && s' == s.(lists := s.lists.(idle := s'.lists.idle), issued := s.issued + 1, events := s'.events)
                 && s'.events == (if start then EventEmit(s, id, TASK_EVENT_ACTIVATE, ADDRESSED).1.events else s.events)
            else id == ID_INVALID && s' == s
  {}

  /** So it is in the queue after the next tick. */
  lemma StartedIsQueued(s: Sys, category: U8, level: U8, kernelMode: bool, dispatch: bool, delta: U32)
    requires Inv(s) && s.running.Holds? && Creatable(s, category, level, kernelMode)
    requires !HasHash(s.events, Fletcher.EventToHash(NextId(s), TASK_EVENT_ACTIVATE))
    ensures Queued(TaskCreate(s, category, level, kernelMode, true).1, dispatch, delta, NextId(s))
  {
    var s1 := TaskCreate(s, category, level, kernelMode, false).1;
    var t := Task(NextId(s), category, CalculatePriority(category, level), Idle, false, []);
    ActionKeeps(s, Create(category, level, kernelMode, false));
    CreatedTask(s, category, level, kernelMode, false);
    NextIsNew(s);
    ListedIs(s1, t);
    EmitEffect(s1, NextId(s), TASK_EVENT_ACTIVATE, ADDRESSED);
    ResumeWakesIff(s1, NextId(s), dispatch, delta);
  }

  // ----- the start -----

  /** OsStart takes the wanted task, or the idle task, from the idle list, changes its state and nothing else. */
  lemma StartEffect(s: Sys, id: U32)
    requires Inv(s) && s.running.Nobody?
    ensures var s', wanted := OsStart(s, id), if id != ID_INVALID && Places(s, id) == 1 then id else s.idleId;
            && Found(s.lists, wanted) && Listed(s.lists, wanted) in s.lists.idle
            && s' == s.(running := Holds(Listed(s.lists, wanted).(state := Running)), lists := s'.lists)
            && s'.lists == s.lists.(idle := s'.lists.idle)
            && forall x :: x in s'.lists.idle <==> x in s.lists.idle && x.id != wanted
  {
    IdleIsReady(s);
    CountPositive(s.lists.idle, id);
    CountPositive(s.lists.wait, id);
    CountPositive(s.lists.queue, id);
    assert Places(s, id) <= 1;
    var wanted := if id != ID_INVALID && Places(s, id) == 1 then id else s.idleId;
    WithoutMembers(s.lists.idle, Find(s.lists.idle, wanted));
  }

  /** At the start there is one task, the idle task: the first of its group, at rest, with no event, not flagged, and no
      priority is below its own. One event is emitted, the mock event. */
  lemma InitialEffect(lifetime: U32)
    ensures var s := InitialSys(lifetime);
            && s.lists.wait == [] && s.lists.queue == [] && s.lists.entered == [] && s.running.Nobody?
            && |s.lists.idle| == 1 && s.issued == 1 && s.lifetime == lifetime
            && |s.events| == 1 && IsMock(s.events[0]) && s.events[0].life == lifetime && s.events[0].cnt == 0
            && s.lists.idle[0].(priority := 0) == Task(IdType.MakeId(GROUP_TASK, 0), CAT_LOW, 0, Idle, false, [])
            && s.idleId == IdType.MakeId(GROUP_TASK, 0)
            && forall category: U8, level: U8 :: ValidPriority(category, level) ==>
                 s.lists.idle[0].priority <= CalculatePriority(category, level)
  {
    PriorityDoesNotWrap(CAT_LOW, PRIO_LIMIT_LOW);
    forall category: U8, level: U8 | ValidPriority(category, level)
      ensures CalculatePriority(CAT_LOW, PRIO_LIMIT_LOW) <= CalculatePriority(category, level)
    {
      PriorityDoesNotWrap(category, level);
    }
  }
}
