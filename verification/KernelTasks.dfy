/** One task through whole runs of the kernel: what of it an operation may change, that a deletion lasts until the task
    is destroyed, and that its registrations stay told apart. */
module KernelTasks {
  import opened Base
  import opened Events
  import opened Tasks
  import opened Broker
  import opened BrokerExact
  import opened BrokerOrder
  import opened BrokerTasks
  import opened Kernel
  import opened KernelRuns
  import opened KernelTimes
  import opened KernelEffects
  import Fletcher

  /** The task is in one of the lists, in the queue, or running. */
  predicate Has(s: Sys, t: Task) {
    t in s.lists.wait || t in s.lists.idle || t in s.lists.queue || s.running == Holds(t)
  }

  predicate InLists(s: Sys, t: Task) { t in s.lists.wait || t in s.lists.idle }

  lemma MemberCounts(l: seq<Task>, t: Task)
    requires t in l
    ensures Count(l, t.id) > 0
  {
    CountPositive(l, t.id);
  }

  lemma HasCounts(s: Sys, t: Task)
    requires Has(s, t)
    ensures Places(s, t.id) > 0
  {
    if t in s.lists.wait {
      MemberCounts(s.lists.wait, t);
    } else if t in s.lists.idle {
      MemberCounts(s.lists.idle, t);
    } else if t in s.lists.queue {
      MemberCounts(s.lists.queue, t);
    }
  }

  // ----- the only task with an identifier -----

  lemma {:induction false} MemberOnce(l: seq<Task>, t: Task, x: Task)
    requires t in l && x in l && t.id == x.id && Count(l, t.id) <= 1
    ensures t == x
    decreases |l|
  {
    var m := l[..|l| - 1];
    CountPositive(m, t.id);
    if t in m && x in m {
      MemberOnce(m, t, x);
    }
  }

  lemma CountsSplit(s: Sys, t: Task)
    requires Places(s, t.id) <= 1
    ensures t in s.lists.wait ==> Count(s.lists.wait, t.id) == 1
    ensures t in s.lists.idle ==> Count(s.lists.idle, t.id) == 1
    ensures t in s.lists.queue ==> Count(s.lists.queue, t.id) == 1
  {
    if t in s.lists.wait {
      MemberCounts(s.lists.wait, t);
    }
    if t in s.lists.idle {
      MemberCounts(s.lists.idle, t);
    }
    if t in s.lists.queue {
      MemberCounts(s.lists.queue, t);
    }
  }

  lemma HasOnce(s: Sys, t: Task, x: Task)
    requires Inv(s) && Has(s, t) && Has(s, x) && t.id == x.id
    ensures t == x
  {
    assert Places(s, t.id) <= 1;
    CountsSplit(s, t);
    CountsSplit(s, x);
    if t in s.lists.wait && x in s.lists.wait {
      MemberOnce(s.lists.wait, t, x);
    } else if t in s.lists.idle && x in s.lists.idle {
      MemberOnce(s.lists.idle, t, x);
    } else if t in s.lists.queue && x in s.lists.queue {
      MemberOnce(s.lists.queue, t, x);
    }
  }

  // ----- what an action may change -----

  /** TaskDelete reaches the task. */
  predicate Marked(s: Sys, target: Option<U32>, t: Task) {
    if IsRunning(s, target) then s.running == Holds(t) else target == Some(t.id) && InLists(s, t)
  }

  /** TaskPrioritySet reaches the task. */
  predicate Ranked(s: Sys, task: U32, t: Task) {
    if task == ID_INVALID then s.running == Holds(t) else task == t.id && InLists(s, t)
  }

  predicate ValidLevel(level: U8) { PRIO_LIMIT_LOW <= level <= PRIO_LIMIT_HIGH }

  /** What becomes of the registered events: their progress in a tick, and what a running task does with its own. */
  predicate EventsBecome(s: Sys, a: Action, t: Task, l': seq<Event>) {
    match a
    case Ticks(_, unlocked, _) => if unlocked then SameEvents(t.events, l') else l' == t.events
    case RegisterEvent(source, code, flags, life) =>
      if s.running == Holds(t) then (IdsDistinct(t.events) ==> Registered(t.events, source, code, flags, life, l'))
      else l' == t.events
    case Handle(i) =>
      if s.running == Holds(t) then i < |t.events| && EventIsHandled(t.events, i, l') else l' == t.events
    case Remove(source, code) =>
      if s.running == Holds(t) then RemovedFrom(t.events, Fletcher.EventToHash(source, code), l') else l' == t.events
    case _ => l' == t.events
  }

  /** The identifier and the category stay; the priority is only set, and the flag only raised, by its operation. */
  predicate Becomes(s: Sys, a: Action, t: Task, t': Task) {
    && t'.id == t.id && t'.category == t.category
    && t'.priority == (if a.SetPriority? && ValidLevel(a.newLevel) && Ranked(s, a.task, t)
                       then CalculatePriority(t.category, a.newLevel) else t.priority)
    && t'.delete == (t.delete || (a.Delete? && Marked(s, a.target, t)))
    && EventsBecome(s, a, t, t'.events)
  }

  lemma CreateOnTask(s: Sys, a: Action, t: Task)
    requires Inv(s) && a.Create? && Has(s, t)
    ensures Has(Do(s, a), t)
  {
    CreateEffect(s, a.category, a.level, a.kernelMode, a.start);
    if Creatable(s, a.category, a.level, a.kernelMode) {
      CreatedTask(s, a.category, a.level, a.kernelMode, a.start);
    }
  }

  lemma DeleteOnTask(s: Sys, a: Action, t: Task) returns (t': Task)
    requires Inv(s) && a.Delete? && Allowed(s, a) && Has(s, t)
    ensures Has(Do(s, a), t') && Becomes(s, a, t, t')
  {
    DeleteIff(s, a.target);
    t' := t.(delete := t.delete || Marked(s, a.target, t));
    if t in s.lists.wait {
      FlaggedMember(s, a.target, t, s.lists.wait, Do(s, a).lists.wait);
    } else if t in s.lists.idle {
      FlaggedMember(s, a.target, t, s.lists.idle, Do(s, a).lists.idle);
    } else {
      NotListed(s, t);
    }
  }

  /** A running or queued task is in no list. */
  lemma NotListed(s: Sys, t: Task)
    requires Inv(s) && (s.running == Holds(t) || t in s.lists.queue)
    ensures !InLists(s, t) && (t in s.lists.queue ==> s.running != Holds(t))
    ensures Count(s.lists.idle, t.id) + Count(s.lists.wait, t.id) == 0
  {
    assert Places(s, t.id) <= 1;
    CountsSplit(s, t);
  }

  lemma FlaggedMember(s: Sys, target: Option<U32>, t: Task, l: seq<Task>, l': seq<Task>)
    requires Inv(s) && s.running.Holds? && InLists(s, t) && t in l
    requires l' == l || (target.Some? && Flagging(l, l', target.value))
    requires IsRunning(s, target) ==> l' == l
    requires !IsRunning(s, target) && target.Some? && target.value == t.id ==> Flagging(l, l', target.value)
    ensures t.(delete := t.delete || Marked(s, target, t)) in l'
  {
    var k :| 0 <= k < |l| && l[k] == t;
    assert l'[k] in l';
    if s.running == Holds(t) {
      NotListed(s, t);
    }
  }

  lemma PriorityOnTask(s: Sys, a: Action, t: Task) returns (t': Task)
    requires Inv(s) && a.SetPriority? && Has(s, t)
    ensures Has(Do(s, a), t') && Becomes(s, a, t, t')
  {
    if !ValidLevel(a.newLevel) {
      return t;
    }
    PrioritySetIff(s, a.task, a.newLevel);
    t' := if Ranked(s, a.task, t) then t.(priority := CalculatePriority(t.category, a.newLevel)) else t;
    if t in s.lists.wait {
      LeveledMember(s, a, t, s.lists.wait, Do(s, a).lists.wait);
    } else if t in s.lists.idle {
      LeveledMember(s, a, t, s.lists.idle, Do(s, a).lists.idle);
    } else {
      NotListed(s, t);
    }
  }

  lemma LeveledMember(s: Sys, a: Action, t: Task, l: seq<Task>, l': seq<Task>)
    requires Inv(s) && a.SetPriority? && InLists(s, t) && t in l
    requires l' == l || (a.task != ID_INVALID && Leveled(l, l', a.task, a.newLevel))
    requires a.task == t.id && a.task != ID_INVALID ==> Leveled(l, l', a.task, a.newLevel)
    ensures (if Ranked(s, a.task, t) then t.(priority := CalculatePriority(t.category, a.newLevel)) else t) in l'
  {
    var k :| 0 <= k < |l| && l[k] == t;
    assert l'[k] in l';
    if s.running == Holds(t) {
      NotListed(s, t);
    }
  }

  lemma OwnEventsOnTask(s: Sys, a: Action, t: Task) returns (t': Task)
    requires Inv(s) && Allowed(s, a) && (a.RegisterEvent? || a.Handle? || a.Remove?) && Has(s, t)
    ensures Has(Do(s, a), t') && Becomes(s, a, t, t')
  {
    OnRunning(s, a);
    t' := t;
    if s.running == Holds(t) {
      t' := Do(s, a).running.value;
      match a
      case RegisterEvent(source, code, flags, life) =>
        if IdsDistinct(t.events) {
          RegisterEffect(s, source, code, flags, life);
        }
      case Handle(i) => HandleEffect(s, i);
      case Remove(source, code) => RemoveEffect(s, source, code);
    }
  }

  lemma StartOnTask(s: Sys, a: Action, t: Task) returns (t': Task)
    requires Inv(s) && a.Start? && Allowed(s, a) && Has(s, t)
    ensures Has(Do(s, a), t') && Becomes(s, a, t, t')
  {
    StartEffect(s, a.first);
    t' := t;
    var x := Do(s, a).running.value;
    if t.id == x.id {
      var wanted := if a.first != ID_INVALID && Places(s, a.first) == 1 then a.first else s.idleId;
      HasOnce(s, t, Listed(s.lists, wanted));
      t' := x;
    }
  }

  /** The switch changes the state only, or destroys the task. */
  lemma SwitchOnTask(s: Sys, t: Task) returns (t': Task)
    requires Inv(s) && s.running.Holds? && Has(s, t) && !(s.running == Holds(t) && Deleted(s, t))
    ensures Has(SwitchTask(s), t') && t' == t.(state := t'.state)
  {
    NextExists(s);
    t' := if s.running == Holds(t) then PutState(t) else t;
    if t.id == NextTask(s).id {
      SwitchedIn(s, t);
      t' := t.(state := Running);
    } else if t in s.lists.queue {
      StillQueued(s, t);
    } else {
      SwitchedElsewhere(s, t, t');
    }
  }

  lemma SwitchedIn(s: Sys, t: Task)
    requires Inv(s) && s.running.Holds? && Has(s, t)
    requires s.lists.queue == [] && s.running.value.id != s.idleId ==> Found(s.lists, s.idleId)
    requires t.id == NextTask(s).id
    ensures SwitchTask(s).running == Holds(t.(state := Running))
  {
    SwitchEffect(s);
    NextIsHas(s);
    if t.id == s.running.value.id {
      HasOnce(s, t, s.running.value);
    } else {
      HasOnce(s, t, NextTask(s));
    }
  }

  lemma StillQueued(s: Sys, t: Task)
    requires Inv(s) && s.running.Holds? && t in s.lists.queue && t.id != s.lists.queue[0].id
    ensures t in SwitchTask(s).lists.queue
  {
    SwitchEffect(s);
    InTail(s.lists.queue, t);
  }

  lemma InTail(q: seq<Task>, t: Task)
    requires t in q && t.id != q[0].id
    ensures t in q[1..]
  {
    assert q == [q[0]] + q[1..];
  }

  lemma NextIsHas(s: Sys)
    requires Inv(s) && s.running.Holds?
    requires s.lists.queue == [] && s.running.value.id != s.idleId ==> Found(s.lists, s.idleId)
    ensures NextTask(s).id != s.running.value.id ==> Has(s, NextTask(s))
    ensures NextTask(s).id == s.running.value.id ==> s.lists.queue == [] && NextTask(s) == PutState(s.running.value)
  {
    var t := s.running.value;
    if s.lists.queue != [] {
      assert s.lists.queue[0] in s.lists.queue && Places(s, t.id) <= 1;
      if s.lists.queue[0].id == t.id {
        HasOnce(s, s.lists.queue[0], t);
        NotListed(s, t);
      }
    }
  }

  lemma SwitchedElsewhere(s: Sys, t: Task, t': Task)
    requires Inv(s) && s.running.Holds? && Has(s, t) && t !in s.lists.queue && !(s.running == Holds(t) && Deleted(s, t))
    requires s.lists.queue == [] && s.running.value.id != s.idleId ==> Found(s.lists, s.idleId)
    requires t' == (if s.running == Holds(t) then PutState(t) else t) && t'.id != NextTask(s).id
    ensures t' in SwitchTask(s).lists.wait || t' in SwitchTask(s).lists.idle
  {
    SwitchEffect(s);
    assert s.lists.queue == [] ==> NextTask(s).id == s.idleId;
  }

  /** A cycle changes the progress of the events and, when it wakes, the state. */
  lemma CycleOnTask(s: Sys, delta: U32, t: Task) returns (t': Task)
    requires Inv(s) && s.running.Holds? && Has(s, t)
    ensures Has(SchedulerCycle(s, delta), t') && SameTask(t, t')
  {
    forall id: U32
      ensures Total(s.lists, id) <= 1
    {
      assert Places(s, id) <= 1;
    }
    if t in s.lists.wait {
      t' := CycleKeepsTask(s.lists, s.events, delta, InList(t), true);
    } else if t in s.lists.idle {
      t' := CycleKeepsTask(s.lists, s.events, delta, InList(t), false);
    } else if t in s.lists.queue {
      t' := CycleKeepsTask(s.lists, s.events, delta, InQueue(t), false);
    } else {
      t' := t;
    }
  }

  lemma TickOnTask(s: Sys, a: Action, t: Task) returns (t': Task)
    requires Inv(s) && a.Ticks? && Has(s, t) && !Died(s, a, t.id)
    ensures Has(Do(s, a), t') && Becomes(s, a, t, t')
  {
    t' := t;
    if s.running.Holds? {
      if a.dispatch {
        SwitchKeeps(s);
        t' := SwitchOnTask(s, t);
      }
      if a.unlocked {
        t' := CycleOnTask(if a.dispatch then SwitchTask(s) else s, a.delta, t');
      }
    }
  }

  /** Whatever happens, a task that is not destroyed is somewhere afterwards, and only what the action is for has
      changed of it. */
  lemma ActionOnTask(s: Sys, a: Action, t: Task) returns (t': Task)
    requires Inv(s) && Allowed(s, a) && Has(s, t) && !Died(s, a, t.id)
    ensures Has(Do(s, a), t') && Becomes(s, a, t, t')
  {
    match a
    case Create(_, _, _, _) =>
      CreateOnTask(s, a, t);
      t' := t;
    case Delete(_) => t' := DeleteOnTask(s, a, t);
    case SetPriority(_, _) => t' := PriorityOnTask(s, a, t);
    case RegisterEvent(_, _, _, _) => t' := OwnEventsOnTask(s, a, t);
    case Handle(_) => t' := OwnEventsOnTask(s, a, t);
    case Remove(_, _) => t' := OwnEventsOnTask(s, a, t);
    case EmitEvent(_, _, _) => t' := t;
    case Start(_) => t' := StartOnTask(s, a, t);
    case Ticks(_, _, _) => t' := TickOnTask(s, a, t);
  }

  // ----- runs -----

  /** No action of the run destroys the task. */
  predicate Survives(s: Sys, actions: seq<Action>, id: U32)
    requires AllowedRun(s, actions)
    decreases |actions|
  {
    actions == [] || (!Died(s, actions[0], id) && Survives(Do(s, actions[0]), actions[1..], id))
  }

  /** A task that is flagged for deletion stays so through every run in which it is not destroyed, whatever is done to
      it and to others; and it keeps its category. */
  lemma {:induction false} DeletionLasts(s: Sys, actions: seq<Action>, t: Task) returns (t': Task)
    requires Inv(s) && AllowedRun(s, actions) && Has(s, t) && Survives(s, actions, t.id)
    ensures Has(Run(s, actions), t') && t'.id == t.id && t'.category == t.category && (t.delete ==> t'.delete)
    decreases |actions|
  {
    t' := t;
    if actions != [] {
      ActionKeeps(s, actions[0]);
      t' := ActionOnTask(s, actions[0], t);
      t' := DeletionLasts(Do(s, actions[0]), actions[1..], t');
    }
  }

  /** So a deletion takes effect: once TaskDelete has reached a task, then through every run it is flagged until the
      switch that finds it running with no registered event, and that destroys it. */
  lemma DeletedEventually(s: Sys, target: Option<U32>, actions: seq<Action>, t: Task) returns (t': Task)
    requires Inv(s) && Allowed(s, Delete(target)) && Has(s, t) && Marked(s, target, t)
    requires AllowedRun(TaskDelete(s, target).1, actions) && Survives(TaskDelete(s, target).1, actions, t.id)
    ensures var s' := Run(TaskDelete(s, target).1, actions);
            && Inv(s') && Has(s', t') && t'.id == t.id && t'.delete
            && (s'.running == Holds(t') ==>
                  (Places(SwitchTask(s'), t.id) == 0 <==> t'.events == []))
  {
    var s1 := TaskDelete(s, target).1;
    ActionKeeps(s, Delete(target));
    var t1 := ActionOnTask(s, Delete(target), t);
    t' := DeletionLasts(s1, actions, t1);
    RunKeeps(s1, actions);
    if Run(s1, actions).running == Holds(t') {
      DestroyedIff(Run(s1, actions));
    }
  }

  // ----- registrations stay told apart -----

  ghost predicate AllDistinct(s: Sys) { forall t :: Has(s, t) ==> IdsDistinct(t.events) }

  lemma RegisteredDistinct(l: seq<Event>, source: U32, code: U32, flags: Flags, life: U32, l': seq<Event>)
    requires IdsDistinct(l) && Registered(l, source, code, flags, life, l')
    ensures IdsDistinct(l')
  {
    if |l'| > |l| {
      assert forall k :: 0 <= k < |l| ==> l'[k] == l'[..|l|][k];
    }
  }

  lemma BecomesDistinct(s: Sys, a: Action, t: Task, t': Task)
    requires Becomes(s, a, t, t') && IdsDistinct(t.events)
    ensures IdsDistinct(t'.events)
  {
    if a.RegisterEvent? && s.running == Holds(t) {
      RegisteredDistinct(t.events, a.source, a.code, a.flags, a.life, t'.events);
    }
  }

  /** Each task afterwards was there before, or is the one created. */
  lemma ComesFrom(s: Sys, a: Action, t': Task) returns (t: Task)
    requires Inv(s) && Allowed(s, a) && Has(Do(s, a), t') && !Born(s, a, t'.id)
    ensures Has(s, t) && !Died(s, a, t.id) && Becomes(s, a, t, t')
  {
    ActionKeeps(s, a);
    HasCounts(Do(s, a), t');
    ActionCounts(s, a, t'.id);
    BornOrDied(s, a, t'.id);
    t := CountedHas(s, t'.id);
    var x := ActionOnTask(s, a, t);
    HasOnce(Do(s, a), t', x);
  }

  lemma CountedHas(s: Sys, id: U32) returns (t: Task)
    requires Places(s, id) > 0
    ensures Has(s, t) && t.id == id
  {
    CountPositive(s.lists.wait, id);
    CountPositive(s.lists.idle, id);
    CountPositive(s.lists.queue, id);
    if Count(s.lists.wait, id) > 0 {
      var i :| 0 <= i < |s.lists.wait| && s.lists.wait[i].id == id;
      t := s.lists.wait[i];
    } else if Count(s.lists.idle, id) > 0 {
      var i :| 0 <= i < |s.lists.idle| && s.lists.idle[i].id == id;
      t := s.lists.idle[i];
    } else if Count(s.lists.queue, id) > 0 {
      var i :| 0 <= i < |s.lists.queue| && s.lists.queue[i].id == id;
      t := s.lists.queue[i];
    } else {
      t := s.running.value;
    }
  }

  lemma CreatedHas(s: Sys, a: Action) returns (t: Task)
    requires Inv(s) && a.Create? && Creatable(s, a.category, a.level, a.kernelMode)
    ensures Has(Do(s, a), t) && t.id == NextId(s) && t.events == []
  {
    t := Task(NextId(s), a.category, CalculatePriority(a.category, a.level), Idle, false, []);
    CreatedTask(s, a.category, a.level, a.kernelMode, a.start);
  }

  /** The created task is the one that CreatedTask describes. */
  lemma BornIs(s: Sys, a: Action, t': Task)
    requires Inv(s) && Allowed(s, a) && Has(Do(s, a), t') && Born(s, a, t'.id)
    ensures t'.events == []
  {
    ActionKeeps(s, a);
    var t := CreatedHas(s, a);
    HasOnce(Do(s, a), t', t);
  }

  lemma ActionDistinct(s: Sys, a: Action)
    requires Inv(s) && Allowed(s, a) && AllDistinct(s)
    ensures AllDistinct(Do(s, a))
  {
    forall t' | Has(Do(s, a), t')
      ensures IdsDistinct(t'.events)
    {
      if Born(s, a, t'.id) {
        BornIs(s, a, t');
      } else {
        var t := ComesFrom(s, a, t');
        BecomesDistinct(s, a, t, t');
      }
    }
  }

  /** In every run from the start the registrations of a task have different identifiers, so that what RegisterEffect
      and the removal of a poll say of an identifier is about one registration. */
  lemma {:induction false} RunDistinct(s: Sys, actions: seq<Action>)
    requires Inv(s) && AllowedRun(s, actions) && AllDistinct(s)
    ensures AllDistinct(Run(s, actions))
    decreases |actions|
  {
    if actions != [] {
      ActionKeeps(s, actions[0]);
      ActionDistinct(s, actions[0]);
      RunDistinct(Do(s, actions[0]), actions[1..]);
    }
  }

  lemma EveryRunDistinct(lifetime: U32, actions: seq<Action>)
    ensures AllowedRun(InitialSys(lifetime), actions) ==> AllDistinct(Run(InitialSys(lifetime), actions))
  {
    InitialInv(lifetime);
    if AllowedRun(InitialSys(lifetime), actions) {
      RunDistinct(InitialSys(lifetime), actions);
    }
  }
}
