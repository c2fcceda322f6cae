/** The kernel as a state machine: task operations (source/kernel/src/Task.c), event operations on the running task
    (source/kernel/src/Event.c), the start and the tick (source/kernel/src/Core.c). */
module Kernel {
  import opened Base
  import opened Events
  import opened Tasks
  import opened Broker
  import Fletcher
  import IdType

  const GROUP_TASK: U8 := 1
  const TASK_EVENT_ACTIVATE: U32 := 0x04_4000
  const ADDRESSED := NONE.(addressed := true)

  /** What tcb_running points to: nothing before the start, a task, or the TCB of the idle task after it was freed. What
      the code does with freed memory is not modelled: the functions below leave such a state alone. */
  datatype Current = Nobody | Holds(value: Task) | FreedIdle

  /** KernelReg, the task lists, the queue and the emitted events. 'issued' counts the task identifiers handed out,
      'lifetime' is EmittedEventLifetimeUs. */
  datatype Sys = Sys(lists: Lists, running: Current, events: seq<Event>, issued: nat, idleId: U32, lifetime: U32)

  // ----- operations of tasks -----

  /** EventEmit. */
  function EventEmit(s: Sys, source: U32, code: U32, flags: Flags): (r: (OsResult, Sys)) {
    var (r, events) := Emit(s.events, source, code, flags, s.lifetime);
    (r, s.(events := events))
  }

  /** ITaskResume. */
  function Resume(s: Sys, id: U32): (r: (OsResult, Sys)) { EventEmit(s, id, TASK_EVENT_ACTIVATE, ADDRESSED) }

  /** The identifier KIdRequest answers for the next task. */
  function NextId(s: Sys): U32 {
    if s.issued < IdType.SEQ_NUM_MAX then IdType.MakeId(GROUP_TASK, s.issued) else ID_INVALID
  }

  predicate Creatable(s: Sys, category: U8, level: U8, kernelMode: bool) {
    && ValidPriority(category, level) && !(category == CAT_OS && !kernelMode) && NextId(s) != ID_INVALID
  }

  /** TaskCreate; with "start", TASK_PARAMETER_START. */
  function TaskCreate(s: Sys, category: U8, level: U8, kernelMode: bool, start: bool): (r: (U32, Sys)) {
    if !Creatable(s, category, level, kernelMode) then (ID_INVALID, s)
    else
      var id := NextId(s);
      var t := Task(id, category, CalculatePriority(category, level), Idle, false, []);
      var s' := s.(lists := s.lists.(idle := AddSorted(s.lists.idle, t)), issued := s.issued + 1);
      (id, if start then Resume(s', id).1 else s')
  }

  lemma CreateWithoutStart(s: Sys, category: U8, level: U8, kernelMode: bool)
    requires Creatable(s, category, level, kernelMode)
    ensures var t := Task(NextId(s), category, CalculatePriority(category, level), Idle, false, []);
            TaskCreate(s, category, level, kernelMode, false)
            == (NextId(s), s.(lists := s.lists.(idle := AddSorted(s.lists.idle, t)), issued := s.issued + 1))
  {}

  datatype Change = FlagDelete | SetLevel(level: U8)

  function Changed(t: Task, c: Change): (t': Task)
    ensures t'.id == t.id && t'.state == t.state && t'.events == t.events && t'.category == t.category
  {
    match c
    case FlagDelete => t.(delete := true)
    case SetLevel(level) => t.(priority := CalculatePriority(t.category, level))
  }

  /** KTcbFromId, for an operation that changes the task it finds: the idle list is searched first. */
  function ChangeFound(l: Lists, id: U32, c: Change): Lists {
    var i, j := Find(l.idle, id), Find(l.wait, id);
    if i < |l.idle| then l.(idle := l.idle[i := Changed(l.idle[i], c)])
    else if j < |l.wait| then l.(wait := l.wait[j := Changed(l.wait[j], c)])
    else l
  }

  predicate Found(l: Lists, id: U32) { Find(l.idle, id) < |l.idle| || Find(l.wait, id) < |l.wait| }

  /** TaskDelete: only a flag. None is a NULL pointer. */
  function TaskDelete(s: Sys, id: Option<U32>): (r: (OsResult, Sys)) {
    if s.running.Holds? && (id.None? || id.value == s.running.value.id) then
      (Ok, s.(running := Holds(Changed(s.running.value, FlagDelete))))
    else if id.Some? && Found(s.lists, id.value) then
      (Ok, s.(lists := ChangeFound(s.lists, id.value, FlagDelete)))
    else (Error, s)
  }

  /** TaskPrioritySet; ID_INVALID is the running task. */
  function TaskPrioritySet(s: Sys, id: U32, level: U8): (r: (OsResult, Sys)) {
    if level < PRIO_LIMIT_LOW || level > PRIO_LIMIT_HIGH then (InvalidArgument, s)
    else if id == ID_INVALID && s.running.Holds? then
      (Ok, s.(running := Holds(Changed(s.running.value, SetLevel(level)))))
    else if id != ID_INVALID && Found(s.lists, id) then
      (Ok, s.(lists := ChangeFound(s.lists, id, SetLevel(level))))
    else (Error, s)
  }

  /** ITaskEventRegister for the running task. */
  function EventRegister(s: Sys, source: U32, code: U32, flags: Flags, life: U32): (r: (OsResult, Sys)) {
    if !s.running.Holds? then (Error, s)
    else
      var (r, events) := Register(s.running.value.events, source, code, flags, life);
      (r, s.(running := Holds(s.running.value.(events := events))))
  }

  /** ITaskEventHandle for the registered event at i of the running task. */
  function EventHandle(s: Sys, i: nat): Sys
    requires s.running.Holds? && i < |s.running.value.events|
  {
    var l := s.running.value.events;
    var events := if l[i].flags.permanent then l[i := Handled(l[i])] else Without(l, i);
    s.(running := Holds(s.running.value.(events := events)))
  }

  /** TaskPollRemove. */
  function PollRemove(s: Sys, source: U32, code: U32): (r: (OsResult, Sys))
    requires s.running.Holds?
  {
    var l := s.running.value.events;
    var i := IndexOf(l, Fletcher.EventToHash(source, code));
    if i < |l| then (Ok, s.(running := Holds(s.running.value.(events := Without(l, i))))) else (Error, s)
  }

  // ----- start and tick -----

  /** OsStart, up to its loop. */
  function OsStart(s: Sys, id: U32): Sys {
    var wanted := if id != ID_INVALID && Found(s.lists, id) then id else s.idleId;
    var i := Find(s.lists.idle, wanted);
    if i < |s.lists.idle| then
      s.(running := Holds(s.lists.idle[i].(state := Running)), lists := s.lists.(idle := Without(s.lists.idle, i)))
    else s
  }

  /** ICoreSwitchTask, first part: where the running task goes. */
  function PutAway(l: Lists, t: Task, idleId: U32): Lists {
    if t.events != [] then l.(wait := AddSorted(l.wait, t.(state := Waiting)))
    else if !t.delete then l.(idle := AddSorted(l.idle, t.(state := Idle)))
    else if t.category != CAT_OS || t.id != idleId then l
    else l.(idle := AddSorted(l.idle, t.(state := Idle, delete := false)))
  }

  /** ICoreSwitchTask, second part: KSchedulerQueueTaskPop, or tcb_idle. When the idle task has been destroyed, that is
      a freed TCB, which the code unlinks and then runs all the same. */
  function TakeNext(l: Lists, idleId: U32): (r: (Current, Lists)) {
    var i := Find(l.idle, idleId);
    if l.queue != [] then
      (Holds(l.queue[0].(state := Running)),
       l.(queue := l.queue[1..], entered := if l.entered == [] then [] else Served(l.entered)))
    else if i < |l.idle| then
      (Holds(l.idle[i].(state := Running)), l.(idle := Without(l.idle, i)))
    else (FreedIdle, l)
  }

  function SwitchTask(s: Sys): Sys {
    if !s.running.Holds? then s
    else
      var (running, lists) := TakeNext(PutAway(s.lists, s.running.value, s.idleId), s.idleId);
      s.(running := running, lists := lists)
  }

  /** KSchedulerCycle. */
  function SchedulerCycle(s: Sys, delta: U32): Sys {
    s.(lists := Cycle(s.lists, s.events, delta), events := EventsAfter(s.events, delta))
  }

  /** OsTick and ICoreTickCoop: "dispatch" when the dispatch flag is set and no other interrupt is served, "unlocked"
      when neither the scheduler nor a list is locked. */
  function Tick(s: Sys, dispatch: bool, unlocked: bool, delta: U32): Sys {
    if !s.running.Holds? then s
    else
      var s1 := if dispatch then SwitchTask(s) else s;
      if unlocked then SchedulerCycle(s1, delta) else s1
  }

  /** After OsInit: the idle task and the mock event. */
  function InitialSys(lifetime: U32): Sys {
    var id := IdType.MakeId(GROUP_TASK, 0);
    Sys(Lists([], [Task(id, CAT_LOW, CalculatePriority(CAT_LOW, PRIO_LIMIT_LOW), Idle, false, [])], [], []), Nobody,
        [MockEvent(lifetime)], 1, id, lifetime)
  }

  // ----- runs -----

  datatype Action =
    | Create(category: U8, level: U8, kernelMode: bool, start: bool)
    | Delete(target: Option<U32>)
    | SetPriority(task: U32, newLevel: U8)
    | RegisterEvent(source: U32, code: U32, flags: Flags, life: U32)
    | Handle(i: nat)
    | Remove(source: U32, code: U32)
    | EmitEvent(source: U32, code: U32, flags: Flags)
    | Start(first: U32)
    | Ticks(dispatch: bool, unlocked: bool, delta: U32)

  /** What the kernel expects of its callers: the idle task is not flagged for deletion (and nothing is before the
      start) and registers no event, events are handled and removed by a running task, and OsStart is called once. */
  predicate Allowed(s: Sys, a: Action) {
    match a
    case Delete(target) =>
      s.running.Holds? && target != Some(s.idleId) && (target.None? ==> s.running.value.id != s.idleId)
    case RegisterEvent(_, _, _, _) => s.running.Holds? ==> s.running.value.id != s.idleId
    case Handle(i) => s.running.Holds? && i < |s.running.value.events|
    case Remove(_, _) => s.running.Holds?
    case Start(_) => s.running.Nobody?
    case _ => true
  }

  function Do(s: Sys, a: Action): Sys
    requires Allowed(s, a)
  {
    match a
    case Create(category, level, kernelMode, start) => TaskCreate(s, category, level, kernelMode, start).1
    case Delete(target) => TaskDelete(s, target).1
    case SetPriority(task, level) => TaskPrioritySet(s, task, level).1
    case RegisterEvent(source, code, flags, life) => EventRegister(s, source, code, flags, life).1
    case Handle(i) => EventHandle(s, i)
    case Remove(source, code) => PollRemove(s, source, code).1
    case EmitEvent(source, code, flags) => EventEmit(s, source, code, flags).1
    case Start(first) => OsStart(s, first)
    case Ticks(dispatch, unlocked, delta) => Tick(s, dispatch, unlocked, delta)
  }

  ghost predicate AllowedRun(s: Sys, actions: seq<Action>)
    decreases |actions|
  {
    actions == [] || (Allowed(s, actions[0]) && AllowedRun(Do(s, actions[0]), actions[1..]))
  }

  function Run(s: Sys, actions: seq<Action>): Sys
    requires AllowedRun(s, actions)
    decreases |actions|
  {
    if actions == [] then s else Run(Do(s, actions[0]), actions[1..])
  }
}
