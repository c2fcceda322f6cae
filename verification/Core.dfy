/** The kernel core (source/kernel/src/Core.c) with the task and event operations on its fields: each method changes the
    fields in place and is proved against the state machine of module Kernel. */
module Core {
  import opened Base
  import opened Events
  import opened Tasks
  import opened Broker
  import opened TaskObjects
  import opened Scheduler
  import opened BrokerExact
  import opened KernelRuns
  import K = Kernel
  import Fletcher
  import IdType

  /** KIdInit, and the identifier of the first task. */
  method FirstTaskId() returns (pools: IdType.IdPools, id: U32)
    ensures pools.Valid() && fresh(pools) && fresh(pools.freeId) && fresh(pools.rollover)
    ensures pools.IssuedTo(K.GROUP_TASK) == 1 && id == IdType.MakeId(K.GROUP_TASK, 0)
  {
    pools := new IdType.IdPools();
    id := pools.Request(K.GROUP_TASK);
  }

  /** KTaskInit and KSchedulerInit. */
  method FirstLists(task: Tcb, lifetime: U32) returns (s: Scheduler)
    ensures fresh(s) && fresh(s.wait) && fresh(s.idle) && fresh(s.queue) && s.Valid() && s.Objects() == {task}
    ensures s.State() == Lists([], [task.Value()], [], []) && s.events == [MockEvent(lifetime)]
  {
    s := new Scheduler();
    s.events := [MockEvent(lifetime)];
    s.AddToIdle(task);
    assert s.idle.values == [task.Value()];
  }

  /** OsInit: the identifiers, the idle task and the mock event. */
  method OsInit(lifetime: U32) returns (core: Core)
    ensures core.Valid() && core.State() == K.InitialSys(lifetime) && Inv(core.State())
    ensures fresh(core) && fresh(core.scheduler) && fresh(core.ids) && fresh(core.Tasks())
    ensures fresh(core.scheduler.wait) && fresh(core.scheduler.idle) && fresh(core.scheduler.queue)
    ensures fresh(core.ids.freeId) && fresh(core.ids.rollover)
  {
    var ids, id := FirstTaskId();
    var task := new Tcb(id, CAT_LOW, CalculatePriority(CAT_LOW, PRIO_LIMIT_LOW));
    var scheduler := FirstLists(task, lifetime);
    core := new Core(scheduler, ids, task, lifetime);
    InitialInv(lifetime);
  }

  ghost predicate OneIdle(tasks: set<Tcb>, idleTask: Tcb) {
    forall t :: t in tasks && t.id == idleTask.id ==> t == idleTask
  }

  lemma FewerTasks(tasks: set<Tcb>, all: set<Tcb>, idleTask: Tcb)
    requires OneIdle(all, idleTask) && tasks <= all
    ensures OneIdle(tasks, idleTask)
  {}

  lemma MoreTasks(tasks: set<Tcb>, task: Tcb, idleTask: Tcb)
    requires OneIdle(tasks, idleTask) && task.id != idleTask.id
    ensures OneIdle(tasks + {task}, idleTask)
  {}

  class Core {
    const scheduler: Scheduler
    const ids: IdType.IdPools
    const idleTask: Tcb          // KernelReg.tcb_idle
    const lifetime: U32          // EmittedEventLifetimeUs
    var running: Tcb?            // KernelReg.tcb_running

    constructor (scheduler: Scheduler, ids: IdType.IdPools, idleTask: Tcb, lifetime: U32)
      requires scheduler.Valid() && ids.Valid() && OneIdle(scheduler.Objects(), idleTask)
      ensures this.scheduler == scheduler && this.ids == ids && this.idleTask == idleTask && this.lifetime == lifetime
      ensures running == null && Valid() && Tasks() == scheduler.Objects()
      ensures State() == K.Sys(scheduler.State(), K.Nobody, scheduler.events, ids.IssuedTo(K.GROUP_TASK), idleTask.id,
                               lifetime)
    {
      this.scheduler, this.ids, this.idleTask, this.lifetime, running := scheduler, ids, idleTask, lifetime, null;
    }

    /** All tasks. */
    ghost function Tasks(): set<Tcb>
      reads this`running, scheduler.wait`tasks, scheduler.idle`tasks, scheduler.queue`tasks
    {
      scheduler.Objects() + if running == null then {} else {running}
    }

    /** The running task is in no list, and only the idle task has its identifier. */
    ghost predicate Valid()
      reads this`running, scheduler.wait, scheduler.idle, scheduler.queue, scheduler.Objects(), ids, ids.freeId,
            ids.rollover
    {
      && scheduler.Valid() && ids.Valid()
      && (running != null ==> running !in scheduler.Objects())
      && OneIdle(Tasks(), idleTask)
    }

    ghost function State(): K.Sys
      requires ids.Valid()
      reads this`running, running, scheduler, scheduler.wait`values, scheduler.idle`values, scheduler.queue`values
      reads ids, ids.freeId, ids.rollover
    {
      K.Sys(scheduler.State(), if running == null then K.Nobody else K.Holds(running.Value()), scheduler.events,
            ids.IssuedTo(K.GROUP_TASK), idleTask.id, lifetime)
    }

    // ----- ICoreSwitchTask -----

    /** The first part: the running task goes to the waiting list, to the idle list, or away. */
    method PutAway(t: Tcb)
      requires scheduler.Valid() && t !in scheduler.Objects() && (t.id == idleTask.id ==> t == idleTask)
      requires Count(scheduler.wait.values, t.id) == Count(scheduler.idle.values, t.id) == 0
      modifies t`state, t`delete, scheduler.wait`tasks, scheduler.wait`values, scheduler.idle`tasks,
               scheduler.idle`values
      ensures scheduler.Valid() && scheduler.Objects() <= old(scheduler.Objects()) + {t}
      ensures scheduler.State() == K.PutAway(old(scheduler.State()), old(t.Value()), idleTask.id)
    {
      if |t.events| != 0 {
        scheduler.PutToWait(t);
      } else if !t.delete {
        scheduler.PutToIdle(t);
      } else if t.category == CAT_OS && t == idleTask {
        t.delete := false;
        scheduler.PutToIdle(t);
      }
    }

    /** The second part: the head of the queue, or else the idle task. */
    method TakeNext() returns (next: Tcb)
      requires scheduler.Valid() && OneIdle(scheduler.Objects(), idleTask)
      requires scheduler.queue.values == [] ==> Find(scheduler.idle.values, idleTask.id) < |scheduler.idle.values|
      modifies scheduler.Objects()`state, scheduler.idle`tasks, scheduler.idle`values
      modifies scheduler.queue`tasks, scheduler.queue`values, scheduler`entered
      ensures scheduler.Valid() && next !in scheduler.Objects()
              && scheduler.Objects() + {next} == old(scheduler.Objects())
      ensures (K.Holds(next.Value()), scheduler.State()) == K.TakeNext(old(scheduler.State()), idleTask.id)
    {
      var popped := scheduler.QueueTaskPop();
      if popped == null {
        TakeIdle();
        return idleTask;
      }
      popped.state := Running;
      next := popped;
    }

    /** The idle task leaves its list. */
    method TakeIdle()
      requires scheduler.Valid() && OneIdle(scheduler.Objects(), idleTask)
      requires Find(scheduler.idle.values, idleTask.id) < |scheduler.idle.values|
      modifies idleTask`state, scheduler.idle`tasks, scheduler.idle`values
      ensures scheduler.Valid() && idleTask !in scheduler.Objects()
      ensures scheduler.Objects() + {idleTask} == old(scheduler.Objects())
      ensures var i := Find(old(scheduler.idle.values), idleTask.id);
              && idleTask.Value() == old(scheduler.idle.values)[i].(state := Running)
              && scheduler.idle.values == Without(old(scheduler.idle.values), i)
    {
      ghost var i := Find(scheduler.idle.values, idleTask.id);
      assert scheduler.idle.tasks[i] in scheduler.Objects();
      scheduler.RemoveFromIdle(idleTask, i);
      idleTask.state := Running;
    }

    /** The move of both tasks. */
    method Exchange(t: Tcb) returns (next: Tcb)
      requires scheduler.Valid() && t !in scheduler.Objects() && OneIdle(scheduler.Objects() + {t}, idleTask)
      requires CanSwitch(scheduler.State(), t.Value(), idleTask.id)
      modifies t`state, t`delete, scheduler.Objects()`state, scheduler`entered
      modifies scheduler.wait`tasks, scheduler.wait`values, scheduler.idle`tasks, scheduler.idle`values
      modifies scheduler.queue`tasks, scheduler.queue`values
      ensures scheduler.Valid() && next !in scheduler.Objects()
      ensures scheduler.Objects() + {next} <= old(scheduler.Objects()) + {t}
      ensures (K.Holds(next.Value()), scheduler.State())
              == K.TakeNext(K.PutAway(old(scheduler.State()), old(t.Value()), idleTask.id), idleTask.id)
    {
      PutAway(t);
      next := TakeNext();
    }

    /** ICoreSwitchTask in kernel mode. */
    method SwitchTask()
      requires Valid() && running != null && CanSwitch(scheduler.State(), running.Value(), idleTask.id)
      modifies this`running, running`state, running`delete, scheduler.Objects()`state, scheduler`entered
      modifies scheduler.wait`tasks, scheduler.wait`values, scheduler.idle`tasks, scheduler.idle`values
      modifies scheduler.queue`tasks, scheduler.queue`values
      ensures Valid() && State() == K.SwitchTask(old(State())) && running != null && Tasks() <= old(Tasks())
    {
      var next := ExchangeRunning();
      SetRunning(next);
    }

    /** The move, as the kernel sees it. */
    method ExchangeRunning() returns (next: Tcb)
      requires Valid() && running != null && CanSwitch(scheduler.State(), running.Value(), idleTask.id)
      modifies running`state, running`delete, scheduler.Objects()`state, scheduler`entered
      modifies scheduler.wait`tasks, scheduler.wait`values, scheduler.idle`tasks, scheduler.idle`values
      modifies scheduler.queue`tasks, scheduler.queue`values
      ensures scheduler.Valid() && next !in scheduler.Objects() && scheduler.Objects() + {next} <= old(Tasks())
      ensures OneIdle(scheduler.Objects() + {next}, idleTask)
      ensures (K.Holds(next.Value()), scheduler.State())
              == K.TakeNext(K.PutAway(old(scheduler.State()), old(running.Value()), idleTask.id), idleTask.id)
      ensures ids.Valid() && ids.IssuedTo(K.GROUP_TASK) == old(ids.IssuedTo(K.GROUP_TASK))
    {
      ghost var o := Tasks();
      next := Exchange(running);
      FewerTasks(scheduler.Objects() + {next}, o, idleTask);
    }

    /** The running task. */
    method SetRunning(next: Tcb)
      requires scheduler.Valid() && ids.Valid() && next !in scheduler.Objects()
      requires OneIdle(scheduler.Objects() + {next}, idleTask)
      modifies this`running
      ensures Valid() && running == next && Tasks() == scheduler.Objects() + {next}
      ensures State() == K.Sys(scheduler.State(), K.Holds(next.Value()), scheduler.events, ids.IssuedTo(K.GROUP_TASK),
                               idleTask.id, lifetime)
    {
      running := next;
    }

    /** OsTick and ICoreTickCoop. */
    method Tick(dispatch: bool, unlocked: bool, delta: U32)
      requires Valid() && CanTick(State())
      modifies this`running, running, scheduler.Objects(), scheduler`entered, scheduler`events
      modifies scheduler.wait`tasks, scheduler.wait`values, scheduler.idle`tasks, scheduler.idle`values
      modifies scheduler.queue`tasks, scheduler.queue`values
      ensures Valid() && State() == K.Tick(old(State()), dispatch, unlocked, delta)
    {
      if running != null {
        if dispatch {
          SwitchTask();
        }
        if unlocked {
          SchedulerCycle(delta);
        }
      }
    }

    /** KSchedulerCycle. */
    method SchedulerCycle(delta: U32)
      requires Valid() && running != null && scheduler.events != []
      modifies scheduler.Objects(), scheduler`entered, scheduler`events
      modifies scheduler.wait`tasks, scheduler.wait`values, scheduler.idle`tasks, scheduler.idle`values
      modifies scheduler.queue`tasks, scheduler.queue`values
      ensures Valid() && State() == K.SchedulerCycle(old(State()), delta) && Tasks() <= old(Tasks())
    {
      ghost var o := Tasks();
      scheduler.EventBrokerCycle(delta);
      assert Tasks() <= o && OneIdle(Tasks(), idleTask);
      assert ids.Valid() && ids.IssuedTo(K.GROUP_TASK) == old(ids.IssuedTo(K.GROUP_TASK));
    }

    /** The task that OsStart runs first. */
    method FirstTask(id: U32) returns (task: Tcb)
      requires scheduler.Valid() && OneIdle(scheduler.Objects(), idleTask) && scheduler.wait.values == []
      requires Find(scheduler.idle.values, idleTask.id) < |scheduler.idle.values|
      ensures task.id == if id != ID_INVALID && K.Found(scheduler.State(), id) then id else idleTask.id
      ensures var i := Find(scheduler.idle.values, task.id);
              i < |scheduler.idle.tasks| && scheduler.idle.tasks[i] == task
    {
      task := idleTask;
      ghost var i := Find(scheduler.idle.values, idleTask.id);
      assert scheduler.idle.tasks[i] in scheduler.Objects();
      if id != ID_INVALID {
        var found := scheduler.TcbFromId(id);
        if found != null {
          task := found;
        }
      }
    }

    /** The task that OsStart takes from the idle list. */
    method TakeFirst(id: U32) returns (task: Tcb)
      requires scheduler.Valid() && OneIdle(scheduler.Objects(), idleTask) && scheduler.wait.values == []
      requires Find(scheduler.idle.values, idleTask.id) < |scheduler.idle.values|
      modifies scheduler.Objects()`state, scheduler.idle`tasks, scheduler.idle`values
      ensures scheduler.Valid() && task !in scheduler.Objects()
              && scheduler.Objects() + {task} == old(scheduler.Objects())
      ensures var l := old(scheduler.State());
              var i := Find(l.idle, if id != ID_INVALID && K.Found(l, id) then id else idleTask.id);
              && i < |l.idle| && task.Value() == l.idle[i].(state := Running)
              && scheduler.State() == l.(idle := Without(l.idle, i))
    {
      task := FirstTask(id);
      ghost var i := Find(scheduler.idle.values, task.id);
      scheduler.RemoveFromIdle(task, i);
      task.state := Running;
    }

    /** OsStart, up to its loop. */
    method OsStart(id: U32)
      requires Valid() && running == null && CanStart(State())
      modifies this`running, scheduler.Objects()`state, scheduler.idle`tasks, scheduler.idle`values
      ensures Valid() && State() == K.OsStart(old(State()), id) && running != null
    {
      ghost var o, n := Tasks(), ids.IssuedTo(K.GROUP_TASK);
      var next := TakeFirst(id);
      FewerTasks(scheduler.Objects() + {next}, o, idleTask);
      assert ids.Valid() && ids.IssuedTo(K.GROUP_TASK) == n;
      SetRunning(next);
    }

    // ----- operations of tasks -----

    method EventEmit(source: U32, code: U32, flags: Flags) returns (r: OsResult)
      requires Valid()
      modifies scheduler`events
      ensures Valid() && (r, State()) == K.EventEmit(old(State()), source, code, flags)
    {
      r := scheduler.EventEmit(source, code, flags, lifetime);
    }

    /** KIdRequest for a task. */
    method RequestId() returns (id: U32)
      requires Valid()
      modifies ids.freeId, ids.rollover
      ensures Valid() && id == K.NextId(old(State()))
      ensures State() == old(State()).(issued := old(State()).issued + if id == ID_INVALID then 0 else 1)
    {
      id := ids.Request(K.GROUP_TASK);
      assert scheduler.Valid();
    }

    /** The new task, in the idle list. */
    method AddTask(id: U32, category: U8, level: U8)
      requires Valid() && Total(scheduler.State(), id) == 0 && id != idleTask.id
      modifies scheduler.idle`tasks, scheduler.idle`values
      ensures Valid()
      ensures var t := Task(id, category, CalculatePriority(category, level), Idle, false, []);
              State() == old(State()).(lists := old(scheduler.State()).(
                idle := AddSorted(old(scheduler.idle.values), t)))
    {
      var task := new Tcb(id, category, CalculatePriority(category, level));
      AddTcb(task);
    }

    method AddTcb(task: Tcb)
      requires Valid() && task !in Tasks() && Count(scheduler.idle.values, task.id) == 0 && task.id != idleTask.id
      modifies scheduler.idle`tasks, scheduler.idle`values
      ensures Valid()
      ensures State() == old(State()).(lists := old(scheduler.State()).(
                idle := AddSorted(old(scheduler.idle.values), task.Value())))
    {
      ghost var o := Tasks();
      scheduler.AddToIdle(task);
      MoreTasks(o, task, idleTask);
      assert Tasks() == o + {task};
    }

    /** TaskCreate without the start. */
    method TaskMake(category: U8, level: U8, kernelMode: bool) returns (id: U32)
      requires Valid() && IdIsFree(State())
      modifies scheduler.idle`tasks, scheduler.idle`values, ids.freeId, ids.rollover
      ensures Valid() && (id, State()) == K.TaskCreate(old(State()), category, level, kernelMode, false)
      ensures (id != ID_INVALID) == K.Creatable(old(State()), category, level, kernelMode)
    {
      if level < PRIO_LIMIT_LOW || level > PRIO_LIMIT_HIGH || category > CAT_OS {
        return ID_INVALID;
      }
      if category == CAT_OS && !kernelMode {
        return ID_INVALID;
      }
      ghost var s := State();
      id := RequestId();
      if id != ID_INVALID {
        ghost var s1 := State();
        assert s1 == s.(issued := s.issued + 1);
        AddTask(id, category, level);
        K.CreateWithoutStart(s, category, level, kernelMode);
      }
    }

    /** TaskCreate; with "start", TASK_PARAMETER_START. */
    method TaskCreate(category: U8, level: U8, kernelMode: bool, start: bool) returns (id: U32)
      requires Valid() && IdIsFree(State())
      modifies scheduler`events, scheduler.idle`tasks, scheduler.idle`values, ids.freeId, ids.rollover
      ensures Valid() && (id, State()) == K.TaskCreate(old(State()), category, level, kernelMode, start)
    {
      id := TaskMake(category, level, kernelMode);
      if id != ID_INVALID && start {
        var _ := EventEmit(id, K.TASK_EVENT_ACTIVATE, K.ADDRESSED);
      }
    }

    /** KTaskFlagSet with the deletion flag, or a new priority. */
    method SetField(task: Tcb, c: K.Change)
      modifies task`delete, task`priority
      ensures task.Value() == K.Changed(old(task.Value()), c)
    {
      if c.FlagDelete? {
        task.delete := true;
      } else {
        task.priority := CalculatePriority(task.category, c.level);
      }
    }

    method SetFieldAt(list: TaskList, task: Tcb, c: K.Change, ghost i: nat, ghost other: TaskList)
      requires scheduler.ValidFor(list, other) && i < |list.tasks| && list.tasks[i] == task
      modifies task`delete, task`priority, list`values
      ensures scheduler.ValidFor(list, other)
      ensures list.values == old(list.values)[i := K.Changed(old(list.values[i]), c)]
    {
      ApartParts(list.tasks, other.tasks, scheduler.queue.tasks);
      OnlyThere(list.tasks, i);
      OnlyInOne(list.tasks, other.tasks, scheduler.queue.tasks, i);
      SetField(task, c);
      list.Refresh(i);
    }

    /** The change of the task with the identifier, if the list has it. */
    method ChangeIn(list: TaskList, id: U32, c: K.Change, ghost other: TaskList) returns (found: bool)
      requires scheduler.ValidFor(list, other)
      modifies list.tasks`delete, list.tasks`priority, list`values
      ensures scheduler.ValidFor(list, other)
      ensures var v, i := old(list.values), Find(old(list.values), id);
              found == (i < |v|) && list.values == if i < |v| then v[i := K.Changed(v[i], c)] else v
    {
      var task, i := list.Search(id);
      found := task != null;
      if found {
        SetFieldAt(list, task, c, i, other);
      }
    }

    method ChangeInIdle(id: U32, c: K.Change) returns (found: bool)
      requires scheduler.Valid()
      modifies scheduler.idle.tasks`delete, scheduler.idle.tasks`priority, scheduler.idle`values
      ensures scheduler.Valid()
      ensures var l, i := old(scheduler.State()), Find(old(scheduler.idle.values), id);
              && found == (i < |l.idle|)
              && scheduler.State() == if i < |l.idle| then l.(idle := l.idle[i := K.Changed(l.idle[i], c)]) else l
    {
      ApartParts(scheduler.wait.tasks, scheduler.idle.tasks, scheduler.queue.tasks);
      found := ChangeIn(scheduler.idle, id, c, scheduler.wait);
      ApartParts(scheduler.idle.tasks, scheduler.wait.tasks, scheduler.queue.tasks);
    }

    method ChangeInWait(id: U32, c: K.Change) returns (found: bool)
      requires scheduler.Valid()
      modifies scheduler.wait.tasks`delete, scheduler.wait.tasks`priority, scheduler.wait`values
      ensures scheduler.Valid()
      ensures var l, j := old(scheduler.State()), Find(old(scheduler.wait.values), id);
              && found == (j < |l.wait|)
              && scheduler.State() == if j < |l.wait| then l.(wait := l.wait[j := K.Changed(l.wait[j], c)]) else l
    {
      found := ChangeIn(scheduler.wait, id, c, scheduler.idle);
    }

    /** The change of a task that KTcbFromId finds: the idle list is searched first. */
    method ChangeInLists(id: U32, c: K.Change) returns (found: bool)
      requires scheduler.Valid()
      modifies scheduler.Objects()`delete, scheduler.Objects()`priority, scheduler.idle`values, scheduler.wait`values
      ensures scheduler.Valid() && found == K.Found(old(scheduler.State()), id)
      ensures scheduler.State() == K.ChangeFound(old(scheduler.State()), id, c)
    {
      found := ChangeInIdle(id, c);
      if !found {
        found := ChangeInWait(id, c);
      }
    }

    method ChangeFound(id: U32, c: K.Change) returns (found: bool)
      requires Valid()
      modifies scheduler.Objects()`delete, scheduler.Objects()`priority, scheduler.idle`values, scheduler.wait`values
      ensures Valid() && found == K.Found(old(scheduler.State()), id)
      ensures State() == old(State()).(lists := K.ChangeFound(old(scheduler.State()), id, c))
    {
      found := ChangeInLists(id, c);
      assert ids.Valid() && ids.IssuedTo(K.GROUP_TASK) == old(ids.IssuedTo(K.GROUP_TASK));
    }

    /** TaskDelete; None is a NULL pointer. */
    method TaskDelete(id: Option<U32>) returns (r: OsResult)
      requires Valid() && running != null
      modifies running`delete, running`priority
      modifies scheduler.Objects()`delete, scheduler.Objects()`priority, scheduler.idle`values, scheduler.wait`values
      ensures Valid() && (r, State()) == K.TaskDelete(old(State()), id)
    {
      if id.None? || id.value == running.id {
        SetField(running, K.FlagDelete);
        return Ok;
      }
      var found := ChangeFound(id.value, K.FlagDelete);
      r := if found then Ok else Error;
    }

    /** TaskPrioritySet. */
    method TaskPrioritySet(id: U32, level: U8) returns (r: OsResult)
      requires Valid()
      modifies if running == null then {} else {running}
      modifies scheduler.Objects()`delete, scheduler.Objects()`priority, scheduler.idle`values, scheduler.wait`values
      ensures Valid() && (r, State()) == K.TaskPrioritySet(old(State()), id, level)
    {
      if level < PRIO_LIMIT_LOW || level > PRIO_LIMIT_HIGH {
        return InvalidArgument;
      }
      if id == ID_INVALID {
        if running == null {
          return Error;
        }
        SetField(running, K.SetLevel(level));
        return Ok;
      }
      var found := ChangeFound(id, K.SetLevel(level));
      r := if found then Ok else Error;
    }

    // ----- events of the running task -----

    /** ITaskEventRegister for the running task, with EventRegister. */
    method EventRegister(source: U32, code: U32, flags: Flags, life: U32) returns (r: OsResult)
      requires Valid()
      modifies (if running == null then {} else {running})`events
      ensures Valid() && (r, State()) == K.EventRegister(old(State()), source, code, flags, life)
    {
      if running == null {
        return Error;
      }
      var i := EventSearch(running.events, Fletcher.EventToHash(source, code));
      if i < |running.events| {
        if !running.events[i].flags.noTimeout {
          SetEvents(running.events[i := LifeTimeReset(running.events[i])]);
        }
        return Fail;
      }
      var all := flags;
      if life == TIMEOUT_INFINITE {
        all := all.(noTimeout := true);
      }
      SetEvents(running.events + [NewEvent(source, code, all, life)]);
      r := Ok;
    }

    /** The registered events of the running task. */
    method SetEvents(events: seq<Event>)
      requires Valid() && running != null
      modifies running`events
      ensures Valid() && State() == old(State()).(running := K.Holds(old(running.Value()).(events := events)))
    {
      running.events := events;
    }

    /** ITaskEventHandle. */
    method EventHandle(i: nat)
      requires Valid() && running != null && i < |running.events|
      modifies running`events
      ensures Valid() && State() == K.EventHandle(old(State()), i)
    {
      var e := running.events[i];
      if e.flags.permanent {
        running.events := running.events[i := Handled(e)];
      } else {
        running.events := Without(running.events, i);
      }
    }

    /** TaskPollRemove. */
    method PollRemove(source: U32, code: U32) returns (r: OsResult)
      requires Valid() && running != null
      modifies running`events
      ensures Valid() && (r, State()) == K.PollRemove(old(State()), source, code)
    {
      var i := EventSearch(running.events, Fletcher.EventToHash(source, code));
      if i < |running.events| {
        running.events := Without(running.events, i);
        return Ok;
      }
      r := Error;
    }

    // ----- all operations -----

    /** An operation, on the fields: whatever the state machine allows can be done, does what the state machine says,
        and keeps the invariant of its runs. */
    method Perform(a: K.Action)
      requires Valid() && Inv(State()) && K.Allowed(State(), a)
      modifies this`running, Tasks(), scheduler`entered, scheduler`events, ids.freeId, ids.rollover
      modifies scheduler.wait`tasks, scheduler.wait`values, scheduler.idle`tasks, scheduler.idle`values
      modifies scheduler.queue`tasks, scheduler.queue`values
      ensures Valid() && Inv(State()) && State() == K.Do(old(State()), a)
    {
      ActionKeeps(State(), a);
      InvCanTick(State());
      InvCanStart(State());
      match a
      case RegisterEvent(source, code, flags, life) => var _ := EventRegister(source, code, flags, life);
      case Handle(i) => EventHandle(i);
      case Remove(source, code) => var _ := PollRemove(source, code);
      case EmitEvent(source, code, flags) => var _ := EventEmit(source, code, flags);
      case Start(first) => OsStart(first);
      case Ticks(dispatch, unlocked, delta) => Tick(dispatch, unlocked, delta);
      case Create(category, level, kernelMode, start) => var _ := TaskCreate(category, level, kernelMode, start);
      case Delete(target) => var _ := TaskDelete(target);
      case SetPriority(task, level) => var _ := TaskPrioritySet(task, level);
    }
  }
}
