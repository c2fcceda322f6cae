/** The scheduler (source/kernel/src/Scheduler.c): the broker's nested loops over the events and the task lists, which
    change flags, counters and states in place and move tasks while the lists are walked. */
module Scheduler {
  import opened Base
  import opened Events
  import opened Tasks
  import opened Broker
  import opened TaskObjects
  import Fletcher

  class Scheduler {
    const wait: TaskList      // TcbWaitList
    const idle: TaskList      // TcbList
    const queue: TaskList     // ExecutionQueue
    var events: seq<Event>    // EventList
    ghost var entered: seq<Key>

    constructor ()
      ensures fresh(wait) && fresh(idle) && fresh(queue) && Valid()
      ensures wait.tasks == idle.tasks == queue.tasks == [] && events == [] && entered == []
    {
      wait := new TaskList();
      idle := new TaskList();
      queue := new TaskList();
      events, entered := [], [];
    }

    /** The lists are different, and no task is in two places. */
    ghost predicate Valid()
      reads wait, idle, queue, wait.tasks, idle.tasks, queue.tasks
    {
      ValidFor(wait, idle)
    }

    /** The same, seen from a list that tasks leave and the other one. */
    ghost predicate ValidFor(list: TaskList, other: TaskList)
      reads list, other, queue, list.tasks, other.tasks, queue.tasks
    {
      && list != other && list != queue && other != queue
      && list.Valid() && other.Valid() && queue.Valid()
      && Apart3(list.tasks, other.tasks, queue.tasks)
    }

    ghost function State(): Lists
      reads this`entered, wait`values, idle`values, queue`values
    {
      Lists(wait.values, idle.values, queue.values, entered)
    }

    /** ListNodeAddSorted for the waiting list. */
    method AddToWait(task: Tcb)
      requires Valid() && task !in Objects() && Count(wait.values, task.id) == 0
      modifies wait`tasks, wait`values
      ensures Valid() && Objects() == old(Objects()) + {task}
      ensures wait.values == AddSorted(old(wait.values), task.Value())
    {
      AddTo(wait, task, idle);
    }

    method AddTo(list: TaskList, task: Tcb, ghost other: TaskList)
      requires ValidFor(list, other) && task !in list.tasks && task !in other.tasks && task !in queue.tasks
      requires Count(list.values, task.id) == 0
      modifies list`tasks, list`values
      ensures ValidFor(list, other) && Members(list.tasks) == Members(old(list.tasks)) + {task}
      ensures list.values == AddSorted(old(list.values), task.Value())
    {
      ghost var s := list.tasks;
      list.NodeAddSorted(task);
      ghost var k: nat :| k <= |s| && list.tasks == Inserted(s, k, task);
      JoinKeepsApart(s, other.tasks, queue.tasks, k, task);
    }

    /** ListNodeAddSorted for the idle list. */
    method AddToIdle(task: Tcb)
      requires Valid() && task !in Objects() && Count(idle.values, task.id) == 0
      modifies idle`tasks, idle`values
      ensures Valid() && Objects() == old(Objects()) + {task}
      ensures idle.values == AddSorted(old(idle.values), task.Value())
    {
      ApartParts(wait.tasks, idle.tasks, queue.tasks);
      AddTo(idle, task, wait);
      ApartParts(idle.tasks, wait.tasks, queue.tasks);
    }

    /** A task that is nowhere goes to the waiting list. */
    method PutToWait(task: Tcb)
      requires Valid() && task !in Objects() && Count(wait.values, task.id) == 0
      modifies task`state, wait`tasks, wait`values
      ensures Valid() && Objects() == old(Objects()) + {task}
      ensures wait.values == AddSorted(old(wait.values), old(task.Value()).(state := Waiting))
    {
      task.state := Waiting;
      AddToWait(task);
    }

    /** A task that is nowhere goes to the idle list. */
    method PutToIdle(task: Tcb)
      requires Valid() && task !in Objects() && Count(idle.values, task.id) == 0
      modifies task`state, idle`tasks, idle`values
      ensures Valid() && Objects() == old(Objects()) + {task}
      ensures idle.values == AddSorted(old(idle.values), old(task.Value()).(state := Idle))
    {
      task.state := Idle;
      AddToIdle(task);
    }

    /** EventEmit on the list of emitted events. */
    method EventEmit(source: U32, code: U32, flags: Flags, life: U32) returns (r: OsResult)
      modifies this`events
      ensures (r, events) == Emit(old(events), source, code, flags, life)
    {
      var hash := Fletcher.EventToHash(source, code);
      var i := EventSearch(events, hash);
      if i < |events| {
        events := events[i := LifeTimeReset(events[i])];
        r := Fail;
      } else {
        events := events + [NewEvent(source, code, flags, life)];
        r := Ok;
      }
    }

    /** ListNodeRemove for the idle list. */
    method RemoveFromIdle(task: Tcb, ghost i: nat)
      requires Valid() && i < |idle.tasks| && idle.tasks[i] == task
      modifies idle`tasks, idle`values
      ensures Valid() && task !in Objects() && Objects() + {task} == old(Objects())
      ensures idle.values == Without(old(idle.values), i)
    {
      ApartParts(wait.tasks, idle.tasks, queue.tasks);
      LeaveKeepsApart(idle.tasks, wait.tasks, queue.tasks, i);
      idle.NodeRemove(task, i);
    }

    /** KSchedulerQueueTaskPop. */
    method QueueTaskPop() returns (task: Tcb?)
      requires Valid()
      modifies queue`tasks, queue`values, this`entered
      ensures Valid()
      ensures task == null <==> old(queue.values) == []
      ensures task == null ==> State() == old(State()) && queue.tasks == old(queue.tasks)
      ensures task != null ==>
                && task in old(Objects()) && task !in Objects() && Objects() + {task} == old(Objects())
                && task.Value() == old(queue.values)[0] && queue.values == old(queue.values)[1..]
                && entered == if old(entered) == [] then [] else Served(old(entered))
    {
      task := null;
      if |queue.tasks| != 0 {
        task := queue.tasks[0];
        ApartParts(wait.tasks, idle.tasks, queue.tasks);
        LeaveKeepsApart(queue.tasks, wait.tasks, idle.tasks, 0);
        entered := if entered == [] then [] else Served(entered);
        queue.NodeRemove(task, 0);
      }
    }

    /** ISchedulerTaskAddDescendingPriority. */
    method TaskAddDescendingPriority(from: TaskList, to: TaskList, task: Tcb, ghost i: nat)
      requires from != to && from.Valid() && to.Valid() && NoDup(from.tasks) && i < |from.tasks|
               && from.tasks[i] == task
      modifies from`tasks, from`values, to`tasks, to`values
      ensures from.Valid() && to.Valid()
      ensures from.tasks == Without(old(from.tasks), i) && from.values == Without(old(from.values), i)
      ensures to.tasks == Inserted(old(to.tasks), Place(Keys(old(to.values)), task.priority), task)
      ensures to.values == Insert(old(to.values), task.Value())
    {
      from.NodeRemove(task, i);
      ghost var ks := Keys(to.values);
      if |to.tasks| == 0 {
        to.NodeAdd(0, task);
        return;
      }
      var k := 0;
      while k < |to.tasks|
        invariant k <= |to.tasks|
        invariant forall j :: 0 <= j < k ==> task.priority <= ks[j].priority
      {
        if task.priority > to.tasks[k].priority {
          PlaceIs(ks, task.priority, k);
          to.NodeAdd(k, task);
          return;
        }
        k := k + 1;
      }
      PlaceIs(ks, task.priority, k);
      to.NodeAdd(k, task);
    }

    /** The body of the loop in ISchedulerTaskEventsCompare, on the registered event. */
    method EventCompare(e0: Event, a: Args) returns (e: Event)
      ensures e == CompareEvent(e0, a)
    {
      e := e0;
      if IsEqual(a.event, e) {
        e := e.(flags := e.flags.(occurred := true));
        e := e.(flags := e.flags.(timedOut := false));
        e := LifeTimeReset(e);
        e := OccurrenceCountIncrement(e);
      } else if a.last {
        if !e.flags.noTimeout && !e.flags.timedOut {
          var aged := LifeTimeIncrement(e, a.delta);
          if aged.None? {
            e := e.(flags := e.flags.(timedOut := true));
          } else {
            e := aged.value;
          }
        }
      }
    }

    /** The loop of ISchedulerTaskEventsCompare. */
    method TaskCompare(task: Tcb, a: Args)
      modifies task
      ensures task.Value() == CompareTask(old(task.Value()), a)
    {
      ghost var l, st := task.events, task.state;
      ghost var r := CompareEvents(l, a);
      var i := 0;
      while i < |task.events|
        invariant i <= |task.events| == |l|
        invariant forall k :: 0 <= k < i ==> task.events[k] == r[k]
        invariant forall k :: i <= k < |l| ==> task.events[k] == l[k]
        invariant task.priority == old(task.priority) && task.delete == old(task.delete)
        invariant task.state == if FlaggedBefore(r, i) then Active else st
      {
        var e := EventCompare(task.events[i], a);
        task.events := task.events[i := e];
        if e.flags.occurred || e.flags.timedOut {
          task.state := Active;
        }
        i := i + 1;
      }
      assert task.events == r;
    }

    /** Moving an active task to the queue. */
    method MoveToQueue(list: TaskList, task: Tcb, ghost i: nat, ghost other: TaskList)
      requires ValidFor(list, other) && i < |list.tasks| && list.tasks[i] == task
      modifies list`tasks, list`values, queue`tasks, queue`values, this`entered
      ensures ValidFor(list, other)
      ensures Within(list.tasks, old(list.tasks), []) && Within(queue.tasks, old(queue.tasks), [task])
      ensures list.values == Without(old(list.values), i) && queue.values == Insert(old(queue.values), task.Value())
      ensures entered == old(entered) + [KeyOf(task.Value())]
    {
      entered := entered + [KeyOf(task.Value())];
      ApartParts(list.tasks, other.tasks, queue.tasks);
      MoveKeepsApart(list.tasks, other.tasks, queue.tasks, i, Place(Keys(queue.values), task.priority));
      TaskAddDescendingPriority(list, queue, task, i);
    }

    /** ISchedulerTaskEventsCompare. */
    method TaskEventsCompare(list: TaskList, task: Tcb, a: Args, ghost i: nat, ghost other: TaskList)
      requires ValidFor(list, other) && i < |list.tasks| && list.tasks[i] == task
      modifies task, list`tasks, list`values, queue`tasks, queue`values, this`entered
      ensures ValidFor(list, other)
      ensures Within(list.tasks, old(list.tasks), []) && Within(queue.tasks, old(queue.tasks), [task])
      ensures task.Value() == CompareTask(old(list.values[i]), a)
      ensures list.values == if task.state == Active then Without(old(list.values), i)
              else old(list.values)[i := task.Value()]
      ensures queue.values == if task.state == Active then Insert(old(queue.values), task.Value())
              else old(queue.values)
      ensures entered == if task.state == Active then old(entered) + [KeyOf(task.Value())] else old(entered)
    {
      ApartParts(list.tasks, other.tasks, queue.tasks);
      OnlyThere(list.tasks, i);
      OnlyInOne(list.tasks, other.tasks, queue.tasks, i);
      TaskCompare(task, a);
      list.Refresh(i);
      assert ValidFor(list, other);
      if list != queue && task.state == Active {
        MoveToQueue(list, task, i, other);
      }
    }

    /** One turn of the loop in ISchedulerTaskListCompare: the task under the cursor, and the next cursor. */
    method TaskCompareAt(list: TaskList, c: nat, a: Args, ghost other: TaskList,
                         ghost l: seq<Task>, ghost q: seq<Task>, ghost e: seq<Key>, ghost j: nat) returns (next: nat)
      requires ValidFor(list, other) && c < |list.tasks| == |list.values|
      requires j <= |l| && Progress(l, q, e, j, c, list.values, queue.values, entered, a)
      modifies list.tasks[c], list`tasks, list`values, queue`tasks, queue`values, this`entered
      ensures ValidFor(list, other)
      ensures Inside(list.tasks, queue.tasks, old(list.tasks), old(queue.tasks))
      ensures j < |l| && Progress(l, q, e, j + 1, next, list.values, queue.values, entered, a)
    {
      var task := list.tasks[c];
      assert task in list.tasks;
      CompareStep(l, q, e, j, c, list.values, queue.values, entered, a);
      TaskEventsCompare(list, task, a, c, other);
      next := if task.state == Active then c else c + 1;
    }

    /** ISchedulerTaskListCompare for the waiting or the idle list. */
    method TaskListCompare(list: TaskList, a: Args, ghost other: TaskList)
      requires ValidFor(list, other)
      modifies list`tasks, list`values, list.tasks, queue`tasks, queue`values, this`entered
      ensures ValidFor(list, other)
      ensures Inside(list.tasks, queue.tasks, old(list.tasks), old(queue.tasks))
      ensures list.values == Kept(old(list.values), a)
      ensures queue.values == Enqueue(old(queue.values), Moved(old(list.values), a))
      ensures entered == old(entered) + Keys(Moved(old(list.values), a))
    {
      ghost var l, q, e := list.values, queue.values, entered;
      ghost var j: nat := 0;
      var c: nat := 0;
      while c < |list.tasks|
        invariant ValidFor(list, other)
        invariant Inside(list.tasks, queue.tasks, old(list.tasks), old(queue.tasks))
        invariant j <= |l| && Progress(l, q, e, j, c, list.values, queue.values, entered, a)
        decreases |l| - j
      {
        ghost var lt, qt := list.tasks, queue.tasks;
        InsideMember(lt, qt, old(list.tasks), old(queue.tasks), c);
        c := TaskCompareAt(list, c, a, other, l, q, e, j);
        InsideTrans(list.tasks, queue.tasks, lt, qt, old(list.tasks), old(queue.tasks));
        j := j + 1;
      }
      CompareDone(l, q, e, j, c, list.values, queue.values, entered, a);
    }

    /** One turn of the loop in ISchedulerTaskListCompare for the queue, where the tasks stay. */
    method QueueCompareAt(c: nat, a: Args)
      requires Valid() && c < |queue.tasks| == |queue.values|
      modifies queue.tasks[c], queue`values
      ensures Valid() && queue.values == old(queue.values)[c := CompareTask(old(queue.values[c]), a)]
    {
      ApartParts(wait.tasks, idle.tasks, queue.tasks);
      OnlyThere(queue.tasks, c);
      OnlyInOne(queue.tasks, wait.tasks, idle.tasks, c);
      TaskCompare(queue.tasks[c], a);
      queue.Refresh(c);
    }

    /** ISchedulerTaskListCompare for the queue. */
    method QueueCompare(a: Args)
      requires Valid()
      modifies queue.tasks, queue`values
      ensures Valid() && queue.values == CompareAll(old(queue.values), a)
    {
      ghost var v := queue.values;
      var c: nat := 0;
      while c < |queue.tasks|
        invariant c <= |queue.tasks| && Valid() && |queue.tasks| == |queue.values| == |v|
        invariant QueueProgress(v, queue.values, c, a)
      {
        QueueStep(v, queue.values, c, a);
        QueueCompareAt(c, a);
        c := c + 1;
      }
      assert CompareAll(v, a)[..c] + v[c..] == CompareAll(v, a);
    }

    ghost function Objects(): set<Tcb>
      reads wait`tasks, idle`tasks, queue`tasks
    {
      Members(wait.tasks) + Members(idle.tasks) + Members(queue.tasks)
    }

    /** KTcbFromId. */
    method TcbFromId(id: U32) returns (task: Tcb?)
      requires Valid()
      ensures var i, j := Find(idle.values, id), Find(wait.values, id);
              if i < |idle.values| then i < |idle.tasks| && task == idle.tasks[i]
              else if j < |wait.values| then j < |wait.tasks| && task == wait.tasks[j]
              else task == null
    {
      ghost var k: nat;
      task, k := idle.Search(id);
      if task != null {
        return;
      }
      task, k := wait.Search(id);
    }

    /** KTcbLocationGet. */
    method TcbLocationGet(task: Tcb) returns (list: TaskList?)
      requires Valid()
      ensures var i, j := Find(idle.values, task.id), Find(wait.values, task.id);
              list == if i < |idle.values| then idle else if j < |wait.values| then wait else null
    {
      ghost var k: nat;
      var found: Tcb?;
      found, k := idle.Search(task.id);
      if found != null {
        return idle;
      }
      found, k := wait.Search(task.id);
      list := if found != null then wait else null;
    }

    /** The part of the broker for an addressed event. */
    method TaskAddress(id: U32)
      requires Valid()
      modifies wait`tasks, wait`values, idle`tasks, idle`values, queue`tasks, queue`values, this`entered, Objects()
      ensures Valid() && Objects() <= old(Objects())
      ensures State() == Address(old(State()), id)
    {
      var task := TcbFromId(id);
      if task != null {
        var list := TcbLocationGet(task);
        if list == idle {
          ActivateIdle(task, Find(idle.values, id));
        } else if list == wait {
          ActivateWaiting(task, Find(wait.values, id));
        }
      }
    }

    method ActivateIdle(task: Tcb, ghost i: nat)
      requires Valid() && i < |idle.tasks| && idle.tasks[i] == task
      modifies task, idle`tasks, idle`values, queue`tasks, queue`values, this`entered
      ensures Valid() && Objects() <= old(Objects())
      ensures var l := old(State());
              var t := l.idle[i].(state := Active);
              State() == l.(idle := Without(l.idle, i), queue := Insert(l.queue, t), entered := l.entered + [KeyOf(t)])
    {
      ghost var s, q := idle.tasks, queue.tasks;
      ApartParts(wait.tasks, idle.tasks, queue.tasks);
      Activate(idle, task, i, wait);
      ApartParts(idle.tasks, wait.tasks, queue.tasks);
      InsideMembers(idle.tasks, queue.tasks, s, q, wait.tasks);
    }

    method ActivateWaiting(task: Tcb, ghost j: nat)
      requires Valid() && j < |wait.tasks| && wait.tasks[j] == task
      modifies task, wait`tasks, wait`values, queue`tasks, queue`values, this`entered
      ensures Valid() && Objects() <= old(Objects())
      ensures var l := old(State());
              var t := l.wait[j].(state := Active);
              State() == l.(wait := Without(l.wait, j), queue := Insert(l.queue, t), entered := l.entered + [KeyOf(t)])
    {
      ghost var w, q := wait.tasks, queue.tasks;
      Activate(wait, task, j, idle);
      InsideMembers(wait.tasks, queue.tasks, w, q, idle.tasks);
    }

    /** An addressed task becomes active and moves to the queue. */
    method Activate(list: TaskList, task: Tcb, ghost i: nat, ghost other: TaskList)
      requires ValidFor(list, other) && i < |list.tasks| && list.tasks[i] == task
      modifies task, list`tasks, list`values, queue`tasks, queue`values, this`entered
      ensures ValidFor(list, other) && Inside(list.tasks, queue.tasks, old(list.tasks), old(queue.tasks))
      ensures var t := old(list.values[i]).(state := Active);
              && list.values == Without(old(list.values), i) && queue.values == Insert(old(queue.values), t)
              && entered == old(entered) + [KeyOf(t)]
    {
      ApartParts(list.tasks, other.tasks, queue.tasks);
      OnlyThere(list.tasks, i);
      OnlyInOne(list.tasks, other.tasks, queue.tasks, i);
      ghost var v := list.values;
      task.state := Active;
      list.Refresh(i);
      assert ValidFor(list, other);
      assert Without(list.values, i) == Without(v, i);
      MoveToQueue(list, task, i, other);
    }

    /** ISchedulerTaskListCompare for the idle list. */
    method IdleCompare(a: Args)
      requires Valid()
      modifies idle`tasks, idle`values, idle.tasks, queue`tasks, queue`values, this`entered
      ensures Valid() && Objects() <= old(Objects())
      ensures idle.values == Kept(old(idle.values), a)
      ensures queue.values == Enqueue(old(queue.values), Moved(old(idle.values), a))
      ensures entered == old(entered) + Keys(Moved(old(idle.values), a))
    {
      ghost var s, q := idle.tasks, queue.tasks;
      ApartParts(wait.tasks, idle.tasks, queue.tasks);
      TaskListCompare(idle, a, wait);
      InsideMembers(idle.tasks, queue.tasks, s, q, wait.tasks);
      ApartParts(idle.tasks, wait.tasks, queue.tasks);
    }

    /** ISchedulerTaskListCompare for the waiting list. */
    method WaitCompare(a: Args)
      requires Valid()
      modifies wait`tasks, wait`values, wait.tasks, queue`tasks, queue`values, this`entered
      ensures Valid() && Objects() <= old(Objects())
      ensures wait.values == Kept(old(wait.values), a)
      ensures queue.values == Enqueue(old(queue.values), Moved(old(wait.values), a))
      ensures entered == old(entered) + Keys(Moved(old(wait.values), a))
    {
      ghost var s, q := wait.tasks, queue.tasks;
      TaskListCompare(wait, a, idle);
      InsideMembers(wait.tasks, queue.tasks, s, q, idle.tasks);
    }

    /** The three calls of ISchedulerTaskListCompare. */
    method ComparePass(a: Args)
      requires Valid()
      modifies wait`tasks, wait`values, idle`tasks, idle`values, queue`tasks, queue`values, this`entered, Objects()
      ensures Valid() && Objects() <= old(Objects())
      ensures State() == Pass(old(State()), a)
    {
      ghost var l, o := State(), Objects();
      WaitCompare(a);
      ghost var q1, e1 := queue.values, entered;
      IdleCompare(a);
      ghost var q2 := queue.values;
      assert Objects() <= o && Members(queue.tasks) <= Objects();
      QueueCompare(a);
      PassParts(l, a, q1, q2, e1, entered);
    }

    /** One turn of the loop over the emitted events. */
    method EventTurn(a: Args)
      requires Valid()
      modifies wait`tasks, wait`values, idle`tasks, idle`values, queue`tasks, queue`values, this`entered, Objects()
      ensures Valid() && Objects() <= old(Objects())
      ensures State() == Turn(old(State()), a)
    {
      if a.event.flags.addressed {
        TaskAddress(a.event.source);
        if !a.last {
          return;
        }
      }
      ComparePass(a);
    }

    /** The lifetime of the emitted event under the cursor, and the next cursor. */
    method EventAge(c: nat, delta: U32) returns (next: nat)
      requires c < |events|
      modifies this`events
      ensures var now := EventAfter(old(events[c]), delta);
              if now == [] then next == c && events == Without(old(events), c)
              else next == c + 1 && events == old(events)[c := now[0]]
    {
      var e := events[c];
      next := c + 1;
      if !IsMock(e) {
        var aged := LifeTimeIncrement(e, delta);
        if aged.None? {
          events := Without(events, c);
          next := c;
        } else {
          events := events[c := aged.value];
        }
      }
    }

    /** One turn of the loop over the emitted events, and the next cursor. */
    method EventAt(c: nat, delta: U32, ghost l: Lists, ghost es: seq<Event>, ghost j: nat) returns (next: nat)
      requires Valid() && c < |events| && j <= |es| && CycleProgress(l, es, delta, j, c, State(), events)
      modifies this`events, wait`tasks, wait`values, idle`tasks, idle`values, queue`tasks, queue`values, this`entered,
               Objects()
      ensures Valid() && Objects() <= old(Objects())
      ensures j < |es| && CycleProgress(l, es, delta, j + 1, next, State(), events)
    {
      CycleStep(l, es, delta, j, c, State(), events);
      EventTurn(Args(events[c], c == |events| - 1, delta));
      next := EventAge(c, delta);
    }

    /** ISchedulerEventBrokerCycle; an empty list of events is trapped. */
    method EventBrokerCycle(delta: U32)
      requires Valid() && events != []
      modifies this`events, wait`tasks, wait`values, idle`tasks, idle`values, queue`tasks, queue`values, this`entered,
               Objects()
      ensures Valid() && Objects() <= old(Objects())
      ensures State() == Cycle(old(State()), old(events), delta)
      ensures events == EventsAfter(old(events), delta)
    {
      ghost var l, es := State(), events;
      ghost var j: nat := 0;
      var c: nat := 0;
      while c < |events|
        invariant Valid() && Objects() <= old(Objects())
        invariant j <= |es| && CycleProgress(l, es, delta, j, c, State(), events)
        decreases |es| - j
      {
        ghost var o := Objects();
        c := EventAt(c, delta, l, es, j);
        assert Objects() <= o;
        j := j + 1;
      }
      CycleDone(l, es, delta, j, c, State(), events);
    }
  }

  /** The first c tasks of the queue have been compared. */
  ghost predicate QueueProgress(v: seq<Task>, v': seq<Task>, c: nat, a: Args)
    requires c <= |v|
  {
    v' == CompareAll(v, a)[..c] + v[c..]
  }

  lemma QueueStep(v: seq<Task>, v': seq<Task>, c: nat, a: Args)
    requires c < |v| && QueueProgress(v, v', c, a)
    ensures c < |v'| && QueueProgress(v, v'[c := CompareTask(v'[c], a)], c + 1, a)
  {}

  /** j of the emitted events es have been handled; the cursor c is behind those that live on. */
  ghost predicate CycleProgress(l: Lists, es: seq<Event>, delta: U32, j: nat, c: nat, l': Lists, es': seq<Event>)
    requires j <= |es|
  {
    && es' == EventsAfter(es[..j], delta) + es[j..] && c == |EventsAfter(es[..j], delta)|
    && Cycle(l', es[j..], delta) == Cycle(l, es, delta)
  }

  lemma CycleStep(l: Lists, es: seq<Event>, delta: U32, j: nat, c: nat, l': Lists, es': seq<Event>)
    requires j <= |es| && CycleProgress(l, es, delta, j, c, l', es') && c < |es'|
    ensures j < |es| && es'[c] == es[j]
    ensures var l'' := Turn(l', Args(es[j], c == |es'| - 1, delta));
            var now := EventAfter(es[j], delta);
            if now == [] then CycleProgress(l, es, delta, j + 1, c, l'', Without(es', c))
            else CycleProgress(l, es, delta, j + 1, c + 1, l'', es'[c := now[0]])
  {
    assert es[..j + 1][..j] == es[..j] && es[j..][1..] == es[j + 1..];
    AtEvent(EventsAfter(es[..j], delta), es[j..], EventAfter(es[j], delta));
  }

  lemma AtEvent(done: seq<Event>, rest: seq<Event>, now: seq<Event>)
    requires rest != [] && |now| <= 1
    ensures now == [] ==> Without(done + rest, |done|) == done + now + rest[1..]
    ensures now != [] ==> (done + rest)[|done| := now[0]] == done + now + rest[1..]
  {}

  lemma CycleDone(l: Lists, es: seq<Event>, delta: U32, j: nat, c: nat, l': Lists, es': seq<Event>)
    requires j <= |es| && CycleProgress(l, es, delta, j, c, l', es') && c >= |es'|
    ensures l' == Cycle(l, es, delta) && es' == EventsAfter(es, delta)
  {
    assert es[..j] == es;
  }

  lemma {:induction false} EnqueueBoth(q: seq<Task>, m: seq<Task>, n: seq<Task>)
    ensures Enqueue(Enqueue(q, m), n) == Enqueue(q, m + n)
    decreases |n|
  {
    if n == [] {
      assert m + n == m;
    } else {
      assert (m + n)[..|m + n| - 1] == m + n[..|n| - 1];
      EnqueueBoth(q, m, n[..|n| - 1]);
    }
  }

  lemma KeysConcat(e: seq<Key>, m: seq<Task>, n: seq<Task>)
    ensures e + Keys(m) + Keys(n) == e + Keys(m + n)
  {
    assert Keys(m) + Keys(n) == Keys(m + n);
  }

  /** Comparing the waiting list, the idle list and the queue, one after the other, is a pass. */
  lemma PassParts(l: Lists, a: Args, q1: seq<Task>, q2: seq<Task>, e1: seq<Key>, e2: seq<Key>)
    requires q1 == Enqueue(l.queue, Moved(l.wait, a)) && q2 == Enqueue(q1, Moved(l.idle, a))
    requires e1 == l.entered + Keys(Moved(l.wait, a)) && e2 == e1 + Keys(Moved(l.idle, a))
    ensures Lists(Kept(l.wait, a), Kept(l.idle, a), CompareAll(q2, a), e2) == Pass(l, a)
  {
    EnqueueBoth(l.queue, Moved(l.wait, a), Moved(l.idle, a));
    KeysConcat(l.entered, Moved(l.wait, a), Moved(l.idle, a));
  }

  lemma CompareDone(l: seq<Task>, q: seq<Task>, e: seq<Key>, j: nat, c: nat,
                    l': seq<Task>, q': seq<Task>, e': seq<Key>, a: Args)
    requires j <= |l| && Progress(l, q, e, j, c, l', q', e', a) && c >= |l'|
    ensures l' == Kept(l, a) && q' == Enqueue(q, Moved(l, a)) && e' == e + Keys(Moved(l, a))
  {
    assert l[..j] == l;
  }

  /** j tasks of the list l have been compared; the cursor c is behind those that stay. */
  ghost predicate Progress(l: seq<Task>, q: seq<Task>, e: seq<Key>, j: nat, c: nat,
                           l': seq<Task>, q': seq<Task>, e': seq<Key>, a: Args)
    requires j <= |l|
  {
    && l' == Kept(l[..j], a) + l[j..] && c == |Kept(l[..j], a)|
    && q' == Enqueue(q, Moved(l[..j], a)) && e' == e + Keys(Moved(l[..j], a))
  }

  lemma CompareStep(l: seq<Task>, q: seq<Task>, e: seq<Key>, j: nat, c: nat,
                    l': seq<Task>, q': seq<Task>, e': seq<Key>, a: Args)
    requires j <= |l| && Progress(l, q, e, j, c, l', q', e', a) && c < |l'|
    ensures j < |l| && l'[c] == l[j]
    ensures var t := CompareTask(l[j], a);
            if t.state == Active
            then Progress(l, q, e, j + 1, c, Without(l', c), Insert(q', t), e' + [KeyOf(t)], a)
            else Progress(l, q, e, j + 1, c + 1, l'[c := t], q', e', a)
  {
    var t := CompareTask(l[j], a);
    OneCompared(l, j, a);
    AtCursor(Kept(l[..j], a), l[j..], t);
    assert l[j..][1..] == l[j + 1..];
    if t.state == Active {
      OneMoved(q, e, Moved(l[..j], a), t);
    }
  }

  lemma OneCompared(l: seq<Task>, j: nat, a: Args)
    requires j < |l|
    ensures var t := CompareTask(l[j], a);
            if t.state == Active
            then Kept(l[..j + 1], a) == Kept(l[..j], a) && Moved(l[..j + 1], a) == Moved(l[..j], a) + [t]
            else Kept(l[..j + 1], a) == Kept(l[..j], a) + [t] && Moved(l[..j + 1], a) == Moved(l[..j], a)
  {
    assert l[..j + 1][..j] == l[..j];
  }

  lemma AtCursor(kept: seq<Task>, rest: seq<Task>, t: Task)
    requires rest != []
    ensures Without(kept + rest, |kept|) == kept + rest[1..]
    ensures (kept + rest)[|kept| := t] == kept + [t] + rest[1..]
  {}

  lemma OneMoved(q: seq<Task>, e: seq<Key>, moved: seq<Task>, t: Task)
    ensures Enqueue(q, moved + [t]) == Insert(Enqueue(q, moved), t)
    ensures e + Keys(moved + [t]) == e + Keys(moved) + [KeyOf(t)]
  {
    assert (moved + [t])[..|moved + [t]| - 1] == moved;
    assert Keys(moved + [t]) == Keys(moved) + [KeyOf(t)];
  }

  /** ListSearch in a list of events. */
  method EventSearch(l: seq<Event>, id: U16) returns (i: nat)
    ensures i == IndexOf(l, id)
  {
    i := 0;
    while i < |l| && l[i].id != id
      invariant i <= |l| && IndexOf(l, id) == i + IndexOf(l[i..], id)
    {
      assert l[i..][1..] == l[i + 1..];
      i := i + 1;
    }
  }

  predicate FlaggedBefore(l: seq<Event>, n: nat)
    requires n <= |l|
  {
    exists i :: 0 <= i < n && Flagged(l[i])
  }

}
