/** The event broker (source/kernel/src/Scheduler.c) as functions, and what one cycle does: who wakes, who stays and how
    each event ages. */
module Broker {
  import opened Base
  import opened Events
  import opened Tasks

  /** struct EventBrokerArgs, apart from the task list and the task. */
  datatype Args = Args(event: Event, last: bool, delta: U32)

  /** The lists the broker moves tasks between. 'entered' records the order in which the tasks came into the queue. */
  datatype Lists = Lists(wait: seq<Task>, idle: seq<Task>, queue: seq<Task>, entered: seq<Key>)

  // ----- one registered event, one task -----

  /** The body of the loop in ISchedulerTaskEventsCompare for one registered event. */
  function CompareEvent(e: Event, a: Args): Event {
    if IsEqual(a.event, e) then
      OccurrenceCountIncrement(LifeTimeReset(e.(flags := e.flags.(occurred := true, timedOut := false))))
    else if a.last && !e.flags.noTimeout && !e.flags.timedOut then
      match LifeTimeIncrement(e, a.delta)
      case Some(e') => e'
      case None => e.(flags := e.flags.(timedOut := true))
    else e
  }

  function CompareEvents(l: seq<Event>, a: Args): (r: seq<Event>)
    ensures |r| == |l| && forall i :: 0 <= i < |l| ==> r[i] == CompareEvent(l[i], a)
  {
    seq(|l|, i requires 0 <= i < |l| => CompareEvent(l[i], a))
  }

  predicate AnyFlagged(l: seq<Event>) { exists i :: 0 <= i < |l| && Flagged(l[i]) }

  /** What ISchedulerTaskEventsCompare does to the task. */
  function CompareTask(t: Task, a: Args): Task {
    var events := CompareEvents(t.events, a);
    t.(events := events, state := if AnyFlagged(events) then Active else t.state)
  }

  // ----- one event, all lists -----

  /** The tasks of a list that stay in it. */
  function Kept(l: seq<Task>, a: Args): seq<Task>
    decreases |l|
  {
    if l == [] then []
    else
      var t := CompareTask(l[|l| - 1], a);
      Kept(l[..|l| - 1], a) + if t.state == Active then [] else [t]
  }

  /** The tasks of a list that move to the queue, in that order. */
  function Moved(l: seq<Task>, a: Args): seq<Task>
    decreases |l|
  {
    if l == [] then []
    else
      var t := CompareTask(l[|l| - 1], a);
      Moved(l[..|l| - 1], a) + if t.state == Active then [t] else []
  }

  function Enqueue(q: seq<Task>, moved: seq<Task>): seq<Task>
    decreases |moved|
  {
    if moved == [] then q else Insert(Enqueue(q, moved[..|moved| - 1]), moved[|moved| - 1])
  }

  function CompareAll(l: seq<Task>, a: Args): (r: seq<Task>)
    ensures |r| == |l| && forall i :: 0 <= i < |l| ==> r[i] == CompareTask(l[i], a)
  {
    seq(|l|, i requires 0 <= i < |l| => CompareTask(l[i], a))
  }

  /** ISchedulerTaskListCompare for the waiting list, the idle list and the queue, in this order. */
  function Pass(l: Lists, a: Args): Lists {
    var moved := Moved(l.wait, a) + Moved(l.idle, a);
    Lists(Kept(l.wait, a), Kept(l.idle, a), CompareAll(Enqueue(l.queue, moved), a), l.entered + Keys(moved))
  }

  /** An addressed event: KTcbFromId searches the idle list and then the waiting list. */
  function Address(l: Lists, id: U32): Lists {
    var i, j := Find(l.idle, id), Find(l.wait, id);
    if i < |l.idle| then
      var t := l.idle[i].(state := Active);
      l.(idle := Without(l.idle, i), queue := Insert(l.queue, t), entered := l.entered + [KeyOf(t)])
    else if j < |l.wait| then
      var t := l.wait[j].(state := Active);
      l.(wait := Without(l.wait, j), queue := Insert(l.queue, t), entered := l.entered + [KeyOf(t)])
    else l
  }

  /** One turn of the loop over the emitted events, without the event's own lifetime. */
  function Turn(l: Lists, a: Args): Lists {
    var l1 := if a.event.flags.addressed then Address(l, a.event.source) else l;
    if a.event.flags.addressed && !a.last then l1 else Pass(l1, a)
  }

  /** ISchedulerEventBrokerCycle on the task lists, for the events still to be looked at. */
  function Cycle(l: Lists, todo: seq<Event>, delta: U32): Lists
    decreases |todo|
  {
    if todo == [] then l else Cycle(Turn(l, Args(todo[0], |todo| == 1, delta)), todo[1..], delta)
  }

  /** ISchedulerEventBrokerCycle on the list of emitted events. */
  function EventsAfter(l: seq<Event>, delta: U32): seq<Event>
    decreases |l|
  {
    if l == [] then []
    else EventsAfter(l[..|l| - 1], delta) + EventAfter(l[|l| - 1], delta)
  }

  function EventAfter(e: Event, delta: U32): seq<Event> {
    if IsMock(e) then [e]
    else
      match LifeTimeIncrement(e, delta)
      case Some(e') => [e']
      case None => []
  }

  // ----- who wakes -----

  /** The registered event times out in a cycle that takes this time. */
  predicate Due(e: Event, delta: U32) { !e.flags.noTimeout && !e.flags.timedOut && LifeTimeIncrement(e, delta).None? }

  /** Whether the emitted event at i is compared with the registered ones: an addressed one only when it is the last. */
  predicate Compared(todo: seq<Event>, i: nat)
    requires i < |todo|
  {
    !todo[i].flags.addressed || i == |todo| - 1
  }

  predicate AddressedTo(todo: seq<Event>, id: U32) {
    exists i :: 0 <= i < |todo| && todo[i].flags.addressed && todo[i].source == id
  }

  predicate Matched(todo: seq<Event>, e: Event) {
    exists i :: 0 <= i < |todo| && Compared(todo, i) && IsEqual(todo[i], e)
  }

  /** The registered event wakes its task: it was flagged before, it is matched, or it times out. */
  predicate Wakes(todo: seq<Event>, delta: U32, e: Event) { Flagged(e) || Matched(todo, e) || Due(e, delta) }

  /** The task wakes in the cycle. */
  predicate Woken(t: Task, todo: seq<Event>, delta: U32) {
    AddressedTo(todo, t.id) || exists i :: 0 <= i < |t.events| && Wakes(todo, delta, t.events[i])
  }

  /** A task that stays is as before but for the counters of the events that may time out. */
  function Stayed(t: Task, delta: U32): Task {
    t.(events := seq(|t.events|, i requires 0 <= i < |t.events| =>
         if t.events[i].flags.noTimeout then t.events[i]
         else t.events[i].(cnt := Add32(t.events[i].cnt, delta))))
  }

  function Remaining(l: seq<Task>, todo: seq<Event>, delta: U32): seq<Task>
    decreases |l|
  {
    if l == [] then []
    else
      Remaining(l[..|l| - 1], todo, delta) + if Woken(l[|l| - 1], todo, delta) then [] else [Stayed(l[|l| - 1], delta)]
  }

  predicate NotActive(l: seq<Task>) { forall i :: 0 <= i < |l| ==> l[i].state != Active }
}
