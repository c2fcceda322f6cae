/** What else a broker cycle keeps: the order of the queue and of the lists, the states, and the ages of the events. */
module BrokerOrder {
  import opened Base
  import opened Events
  import opened Tasks
  import opened Broker
  import opened BrokerExact

  // ----- the queue -----

  /** The queue is what the arrivals, in their order, give. */
  predicate InOrder(l: Lists) { Keys(l.queue) == Ordered(l.entered) }

  lemma EnqueuedInOrder(q: seq<Task>, entered: seq<Key>, t: Task)
    requires Keys(q) == Ordered(entered)
    ensures Keys(Insert(q, t)) == Ordered(entered + [KeyOf(t)])
  {
    KeysOfInsert(q, t);
    OrderedSnoc(entered, KeyOf(t));
  }

  lemma {:induction false} EnqueueInOrder(q: seq<Task>, entered: seq<Key>, moved: seq<Task>)
    requires Keys(q) == Ordered(entered)
    ensures Keys(Enqueue(q, moved)) == Ordered(entered + Keys(moved))
    decreases |moved|
  {
    if moved == [] {
      assert entered + Keys(moved) == entered;
    } else {
      var m, t := moved[..|moved| - 1], moved[|moved| - 1];
      assert moved == m + [t];
      EnqueueInOrder(q, entered, m);
      EnqueueSnoc(q, m, t);
      EnqueuedInOrder(Enqueue(q, m), entered + Keys(m), t);
      KeysSnoc(entered, m, t);
    }
  }

  lemma EnqueueSnoc(q: seq<Task>, m: seq<Task>, t: Task)
    ensures Enqueue(q, m + [t]) == Insert(Enqueue(q, m), t)
  {
    assert (m + [t])[..|m|] == m;
  }

  lemma KeysSnoc(entered: seq<Key>, m: seq<Task>, t: Task)
    ensures entered + Keys(m + [t]) == entered + Keys(m) + [KeyOf(t)]
  {
    assert Keys(m + [t]) == Keys(m) + [KeyOf(t)];
  }

  lemma PassInOrder(l: Lists, a: Args)
    requires InOrder(l)
    ensures InOrder(Pass(l, a)) && l.entered <= Pass(l, a).entered
  {
    var moved := Moved(l.wait, a) + Moved(l.idle, a);
    EnqueueInOrder(l.queue, l.entered, moved);
    assert Keys(Pass(l, a).queue) == Keys(Enqueue(l.queue, moved));
  }

  lemma AddressInOrder(l: Lists, id: U32)
    requires InOrder(l)
    ensures InOrder(Address(l, id)) && l.entered <= Address(l, id).entered
  {
    var i, j := Find(l.idle, id), Find(l.wait, id);
    if i < |l.idle| {
      EnqueuedInOrder(l.queue, l.entered, l.idle[i].(state := Active));
    } else if j < |l.wait| {
      EnqueuedInOrder(l.queue, l.entered, l.wait[j].(state := Active));
    }
  }

  lemma TurnInOrder(l: Lists, a: Args)
    requires InOrder(l)
    ensures InOrder(Turn(l, a)) && l.entered <= Turn(l, a).entered
  {
    AddressInOrder(l, a.event.source);
    PassInOrder(if a.event.flags.addressed then Address(l, a.event.source) else l, a);
  }

  /** After a cycle the queue is still what its arrivals give; those of the cycle come after all earlier ones. */
  lemma {:induction false} CycleInOrder(l: Lists, todo: seq<Event>, delta: U32)
    requires InOrder(l)
    ensures InOrder(Cycle(l, todo, delta)) && l.entered <= Cycle(l, todo, delta).entered
    decreases |todo|
  {
    if todo != [] {
      var a := Args(todo[0], |todo| == 1, delta);
      TurnInOrder(l, a);
      CycleInOrder(Turn(l, a), todo[1..], delta);
    }
  }

  // ----- the tasks that are in the queue throughout -----

  /** A registered event through the comparisons of a cycle, once with each compared event. */
  function EventRun(e: Event, todo: seq<Event>, delta: U32): Event
    decreases |todo|
  {
    if todo == [] then e
    else if Compared(todo, 0) then EventRun(CompareEvent(e, Args(todo[0], |todo| == 1, delta)), todo[1..], delta)
    else EventRun(e, todo[1..], delta)
  }

  /** How many of the compared events match. */
  function Matches(todo: seq<Event>, e: Event): nat
    decreases |todo|
  {
    if todo == [] then 0
    else (if Compared(todo, 0) && IsEqual(todo[0], e) then 1 else 0) + Matches(todo[1..], e)
  }

  /** Each match is counted, up to 255, and marks the event as occurred; nothing else does. */
  lemma {:induction false} OccurrencesCounted(e: Event, todo: seq<Event>, delta: U32)
    ensures var e', n := EventRun(e, todo, delta), Matches(todo, e);
            && e'.occ == (if e.occ + n < 255 then e.occ + n else 255)
            && (e'.flags.occurred <==> e.flags.occurred || n > 0)
            && IsEqual(e, e') && e'.life == e.life && e'.id == e.id
    decreases |todo|
  {
    if todo != [] {
      var e1 := if Compared(todo, 0) then CompareEvent(e, Args(todo[0], |todo| == 1, delta)) else e;
      OccurrencesCounted(e1, todo[1..], delta);
      SameMatches(todo[1..], e, e1);
    }
  }

  /** The same registration: only its counters and what tells that it occurred or timed out may differ. */
  predicate SameEvent(e: Event, e': Event) {
    && e'.id == e.id && e'.source == e.source && e'.code == e.code && e'.life == e.life
    && e'.flags == e.flags.(occurred := e'.flags.occurred, timedOut := e'.flags.timedOut)
  }

  /** Comparisons leave a registration the same. */
  lemma {:induction false} RunSame(e: Event, todo: seq<Event>, delta: U32)
    ensures SameEvent(e, EventRun(e, todo, delta))
    decreases |todo|
  {
    if todo != [] {
      var a := Args(todo[0], |todo| == 1, delta);
      CompareSame(e, a);
      if Compared(todo, 0) {
        RunSame(CompareEvent(e, a), todo[1..], delta);
        SameEventTwice(e, CompareEvent(e, a), EventRun(e, todo, delta));
      } else {
        RunSame(e, todo[1..], delta);
      }
    }
  }

  lemma CompareSame(e: Event, a: Args)
    ensures SameEvent(e, CompareEvent(e, a))
  {}

  lemma SameEventTwice(e: Event, e1: Event, e2: Event)
    requires SameEvent(e, e1) && SameEvent(e1, e2)
    ensures SameEvent(e, e2)
  {}

  /** The last event matches; it is always compared. */
  predicate LastMatches(todo: seq<Event>, e: Event) { todo != [] && IsEqual(todo[|todo| - 1], e) }

  /** The counter after the comparisons with all but the last event: a match resets it. */
  function CountBefore(todo: seq<Event>, e: Event): U32 { if Matches(todo, e) > 0 then 0 else e.cnt }

  /** A match clears an old timeout. Unless the last event matches, which resets the counter, the time is added once,
      and the event times out if that reaches its lifetime. */
  lemma {:induction false} TimeoutsDecided(e: Event, todo: seq<Event>, delta: U32)
    requires todo != []
    ensures var e' := EventRun(e, todo, delta);
            var stale := e.flags.timedOut && Matches(todo, e) == 0;
            && (LastMatches(todo, e) ==> e'.cnt == 0 && !e'.flags.timedOut)
            && (!LastMatches(todo, e) ==>
                  var sum := Add32(CountBefore(todo, e), delta);
                  && (e'.flags.timedOut <==> stale || (!e.flags.noTimeout && sum >= e.life))
                  && e'.cnt == if stale || e.flags.noTimeout || sum >= e.life then CountBefore(todo, e) else sum)
    decreases |todo|
  {
    if |todo| == 1 {
      assert todo[1..] == [];
      assert Matches(todo, e) == if IsEqual(todo[0], e) then 1 else 0;
      assert EventRun(e, todo, delta) == CompareEvent(e, Args(todo[0], true, delta));
    } else {
      var e1 := if Compared(todo, 0) then CompareEvent(e, Args(todo[0], false, delta)) else e;
      TimeoutsDecided(e1, todo[1..], delta);
      SameMatches(todo[1..], e, e1);
    }
  }

  lemma {:induction false} SameMatches(todo: seq<Event>, e: Event, e': Event)
    requires IsEqual(e, e')
    ensures Matches(todo, e) == Matches(todo, e')
    decreases |todo|
  {
    if todo != [] {
      SameMatches(todo[1..], e, e');
    }
  }

  /** What a cycle makes of a task that is in the queue when it begins. */
  predicate Through(t: Task, t': Task, todo: seq<Event>, delta: U32) {
    && t' == t.(state := Active, events := t'.events) && |t'.events| == |t.events|
    && forall i :: 0 <= i < |t.events| ==> t'.events[i] == EventRun(t.events[i], todo, delta)
  }

  lemma {:induction false} EnqueueKeeps(q: seq<Task>, moved: seq<Task>, t: Task)
    requires t in q
    ensures t in Enqueue(q, moved)
    decreases |moved|
  {
    if moved != [] {
      EnqueueKeeps(q, moved[..|moved| - 1], t);
      InsertedHas(Enqueue(q, moved[..|moved| - 1]), moved[|moved| - 1], t);
    }
  }

  lemma InsertedHas(q: seq<Task>, x: Task, t: Task)
    requires t in q
    ensures t in Insert(q, x)
  {
    var k := Place(Keys(q), x.priority);
    assert q == q[..k] + q[k..];
  }

  lemma PassCompares(l: Lists, a: Args, t: Task)
    requires t in l.queue
    ensures CompareTask(t, a) in Pass(l, a).queue
  {
    var moved := Moved(l.wait, a) + Moved(l.idle, a);
    EnqueueKeeps(l.queue, moved, t);
    var q := Enqueue(l.queue, moved);
    var k :| 0 <= k < |q| && q[k] == t;
    assert CompareAll(q, a)[k] == CompareTask(t, a);
  }

  lemma AddressKeepsQueued(l: Lists, id: U32, t: Task)
    requires t in l.queue
    ensures t in Address(l, id).queue
  {
    var i, j := Find(l.idle, id), Find(l.wait, id);
    if i < |l.idle| {
      InsertedHas(l.queue, l.idle[i].(state := Active), t);
    } else if j < |l.wait| {
      InsertedHas(l.queue, l.wait[j].(state := Active), t);
    }
  }

  /** A task that is in the queue stays there through a cycle, and each of its events is compared once with each event
      that is compared at all. */
  lemma {:induction false} QueuedTaskCompared(l: Lists, todo: seq<Event>, delta: U32, t: Task) returns (t': Task)
    requires t in l.queue && t.state == Active
    ensures t' in Cycle(l, todo, delta).queue && Through(t, t', todo, delta)
    decreases |todo|
  {
    if todo == [] {
      t' := t;
    } else {
      var a := Args(todo[0], |todo| == 1, delta);
      var l1 := if a.event.flags.addressed then Address(l, a.event.source) else l;
      AddressKeepsQueued(l, a.event.source, t);
      var t1 := if Compared(todo, 0) then CompareTask(t, a) else t;
      PassCompares(l1, a, t);
      t' := QueuedTaskCompared(Turn(l, a), todo[1..], delta, t1);
    }
  }

  // ----- states -----

  predicate AllIn(l: seq<Task>, s: TaskState) { forall i :: 0 <= i < |l| ==> l[i].state == s }

  lemma {:induction false} MovedActive(l: seq<Task>, a: Args)
    ensures AllIn(Moved(l, a), Active)
    decreases |l|
  {
    if l != [] {
      MovedActive(l[..|l| - 1], a);
    }
  }

  lemma {:induction false} EnqueueActive(q: seq<Task>, moved: seq<Task>)
    requires AllIn(q, Active) && AllIn(moved, Active)
    ensures AllIn(Enqueue(q, moved), Active)
    decreases |moved|
  {
    if moved != [] {
      EnqueueActive(q, moved[..|moved| - 1]);
    }
  }

  lemma PassActive(l: Lists, a: Args)
    requires AllIn(l.queue, Active)
    ensures AllIn(Pass(l, a).queue, Active)
  {
    MovedActive(l.wait, a);
    MovedActive(l.idle, a);
    EnqueueActive(l.queue, Moved(l.wait, a) + Moved(l.idle, a));
  }

  lemma TurnActive(l: Lists, a: Args)
    requires AllIn(l.queue, Active)
    ensures AllIn(Turn(l, a).queue, Active)
  {
    var l1 := if a.event.flags.addressed then Address(l, a.event.source) else l;
    AddressActive(l, a.event.source);
    PassActive(l1, a);
  }

  lemma AddressActive(l: Lists, id: U32)
    requires AllIn(l.queue, Active)
    ensures AllIn(Address(l, id).queue, Active)
  {}

  lemma {:induction false} CycleActive(l: Lists, todo: seq<Event>, delta: U32)
    requires AllIn(l.queue, Active)
    ensures AllIn(Cycle(l, todo, delta).queue, Active)
    decreases |todo|
  {
    if todo != [] {
      var a := Args(todo[0], |todo| == 1, delta);
      TurnActive(l, a);
      CycleActive(Turn(l, a), todo[1..], delta);
    }
  }

  // ----- the lists that stay -----

  predicate RemainsOf(t: Task, l: seq<Task>, todo: seq<Event>, delta: U32) {
    exists j :: 0 <= j < |l| && !Woken(l[j], todo, delta) && t == Stayed(l[j], delta)
  }

  lemma {:induction false} RemainingOrigin(l: seq<Task>, todo: seq<Event>, delta: U32)
    ensures forall t :: t in Remaining(l, todo, delta) <==> RemainsOf(t, l, todo, delta)
    decreases |l|
  {
    if l != [] {
      var m, last := l[..|l| - 1], l[|l| - 1];
      RemainingOrigin(m, todo, delta);
      forall t
        ensures RemainsOf(t, l, todo, delta) <==>
                RemainsOf(t, m, todo, delta) || (!Woken(last, todo, delta) && t == Stayed(last, delta))
      {
        OriginSplit(t, l, todo, delta);
      }
    }
  }

  lemma OriginSplit(t: Task, l: seq<Task>, todo: seq<Event>, delta: U32)
    requires l != []
    ensures RemainsOf(t, l, todo, delta) <==>
            RemainsOf(t, l[..|l| - 1], todo, delta)
              || (!Woken(l[|l| - 1], todo, delta) && t == Stayed(l[|l| - 1], delta))
  {
    var m := l[..|l| - 1];
    if RemainsOf(t, m, todo, delta) {
      var j :| 0 <= j < |m| && !Woken(m[j], todo, delta) && t == Stayed(m[j], delta);
      assert m[j] == l[j];
    }
    if RemainsOf(t, l, todo, delta) {
      var j :| 0 <= j < |l| && !Woken(l[j], todo, delta) && t == Stayed(l[j], delta);
      assert j < |m| ==> m[j] == l[j];
    }
  }

  lemma {:induction false} RemainingAscends(l: seq<Task>, todo: seq<Event>, delta: U32)
    requires Ascending(l)
    ensures Ascending(Remaining(l, todo, delta))
    decreases |l|
  {
    if l != [] {
      var m, last := l[..|l| - 1], l[|l| - 1];
      RemainingAscends(m, todo, delta);
      RemainingOrigin(m, todo, delta);
      forall i | 0 <= i < |Remaining(m, todo, delta)|
        ensures Remaining(m, todo, delta)[i].id < last.id
      {
        var t := Remaining(m, todo, delta)[i];
        assert t in Remaining(m, todo, delta);
        var j :| 0 <= j < |m| && !Woken(m[j], todo, delta) && t == Stayed(m[j], delta);
        assert m[j] == l[j];
      }
    }
  }

  lemma RemainingStates(l: seq<Task>, todo: seq<Event>, delta: U32, s: TaskState)
    requires AllIn(l, s)
    ensures AllIn(Remaining(l, todo, delta), s)
  {
    RemainingOrigin(l, todo, delta);
    forall i | 0 <= i < |Remaining(l, todo, delta)|
      ensures Remaining(l, todo, delta)[i].state == s
    {
      assert Remaining(l, todo, delta)[i] in Remaining(l, todo, delta);
    }
  }

  // ----- the emitted events -----

  lemma {:induction false} EventsAfterConcat(a: seq<Event>, b: seq<Event>, delta: U32)
    ensures EventsAfter(a + b, delta) == EventsAfter(a, delta) + EventsAfter(b, delta)
    decreases |b|
  {
    if b == [] {
      assert a + b == a;
    } else {
      assert (a + b)[..|a + b| - 1] == a + b[..|b| - 1];
      EventsAfterConcat(a, b[..|b| - 1], delta);
    }
  }

  /** e' is what a cycle leaves of an event of l. */
  predicate Survives(e': Event, l: seq<Event>, delta: U32) {
    exists i :: 0 <= i < |l| && EventAfter(l[i], delta) == [e']
  }

  lemma SurvivesSplit(e': Event, l: seq<Event>, delta: U32)
    requires l != []
    ensures Survives(e', l, delta) <==> Survives(e', l[..|l| - 1], delta) || EventAfter(l[|l| - 1], delta) == [e']
  {
    var m := l[..|l| - 1];
    if Survives(e', m, delta) {
      var i :| 0 <= i < |m| && EventAfter(m[i], delta) == [e'];
      assert EventAfter(l[i], delta) == [e'];
    }
    if Survives(e', l, delta) {
      var i :| 0 <= i < |l| && EventAfter(l[i], delta) == [e'];
      assert i < |m| ==> EventAfter(m[i], delta) == [e'];
    }
  }

  /** A cycle keeps the emitted events that are not due, in their order, and ages them; the mock event always stays. */
  lemma {:induction false} EventsAfterExact(l: seq<Event>, delta: U32)
    requires IdsDistinct(l)
    ensures IdsDistinct(EventsAfter(l, delta))
    ensures forall e' :: e' in EventsAfter(l, delta) <==> Survives(e', l, delta)
    decreases |l|
  {
    if l != [] {
      var m, last := l[..|l| - 1], l[|l| - 1];
      var r := EventsAfter(m, delta);
      EventsAfterExact(m, delta);
      forall e'
        ensures Survives(e', l, delta) <==> Survives(e', m, delta) || EventAfter(last, delta) == [e']
      {
        SurvivesSplit(e', l, delta);
      }
      forall k | 0 <= k < |r|
        ensures r[k].id != last.id
      {
        assert r[k] in r;
        var i :| 0 <= i < |m| && EventAfter(m[i], delta) == [r[k]];
        assert m[i] == l[i];
      }
    }
  }
}
