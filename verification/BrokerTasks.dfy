/** What a broker cycle (source/kernel/src/Scheduler.c) makes of one task, followed through the lists: what stays of it,
    and what becomes of its events, whether it stays, waits in the queue or moves there. */
module BrokerTasks {
  import opened Base
  import opened Events
  import opened Tasks
  import opened Broker
  import opened BrokerExact
  import opened BrokerOrder

  // ----- one task on its own -----

  /** A task in the middle of a cycle: in the list where it rests or waits, or in the queue. */
  datatype Way = InList(task: Task) | InQueue(task: Task)

  function Activated(w: Way, e: Event): Way {
    if w.InList? && e.flags.addressed && e.source == w.task.id then InQueue(w.task.(state := Active)) else w
  }

  /** A task that becomes active is met again at once, in the queue, which is compared after the two lists. */
  function ComparedWay(w: Way, a: Args): Way {
    var t := CompareTask(w.task, a);
    if w.InQueue? then InQueue(t) else if t.state == Active then InQueue(CompareTask(t, a)) else InList(t)
  }

  /** One emitted event. */
  function TurnWay(w: Way, a: Args): Way {
    var w1 := Activated(w, a.event);
    if a.event.flags.addressed && !a.last then w1 else ComparedWay(w1, a)
  }

  function CycleWay(w: Way, todo: seq<Event>, delta: U32): Way
    decreases |todo|
  {
    if todo == [] then w else CycleWay(TurnWay(w, Args(todo[0], |todo| == 1, delta)), todo[1..], delta)
  }

  // ----- the lists do that to each of their tasks -----

  predicate Placed(l: Lists, w: Way, waiting: bool) {
    if w.InQueue? then w.task in l.queue else w.task in if waiting then l.wait else l.idle
  }

  lemma {:induction false} SplitHas(l: seq<Task>, a: Args, t: Task)
    requires t in l
    ensures CompareTask(t, a) in if CompareTask(t, a).state == Active then Moved(l, a) else Kept(l, a)
    decreases |l|
  {
    if t != l[|l| - 1] {
      assert t in l[..|l| - 1];
      SplitHas(l[..|l| - 1], a, t);
    }
  }

  lemma {:induction false} EnqueueHas(q: seq<Task>, moved: seq<Task>, t: Task)
    requires t in moved
    ensures t in Enqueue(q, moved)
    decreases |moved|
  {
    var m, x := moved[..|moved| - 1], moved[|moved| - 1];
    if t == x {
      assert Insert(Enqueue(q, m), x)[Place(Keys(Enqueue(q, m)), x.priority)] == x;
    } else {
      assert t in m;
      EnqueueHas(q, m, t);
      InsertedHas(Enqueue(q, m), x, t);
    }
  }

  lemma PassMoves(l: Lists, a: Args, t: Task)
    requires t in Moved(l.wait, a) || t in Moved(l.idle, a)
    ensures CompareTask(t, a) in Pass(l, a).queue
  {
    var moved := Moved(l.wait, a) + Moved(l.idle, a);
    var q := Enqueue(l.queue, moved);
    EnqueueHas(l.queue, moved, t);
    var k :| 0 <= k < |q| && q[k] == t;
    assert CompareAll(q, a)[k] == CompareTask(t, a);
  }

  lemma PassOfOne(l: Lists, a: Args, w: Way, waiting: bool)
    requires Placed(l, w, waiting)
    ensures Placed(Pass(l, a), ComparedWay(w, a), waiting)
  {
    if w.InQueue? {
      PassCompares(l, a, w.task);
    } else {
      SplitHas(if waiting then l.wait else l.idle, a, w.task);
      if CompareTask(w.task, a).state == Active {
        PassMoves(l, a, CompareTask(w.task, a));
      }
    }
  }

  lemma WithoutHas(l: seq<Task>, i: nat, t: Task)
    requires t in l && i < |l| && t != l[i]
    ensures t in Without(l, i)
  {
    assert l == l[..i] + [l[i]] + l[i + 1..];
  }

  lemma InsertHas(q: seq<Task>, t: Task)
    ensures t in Insert(q, t)
  {
    assert Insert(q, t)[Place(Keys(q), t.priority)] == t;
  }

  lemma FoundIs(l: seq<Task>, t: Task)
    requires t in l && Count(l, t.id) <= 1
    ensures Find(l, t.id) < |l| && l[Find(l, t.id)] == t
  {
    var i, k := Find(l, t.id), 0;
    k :| 0 <= k < |l| && l[k] == t;
    if i != k {
      CountWithout(l, i, t.id);
      WithoutHasOther(l, i, k);
      CountPositive(Without(l, i), t.id);
    }
  }

  lemma WithoutHasOther(l: seq<Task>, i: nat, k: nat)
    requires i < k < |l|
    ensures k - 1 < |Without(l, i)| && Without(l, i)[k - 1] == l[k]
  {}

  lemma AddressOfOne(l: Lists, e: Event, w: Way, waiting: bool)
    requires AtMostOnce(l) && Placed(l, w, waiting) && e.flags.addressed
    ensures Placed(Address(l, e.source), Activated(w, e), waiting)
  {
    if w.InQueue? {
      AddressKeepsQueued(l, e.source, w.task);
    } else if e.source == w.task.id {
      AddressTakes(l, w.task, waiting);
    } else {
      AddressLeaves(l, e.source, w.task, waiting);
    }
  }

  lemma AddressTakes(l: Lists, t: Task, waiting: bool)
    requires AtMostOnce(l) && t in if waiting then l.wait else l.idle
    ensures t.(state := Active) in Address(l, t.id).queue
  {
    assert Total(l, t.id) <= 1;
    CountPositive(l.idle, t.id);
    CountPositive(l.wait, t.id);
    FoundIs(if waiting then l.wait else l.idle, t);
    InsertHas(l.queue, t.(state := Active));
  }

  lemma AddressLeaves(l: Lists, id: U32, t: Task, waiting: bool)
    requires t.id != id && t in if waiting then l.wait else l.idle
    ensures t in if waiting then Address(l, id).wait else Address(l, id).idle
  {
    var i, j := Find(l.idle, id), Find(l.wait, id);
    if i < |l.idle| && !waiting {
      WithoutHas(l.idle, i, t);
    } else if i == |l.idle| && j < |l.wait| && waiting {
      WithoutHas(l.wait, j, t);
    }
  }

  lemma TurnOfOne(l: Lists, a: Args, w: Way, waiting: bool)
    requires AtMostOnce(l) && Placed(l, w, waiting)
    ensures Placed(Turn(l, a), TurnWay(w, a), waiting)
  {
    var l1 := if a.event.flags.addressed then Address(l, a.event.source) else l;
    if a.event.flags.addressed {
      AddressOfOne(l, a.event, w, waiting);
    }
    PassOfOne(l1, a, Activated(w, a.event), waiting);
  }

  /** A cycle makes of every task what it makes of it alone. */
  lemma {:induction false} CycleOfOne(l: Lists, todo: seq<Event>, delta: U32, w: Way, waiting: bool)
    requires AtMostOnce(l) && Placed(l, w, waiting)
    ensures Placed(Cycle(l, todo, delta), CycleWay(w, todo, delta), waiting)
    decreases |todo|
  {
    if todo != [] {
      var a := Args(todo[0], |todo| == 1, delta);
      forall id: U32
        ensures Total(Turn(l, a), id) <= 1
      {
        TurnConserves(l, a, id);
      }
      TurnOfOne(l, a, w, waiting);
      CycleOfOne(Turn(l, a), todo[1..], delta, TurnWay(w, a), waiting);
    }
  }

  // ----- what stays of a task -----

  predicate SameEvents(l: seq<Event>, l': seq<Event>) {
    |l'| == |l| && forall j :: 0 <= j < |l| ==> SameEvent(l[j], l'[j])
  }

  /** The same task but for its state and the progress of its events. */
  predicate SameTask(t: Task, t': Task) {
    && t'.id == t.id && t'.category == t.category && t'.priority == t.priority && t'.delete == t.delete
    && SameEvents(t.events, t'.events)
  }

  lemma CompareKeeps(t: Task, a: Args)
    ensures SameTask(t, CompareTask(t, a))
  {
    forall j | 0 <= j < |t.events|
      ensures SameEvent(t.events[j], CompareTask(t, a).events[j])
    {
      CompareSame(t.events[j], a);
    }
  }

  lemma SameTaskTwice(t: Task, t1: Task, t2: Task)
    requires SameTask(t, t1) && SameTask(t1, t2)
    ensures SameTask(t, t2)
  {}

  lemma TurnKeepsTask(w: Way, a: Args)
    ensures SameTask(w.task, TurnWay(w, a).task)
    ensures TurnWay(w, a).InQueue? || TurnWay(w, a).task.state == w.task.state
  {
    var t := CompareTask(w.task, a);
    CompareKeeps(w.task, a);
    CompareKeeps(t, a);
    CompareKeeps(w.task.(state := Active), a);
    SameTaskTwice(w.task, t, CompareTask(t, a));
  }

  lemma {:induction false} WayKeepsTask(w: Way, todo: seq<Event>, delta: U32)
    ensures SameTask(w.task, CycleWay(w, todo, delta).task)
    decreases |todo|
  {
    if todo != [] {
      var a := Args(todo[0], |todo| == 1, delta);
      TurnKeepsTask(w, a);
      WayKeepsTask(TurnWay(w, a), todo[1..], delta);
      SameTaskTwice(w.task, TurnWay(w, a).task, CycleWay(w, todo, delta).task);
    }
  }

  /** Every task is afterwards in its list or in the queue, with the same category, priority, deletion flag and
      registrations. */
  lemma CycleKeepsTask(l: Lists, todo: seq<Event>, delta: U32, w: Way, waiting: bool) returns (t': Task)
    requires AtMostOnce(l) && Placed(l, w, waiting)
    ensures SameTask(w.task, t')
    ensures var l' := Cycle(l, todo, delta);
            t' in l'.queue || (w.InList? && t' in if waiting then l'.wait else l'.idle)
  {
    t' := CycleWay(w, todo, delta).task;
    CycleOfOne(l, todo, delta, w, waiting);
    WayKeepsTask(w, todo, delta);
    QueuedStays(w, todo, delta);
  }

  lemma {:induction false} QueuedStays(w: Way, todo: seq<Event>, delta: U32)
    ensures w.InQueue? ==> CycleWay(w, todo, delta).InQueue?
    decreases |todo|
  {
    if todo != [] {
      QueuedStays(TurnWay(w, Args(todo[0], |todo| == 1, delta)), todo[1..], delta);
    }
  }

  // ----- what becomes of its events -----

  /** In the queue each event is compared once with each event that is compared at all. */
  lemma {:induction false} QueuedWay(t: Task, todo: seq<Event>, delta: U32)
    ensures var w := CycleWay(InQueue(t), todo, delta);
            && w.InQueue? && |w.task.events| == |t.events|
            && forall j :: 0 <= j < |t.events| ==> w.task.events[j] == EventRun(t.events[j], todo, delta)
    decreases |todo|
  {
    if todo != [] {
      var a := Args(todo[0], |todo| == 1, delta);
      QueuedWay(TurnWay(InQueue(t), a).task, todo[1..], delta);
    }
  }

  /** 1 if the comparison that makes a listed task active matches the event: it is made a second time, in the queue. */
  function Repeated(t: Task, todo: seq<Event>, delta: U32, e: Event): nat
    decreases |todo|
  {
    if todo == [] || (todo[0].flags.addressed && todo[0].source == t.id) then 0
    else if !Compared(todo, 0) then Repeated(t, todo[1..], delta, e)
    else
      var t1 := CompareTask(t, Args(todo[0], |todo| == 1, delta));
      if t1.state == Active then (if IsEqual(todo[0], e) then 1 else 0) else Repeated(t1, todo[1..], delta, e)
  }

  predicate Occurred(e: Event, n: nat, repeated: nat, e': Event) {
    && e'.occ == (if e.occ + n + repeated < 255 then e.occ + n + repeated else 255)
    && (e'.flags.occurred <==> e.flags.occurred || n > 0)
  }

  lemma QueuedOccurrences(e: Event, n: nat, repeated: nat, e1: Event, rest: seq<Event>, delta: U32)
    requires Occurred(e, n, repeated, e1) && SameEvent(e, e1)
    ensures Occurred(e, n + Matches(rest, e), repeated, EventRun(e1, rest, delta))
  {
    OccurrencesCounted(e1, rest, delta);
    SameMatches(rest, e, e1);
  }

  lemma OneOccurrence(e: Event, a: Args)
    ensures Occurred(e, if IsEqual(a.event, e) then 1 else 0, 0, CompareEvent(e, a)) && SameEvent(e, CompareEvent(e, a))
    ensures var n := if IsEqual(a.event, e) then 1 else 0;
            Occurred(e, n, n, CompareEvent(CompareEvent(e, a), a)) && SameEvent(e, CompareEvent(CompareEvent(e, a), a))
  {}

  /** The turn that takes the task to the queue. */
  lemma FirstOccurrence(t: Task, todo: seq<Event>, delta: U32, j: nat)
    requires todo != [] && j < |t.events| && TurnWay(InList(t), Args(todo[0], |todo| == 1, delta)).InQueue?
    ensures var t1 := TurnWay(InList(t), Args(todo[0], |todo| == 1, delta)).task;
            var e, n := t.events[j], if Compared(todo, 0) && IsEqual(todo[0], t.events[j]) then 1 else 0;
            && j < |t1.events| && SameEvent(e, t1.events[j])
            && Occurred(e, n, Repeated(t, todo, delta, e), t1.events[j])
  {
    var a := Args(todo[0], |todo| == 1, delta);
    OneOccurrence(t.events[j], a);
    if todo[0].flags.addressed && todo[0].source == t.id {
      AddressedOccurrence(t, a, j);
    }
  }

  lemma AddressedOccurrence(t: Task, a: Args, j: nat)
    requires j < |t.events| && a.event.flags.addressed && a.event.source == t.id
    ensures var t1 := TurnWay(InList(t), a).task;
            j < |t1.events| && t1.events[j] == if a.last then CompareEvent(t.events[j], a) else t.events[j]
  {}

  /** A task that waits or rests counts each match once, but twice the match with the event that queues it. */
  lemma {:induction false} ListedOccurrences(t: Task, todo: seq<Event>, delta: U32, j: nat)
    requires j < |t.events|
    ensures var e, t' := t.events[j], CycleWay(InList(t), todo, delta).task;
            j < |t'.events| && Occurred(e, Matches(todo, e), Repeated(t, todo, delta, e), t'.events[j])
    decreases |todo|
  {
    if todo != [] {
      var a, e := Args(todo[0], |todo| == 1, delta), t.events[j];
      var w := TurnWay(InList(t), a);
      if w.InQueue? {
        QueuedWay(w.task, todo[1..], delta);
        FirstOccurrence(t, todo, delta, j);
        var n := if Compared(todo, 0) && IsEqual(todo[0], e) then 1 else 0;
        QueuedOccurrences(e, n, Repeated(t, todo, delta, e), w.task.events[j], todo[1..], delta);
      } else {
        ListedOccurrences(w.task, todo[1..], delta, j);
        LaterOccurrences(e, w.task.events[j], todo[1..]);
      }
    }
  }

  lemma LaterOccurrences(e: Event, e1: Event, rest: seq<Event>)
    requires IsEqual(e, e1)
    ensures Matches(rest, e) == Matches(rest, e1)
  {
    SameMatches(rest, e, e1);
  }

  // ----- the time of a cycle -----

  /** The comparison with an event before the last one makes the task active. */
  predicate EarlyWake(t: Task, todo: seq<Event>)
    decreases |todo|
  {
    |todo| > 1 && ((!todo[0].flags.addressed && Wakeable(t, todo[0])) || EarlyWake(t, todo[1..]))
  }

  predicate Wakeable(t: Task, e: Event) {
    exists i :: 0 <= i < |t.events| && (Flagged(t.events[i]) || IsEqual(e, t.events[i]))
  }

  /** Only the comparison with the last event makes the task active. */
  predicate LastDecides(t: Task, todo: seq<Event>, delta: U32) {
    Woken(t, todo, delta) && !AddressedTo(todo, t.id) && !EarlyWake(t, todo)
  }

  predicate CountsTime(e: Event, todo: seq<Event>, delta: U32) {
    && !Flagged(e) && !e.flags.noTimeout && e.cnt < e.life && Matches(todo, e) == 0
    && 2 * delta + e.life <= 0x1_0000_0000
  }

  /** n times the time of the cycle is added. */
  predicate TimeAdded(e: Event, n: nat, delta: U32, e': Event) {
    && (e'.flags.timedOut <==> e.cnt + n * delta >= e.life)
    && (!e'.flags.timedOut ==> e'.cnt == e.cnt + n * delta)
  }

  lemma QueuedTime(e: Event, todo: seq<Event>, delta: U32)
    requires todo != [] && CountsTime(e, todo, delta)
    ensures TimeAdded(e, 1, delta, EventRun(e, todo, delta))
  {
    TimeoutsDecided(e, todo, delta);
    NoLastMatch(todo, e);
  }

  lemma {:induction false} NoLastMatch(todo: seq<Event>, e: Event)
    requires todo != [] && Matches(todo, e) == 0
    ensures !LastMatches(todo, e)
    decreases |todo|
  {
    if |todo| > 1 {
      NoLastMatch(todo[1..], e);
    }
  }

  lemma OnceAndTwice(e: Event, a: Args)
    requires a.last && CountsTime(e, [a.event], a.delta)
    ensures var e1 := CompareEvent(e, a);
            TimeAdded(e, 1, a.delta, e1) && TimeAdded(e, 2, a.delta, CompareEvent(e1, a))
  {
    MatchesOne(a.event, e);
  }

  lemma MatchesOne(e: Event, f: Event)
    ensures Matches([e], f) == if IsEqual(e, f) then 1 else 0
  {
    assert [e][1..] == [];
  }

  /** With the last event a task becomes active exactly if it wakes by its events. */
  lemma LastActive(t: Task, a: Args)
    requires a.last && t.state != Active
    ensures CompareTask(t, a).state == Active <==>
            exists i :: 0 <= i < |t.events| && Wakes([a.event], a.delta, t.events[i])
  {
    var r := CompareEvents(t.events, a);
    forall i | 0 <= i < |t.events|
      ensures Flagged(r[i]) <==> Wakes([a.event], a.delta, t.events[i])
    {
      MatchedOne(a.event, t.events[i]);
      CompareLast(t.events[i], a);
    }
  }

  lemma AddressedToOne(e: Event, id: U32)
    ensures AddressedTo([e], id) <==> e.flags.addressed && e.source == id
  {
    AddressedToSplit([e], id);
  }

  lemma LastTime(t: Task, a: Args, j: nat)
    requires a.last && t.state != Active && j < |t.events| && CountsTime(t.events[j], [a.event], a.delta)
    ensures var w, n := TurnWay(InList(t), a), if LastDecides(t, [a.event], a.delta) then 2 else 1;
            j < |w.task.events| && TimeAdded(t.events[j], n, a.delta, w.task.events[j])
  {
    OnceAndTwice(t.events[j], a);
    AddressedToOne(a.event, t.id);
    LastActive(t, a);
  }

  /** A turn before the last one takes a task to the queue or leaves it; an event that does not match is not changed. */
  lemma EarlyWay(t: Task, todo: seq<Event>, delta: U32, j: nat)
    requires |todo| > 1 && t.state != Active && j < |t.events|
    requires !Flagged(t.events[j]) && Matches(todo, t.events[j]) == 0
    ensures var w := TurnWay(InList(t), Args(todo[0], false, delta));
            && j < |w.task.events| && w.task.events[j] == t.events[j]
            && (if w.InQueue?
                then (todo[0].flags.addressed && todo[0].source == t.id)
                     || (!todo[0].flags.addressed && Wakeable(t, todo[0]))
                else w.task == t && !(todo[0].flags.addressed && todo[0].source == t.id)
                     && (todo[0].flags.addressed || !Wakeable(t, todo[0])))
  {
    var a, e := Args(todo[0], false, delta), t.events[j];
    if !todo[0].flags.addressed {
      EarlyCompareExact(t, a);
      assert !IsEqual(todo[0], e);
      CompareNotLast(e, a);
    }
  }

  lemma EarlyCompareExact(t: Task, a: Args)
    requires !a.last && t.state != Active
    ensures if Wakeable(t, a.event) then CompareTask(t, a).state == Active else CompareTask(t, a) == t
  {
    var r := CompareEvents(t.events, a);
    forall i | 0 <= i < |t.events|
      ensures Flagged(r[i]) <==> Flagged(t.events[i]) || IsEqual(a.event, t.events[i])
      ensures !IsEqual(a.event, t.events[i]) ==> r[i] == t.events[i]
    {
      CompareNotLast(t.events[i], a);
    }
    if Wakeable(t, a.event) {
      var i :| 0 <= i < |t.events| && (Flagged(t.events[i]) || IsEqual(a.event, t.events[i]));
      assert Flagged(r[i]);
    } else {
      assert r == t.events;
    }
  }

  /** The time of a cycle is added once to the counter of an event that is not matched, with one exception: if only the
      comparison with the last emitted event makes its task active, the task is compared with that event again, in the
      queue, and the time is added twice. */
  lemma {:induction false} ListedTime(t: Task, todo: seq<Event>, delta: U32, j: nat)
    requires todo != [] && t.state != Active && j < |t.events| && CountsTime(t.events[j], todo, delta)
    ensures var t', n := CycleWay(InList(t), todo, delta).task, if LastDecides(t, todo, delta) then 2 else 1;
            j < |t'.events| && TimeAdded(t.events[j], n, delta, t'.events[j])
    decreases |todo|
  {
    var a, e := Args(todo[0], |todo| == 1, delta), t.events[j];
    var w := TurnWay(InList(t), a);
    if |todo| == 1 {
      assert todo == [todo[0]];
      LastTime(t, a, j);
    } else {
      EarlyWay(t, todo, delta, j);
      AddressedToSplit(todo, t.id);
      if w.InQueue? {
        QueuedWay(w.task, todo[1..], delta);
        QueuedTime(e, todo[1..], delta);
      } else {
        DecidedLater(t, todo, delta);
        ListedTime(t, todo[1..], delta, j);
      }
    }
  }

  lemma DecidedLater(t: Task, todo: seq<Event>, delta: U32)
    requires |todo| > 1 && t.state != Active && !(todo[0].flags.addressed && todo[0].source == t.id)
    requires todo[0].flags.addressed || !Wakeable(t, todo[0])
    ensures LastDecides(t, todo, delta) <==> LastDecides(t, todo[1..], delta)
  {
    AddressedToSplit(todo, t.id);
    forall i | 0 <= i < |t.events|
      ensures Wakes(todo, delta, t.events[i]) <==> Wakes(todo[1..], delta, t.events[i])
    {
      MatchedSplit(todo, t.events[i]);
    }
  }

  /** It times out too early: the event has less time left than twice that of the cycle, and more than once. */
  lemma TimesOutEarly(t: Task, last: Event, delta: U32)
    requires t.state != Active && |t.events| == 2 && !last.flags.addressed
    requires IsEqual(last, t.events[0]) && !IsEqual(last, t.events[1]) && CountsTime(t.events[1], [last], delta)
    requires t.events[1].cnt + delta < t.events[1].life <= t.events[1].cnt + 2 * delta
    ensures var t' := CycleWay(InList(t), [last], delta).task; |t'.events| == 2 && t'.events[1].flags.timedOut
  {
    AddressedToOne(last, t.id);
    MatchedOne(last, t.events[0]);
    assert Wakes([last], delta, t.events[0]);
    ListedTime(t, [last], delta, 1);
    WayKeepsTask(InList(t), [last], delta);
  }

  // ----- all of it -----

  lemma TurnWayIs(t: Task, a: Args)
    requires t.state != Active
    ensures if TurnWay(InList(t), a).InQueue? then TurnTask(t, a) == []
            else TurnTask(t, a) == [TurnWay(InList(t), a).task]
    ensures TurnWay(InList(t), a).InQueue? ==> TurnWay(InList(t), a).task.state == Active
  {}

  lemma {:induction false} StaysActive(t: Task, todo: seq<Event>, delta: U32)
    requires t.state == Active
    ensures CycleWay(InQueue(t), todo, delta).task.state == Active
    decreases |todo|
  {
    if todo != [] {
      StaysActive(TurnWay(InQueue(t), Args(todo[0], |todo| == 1, delta)).task, todo[1..], delta);
    }
  }

  /** A listed task goes to the queue exactly if it wakes. */
  lemma {:induction false} WokenWay(t: Task, todo: seq<Event>, delta: U32)
    requires todo != [] && t.state != Active
    ensures var w := CycleWay(InList(t), todo, delta);
            if Woken(t, todo, delta) then w.InQueue? && w.task.state == Active else w == InList(Stayed(t, delta))
    decreases |todo|
  {
    var a := Args(todo[0], |todo| == 1, delta);
    TurnWayIs(t, a);
    if |todo| == 1 {
      assert todo == [todo[0]];
      LastTurn(t, todo[0], delta);
    } else {
      EarlyTurn(t, todo, delta);
      if TurnWay(InList(t), a).InQueue? {
        QueuedStays(TurnWay(InList(t), a), todo[1..], delta);
        StaysActive(TurnWay(InList(t), a).task, todo[1..], delta);
      } else {
        WokenWay(t, todo[1..], delta);
      }
    }
  }

  /** What a cycle makes of a task that rests or waits: unless it wakes, only counters advance; if it does, it is in the
      queue as the same task, and its events have counted their matches and the time. */
  lemma CycleOfTask(l: Lists, todo: seq<Event>, delta: U32, t: Task, waiting: bool) returns (t': Task)
    requires todo != [] && AtMostOnce(l) && t.state != Active && t in if waiting then l.wait else l.idle
    ensures var l' := Cycle(l, todo, delta);
            if Woken(t, todo, delta) then t' in l'.queue && t'.state == Active
            else t' == Stayed(t, delta) && t' in if waiting then l'.wait else l'.idle
    ensures SameTask(t, t')
    ensures forall j :: 0 <= j < |t.events| ==>
              Occurred(t.events[j], Matches(todo, t.events[j]), Repeated(t, todo, delta, t.events[j]), t'.events[j])
    ensures forall j :: 0 <= j < |t.events| && CountsTime(t.events[j], todo, delta) ==>
              TimeAdded(t.events[j], if LastDecides(t, todo, delta) then 2 else 1, delta, t'.events[j])
  {
    t' := CycleWay(InList(t), todo, delta).task;
    CycleOfOne(l, todo, delta, InList(t), waiting);
    WayKeepsTask(InList(t), todo, delta);
    WokenWay(t, todo, delta);
    forall j | 0 <= j < |t.events|
      ensures Occurred(t.events[j], Matches(todo, t.events[j]), Repeated(t, todo, delta, t.events[j]), t'.events[j])
      ensures CountsTime(t.events[j], todo, delta) ==>
                TimeAdded(t.events[j], if LastDecides(t, todo, delta) then 2 else 1, delta, t'.events[j])
    {
      ListedOccurrences(t, todo, delta, j);
      if CountsTime(t.events[j], todo, delta) {
        ListedTime(t, todo, delta, j);
      }
    }
  }

  // ----- the emitted events -----

  /** What a cycle leaves of an emitted event differs in its counter only, and the order stays. */
  lemma {:induction false} SurvivorsSame(l: seq<Event>, delta: U32) returns (from: seq<nat>)
    ensures ComeFrom(l, EventsAfter(l, delta), from)
    decreases |l|
  {
    from := [];
    if l != [] {
      var n := |l| - 1;
      var before := SurvivorsSame(l[..n], delta);
      OneSurvives(l[n], delta);
      OneMoreSurvivor(l, EventsAfter(l[..n], delta), EventAfter(l[n], delta), before);
      from := before + if EventAfter(l[n], delta) == [] then [] else [n];
    }
  }

  lemma OneSurvives(e: Event, delta: U32)
    ensures var r := EventAfter(e, delta); r == [] || (|r| == 1 && r[0] == e.(cnt := r[0].cnt))
  {}

  /** The survivors l' come from these places of l. */
  predicate ComeFrom(l: seq<Event>, l': seq<Event>, from: seq<nat>) {
    && |from| == |l'| && (forall k :: 0 <= k < |from| ==> from[k] < |l| && l'[k] == l[from[k]].(cnt := l'[k].cnt))
    && forall k, m :: 0 <= k < m < |from| ==> from[k] < from[m]
  }

  lemma OneMoreSurvivor(l: seq<Event>, r: seq<Event>, last: seq<Event>, before: seq<nat>)
    requires l != [] && ComeFrom(l[..|l| - 1], r, before)
    requires last == [] || (|last| == 1 && last[0] == l[|l| - 1].(cnt := last[0].cnt))
    ensures ComeFrom(l, r + last, before + if last == [] then [] else [|l| - 1])
  {}
}
