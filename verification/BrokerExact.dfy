/** What one broker cycle does to the lists: no lost and no spurious wake-up, nothing lost or doubled, and the queue in
    the order a first-come first-served queue with priorities has. */
module BrokerExact {
  import opened Base
  import opened Events
  import opened Tasks
  import opened Broker

  function Total(l: Lists, id: U32): nat { Count(l.wait, id) + Count(l.idle, id) + Count(l.queue, id) }

  ghost predicate AtMostOnce(l: Lists) { forall id: U32 :: Total(l, id) <= 1 }

  // ----- nothing is lost or doubled -----

  lemma {:induction false} CountKeptMoved(l: seq<Task>, a: Args, id: U32)
    ensures Count(Kept(l, a), id) + Count(Moved(l, a), id) == Count(l, id)
    decreases |l|
  {
    if l != [] {
      var m, t := l[..|l| - 1], CompareTask(l[|l| - 1], a);
      CountKeptMoved(m, a, id);
      CountConcat(Kept(m, a), [t], id);
      CountConcat(Moved(m, a), [t], id);
      CountConcat(Kept(m, a), [], id);
      CountConcat(Moved(m, a), [], id);
      CountOne(t, id);
    }
  }

  lemma {:induction false} CountEnqueue(q: seq<Task>, moved: seq<Task>, id: U32)
    ensures Count(Enqueue(q, moved), id) == Count(q, id) + Count(moved, id)
    decreases |moved|
  {
    if moved != [] {
      var m, t := moved[..|moved| - 1], moved[|moved| - 1];
      CountEnqueue(q, m, id);
      var q' := Enqueue(q, m);
      CountInserted(q', Place(Keys(q'), t.priority), t, id);
    }
  }

  lemma PassConserves(l: Lists, a: Args, id: U32)
    ensures Total(Pass(l, a), id) == Total(l, id)
  {
    CountKeptMoved(l.wait, a, id);
    CountKeptMoved(l.idle, a, id);
    var moved := Moved(l.wait, a) + Moved(l.idle, a);
    CountConcat(Moved(l.wait, a), Moved(l.idle, a), id);
    CountEnqueue(l.queue, moved, id);
    CountSame(CompareAll(Enqueue(l.queue, moved), a), Enqueue(l.queue, moved), id);
  }

  lemma AddressConserves(l: Lists, dest: U32, id: U32)
    ensures Total(Address(l, dest), id) == Total(l, id)
  {
    var i, j := Find(l.idle, dest), Find(l.wait, dest);
    if i < |l.idle| {
      CountWithout(l.idle, i, id);
      CountQueued(l.queue, l.idle[i], id);
    } else if j < |l.wait| {
      CountWithout(l.wait, j, id);
      CountQueued(l.queue, l.wait[j], id);
    }
  }

  lemma CountQueued(q: seq<Task>, t: Task, id: U32)
    ensures Count(Insert(q, t.(state := Active)), id) == Count(q, id) + if t.id == id then 1 else 0
  {
    CountInserted(q, Place(Keys(q), t.priority), t.(state := Active), id);
  }

  lemma TurnConserves(l: Lists, a: Args, id: U32)
    ensures Total(Turn(l, a), id) == Total(l, id)
  {
    AddressConserves(l, a.event.source, id);
    PassConserves(if a.event.flags.addressed then Address(l, a.event.source) else l, a, id);
  }

  /** Every task is in as many of the three lists after a cycle as before. */
  lemma {:induction false} CycleConserves(l: Lists, todo: seq<Event>, delta: U32, id: U32)
    ensures Total(Cycle(l, todo, delta), id) == Total(l, id)
    decreases |todo|
  {
    if todo != [] {
      var a := Args(todo[0], |todo| == 1, delta);
      TurnConserves(l, a, id);
      CycleConserves(Turn(l, a), todo[1..], delta, id);
    }
  }

  // ----- one list, one turn -----

  /** What a turn leaves of a task in its list. */
  function TurnTask(t: Task, a: Args): seq<Task> {
    if a.event.flags.addressed && a.event.source == t.id then []
    else if a.event.flags.addressed && !a.last then [t]
    else if CompareTask(t, a).state == Active then [] else [CompareTask(t, a)]
  }

  function TurnList(l: seq<Task>, a: Args): seq<Task>
    decreases |l|
  {
    if l == [] then [] else TurnList(l[..|l| - 1], a) + TurnTask(l[|l| - 1], a)
  }

  /** The list without the tasks of an identifier. */
  function Drop(l: seq<Task>, id: U32): seq<Task>
    decreases |l|
  {
    if l == [] then [] else Drop(l[..|l| - 1], id) + if l[|l| - 1].id == id then [] else [l[|l| - 1]]
  }

  lemma {:induction false} DropNone(l: seq<Task>, id: U32)
    requires Count(l, id) == 0
    ensures Drop(l, id) == l
    decreases |l|
  {
    if l != [] {
      DropNone(l[..|l| - 1], id);
    }
  }

  lemma {:induction false} DropIsWithout(l: seq<Task>, i: nat)
    requires i < |l| && Count(l, l[i].id) <= 1
    ensures Drop(l, l[i].id) == Without(l, i)
    decreases |l|
  {
    var n, id := |l| - 1, l[i].id;
    var m := l[..n];
    CountPositive(m, id);
    if i == n {
      DropNone(m, id);
      assert Without(l, i) == m;
    } else {
      assert m[i] == l[i];
      DropIsWithout(m, i);
      assert Without(l, i) == Without(m, i) + [l[n]];
    }
  }

  lemma {:induction false} KeptOfDrop(l: seq<Task>, a: Args)
    requires a.event.flags.addressed ==> a.last
    ensures TurnList(l, a) == Kept(if a.event.flags.addressed then Drop(l, a.event.source) else l, a)
    decreases |l|
  {
    if l != [] {
      var m, t := l[..|l| - 1], l[|l| - 1];
      KeptOfDrop(m, a);
      if a.event.flags.addressed {
        KeptSnoc(Drop(m, a.event.source), t, a);
        assert Drop(m, a.event.source) + [] == Drop(m, a.event.source);
      }
    }
  }

  lemma KeptSnoc(l: seq<Task>, t: Task, a: Args)
    ensures Kept(l + [t], a) == Kept(l, a) + if CompareTask(t, a).state == Active then [] else [CompareTask(t, a)]
  {
    assert (l + [t])[..|l|] == l;
  }

  lemma {:induction false} AddressedOnly(l: seq<Task>, a: Args)
    requires a.event.flags.addressed && !a.last
    ensures TurnList(l, a) == Drop(l, a.event.source)
    decreases |l|
  {
    if l != [] {
      AddressedOnly(l[..|l| - 1], a);
    }
  }

  lemma AddressDrops(l: Lists, id: U32)
    requires AtMostOnce(l)
    ensures Address(l, id).wait == Drop(l.wait, id) && Address(l, id).idle == Drop(l.idle, id)
  {
    assert Total(l, id) <= 1;
    OneDropped(l.idle, id);
    OneDropped(l.wait, id);
  }

  lemma OneDropped(l: seq<Task>, id: U32)
    requires Count(l, id) <= 1
    ensures Count(l, id) == if Find(l, id) < |l| then 1 else 0
    ensures Drop(l, id) == if Find(l, id) < |l| then Without(l, Find(l, id)) else l
  {
    CountPositive(l, id);
    if Find(l, id) < |l| {
      DropIsWithout(l, Find(l, id));
    } else {
      DropNone(l, id);
    }
  }

  lemma TurnIsTurnList(l: Lists, a: Args)
    requires AtMostOnce(l)
    ensures Turn(l, a).wait == TurnList(l.wait, a) && Turn(l, a).idle == TurnList(l.idle, a)
  {
    AddressDrops(l, a.event.source);
    if a.event.flags.addressed && !a.last {
      AddressedOnly(l.wait, a);
      AddressedOnly(l.idle, a);
    } else {
      KeptOfDrop(l.wait, a);
      KeptOfDrop(l.idle, a);
    }
  }

  // ----- one task, one turn -----

  /** A comparison that is not the last one leaves an event that does not match. */
  lemma CompareNotLast(e: Event, a: Args)
    requires !a.last
    ensures Flagged(CompareEvent(e, a)) <==> Flagged(e) || IsEqual(a.event, e)
    ensures !IsEqual(a.event, e) ==> CompareEvent(e, a) == e
  {}

  lemma CompareLast(e: Event, a: Args)
    requires a.last
    ensures Flagged(CompareEvent(e, a)) <==> Flagged(e) || IsEqual(a.event, e) || Due(e, a.delta)
    ensures !Flagged(CompareEvent(e, a)) ==>
              CompareEvent(e, a) == if e.flags.noTimeout then e else e.(cnt := Add32(e.cnt, a.delta))
  {}

  lemma AddressedToSplit(todo: seq<Event>, id: U32)
    requires todo != []
    ensures AddressedTo(todo, id) <==> (todo[0].flags.addressed && todo[0].source == id) || AddressedTo(todo[1..], id)
  {
    if AddressedTo(todo[1..], id) {
      var i :| 0 <= i < |todo| - 1 && todo[1..][i].flags.addressed && todo[1..][i].source == id;
      assert todo[i + 1].source == id;
    }
    if AddressedTo(todo, id) {
      var i :| 0 <= i < |todo| && todo[i].flags.addressed && todo[i].source == id;
      assert i > 0 ==> todo[1..][i - 1] == todo[i];
    }
  }

  lemma MatchedSplit(todo: seq<Event>, e: Event)
    requires |todo| > 1
    ensures Matched(todo, e) <==> (!todo[0].flags.addressed && IsEqual(todo[0], e)) || Matched(todo[1..], e)
  {
    if Matched(todo[1..], e) {
      var i :| 0 <= i < |todo| - 1 && Compared(todo[1..], i) && IsEqual(todo[1..][i], e);
      assert Compared(todo, i + 1) && IsEqual(todo[i + 1], e);
    }
    if Matched(todo, e) {
      var i :| 0 <= i < |todo| && Compared(todo, i) && IsEqual(todo[i], e);
      assert i > 0 ==> Compared(todo[1..], i - 1) && IsEqual(todo[1..][i - 1], e);
    }
    if !todo[0].flags.addressed && IsEqual(todo[0], e) {
      assert Compared(todo, 0);
    }
  }

  /** Before the last event, a task leaves at once or is untouched. */
  lemma EarlyTurn(t: Task, todo: seq<Event>, delta: U32)
    requires |todo| > 1 && t.state != Active
    ensures var now := TurnTask(t, Args(todo[0], false, delta));
            if now == [] then Woken(t, todo, delta)
            else now == [t] && (Woken(t, todo, delta) <==> Woken(t, todo[1..], delta))
  {
    var a := Args(todo[0], false, delta);
    AddressedToSplit(todo, t.id);
    forall i | 0 <= i < |t.events|
      ensures Wakes(todo, delta, t.events[i]) <==>
              (!todo[0].flags.addressed && IsEqual(todo[0], t.events[i])) || Wakes(todo[1..], delta, t.events[i])
      ensures Flagged(CompareEvent(t.events[i], a)) <==> Flagged(t.events[i]) || IsEqual(todo[0], t.events[i])
      ensures !IsEqual(todo[0], t.events[i]) ==> CompareEvent(t.events[i], a) == t.events[i]
    {
      MatchedSplit(todo, t.events[i]);
      CompareNotLast(t.events[i], a);
    }
    if !todo[0].flags.addressed {
      EarlyCompare(t, todo, a);
    }
  }

  lemma EarlyCompare(t: Task, todo: seq<Event>, a: Args)
    requires |todo| > 1 && t.state != Active && a.event == todo[0] && !a.last && !todo[0].flags.addressed
    ensures if AnyFlagged(CompareEvents(t.events, a))
            then exists i :: 0 <= i < |t.events| && (Flagged(t.events[i]) || IsEqual(todo[0], t.events[i]))
            else CompareTask(t, a) == t && forall i :: 0 <= i < |t.events| ==> !IsEqual(todo[0], t.events[i])
  {
    var r := CompareEvents(t.events, a);
    if AnyFlagged(r) {
      var i :| 0 <= i < |r| && Flagged(r[i]);
      CompareNotLast(t.events[i], a);
    } else {
      forall i | 0 <= i < |t.events|
        ensures r[i] == t.events[i] && !IsEqual(todo[0], t.events[i])
      {
        assert !Flagged(r[i]);
        CompareNotLast(t.events[i], a);
      }
      assert r == t.events;
    }
  }

  lemma MatchedOne(e: Event, f: Event)
    ensures Matched([e], f) <==> IsEqual(e, f)
  {
    assert Compared([e], 0);
  }

  /** With the last event it is decided: the task leaves exactly if it wakes. */
  lemma LastTurn(t: Task, e: Event, delta: U32)
    requires t.state != Active
    ensures TurnTask(t, Args(e, true, delta)) == if Woken(t, [e], delta) then [] else [Stayed(t, delta)]
  {
    var a := Args(e, true, delta);
    var r := CompareEvents(t.events, a);
    AddressedToSplit([e], t.id);
    forall i | 0 <= i < |t.events|
      ensures Flagged(r[i]) <==> Wakes([e], delta, t.events[i])
      ensures !Flagged(r[i]) ==> r[i] == Stayed(t, delta).events[i]
    {
      MatchedOne(e, t.events[i]);
      CompareLast(t.events[i], a);
    }
    if !AnyFlagged(r) {
      assert r == Stayed(t, delta).events;
    }
  }

  // ----- the lists over a cycle -----

  lemma {:induction false} RemainingConcat(a: seq<Task>, b: seq<Task>, todo: seq<Event>, delta: U32)
    ensures Remaining(a + b, todo, delta) == Remaining(a, todo, delta) + Remaining(b, todo, delta)
    decreases |b|
  {
    if b == [] {
      assert a + b == a;
    } else {
      assert (a + b)[..|a + b| - 1] == a + b[..|b| - 1];
      RemainingConcat(a, b[..|b| - 1], todo, delta);
    }
  }

  lemma RemainingOne(t: Task, todo: seq<Event>, delta: U32)
    ensures Remaining([t], todo, delta) == if Woken(t, todo, delta) then [] else [Stayed(t, delta)]
  {
    assert [t][..0] == [];
  }

  lemma RemainingSnoc(l: seq<Task>, now: seq<Task>, t: Task, todo: seq<Event>, delta: U32)
    requires now == [] || now == [t]
    ensures Remaining(l + now, todo, delta) == Remaining(l, todo, delta)
              + if now == [] || Woken(t, todo, delta) then [] else [Stayed(t, delta)]
  {
    RemainingConcat(l, now, todo, delta);
    RemainingOne(t, todo, delta);
  }

  lemma {:induction false} RemainingAfterEarlyTurn(l: seq<Task>, todo: seq<Event>, delta: U32)
    requires |todo| > 1 && NotActive(l)
    ensures Remaining(TurnList(l, Args(todo[0], false, delta)), todo[1..], delta) == Remaining(l, todo, delta)
    decreases |l|
  {
    if l != [] {
      var a, m, t := Args(todo[0], false, delta), l[..|l| - 1], l[|l| - 1];
      RemainingAfterEarlyTurn(m, todo, delta);
      EarlyTurn(t, todo, delta);
      RemainingSnoc(TurnList(m, a), TurnTask(t, a), t, todo[1..], delta);
    }
  }

  lemma {:induction false} TurnListNotActive(l: seq<Task>, a: Args)
    requires NotActive(l)
    ensures NotActive(TurnList(l, a))
    decreases |l|
  {
    if l != [] {
      TurnListNotActive(l[..|l| - 1], a);
    }
  }

  lemma {:induction false} RemainingAfterLastTurn(l: seq<Task>, e: Event, delta: U32)
    requires NotActive(l)
    ensures TurnList(l, Args(e, true, delta)) == Remaining(l, [e], delta)
    decreases |l|
  {
    if l != [] {
      RemainingAfterLastTurn(l[..|l| - 1], e, delta);
      LastTurn(l[|l| - 1], e, delta);
    }
  }

  /** A cycle leaves in the waiting list and in the idle list exactly the tasks that do not wake, in their places, with
      nothing but the counters of their events changed. */
  lemma {:induction false} CycleRemains(l: Lists, todo: seq<Event>, delta: U32)
    requires todo != [] && AtMostOnce(l) && NotActive(l.wait) && NotActive(l.idle)
    ensures Cycle(l, todo, delta).wait == Remaining(l.wait, todo, delta)
    ensures Cycle(l, todo, delta).idle == Remaining(l.idle, todo, delta)
    decreases |todo|
  {
    var a := Args(todo[0], |todo| == 1, delta);
    var l1 := Turn(l, a);
    TurnIsTurnList(l, a);
    if |todo| == 1 {
      assert todo == [todo[0]] && Cycle(l1, todo[1..], delta) == l1;
      RemainingAfterLastTurn(l.wait, todo[0], delta);
      RemainingAfterLastTurn(l.idle, todo[0], delta);
    } else {
      RemainingAfterEarlyTurn(l.wait, todo, delta);
      RemainingAfterEarlyTurn(l.idle, todo, delta);
      TurnListNotActive(l.wait, a);
      TurnListNotActive(l.idle, a);
      forall id: U32
        ensures Total(l1, id) <= 1
      {
        TurnConserves(l, a, id);
      }
      CycleRemains(l1, todo[1..], delta);
    }
  }

  lemma {:induction false} CountRemaining(l: seq<Task>, i: nat, todo: seq<Event>, delta: U32)
    requires i < |l| && Count(l, l[i].id) == 1
    ensures Count(Remaining(l, todo, delta), l[i].id) == if Woken(l[i], todo, delta) then 0 else 1
    ensures !Woken(l[i], todo, delta) ==> Stayed(l[i], delta) in Remaining(l, todo, delta)
    decreases |l|
  {
    var n, id := |l| - 1, l[i].id;
    var m := l[..n];
    var r := Remaining(m, todo, delta);
    CountPositive(m, id);
    CountConcat(r, [Stayed(l[n], delta)], id);
    CountConcat(r, [], id);
    CountOne(Stayed(l[n], delta), id);
    if i < n {
      assert m[i] == l[i];
      CountRemaining(m, i, todo, delta);
    } else {
      NoneRemain(m, id, todo, delta);
    }
  }

  lemma {:induction false} NoneRemain(l: seq<Task>, id: U32, todo: seq<Event>, delta: U32)
    requires Count(l, id) == 0
    ensures Count(Remaining(l, todo, delta), id) == 0
    decreases |l|
  {
    if l != [] {
      var m, t := l[..|l| - 1], l[|l| - 1];
      NoneRemain(m, id, todo, delta);
      CountConcat(Remaining(m, todo, delta), [Stayed(t, delta)], id);
      CountConcat(Remaining(m, todo, delta), [], id);
      CountOne(Stayed(t, delta), id);
    }
  }

  /** No lost and no spurious wake-up: a task of the waiting or the idle list is in the queue after the cycle exactly if
      it wakes; otherwise it is still in its list. */
  lemma WokenIffQueued(l: Lists, todo: seq<Event>, delta: U32, i: nat, waiting: bool)
    requires todo != [] && AtMostOnce(l) && NotActive(l.wait) && NotActive(l.idle)
    requires i < if waiting then |l.wait| else |l.idle|
    ensures var t, l' := if waiting then l.wait[i] else l.idle[i], Cycle(l, todo, delta);
            && Count(l'.queue, t.id) == (if Woken(t, todo, delta) then 1 else 0)
            && (!Woken(t, todo, delta) ==> Stayed(t, delta) in if waiting then l'.wait else l'.idle)
  {
    if waiting {
      assert Total(l, l.wait[i].id) <= 1;
      OneRemains(l.wait, l.idle, i, todo, delta);
      CycleConserves(l, todo, delta, l.wait[i].id);
    } else {
      assert Total(l, l.idle[i].id) <= 1;
      OneRemains(l.idle, l.wait, i, todo, delta);
      CycleConserves(l, todo, delta, l.idle[i].id);
    }
    CycleRemains(l, todo, delta);
  }

  /** A task that is in one of two lists remains there exactly if it does not wake. */
  lemma OneRemains(l: seq<Task>, other: seq<Task>, i: nat, todo: seq<Event>, delta: U32)
    requires i < |l| && Count(l, l[i].id) + Count(other, l[i].id) <= 1
    ensures var n := Count(Remaining(l, todo, delta), l[i].id) + Count(Remaining(other, todo, delta), l[i].id);
            Count(l, l[i].id) + Count(other, l[i].id) == 1 && n == if Woken(l[i], todo, delta) then 0 else 1
    ensures !Woken(l[i], todo, delta) ==> Stayed(l[i], delta) in Remaining(l, todo, delta)
  {
    CountPositive(l, l[i].id);
    CountRemaining(l, i, todo, delta);
    NoneRemain(other, l[i].id, todo, delta);
  }
}
