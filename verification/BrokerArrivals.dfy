/** In which order a broker cycle (source/kernel/src/Scheduler.c) brings tasks into the queue, told from the lists
    before the cycle: by the emitted event that first wakes a task; for one event the addressee first, then those that
    waited, then those that rested, both in the order of their list. */
module BrokerArrivals {
  import opened Base
  import opened Events
  import opened Tasks
  import opened Broker
  import opened BrokerExact
  import opened BrokerTasks

  predicate Addresses(e: Event, t: Task) { e.flags.addressed && e.source == t.id }

  predicate AnyDue(t: Task, delta: U32) { exists j :: 0 <= j < |t.events| && Due(t.events[j], delta) }

  /** The emitted event at i would wake the task: it is addressed to it, or compared and then matching, or the last one,
      with which the time of the cycle is added. A registration that is flagged already wakes it with any comparison. */
  predicate WakesAt(t: Task, todo: seq<Event>, delta: U32, i: nat)
    requires i < |todo|
  {
    || Addresses(todo[i], t)
    || (Compared(todo, i) && (Wakeable(t, todo[i]) || (i == |todo| - 1 && AnyDue(t, delta))))
  }

  /** It is the first event that wakes it. */
  predicate FirstAt(t: Task, todo: seq<Event>, delta: U32, i: nat)
    requires i < |todo|
  {
    WakesAt(t, todo, delta, i) && forall k :: 0 <= k < i ==> !WakesAt(t, todo, delta, k)
  }

  /** The tasks of a list that wake with the event at i, as its addressee or by comparison, in the order of the list. */
  function Comers(l: seq<Task>, todo: seq<Event>, delta: U32, i: nat, addressed: bool): seq<Key>
    requires i < |todo|
    decreases |l|
  {
    if l == [] then []
    else
      var t := l[|l| - 1];
      Comers(l[..|l| - 1], todo, delta, i, addressed)
        + if FirstAt(t, todo, delta, i) && (Addresses(todo[i], t) <==> addressed) then [KeyOf(t)] else []
  }

  function ArrivalsAt(l: Lists, todo: seq<Event>, delta: U32, i: nat): seq<Key>
    requires i < |todo|
  {
    Comers(l.wait, todo, delta, i, true) + Comers(l.idle, todo, delta, i, true)
      + Comers(l.wait, todo, delta, i, false) + Comers(l.idle, todo, delta, i, false)
  }

  /** From the event at i on. */
  function Arrivals(l: Lists, todo: seq<Event>, delta: U32, i: nat): seq<Key>
    requires i <= |todo|
    decreases |todo| - i
  {
    if i == |todo| then [] else ArrivalsAt(l, todo, delta, i) + Arrivals(l, todo, delta, i + 1)
  }

  // ----- one turn -----

  /** The comparison of a turn makes a task active exactly if the event wakes it. */
  lemma ComparedActive(t: Task, todo: seq<Event>, delta: U32)
    requires todo != [] && t.state != Active && Compared(todo, 0)
    ensures CompareTask(t, Args(todo[0], |todo| == 1, delta)).state == Active <==>
            Wakeable(t, todo[0]) || (|todo| == 1 && AnyDue(t, delta))
  {
    var a := Args(todo[0], |todo| == 1, delta);
    if a.last {
      LastActive(t, a);
      forall i | 0 <= i < |t.events|
        ensures Wakes([todo[0]], delta, t.events[i]) <==>
                Flagged(t.events[i]) || IsEqual(todo[0], t.events[i]) || Due(t.events[i], delta)
      {
        MatchedOne(todo[0], t.events[i]);
      }
    } else {
      EarlyCompareExact(t, a);
    }
  }

  lemma {:induction false} AddresseesNone(l: seq<Task>, todo: seq<Event>, delta: U32)
    requires todo != [] && (todo[0].flags.addressed ==> Count(l, todo[0].source) == 0)
    ensures Comers(l, todo, delta, 0, true) == []
    decreases |l|
  {
    if l != [] {
      AddresseesNone(l[..|l| - 1], todo, delta);
    }
  }

  lemma {:induction false} AddresseeIs(l: seq<Task>, todo: seq<Event>, delta: U32)
    requires todo != [] && todo[0].flags.addressed && Count(l, todo[0].source) <= 1
    ensures var i := Find(l, todo[0].source);
            Comers(l, todo, delta, 0, true) == if i < |l| then [KeyOf(l[i])] else []
    decreases |l|
  {
    if l != [] {
      var m, id := l[..|l| - 1], todo[0].source;
      CountPositive(m, id);
      if l[|l| - 1].id == id {
        AddresseesNone(m, todo, delta);
        FindSnoc(l, id);
      } else {
        AddresseeIs(m, todo, delta);
        FindSnoc(l, id);
      }
    }
  }

  lemma FindSnoc(l: seq<Task>, id: U32)
    requires l != []
    ensures var m := l[..|l| - 1];
            Find(l, id) == if Find(m, id) < |m| then Find(m, id) else if l[|m|].id == id then |m| else |l|
  {
    var m := l[..|l| - 1];
    assert forall k :: 0 <= k < |m| ==> m[k] == l[k];
  }

  /** What is left of a list when the addressee has gone. */
  function Unaddressed(l: seq<Task>, e: Event): seq<Task> { if e.flags.addressed then Drop(l, e.source) else l }

  lemma UnaddressedSnoc(l: seq<Task>, t: Task, e: Event)
    ensures Unaddressed(l + [t], e) == Unaddressed(l, e) + if Addresses(e, t) then [] else [t]
  {
    assert (l + [t])[..|l|] == l;
  }

  /** Those that a turn compares and moves. */
  lemma {:induction false} MovedAre(l: seq<Task>, todo: seq<Event>, delta: U32)
    requires todo != [] && NotActive(l) && Compared(todo, 0)
    ensures Keys(Moved(Unaddressed(l, todo[0]), Args(todo[0], |todo| == 1, delta))) == Comers(l, todo, delta, 0, false)
    decreases |l|
  {
    if l == [] {
      NothingMoved(todo, delta);
    } else {
      MovedAre(l[..|l| - 1], todo, delta);
      OneMoreMoved(l, l[..|l| - 1], l[|l| - 1], todo, delta);
    }
  }

  lemma NothingMoved(todo: seq<Event>, delta: U32)
    requires todo != []
    ensures Keys(Moved(Unaddressed([], todo[0]), Args(todo[0], |todo| == 1, delta)))
            == Comers([], todo, delta, 0, false)
  {
    assert Unaddressed([], todo[0]) == [];
  }

  lemma OneMoreMoved(l: seq<Task>, m: seq<Task>, t: Task, todo: seq<Event>, delta: U32)
    requires l == m + [t] && todo != [] && t.state != Active && Compared(todo, 0)
    requires Keys(Moved(Unaddressed(m, todo[0]), Args(todo[0], |todo| == 1, delta))) == Comers(m, todo, delta, 0, false)
    ensures Keys(Moved(Unaddressed(l, todo[0]), Args(todo[0], |todo| == 1, delta))) == Comers(l, todo, delta, 0, false)
  {
    UnaddressedSnoc(m, t, todo[0]);
    ComersSnoc(m, [t], t, todo, delta, 0, false);
    if Addresses(todo[0], t) {
      assert Unaddressed(m, todo[0]) + [] == Unaddressed(m, todo[0]);
    } else {
      ComparedActive(t, todo, delta);
      MovedSnoc(Unaddressed(m, todo[0]), t, Args(todo[0], |todo| == 1, delta));
      FirstAtZero(t, todo, delta);
    }
  }

  lemma FirstAtZero(t: Task, todo: seq<Event>, delta: U32)
    requires todo != [] && Compared(todo, 0) && !Addresses(todo[0], t)
    ensures FirstAt(t, todo, delta, 0) <==> Wakeable(t, todo[0]) || (|todo| == 1 && AnyDue(t, delta))
  {}

  lemma MovedSnoc(l: seq<Task>, t: Task, a: Args)
    ensures Keys(Moved(l + [t], a)) == Keys(Moved(l, a)) + if CompareTask(t, a).state == Active then [KeyOf(t)] else []
  {
    assert (l + [t])[..|l|] == l;
  }

  lemma {:induction false} NoneCompared(l: seq<Task>, todo: seq<Event>, delta: U32)
    requires todo != [] && !Compared(todo, 0)
    ensures Comers(l, todo, delta, 0, false) == []
    decreases |l|
  {
    if l != [] {
      NoneCompared(l[..|l| - 1], todo, delta);
    }
  }

  lemma AddressArrivals(l: Lists, todo: seq<Event>, delta: U32)
    requires todo != [] && AtMostOnce(l)
    ensures var l1 := if todo[0].flags.addressed then Address(l, todo[0].source) else l;
            l1.entered == l.entered + Comers(l.wait, todo, delta, 0, true) + Comers(l.idle, todo, delta, 0, true)
  {
    var id := todo[0].source;
    assert Total(l, id) <= 1;
    if todo[0].flags.addressed {
      CountPositive(l.wait, id);
      CountPositive(l.idle, id);
      AddresseeIs(l.wait, todo, delta);
      AddresseeIs(l.idle, todo, delta);
    } else {
      AddresseesNone(l.wait, todo, delta);
      AddresseesNone(l.idle, todo, delta);
    }
  }

  lemma PassArrivals(l: Lists, a: Args)
    ensures Pass(l, a).entered == l.entered + Keys(Moved(l.wait, a)) + Keys(Moved(l.idle, a))
  {
    KeysOfBoth(Moved(l.wait, a), Moved(l.idle, a));
    Appended(l.entered, Keys(Moved(l.wait, a)), Keys(Moved(l.idle, a)));
  }

  lemma KeysOfBoth(l: seq<Task>, m: seq<Task>)
    ensures Keys(l + m) == Keys(l) + Keys(m)
  {}

  lemma Joined(e: seq<Key>, a: seq<Key>, b: seq<Key>, c: seq<Key>, d: seq<Key>)
    ensures e + a + b + c + d == e + (a + b + c + d)
  {}

  lemma ComparedArrivals(l: Lists, l1: Lists, todo: seq<Event>, delta: U32)
    requires todo != [] && NotActive(l.wait) && NotActive(l.idle) && Compared(todo, 0)
    requires l1.wait == Unaddressed(l.wait, todo[0])
    requires l1.idle == Unaddressed(l.idle, todo[0])
    ensures Pass(l1, Args(todo[0], |todo| == 1, delta)).entered
         == l1.entered + Comers(l.wait, todo, delta, 0, false) + Comers(l.idle, todo, delta, 0, false)
  {
    MovedAre(l.wait, todo, delta);
    MovedAre(l.idle, todo, delta);
    PassArrivals(l1, Args(todo[0], |todo| == 1, delta));
  }

  /** The lists after the first part of a turn. */
  lemma AddressPart(l: Lists, todo: seq<Event>, delta: U32) returns (l1: Lists)
    requires todo != [] && AtMostOnce(l)
    ensures l1 == if todo[0].flags.addressed then Address(l, todo[0].source) else l
    ensures l1.entered == l.entered + Comers(l.wait, todo, delta, 0, true) + Comers(l.idle, todo, delta, 0, true)
    ensures l1.wait == Unaddressed(l.wait, todo[0])
    ensures l1.idle == Unaddressed(l.idle, todo[0])
  {
    l1 := if todo[0].flags.addressed then Address(l, todo[0].source) else l;
    AddressArrivals(l, todo, delta);
    AddressDrops(l, todo[0].source);
  }

  lemma TurnOf(l: Lists, l1: Lists, a: Args)
    requires l1 == if a.event.flags.addressed then Address(l, a.event.source) else l
    ensures Turn(l, a) == if a.event.flags.addressed && !a.last then l1 else Pass(l1, a)
  {}

  lemma TurnArrivals(l: Lists, todo: seq<Event>, delta: U32) returns (l2: Lists)
    requires todo != [] && AtMostOnce(l) && NotActive(l.wait) && NotActive(l.idle)
    ensures l2 == Turn(l, Args(todo[0], |todo| == 1, delta))
    ensures l2.entered == l.entered + ArrivalsAt(l, todo, delta, 0)
  {
    var l1 := AddressPart(l, todo, delta);
    TurnOf(l, l1, Args(todo[0], |todo| == 1, delta));
    l2 := Turn(l, Args(todo[0], |todo| == 1, delta));
    if Compared(todo, 0) {
      ComparedArrivals(l, l1, todo, delta);
    } else {
      NoneCompared(l.wait, todo, delta);
      NoneCompared(l.idle, todo, delta);
    }
    Joined(l.entered, Comers(l.wait, todo, delta, 0, true), Comers(l.idle, todo, delta, 0, true),
           Comers(l.wait, todo, delta, 0, false), Comers(l.idle, todo, delta, 0, false));
  }

  // ----- the next turns -----

  /** A task that a turn before the last one leaves in its list meets the other events unchanged. */
  lemma LaterTurns(t: Task, todo: seq<Event>, delta: U32, i: nat)
    requires |todo| > 1 && t.state != Active && i + 1 < |todo|
    ensures TurnTask(t, Args(todo[0], false, delta)) == if WakesAt(t, todo, delta, 0) then [] else [t]
    ensures FirstAt(t, todo, delta, i + 1) <==> !WakesAt(t, todo, delta, 0) && FirstAt(t, todo[1..], delta, i)
  {
    if Compared(todo, 0) {
      EarlyCompareExact(t, Args(todo[0], false, delta));
    }
    forall k | 0 <= k < |todo| - 1
      ensures WakesAt(t, todo, delta, k + 1) <==> WakesAt(t, todo[1..], delta, k)
    {
      assert todo[1..][k] == todo[k + 1];
    }
    FirstShift(t, todo, delta, i);
  }

  lemma FirstShift(t: Task, todo: seq<Event>, delta: U32, i: nat)
    requires i + 1 < |todo|
    requires forall k :: 0 <= k < |todo| - 1 ==> (WakesAt(t, todo, delta, k + 1) <==> WakesAt(t, todo[1..], delta, k))
    ensures FirstAt(t, todo, delta, i + 1) <==> !WakesAt(t, todo, delta, 0) && FirstAt(t, todo[1..], delta, i)
  {
    if !WakesAt(t, todo, delta, 0) && FirstAt(t, todo[1..], delta, i) {
      forall k | 0 <= k < i + 1
        ensures !WakesAt(t, todo, delta, k)
      {
        assert k > 0 ==> !WakesAt(t, todo[1..], delta, k - 1);
      }
    }
  }

  lemma ComersSnoc(l: seq<Task>, now: seq<Task>, t: Task, todo: seq<Event>, delta: U32, i: nat, addressed: bool)
    requires i < |todo| && (now == [] || now == [t])
    ensures Comers(l + now, todo, delta, i, addressed) == Comers(l, todo, delta, i, addressed)
              + if now == [t] && FirstAt(t, todo, delta, i) && (Addresses(todo[i], t) <==> addressed) then [KeyOf(t)]
                else []
  {
    if now == [] {
      assert l + now == l;
    } else {
      assert (l + now)[..|l|] == l;
    }
  }

  lemma {:induction false} ComersLater(l: seq<Task>, todo: seq<Event>, delta: U32, i: nat, addressed: bool)
    requires |todo| > 1 && NotActive(l) && i + 1 < |todo|
    ensures Comers(l, todo, delta, i + 1, addressed)
         == Comers(TurnList(l, Args(todo[0], false, delta)), todo[1..], delta, i, addressed)
    decreases |l|
  {
    if l != [] {
      var m, t, a := l[..|l| - 1], l[|l| - 1], Args(todo[0], false, delta);
      ComersLater(m, todo, delta, i, addressed);
      LaterTurns(t, todo, delta, i);
      ComersSnoc(TurnList(m, a), TurnTask(t, a), t, todo[1..], delta, i, addressed);
    }
  }

  /** The lists after a turn before the last one. */
  predicate AfterEarly(l: Lists, l1: Lists, todo: seq<Event>, delta: U32) {
    && |todo| > 1 && NotActive(l.wait) && NotActive(l.idle)
    && l1.wait == TurnList(l.wait, Args(todo[0], false, delta))
    && l1.idle == TurnList(l.idle, Args(todo[0], false, delta))
  }

  predicate SameTurn(l: Lists, l1: Lists, todo: seq<Event>, rest: seq<Event>, delta: U32, k: nat) {
    k + 1 < |todo| && k < |rest| && ArrivalsAt(l, todo, delta, k + 1) == ArrivalsAt(l1, rest, delta, k)
  }

  lemma {:induction false} SameTurns(l: Lists, l1: Lists, todo: seq<Event>, rest: seq<Event>, delta: U32, i: nat,
                                     k: nat)
    requires |todo| == |rest| + 1 && i == k + 1 <= |todo|
    requires forall n: nat :: k <= n < |rest| ==> SameTurn(l, l1, todo, rest, delta, n)
    ensures Arrivals(l, todo, delta, i) == Arrivals(l1, rest, delta, k)
    decreases |todo| - i
  {
    if i < |todo| {
      assert SameTurn(l, l1, todo, rest, delta, k);
      SameTurns(l, l1, todo, rest, delta, i + 1, k + 1);
    }
  }

  lemma ArrivalsLater(l: Lists, l1: Lists, todo: seq<Event>, delta: U32)
    requires AfterEarly(l, l1, todo, delta)
    ensures Arrivals(l, todo, delta, 1) == Arrivals(l1, todo[1..], delta, 0)
  {
    forall n: nat | 0 <= n < |todo| - 1
      ensures SameTurn(l, l1, todo, todo[1..], delta, n)
    {
      TurnLater(l, l1, todo, todo[1..], delta, n + 1, n);
    }
    SameTurns(l, l1, todo, todo[1..], delta, 1, 0);
  }

  lemma TurnLater(l: Lists, l1: Lists, todo: seq<Event>, rest: seq<Event>, delta: U32, i: nat, k: nat)
    requires AfterEarly(l, l1, todo, delta) && rest == todo[1..] && i == k + 1 < |todo|
    ensures ArrivalsAt(l, todo, delta, i) == ArrivalsAt(l1, rest, delta, k)
  {
    ComersLater(l.wait, todo, delta, k, true);
    ComersLater(l.idle, todo, delta, k, true);
    ComersLater(l.wait, todo, delta, k, false);
    ComersLater(l.idle, todo, delta, k, false);
  }

  /** What a cycle brings into the queue, in which order. */
  lemma {:induction false} CycleArrivals(l: Lists, todo: seq<Event>, delta: U32)
    requires AtMostOnce(l) && NotActive(l.wait) && NotActive(l.idle)
    ensures Cycle(l, todo, delta).entered == l.entered + Arrivals(l, todo, delta, 0)
    decreases |todo|
  {
    if todo != [] {
      var l1 := TurnArrivals(l, todo, delta);
      var now, later := ArrivalsAt(l, todo, delta, 0), Arrivals(l, todo, delta, 1);
      if |todo| > 1 {
        AfterTurn(l, l1, todo, delta);
        ArrivalsLater(l, l1, todo, delta);
        CycleArrivals(l1, todo[1..], delta);
      }
      CycleStep(l, l1, todo, delta, now, later);
    }
  }

  lemma Appended(e: seq<Key>, now: seq<Key>, later: seq<Key>)
    ensures e + now + later == e + (now + later) && e + now + [] == e + now
  {}

  lemma CycleIs(l: Lists, l1: Lists, todo: seq<Event>, delta: U32) returns (l2: Lists)
    requires todo != [] && l1 == Turn(l, Args(todo[0], |todo| == 1, delta))
    ensures l2 == Cycle(l, todo, delta) && l2 == if |todo| == 1 then l1 else Cycle(l1, todo[1..], delta)
  {
    l2 := Cycle(l, todo, delta);
  }

  lemma CycleStep(l: Lists, l1: Lists, todo: seq<Event>, delta: U32, now: seq<Key>, later: seq<Key>)
    requires todo != [] && l1 == Turn(l, Args(todo[0], |todo| == 1, delta)) && l1.entered == l.entered + now
    requires if |todo| == 1 then later == [] else Cycle(l1, todo[1..], delta).entered == l1.entered + later
    ensures Cycle(l, todo, delta).entered == l.entered + (now + later)
  {
    var l2 := CycleIs(l, l1, todo, delta);
    Appended(l.entered, now, later);
  }

  lemma AfterTurn(l: Lists, l1: Lists, todo: seq<Event>, delta: U32)
    requires |todo| > 1 && AtMostOnce(l) && NotActive(l.wait) && NotActive(l.idle)
    requires l1 == Turn(l, Args(todo[0], |todo| == 1, delta))
    ensures AfterEarly(l, l1, todo, delta)
    ensures AtMostOnce(l1) && NotActive(l1.wait) && NotActive(l1.idle)
  {
    var a := Args(todo[0], false, delta);
    TurnIsTurnList(l, a);
    TurnListNotActive(l.wait, a);
    TurnListNotActive(l.idle, a);
    forall id: U32
      ensures Total(l1, id) <= 1
    {
      TurnConserves(l, a, id);
    }
  }

  /** A task arrives with some event exactly if it wakes. */
  lemma WokenIffArrives(t: Task, todo: seq<Event>, delta: U32)
    requires todo != []
    ensures Woken(t, todo, delta) <==> exists i :: 0 <= i < |todo| && WakesAt(t, todo, delta, i)
  {
    var n := |todo| - 1;
    assert Compared(todo, n);
    if Woken(t, todo, delta) {
      if AddressedTo(todo, t.id) {
        var i :| 0 <= i < |todo| && todo[i].flags.addressed && todo[i].source == t.id;
        assert WakesAt(t, todo, delta, i);
      } else {
        var j :| 0 <= j < |t.events| && Wakes(todo, delta, t.events[j]);
        if Matched(todo, t.events[j]) {
          var i :| 0 <= i < |todo| && Compared(todo, i) && IsEqual(todo[i], t.events[j]);
          assert WakesAt(t, todo, delta, i);
        } else {
          assert WakesAt(t, todo, delta, n);
        }
      }
    }
    if exists i :: 0 <= i < |todo| && WakesAt(t, todo, delta, i) {
      var i :| 0 <= i < |todo| && WakesAt(t, todo, delta, i);
      WakesAtWakes(t, todo, delta, i);
    }
  }

  lemma WakesAtWakes(t: Task, todo: seq<Event>, delta: U32, i: nat)
    requires i < |todo| && WakesAt(t, todo, delta, i)
    ensures Woken(t, todo, delta)
  {
    if Addresses(todo[i], t) {
      assert AddressedTo(todo, t.id);
    } else {
      var j :| 0 <= j < |t.events| && (Flagged(t.events[j]) || IsEqual(todo[i], t.events[j])
                                       || Due(t.events[j], delta));
      assert Wakes(todo, delta, t.events[j]);
    }
  }
}
