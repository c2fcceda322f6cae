/** What the loops over the linked lists make of the tasks and events that their nodes carry: the functions of module
    Broker (source/kernel/src/Scheduler.c). */
module BrokerLists {
  import opened Base
  import opened Events
  import opened Tasks
  import opened Broker
  import opened LinkedList
  import opened ListTraversal
  import opened BrokerLoops

  // ----- tasks -----

  function KeysIn(tasks: map<Node, Task>): map<Node, Key> { map n | n in tasks :: KeyOf(tasks[n]) }

  /** The nodes whose tasks the comparison makes active. */
  function ActiveIn(tasks: map<Node, Task>, a: Args): set<Node> {
    set n | n in tasks && CompareTask(tasks[n], a).state == Active
  }

  /** The tasks after those of a list were compared. */
  function Compared(tasks: map<Node, Task>, s: seq<Node>, a: Args): map<Node, Task> {
    map n | n in tasks :: if n in s then CompareTask(tasks[n], a) else tasks[n]
  }

  /** The children of these nodes are compared. */
  ghost predicate AreCompared(s: seq<Node>, tasks: map<Node, Task>, after: map<Node, Task>, a: Args) {
    forall n :: n in s ==> n in tasks && n in after && after[n] == CompareTask(tasks[n], a)
  }

  lemma {:induction false} StayersAreKept(s: seq<Node>, tasks: map<Node, Task>, after: map<Node, Task>, a: Args)
    requires Keyed(s, tasks) && AreCompared(s, tasks, after, a)
    ensures Keyed(Stayers(s, ActiveIn(tasks, a)), after)
    ensures ChildrenOf(Stayers(s, ActiveIn(tasks, a)), after) == Kept(ChildrenOf(s, tasks), a)
    decreases |s|
  {
    if s != [] {
      var m := s[..|s| - 1];
      StayersAreKept(m, tasks, after, a);
      assert ChildrenOf(s, tasks)[..|m|] == ChildrenOf(m, tasks);
    }
  }

  lemma {:induction false} MoversAreMoved(s: seq<Node>, tasks: map<Node, Task>, after: map<Node, Task>, a: Args)
    requires Keyed(s, tasks) && AreCompared(s, tasks, after, a)
    ensures Keyed(Movers(s, ActiveIn(tasks, a)), after)
    ensures ChildrenOf(Movers(s, ActiveIn(tasks, a)), after) == Moved(ChildrenOf(s, tasks), a)
    decreases |s|
  {
    if s != [] {
      var m := s[..|s| - 1];
      MoversAreMoved(m, tasks, after, a);
      assert ChildrenOf(s, tasks)[..|m|] == ChildrenOf(m, tasks);
    }
  }

  ghost predicate SameKeys(tasks: map<Node, Task>, keys: map<Node, Key>) {
    tasks.Keys == keys.Keys && forall n :: n in tasks ==> KeyOf(tasks[n]) == keys[n]
  }

  lemma OneEnqueued(o: seq<Node>, x: Node, tasks: map<Node, Task>, keys: map<Node, Key>)
    requires Keyed(o, tasks) && Keyed(o, keys) && x in tasks && SameKeys(tasks, keys)
    ensures var k := Place(ChildrenOf(o, keys), keys[x].priority);
            Keyed(Inserted(o, k, x), tasks)
              && ChildrenOf(Inserted(o, k, x), tasks) == Insert(ChildrenOf(o, tasks), tasks[x])
  {
    assert ChildrenOf(o, keys) == Keys(ChildrenOf(o, tasks));
  }

  lemma {:induction false} EnqueuedAre(q: seq<Node>, moved: seq<Node>, tasks: map<Node, Task>, keys: map<Node, Key>)
    requires Keyed(q, tasks) && Keyed(moved, tasks) && Keyed(q, keys) && Keyed(moved, keys) && SameKeys(tasks, keys)
    ensures Keyed(Enqueued(q, moved, keys), tasks)
    ensures ChildrenOf(Enqueued(q, moved, keys), tasks) == Enqueue(ChildrenOf(q, tasks), ChildrenOf(moved, tasks))
    decreases |moved|
  {
    if moved != [] {
      var m := moved[..|moved| - 1];
      EnqueuedAre(q, m, tasks, keys);
      assert ChildrenOf(moved, tasks)[..|m|] == ChildrenOf(m, tasks);
      OneEnqueued(Enqueued(q, m, keys), moved[|m|], tasks, keys);
    }
  }

  /** ISchedulerTaskListCompare over the linked lists: the nodes carry the tasks that Broker keeps and enqueues. */
  method CompareList(list: LinkedList, queue: LinkedList, tasks: map<Node, Task>, a: Args,
                     ghost entered: seq<Key>, ghost all: set<Node>)
    returns (ghost after: map<Node, Task>, ghost visited: seq<Node>)
    requires Going(list, queue, all) && Keyed(list.nodes, tasks) && Keyed(queue.nodes, tasks)
    requires Keys(ChildrenOf(queue.nodes, tasks)) == Ordered(entered)
    modifies list, queue, all, list.pools.freeId, list.pools.rollover
    ensures Going(list, queue, all) && visited == old(list.nodes) && after == Compared(tasks, old(list.nodes), a)
    ensures Keyed(list.nodes, after) && Keyed(queue.nodes, after)
    ensures ChildrenOf(list.nodes, after) == Kept(ChildrenOf(old(list.nodes), tasks), a)
    ensures ChildrenOf(queue.nodes, after) ==
            Enqueue(ChildrenOf(old(queue.nodes), tasks), Moved(ChildrenOf(old(list.nodes), tasks), a))
  {
    ghost var s, t := list.nodes, queue.nodes;
    var keys, active := KeysIn(tasks), ActiveIn(tasks, a);
    ComparedChildren(s, t, tasks, a, keys);
    visited := MoveActive(list, queue, active, keys, entered, all);
    after := Compared(tasks, s, a);
    ComparedLists(s, t, tasks, a, keys, active);
  }

  lemma ComparedChildren(s: seq<Node>, t: seq<Node>, tasks: map<Node, Task>, a: Args, keys: map<Node, Key>)
    requires Keyed(s, tasks) && Keyed(t, tasks) && keys == KeysIn(tasks)
    ensures Keyed(s, keys) && Keyed(t, keys) && ChildrenOf(t, keys) == Keys(ChildrenOf(t, tasks))
  {}

  /** The two lists after the loop, by what their nodes carry. */
  lemma ComparedLists(s: seq<Node>, t: seq<Node>, tasks: map<Node, Task>, a: Args, keys: map<Node, Key>,
                      active: set<Node>)
    requires Keyed(s, tasks) && Keyed(t, tasks) && Disjoint(s, t)
    requires keys == KeysIn(tasks) && active == ActiveIn(tasks, a) && Keyed(t, keys) && Keyed(Movers(s, active), keys)
    ensures var after, q := Compared(tasks, s, a), Enqueued(t, Movers(s, active), keys);
            && Keyed(Stayers(s, active), after) && Keyed(q, after)
            && ChildrenOf(Stayers(s, active), after) == Kept(ChildrenOf(s, tasks), a)
            && ChildrenOf(q, after) == Enqueue(ChildrenOf(t, tasks), Moved(ChildrenOf(s, tasks), a))
  {
    var after := Compared(tasks, s, a);
    StayersAreKept(s, tasks, after, a);
    MoversAreMoved(s, tasks, after, a);
    assert ChildrenOf(t, after) == ChildrenOf(t, tasks);
    EnqueuedAre(t, Movers(s, active), after, keys);
  }

  // ----- events -----

  /** The nodes whose events end their lifetime in a cycle. */
  function ExpiredIn(events: map<Node, Event>, delta: U32): set<Node> {
    set n | n in events && EventAfter(events[n], delta) == []
  }

  /** The events after the cycle. */
  function Aged(events: map<Node, Event>, delta: U32): map<Node, Event> {
    map n | n in events && EventAfter(events[n], delta) != [] :: EventAfter(events[n], delta)[0]
  }

  lemma {:induction false} StayersAreAged(s: seq<Node>, events: map<Node, Event>, delta: U32)
    requires Keyed(s, events)
    ensures Keyed(Stayers(s, ExpiredIn(events, delta)), Aged(events, delta))
    ensures ChildrenOf(Stayers(s, ExpiredIn(events, delta)), Aged(events, delta))
            == EventsAfter(ChildrenOf(s, events), delta)
    decreases |s|
  {
    if s != [] {
      var m := s[..|s| - 1];
      StayersAreAged(m, events, delta);
      assert ChildrenOf(s, events)[..|m|] == ChildrenOf(m, events);
      OneAged(Stayers(m, ExpiredIn(events, delta)), s[|m|], events, delta);
    }
  }

  lemma OneAged(stayers: seq<Node>, n: Node, events: map<Node, Event>, delta: U32)
    requires n in events && Keyed(stayers, Aged(events, delta))
    ensures var r := stayers + if n in ExpiredIn(events, delta) then [] else [n];
            && Keyed(r, Aged(events, delta))
            && ChildrenOf(r, Aged(events, delta))
               == ChildrenOf(stayers, Aged(events, delta)) + EventAfter(events[n], delta)
  {}

  /** The part of ISchedulerEventBrokerCycle that ages the events, over the linked list: what stays are the events that
      Broker says are left, with their counters. */
  method AgeList(list: LinkedList, none: LinkedList, events: map<Node, Event>, delta: U32, ghost all: set<Node>)
    returns (after: map<Node, Event>, ghost visited: seq<Node>)
    requires Going(list, none, all) && Keyed(list.nodes, events)
    modifies list, none, all, list.pools.freeId, list.pools.rollover
    ensures Going(list, none, all) && visited == old(list.nodes) && none.nodes == old(none.nodes)
    ensures after == Aged(events, delta) && Keyed(list.nodes, after)
    ensures ChildrenOf(list.nodes, after) == EventsAfter(ChildrenOf(old(list.nodes), events), delta)
  {
    StayersAreAged(list.nodes, events, delta);
    visited := DropExpired(list, none, ExpiredIn(events, delta), all);
    after := Aged(events, delta);
  }
}
