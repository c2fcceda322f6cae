/** The loops of source/kernel/src/Scheduler.c over the linked lists themselves, with their iterator: the tasks that
    become active move to the queue, in front of the first of lower priority, and the events that expire are removed. */
module BrokerLoops {
  import opened Base
  import opened RwLock
  import opened LinkedList
  import opened ListIterator
  import opened ListTraversal
  import T = Tasks

  /** The children of the nodes: what the nodes stand for. */
  predicate Keyed<V>(s: seq<Node>, children: map<Node, V>) { forall n :: n in s ==> n in children }

  function ChildrenOf<V>(s: seq<Node>, children: map<Node, V>): (vs: seq<V>)
    requires Keyed(s, children)
    ensures |vs| == |s| && forall i :: 0 <= i < |s| ==> vs[i] == children[s[i]]
  {
    seq(|s|, i requires 0 <= i < |s| => children[s[i]])
  }

  /** The loop of ISchedulerTaskAddDescendingPriority. */
  method PassHigher(queue: LinkedList, it: Iterator, p: U8, keys: map<Node, T.Key>) returns (k: nat)
    requires queue.Linked() && Keyed(queue.nodes, keys)
    requires it.direction == Forward && it.current == Nth(queue.nodes, 0) && it.next == Nth(queue.nodes, 1)
    modifies it`current, it`next, it`prev
    ensures k == T.Place(ChildrenOf(queue.nodes, keys), p) && it.current == Nth(queue.nodes, k)
  {
    ghost var ks := ChildrenOf(queue.nodes, keys);
    k := 0;
    while it.current != null && p <= keys[it.current].priority
      invariant k <= |queue.nodes| && it.direction == Forward
      invariant it.current == Nth(queue.nodes, k) && it.next == Nth(queue.nodes, k + 1)
      invariant forall j :: 0 <= j < k ==> p <= ks[j].priority
      decreases |queue.nodes| - k
    {
      var _ := it.Next();
      k := k + 1;
    }
    T.PlaceIs(ks, p, k);
  }

  method LowerFrom(queue: LinkedList, it: Iterator, p: U8, keys: map<Node, T.Key>) returns (k: nat)
    requires queue.Valid() && Keyed(queue.nodes, keys)
    requires it.direction == Forward && it.current == Nth(queue.nodes, 0) && it.next == Nth(queue.nodes, 1)
    modifies it`current, it`next, it`prev
    ensures queue.Valid() && k == T.Place(ChildrenOf(queue.nodes, keys), p) && it.current == Nth(queue.nodes, k)
  {
    k := PassHigher(queue, it, p, keys);
  }

  /** Its search: the first node of lower priority, or null. */
  method FindLower(queue: LinkedList, p: U8, keys: map<Node, T.Key>) returns (at: Node?, k: nat)
    requires queue.Valid() && queue.lock == Free && Keyed(queue.nodes, keys)
    modifies queue`lock
    ensures queue.Valid() && queue.lock == Free
    ensures k == T.Place(ChildrenOf(queue.nodes, keys), p) && at == Nth(queue.nodes, k)
  {
    var it := new Iterator();
    var _ := it.Init(queue, Forward);
    k := LowerFrom(queue, it, p, keys);
    at := it.current;
  }

  // ----- the tasks that become active -----

  /** What the loop of ISchedulerTaskListCompare does with a node: it stays, or goes to its place in the queue. */
  ghost predicate ByPriority(s: seq<Node>, t: seq<Node>, active: set<Node>, keys: map<Node, T.Key>,
                             choices: seq<Choice>)
    requires |choices| <= |s| && Keyed(s, keys) && Keyed(t, keys)
  {
    forall i :: 0 <= i < |choices| ==> ChoiceAt(s, t, active, keys, choices, i)
  }

  ghost predicate ChoiceAt(s: seq<Node>, t: seq<Node>, active: set<Node>, keys: map<Node, T.Key>,
                           choices: seq<Choice>, i: nat)
    requires i < |choices| <= |s| && Keyed(s, keys) && Keyed(t, keys)
  {
    var o := JoinedBy(t, s, choices[..i]);
    Keyed(o, keys)
    && choices[i] == if s[i] in active then MoveTo(T.Place(ChildrenOf(o, keys), keys[s[i]].priority)) else Stay
  }

  lemma {:induction false} JoinedHasKeys(t: seq<Node>, s: seq<Node>, choices: seq<Choice>, keys: map<Node, T.Key>)
    requires |choices| <= |s| && Keyed(s, keys) && Keyed(t, keys)
    ensures Keyed(JoinedBy(t, s, choices), keys)
    decreases |choices|
  {
    if choices != [] {
      JoinedHasKeys(t, s, choices[..|choices| - 1], keys);
    }
  }

  /** The nodes that move, in the order of the list. */
  ghost function Movers(s: seq<Node>, active: set<Node>): seq<Node>
    decreases |s|
  {
    if s == [] then [] else Movers(s[..|s| - 1], active) + if s[|s| - 1] in active then [s[|s| - 1]] else []
  }

  /** The nodes that stay. */
  ghost function Stayers(s: seq<Node>, active: set<Node>): seq<Node>
    decreases |s|
  {
    if s == [] then [] else Stayers(s[..|s| - 1], active) + if s[|s| - 1] in active then [] else [s[|s| - 1]]
  }

  lemma ChildrenOfInserted(o: seq<Node>, k: nat, n: Node, keys: map<Node, T.Key>)
    requires k <= |o| && n in keys && Keyed(o, keys)
    ensures Keyed(Inserted(o, k, n), keys)
    ensures ChildrenOf(Inserted(o, k, n), keys) == Inserted(ChildrenOf(o, keys), k, keys[n])
  {}

  lemma {:induction false} MoversHaveKeys(s: seq<Node>, active: set<Node>, keys: map<Node, T.Key>)
    requires Keyed(s, keys)
    ensures Keyed(Movers(s, active), keys)
    decreases |s|
  {
    if s != [] {
      MoversHaveKeys(s[..|s| - 1], active, keys);
    }
  }

  lemma PriorityPrefix(s: seq<Node>, t: seq<Node>, active: set<Node>, keys: map<Node, T.Key>, choices: seq<Choice>)
    requires 0 < |choices| <= |s| && Keyed(s, keys) && Keyed(t, keys) && ByPriority(s, t, active, keys, choices)
    ensures ByPriority(s, t, active, keys, choices[..|choices| - 1])
  {
    var made := choices[..|choices| - 1];
    forall i | 0 <= i < |made|
      ensures ChoiceAt(s, t, active, keys, made, i)
    {
      assert ChoiceAt(s, t, active, keys, choices, i) && made[..i] == choices[..i];
    }
  }

  lemma {:induction false} NotActiveStay(s: seq<Node>, t: seq<Node>, active: set<Node>, keys: map<Node, T.Key>,
                                         choices: seq<Choice>)
    requires |choices| <= |s| && Keyed(s, keys) && Keyed(t, keys) && ByPriority(s, t, active, keys, choices)
    ensures StayedOf(s, choices) == Stayers(s[..|choices|], active)
    decreases |choices|
  {
    if choices != [] {
      var n := |choices| - 1;
      PriorityPrefix(s, t, active, keys, choices);
      NotActiveStay(s, t, active, keys, choices[..n]);
      assert ChoiceAt(s, t, active, keys, choices, n) && s[..n + 1][..n] == s[..n];
    }
  }

  /** The queue after these nodes arrived, one after the other. */
  ghost function Enqueued(q: seq<Node>, moved: seq<Node>, keys: map<Node, T.Key>): (r: seq<Node>)
    requires Keyed(q, keys) && Keyed(moved, keys)
    ensures Keyed(r, keys)
    decreases |moved|
  {
    if moved == [] then q
    else
      var o, x := Enqueued(q, moved[..|moved| - 1], keys), moved[|moved| - 1];
      Inserted(o, T.Place(ChildrenOf(o, keys), keys[x].priority), x)
  }

  lemma EnqueuedSnoc(q: seq<Node>, moved: seq<Node>, x: Node, keys: map<Node, T.Key>)
    requires Keyed(q, keys) && Keyed(moved, keys) && x in keys
    ensures var o := Enqueued(q, moved, keys);
            Enqueued(q, moved + [x], keys) == Inserted(o, T.Place(ChildrenOf(o, keys), keys[x].priority), x)
  {
    assert (moved + [x])[..|moved|] == moved;
  }

  /** The turns of the loop make that of the queue, for the active nodes in the order of the list. */
  lemma {:induction false} MovedAre(s: seq<Node>, t: seq<Node>, active: set<Node>, keys: map<Node, T.Key>,
                                    choices: seq<Choice>)
    requires |choices| <= |s| && Keyed(s, keys) && Keyed(t, keys) && ByPriority(s, t, active, keys, choices)
    ensures Keyed(Movers(s[..|choices|], active), keys)
    ensures JoinedBy(t, s, choices) == Enqueued(t, Movers(s[..|choices|], active), keys)
    decreases |choices|
  {
    MoversHaveKeys(s[..|choices|], active, keys);
    if choices != [] {
      PriorityPrefix(s, t, active, keys, choices);
      MovedAre(s, t, active, keys, choices[..|choices| - 1]);
      assert ChoiceAt(s, t, active, keys, choices, |choices| - 1);
      OneMoved(s, t, active, keys, choices);
    }
  }

  lemma OneMoved(s: seq<Node>, t: seq<Node>, active: set<Node>, keys: map<Node, T.Key>, choices: seq<Choice>)
    requires 0 < |choices| <= |s| && Keyed(s, keys) && Keyed(t, keys)
    requires ChoiceAt(s, t, active, keys, choices, |choices| - 1)
    requires var n := |choices| - 1;
             && Keyed(Movers(s[..n], active), keys)
             && JoinedBy(t, s, choices[..n]) == Enqueued(t, Movers(s[..n], active), keys)
    ensures Keyed(Movers(s[..|choices|], active), keys)
    ensures JoinedBy(t, s, choices) == Enqueued(t, Movers(s[..|choices|], active), keys)
  {
    var n := |choices| - 1;
    MoversSnoc(s, n, active);
    if s[n] in active {
      EnqueuedSnoc(t, Movers(s[..n], active), s[n], keys);
    }
  }

  lemma MoversSnoc(s: seq<Node>, n: nat, active: set<Node>)
    requires n < |s|
    ensures var m := Movers(s[..n], active); Movers(s[..n + 1], active) == if s[n] in active then m + [s[n]] else m
  {
    assert s[..n + 1][..n] == s[..n];
  }

  /** The keys of that queue are in the order that the arrivals give. */
  lemma {:induction false} MovedInOrder(q: seq<Node>, moved: seq<Node>, keys: map<Node, T.Key>, entered: seq<T.Key>)
    requires Keyed(q, keys) && Keyed(moved, keys) && ChildrenOf(q, keys) == T.Ordered(entered)
    ensures ChildrenOf(Enqueued(q, moved, keys), keys) == T.Ordered(entered + ChildrenOf(moved, keys))
    decreases |moved|
  {
    if moved == [] {
      assert entered + ChildrenOf(moved, keys) == entered;
    } else {
      var m, x := moved[..|moved| - 1], moved[|moved| - 1];
      MovedInOrder(q, m, keys, entered);
      OneInserted(Enqueued(q, m, keys), m, x, keys, entered);
      assert m + [x] == moved;
    }
  }

  lemma OneInserted(o: seq<Node>, m: seq<Node>, x: Node, keys: map<Node, T.Key>, entered: seq<T.Key>)
    requires Keyed(o, keys) && Keyed(m, keys) && x in keys
    requires ChildrenOf(o, keys) == T.Ordered(entered + ChildrenOf(m, keys))
    ensures var r := Inserted(o, T.Place(ChildrenOf(o, keys), keys[x].priority), x);
            && Keyed(r, keys) && Keyed(m + [x], keys)
            && ChildrenOf(r, keys) == T.Ordered(entered + ChildrenOf(m + [x], keys))
  {
    ChildrenOfInserted(o, T.Place(ChildrenOf(o, keys), keys[x].priority), x, keys);
    assert entered + ChildrenOf(m + [x], keys) == entered + ChildrenOf(m, keys) + [keys[x]];
    T.OrderedSnoc(entered + ChildrenOf(m, keys), keys[x]);
  }

  /** The list and the queue in the middle of the loop of ISchedulerTaskListCompare. */
  ghost predicate Comparing(list: LinkedList, queue: LinkedList, it: Iterator, s: seq<Node>, t: seq<Node>,
                            active: set<Node>, keys: map<Node, T.Key>, choices: seq<Choice>, all: set<Node>)
    reads it, list, list.nodes, queue, queue.nodes, list.pools, list.pools.freeId, list.pools.rollover,
          queue.pools, queue.pools.freeId, queue.pools.rollover
  {
    && Keyed(s, keys) && Keyed(t, keys)
    && AtNode(list, queue, it, s, t, choices, all) && |choices| <= |s| && ByPriority(s, t, active, keys, choices)
  }

  lemma OneByPriority(s: seq<Node>, t: seq<Node>, active: set<Node>, keys: map<Node, T.Key>, choices: seq<Choice>,
                      choice: Choice)
    requires |choices| < |s| && Keyed(s, keys) && Keyed(t, keys) && ByPriority(s, t, active, keys, choices)
    requires Keyed(JoinedBy(t, s, choices), keys)
    requires var o := JoinedBy(t, s, choices);
             choice == if s[|choices|] in active then
                         MoveTo(T.Place(ChildrenOf(o, keys), keys[s[|choices|]].priority)) else Stay
    ensures ByPriority(s, t, active, keys, choices + [choice])
  {
    var next := choices + [choice];
    forall i | 0 <= i < |next|
      ensures ChoiceAt(s, t, active, keys, next, i)
    {
      if i < |choices| {
        assert ChoiceAt(s, t, active, keys, choices, i) && next[..i] == choices[..i];
      } else {
        assert next[..i] == choices;
      }
    }
  }

  /** One turn of the loop: an active task goes in front of the first of lower priority. */
  method CompareNode(list: LinkedList, queue: LinkedList, it: Iterator, active: set<Node>, keys: map<Node, T.Key>,
                     ghost s: seq<Node>, ghost t: seq<Node>, ghost choices: seq<Choice>, ghost all: set<Node>,
                     ghost visited: seq<Node>)
    returns (choice: Choice, ghost visited': seq<Node>)
    requires Comparing(list, queue, it, s, t, active, keys, choices, all) && it.current != null
    requires Visited(s, |choices|, visited)
    modifies it, list, queue, all, list.pools.freeId, list.pools.rollover
    ensures Comparing(list, queue, it, s, t, active, keys, choices + [choice], all)
    ensures visited' == visited + [old(it.current)] && Visited(s, |choices| + 1, visited')
  {
    WhereItStands(list, queue, it, s, t, choices, all);
    visited' := visited + [s[|choices|]];
    OneVisited(s, |choices|, visited);
    JoinedHasKeys(t, s, choices, keys);
    assert queue.nodes == JoinedBy(t, s, choices);
    var node: Node := it.current;
    if node in active {
      var at, k := FindLower(queue, keys[node].priority, keys);
      assert Going(list, queue, all);
      choice := MoveTo(k);
      OneByPriority(s, t, active, keys, choices, choice);
      Turn(list, queue, it, choice, at, s, t, choices, all);
    } else {
      choice := Stay;
      OneByPriority(s, t, active, keys, choices, choice);
      Turn(list, queue, it, choice, null, s, t, choices, all);
    }
  }

  /** The loop of ISchedulerTaskListCompare, with the iterator, for the tasks that are active once they are compared:
      every node is visited once, in order, the active ones leave, and the queue is what they make of it as arrivals. */
  method MoveActive(list: LinkedList, queue: LinkedList, active: set<Node>, keys: map<Node, T.Key>,
                    ghost entered: seq<T.Key>, ghost all: set<Node>)
    returns (ghost visited: seq<Node>)
    requires Going(list, queue, all) && Keyed(list.nodes, keys) && Keyed(queue.nodes, keys)
    requires ChildrenOf(queue.nodes, keys) == T.Ordered(entered)
    modifies list, queue, all, list.pools.freeId, list.pools.rollover
    ensures Going(list, queue, all) && visited == old(list.nodes)
    ensures list.nodes == Stayers(old(list.nodes), active)
    ensures Keyed(queue.nodes, keys) && Keyed(Movers(old(list.nodes), active), keys)
    ensures queue.nodes == Enqueued(old(queue.nodes), Movers(old(list.nodes), active), keys)
    ensures ChildrenOf(queue.nodes, keys) == T.Ordered(entered + ChildrenOf(Movers(old(list.nodes), active), keys))
  {
    ghost var s, t := list.nodes, queue.nodes;
    var it := new Iterator();
    var _ := it.Init(list, Forward);
    Begin(list, queue, it, all);
    ghost var choices;
    choices, visited := CompareNodes(list, queue, it, active, keys, s, t, all);
    MovedAll(list, queue, it, s, t, active, keys, choices, entered, all, visited);
  }

  method CompareNodes(list: LinkedList, queue: LinkedList, it: Iterator, active: set<Node>, keys: map<Node, T.Key>,
                      ghost s: seq<Node>, ghost t: seq<Node>, ghost all: set<Node>)
    returns (ghost choices: seq<Choice>, ghost visited: seq<Node>)
    requires Comparing(list, queue, it, s, t, active, keys, [], all)
    modifies it, list, queue, all, list.pools.freeId, list.pools.rollover
    ensures Comparing(list, queue, it, s, t, active, keys, choices, all) && it.current == null
    ensures Visited(s, |choices|, visited)
  {
    choices, visited := [], [];
    while it.current != null
      invariant Comparing(list, queue, it, s, t, active, keys, choices, all) && Visited(s, |choices|, visited)
      decreases |s| - |choices|
    {
      var choice: Choice;
      choice, visited := CompareNode(list, queue, it, active, keys, s, t, choices, all, visited);
      choices := choices + [choice];
    }
  }

  lemma MovedAll(list: LinkedList, queue: LinkedList, it: Iterator, s: seq<Node>, t: seq<Node>,
                 active: set<Node>, keys: map<Node, T.Key>, choices: seq<Choice>, entered: seq<T.Key>, all: set<Node>,
                 visited: seq<Node>)
    requires Comparing(list, queue, it, s, t, active, keys, choices, all) && Visited(s, |choices|, visited)
    requires it.current == null && ChildrenOf(t, keys) == T.Ordered(entered)
    ensures Going(list, queue, all) && visited == s && list.nodes == Stayers(s, active)
    ensures Keyed(queue.nodes, keys) && Keyed(Movers(s, active), keys)
    ensures queue.nodes == Enqueued(t, Movers(s, active), keys)
    ensures ChildrenOf(queue.nodes, keys) == T.Ordered(entered + ChildrenOf(Movers(s, active), keys))
  {
    WhereItStands(list, queue, it, s, t, choices, all);
    assert s[..|choices|] == s;
    NotActiveStay(s, t, active, keys, choices);
    MovedAre(s, t, active, keys, choices);
    MovedInOrder(t, Movers(s, active), keys, entered);
  }

  /** The first n nodes. */
  ghost predicate Visited(s: seq<Node>, n: nat, visited: seq<Node>) { n <= |s| && visited == s[..n] }

  lemma OneVisited(s: seq<Node>, n: nat, visited: seq<Node>)
    requires Visited(s, n, visited) && n < |s|
    ensures Visited(s, n + 1, visited + [s[n]])
  {}

  // ----- the events that expire -----

  /** The loop over the emitted events: every node is visited once, in order, and the expired ones are removed. */
  method DropExpired(list: LinkedList, none: LinkedList, expired: set<Node>, ghost all: set<Node>)
    returns (ghost visited: seq<Node>)
    requires Going(list, none, all)
    modifies list, none, all, list.pools.freeId, list.pools.rollover
    ensures Going(list, none, all) && visited == old(list.nodes)
    ensures list.nodes == Stayers(old(list.nodes), expired) && none.nodes == old(none.nodes)
  {
    ghost var s, t := list.nodes, none.nodes;
    var it := new Iterator();
    var _ := it.Init(list, Forward);
    Begin(list, none, it, all);
    ghost var choices;
    choices, visited := DropNodes(list, none, it, expired, s, t, all);
    DroppedAll(list, none, it, s, t, expired, choices, all, visited);
  }

  method DropNodes(list: LinkedList, none: LinkedList, it: Iterator, expired: set<Node>,
                   ghost s: seq<Node>, ghost t: seq<Node>, ghost all: set<Node>)
    returns (ghost choices: seq<Choice>, ghost visited: seq<Node>)
    requires Dropping(list, none, it, s, t, expired, [], all)
    modifies it, list, none, all, list.pools.freeId, list.pools.rollover
    ensures Dropping(list, none, it, s, t, expired, choices, all) && it.current == null
    ensures Visited(s, |choices|, visited)
  {
    choices, visited := [], [];
    while it.current != null
      invariant Dropping(list, none, it, s, t, expired, choices, all) && Visited(s, |choices|, visited)
      decreases |s| - |choices|
    {
      var choice: Choice;
      choice, visited := DropNode(list, none, it, expired, s, t, choices, all, visited);
      choices := choices + [choice];
    }
  }

  ghost predicate Dropping(list: LinkedList, none: LinkedList, it: Iterator, s: seq<Node>, t: seq<Node>,
                           expired: set<Node>, choices: seq<Choice>, all: set<Node>)
    reads it, list, list.nodes, none, none.nodes, list.pools, list.pools.freeId, list.pools.rollover,
          none.pools, none.pools.freeId, none.pools.rollover
  {
    AtNode(list, none, it, s, t, choices, all) && |choices| <= |s| && DropsOnly(s, expired, choices)
  }

  method DropNode(list: LinkedList, none: LinkedList, it: Iterator, expired: set<Node>,
                  ghost s: seq<Node>, ghost t: seq<Node>, ghost choices: seq<Choice>, ghost all: set<Node>,
                  ghost visited: seq<Node>)
    returns (choice: Choice, ghost visited': seq<Node>)
    requires Dropping(list, none, it, s, t, expired, choices, all) && it.current != null
             && Visited(s, |choices|, visited)
    modifies it, list, none, all, list.pools.freeId, list.pools.rollover
    ensures Dropping(list, none, it, s, t, expired, choices + [choice], all)
    ensures visited' == visited + [old(it.current)] && Visited(s, |choices| + 1, visited')
  {
    WhereItStands(list, none, it, s, t, choices, all);
    visited' := visited + [s[|choices|]];
    OneVisited(s, |choices|, visited);
    choice := if it.current in expired then Drop else Stay;
    Turn(list, none, it, choice, null, s, t, choices, all);
  }

  lemma DroppedAll(list: LinkedList, none: LinkedList, it: Iterator, s: seq<Node>, t: seq<Node>,
                   expired: set<Node>, choices: seq<Choice>, all: set<Node>, visited: seq<Node>)
    requires Dropping(list, none, it, s, t, expired, choices, all) && Visited(s, |choices|, visited)
             && it.current == null
    ensures Going(list, none, all) && visited == s && list.nodes == Stayers(s, expired) && none.nodes == t
  {
    WhereItStands(list, none, it, s, t, choices, all);
    assert s[..|choices|] == s;
    DropsLeave(s, t, expired, choices);
  }

  ghost predicate DropsOnly(s: seq<Node>, expired: set<Node>, choices: seq<Choice>)
    requires |choices| <= |s|
  {
    forall i :: 0 <= i < |choices| ==> choices[i] == if s[i] in expired then Drop else Stay
  }

  lemma {:induction false} DropsLeave(s: seq<Node>, t: seq<Node>, expired: set<Node>, choices: seq<Choice>)
    requires |choices| <= |s| && DropsOnly(s, expired, choices)
    ensures StayedOf(s, choices) == Stayers(s[..|choices|], expired) && JoinedBy(t, s, choices) == t
    decreases |choices|
  {
    if choices != [] {
      var n := |choices| - 1;
      DropsLeave(s, t, expired, choices[..n]);
      assert s[..n + 1][..n] == s[..n];
    }
  }
}
