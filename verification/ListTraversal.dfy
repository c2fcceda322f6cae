/** Two lists at once (source/kernel/src/List.c): moving a node, and iterating over a list while nodes leave it. */
module ListTraversal {
  import opened Base
  import opened RwLock
  import opened LinkedList
  import opened ListIterator
  import opened ListSorted

  ghost predicate Disjoint(s: seq<Node>, t: seq<Node>) {
    forall i, j :: 0 <= i < |s| && 0 <= j < |t| ==> s[i] != t[j]
  }

  /** Two lists without common nodes that take their identifiers from the same pools. */
  ghost predicate Separate(x: LinkedList, y: LinkedList)
    reads x, y
  {
    x != y && x.pools == y.pools && Disjoint(x.nodes, y.nodes)
  }

  /** The removal in ListNodeMove, as seen by the other list. */
  method TakeOut(x: LinkedList, y: LinkedList, node: Node, ghost k: nat) returns (removed: Node?)
    requires x.Valid() && y.Valid() && Separate(x, y) && k < |x.nodes| && x.nodes[k] == node
    modifies x, x.nodes`prev, x.nodes`next
    ensures x.Valid() && y.Valid() && Separate(x, y)
    ensures removed == if old(x.lock) == Free then node else null
    ensures removed == null ==> x.nodes == old(x.nodes) && x.lock == old(x.lock)
    ensures removed != null ==> x.nodes == Without(old(x.nodes), k) && x.lock == AfterVerify(Free, |x.nodes|)
                                && node !in x.nodes && node !in y.nodes
  {
    RemovedDistinct(x.nodes, k);
    removed := x.NodeRemove(node);
  }

  /** The insertion in ListNodeMove, as seen by the other list. */
  method PutIn(x: LinkedList, y: LinkedList, node: Node) returns (result: OsResult, ghost place: nat)
    requires x.Valid() && y.Valid() && Separate(x, y) && node !in x.nodes && node !in y.nodes && node.id != ID_INVALID
    modifies y`head, y`tail, y`size, y`lock, y`sorted, y`nodes, y`middle, y.nodes`prev, y.nodes`next,
             node`id, node`prev, node`next, y.pools.freeId, y.pools.rollover
    ensures x.Valid() && y.Valid() && node.id == old(node.id)
    ensures PutInResult(old(y.lock), old(y.sorted), old(y.nodes), node, result, place, y.nodes)
  {
    result, place := NodeAddSorted(y, node);
    assert x.Linked() && (x.sorted ==> Ascending(x.nodes));
  }

  /** What becomes of a list of nodes to which ListNodeAddSorted adds one that has its identifier. */
  ghost predicate PutInResult(lock: State, sorted: bool, s: seq<Node>, node: Node, result: OsResult, place: nat,
                              s': seq<Node>)
    reads s`id, node`id
  {
    if ReadLockable(lock) && |s| == SIZE_MAX then result == Fail && s' == s
    else if !sorted && s != [] && ReadLockable(lock) then
      result == Ok && s' == if lock == Free then Inserted(s, |s|, node) else s
    else
      && (result == Ok <==> lock == Free && |s| < SIZE_MAX && !Occurs(s, node.id))
      && (if result == Ok then IsPlace(s, node.id, place) && s' == Inserted(s, place, node) else s' == s)
  }

  /** ListNodeMove. A sorted or empty target takes the node at its place, another one at the end; a failed insertion
      leaves the node in neither list. */
  method NodeMove(x: LinkedList, y: LinkedList, node: Node, ghost k: nat) returns (result: OsResult, ghost place: nat)
    requires x.Valid() && y.Valid() && Separate(x, y) && k < |x.nodes| && x.nodes[k] == node && node.id != ID_INVALID
    modifies x, x.nodes`prev, x.nodes`next, node, y, y.nodes`prev, y.nodes`next, x.pools.freeId, x.pools.rollover
    ensures x.Valid() && y.Valid()
    ensures if old(x.lock) == Free
            then x.nodes == Without(old(x.nodes), k)
                 && PutInResult(old(y.lock), old(y.sorted), old(y.nodes), node, result, place, y.nodes)
            else result == Error && x.nodes == old(x.nodes) && y.nodes == old(y.nodes)
  {
    result, place := Error, 0;
    var moved := TakeOut(x, y, node, k);
    if moved != null {
      result, place := PutIn(x, y, node);
    }
  }

  // ----- iteration while nodes leave the list -----

  /** What the body of a loop does with the node it is at: nothing, remove it, or remove it and add it to another list
      in front of the k-th node there, or at the end. */
  datatype Choice = Stay | Drop | MoveTo(k: nat)

  /** Those of the nodes chosen about that stay, in order. */
  ghost function StayedOf(s: seq<Node>, choices: seq<Choice>): seq<Node>
    requires |choices| <= |s|
    decreases |choices|
  {
    if choices == [] then []
    else
      var n := |choices| - 1;
      StayedOf(s, choices[..n]) + if choices[n].Stay? then [s[n]] else []
  }

  function Clip(k: nat, n: nat): nat { if k < n then k else n }

  /** The other list t with those that moved to it. */
  ghost function JoinedBy(t: seq<Node>, s: seq<Node>, choices: seq<Choice>): seq<Node>
    requires |choices| <= |s|
    decreases |choices|
  {
    if choices == [] then t
    else
      var n := |choices| - 1;
      var o := JoinedBy(t, s, choices[..n]);
      match choices[n]
      case MoveTo(k) => Inserted(o, Clip(k, |o|), s[n])
      case _ => o
  }

  lemma OneChoice(t: seq<Node>, s: seq<Node>, choices: seq<Choice>, choice: Choice)
    requires |choices| < |s|
    ensures var n := |choices|;
            && StayedOf(s, choices + [choice]) == StayedOf(s, choices) + (if choice.Stay? then [s[n]] else [])
            && var o := JoinedBy(t, s, choices);
               JoinedBy(t, s, choices + [choice]) == if choice.MoveTo? then Inserted(o, Clip(choice.k, |o|), s[n])
                 else o
  {
    assert (choices + [choice])[..|choices|] == choices;
  }

  /** The loop of an iteration to the k-th node. */
  method Walk(list: LinkedList, it: Iterator, k: nat)
    requires list.Linked()
    requires it.direction == Forward && it.current == Nth(list.nodes, 0) && it.next == Nth(list.nodes, 1)
    modifies it`current, it`next, it`prev
    ensures it.current == Nth(list.nodes, k)
    ensures old(list.Valid()) ==> list.Valid()
  {
    var i: nat := 0;
    while i < k && it.current != null
      invariant i <= k && i <= |list.nodes|
      invariant it.direction == Forward && it.current == Nth(list.nodes, i) && it.next == Nth(list.nodes, i + 1)
    {
      var _ := it.Next();
      i := i + 1;
    }
  }

  /** The k-th node, found by an iteration, or null behind the end. */
  method WalkTo(list: LinkedList, k: nat) returns (at: Node?)
    requires list.Valid() && list.lock == Free
    modifies list`lock
    ensures list.Valid() && list.lock == Free && at == Nth(list.nodes, k)
  {
    var it := new Iterator();
    var _ := it.Init(list, Forward);
    Walk(list, it, k);
    at := it.current;
  }

  /** Adding a node that is in neither list in front of a node of the other list, or at its end. */
  method PutBefore(list: LinkedList, other: LinkedList, node: Node, at: Node?, ghost k: nat)
    requires list.Valid() && other.Valid() && Separate(list, other)
    requires node !in list.nodes && node !in other.nodes && node.id != ID_INVALID
    requires other.lock == Free && |other.nodes| < 255 && k <= |other.nodes| && at == Nth(other.nodes, k)
    modifies other`head, other`tail, other`size, other`lock, other`sorted, other`nodes, other.nodes`prev,
             other.nodes`next,
             node`id, node`prev, node`next, list.pools.freeId, list.pools.rollover
    ensures list.Valid() && other.Valid() && other.lock == Free && node.id == old(node.id)
    ensures other.nodes == Inserted(old(other.nodes), k, node)
  {
    if at == null {
      var _ := other.NodeAddAtPosition(node, Tail);
    } else {
      var _ := other.NodeAddAtNode(node, at, Before, k);
    }
    assert list.Linked() && (list.sorted ==> Ascending(list.nodes));
  }

  lemma InsertedSeparate(s: seq<Node>, t: seq<Node>, k: nat, node: Node)
    requires Disjoint(s, t) && node !in s && k <= |t|
    ensures Disjoint(s, Inserted(t, k, node))
  {}

  /** One node leaves the list for a place in the other one, given by the node there or null. */
  method Transfer(list: LinkedList, other: LinkedList, node: Node, at: Node?, ghost i: nat, ghost k: nat)
    requires list.Valid() && other.Valid() && Separate(list, other)
    requires list.lock == Free && other.lock == Free && |list.nodes| + |other.nodes| <= 255
    requires i < |list.nodes| && list.nodes[i] == node && node.id != ID_INVALID
    requires k <= |other.nodes| && at == Nth(other.nodes, k)
    modifies list, list.nodes`prev, list.nodes`next, node, other, other.nodes`prev, other.nodes`next,
             list.pools.freeId, list.pools.rollover
    ensures list.Valid() && other.Valid() && Separate(list, other) && list.lock == Free && other.lock == Free
    ensures list.nodes == Without(old(list.nodes), i) && other.nodes == Inserted(old(other.nodes), k, node)
    ensures node.id == old(node.id)
  {
    var _ := TakeOut(list, other, node, i);
    InsertedSeparate(list.nodes, other.nodes, k, node);
    PutBefore(list, other, node, at, k);
  }

  /** The state of the lists while a loop runs; their nodes all come from 'all'. */
  ghost predicate Going(list: LinkedList, other: LinkedList, all: set<Node>)
    reads list, list.nodes, other, other.nodes, list.pools, list.pools.freeId, list.pools.rollover,
          other.pools, other.pools.freeId, other.pools.rollover
  {
    && list.Valid() && other.Valid() && Separate(list, other)
    && list.lock == Free && other.lock == Free && |list.nodes| + |other.nodes| <= 255
    && (forall i :: 0 <= i < |list.nodes| ==> list.nodes[i].id != ID_INVALID)
    && (forall i :: 0 <= i < |list.nodes| ==> list.nodes[i] in all)
    && (forall i :: 0 <= i < |other.nodes| ==> other.nodes[i] in all)
  }

  /** What the lists look like after the choices made so far, for the initial lists s and t. */
  ghost predicate Settled(list: LinkedList, other: LinkedList, s: seq<Node>, t: seq<Node>, choices: seq<Choice>)
    reads list, other
  {
    && |choices| <= |s|
    && list.nodes == StayedOf(s, choices) + s[|choices|..]
    && other.nodes == JoinedBy(t, s, choices)
  }

  /** The iterator stands at the node after those chosen about. */
  ghost predicate AtNode(list: LinkedList, other: LinkedList, it: Iterator, s: seq<Node>, t: seq<Node>,
                         choices: seq<Choice>, all: set<Node>)
    reads it, list, list.nodes, other, other.nodes, list.pools, list.pools.freeId, list.pools.rollover,
          other.pools, other.pools.freeId, other.pools.rollover
  {
    && Going(list, other, all) && Settled(list, other, s, t, choices)
    && it.direction == Forward && it.current == Nth(s, |choices|) && it.next == Nth(s, |choices| + 1)
  }

  /** The sequences after one more choice. */
  ghost predicate Chosen(before: seq<Node>, joined: seq<Node>, i: nat, choice: Choice, after: seq<Node>,
                         joined': seq<Node>)
    requires i < |before|
  {
    match choice
    case Stay => after == before && joined' == joined
    case Drop => after == Without(before, i) && joined' == joined
    case MoveTo(k) => after == Without(before, i) && joined' == Inserted(joined, Clip(k, |joined|), before[i])
  }

  lemma SettledNext(list: LinkedList, other: LinkedList, s: seq<Node>, t: seq<Node>, choices: seq<Choice>,
                    choice: Choice, before: seq<Node>, joined: seq<Node>)
    requires |choices| < |s| && before == StayedOf(s, choices) + s[|choices|..] && joined == JoinedBy(t, s, choices)
    requires Chosen(before, joined, |StayedOf(s, choices)|, choice, list.nodes, other.nodes)
    ensures Settled(list, other, s, t, choices + [choice])
  {
    OneChoice(t, s, choices, choice);
    AtFront(StayedOf(s, choices), s[|choices|..]);
    assert s[|choices|..][1..] == s[|choices| + 1..];
  }

  lemma AtFront(kept: seq<Node>, rest: seq<Node>)
    requires rest != []
    ensures Without(kept + rest, |kept|) == kept + [] + rest[1..] && kept + rest == kept + [rest[0]] + rest[1..]
    ensures (kept + rest)[|kept|] == rest[0]
  {}

  /** The body at the current node. A node that moves goes in front of 'at', the k-th node of the other list. */
  method Settle(list: LinkedList, other: LinkedList, node: Node, choice: Choice, at: Node?, ghost i: nat,
                ghost all: set<Node>)
    requires Going(list, other, all) && i < |list.nodes| && list.nodes[i] == node
    requires choice.MoveTo? ==> at == Nth(other.nodes, choice.k)
    modifies list, other, all, list.pools.freeId, list.pools.rollover
    ensures Going(list, other, all)
    ensures Chosen(old(list.nodes), old(other.nodes), i, choice, list.nodes, other.nodes)
  {
    match choice
    case Stay =>
    case Drop => SettleDrop(list, other, node, i, all);
    case MoveTo(k) => SettleMove(list, other, node, at, i, Clip(k, |other.nodes|), all);
  }

  method SettleDrop(list: LinkedList, other: LinkedList, node: Node, ghost i: nat, ghost all: set<Node>)
    requires Going(list, other, all) && i < |list.nodes| && list.nodes[i] == node
    modifies list, all, list.pools.freeId, list.pools.rollover
    ensures Going(list, other, all)
    ensures list.nodes == Without(old(list.nodes), i) && other.nodes == old(other.nodes)
  {
    ghost var s := list.nodes;
    var _ := TakeOut(list, other, node, i);
    assert forall j :: 0 <= j < |list.nodes| ==> list.nodes[j] == s[if j < i then j else j + 1];
  }

  method SettleMove(list: LinkedList, other: LinkedList, node: Node, at: Node?, ghost i: nat, ghost k: nat,
                    ghost all: set<Node>)
    requires Going(list, other, all) && i < |list.nodes| && list.nodes[i] == node
    requires k <= |other.nodes| && at == Nth(other.nodes, k)
    modifies list, other, all, list.pools.freeId, list.pools.rollover
    ensures Going(list, other, all)
    ensures list.nodes == Without(old(list.nodes), i) && other.nodes == Inserted(old(other.nodes), k, node)
  {
    ghost var s, t := list.nodes, other.nodes;
    TransferNamed(list, other, node, at, i, k);
    AllFrom(s, t, i, k, all);
  }

  /** The nodes that stay keep their identifiers. */
  method TransferNamed(list: LinkedList, other: LinkedList, node: Node, at: Node?, ghost i: nat, ghost k: nat)
    requires list.Valid() && other.Valid() && Separate(list, other)
    requires list.lock == Free && other.lock == Free && |list.nodes| + |other.nodes| <= 255
    requires i < |list.nodes| && list.nodes[i] == node
    requires forall j :: 0 <= j < |list.nodes| ==> list.nodes[j].id != ID_INVALID
    requires k <= |other.nodes| && at == Nth(other.nodes, k)
    modifies list, list.nodes`prev, list.nodes`next, node, other, other.nodes`prev, other.nodes`next,
             list.pools.freeId, list.pools.rollover
    ensures list.Valid() && other.Valid() && Separate(list, other) && list.lock == Free && other.lock == Free
    ensures list.nodes == Without(old(list.nodes), i) && other.nodes == Inserted(old(other.nodes), k, node)
    ensures forall j :: 0 <= j < |list.nodes| ==> list.nodes[j].id != ID_INVALID
  {
    ghost var s := list.nodes;
    Transfer(list, other, node, at, i, k);
    assert forall j :: 0 <= j < |list.nodes| ==> list.nodes[j] == s[if j < i then j else j + 1];
  }

  lemma AllFrom(s: seq<Node>, t: seq<Node>, i: nat, k: nat, all: set<Node>)
    requires i < |s| && k <= |t|
    requires (forall j :: 0 <= j < |s| ==> s[j] in all) && forall j :: 0 <= j < |t| ==> t[j] in all
    ensures forall j :: 0 <= j < |Without(s, i)| ==> Without(s, i)[j] in all
    ensures forall j :: 0 <= j < |Inserted(t, k, s[i])| ==> Inserted(t, k, s[i])[j] in all
  {}

  /** One turn: the body, and the step of the iterator. The node it goes to was fixed before the body ran, and is still
      in the list. */
  method Turn(list: LinkedList, other: LinkedList, it: Iterator, choice: Choice, at: Node?,
              ghost s: seq<Node>, ghost t: seq<Node>, ghost choices: seq<Choice>, ghost all: set<Node>)
    requires AtNode(list, other, it, s, t, choices, all) && it.current != null
    requires choice.MoveTo? ==> at == Nth(other.nodes, choice.k)
    modifies it, list, other, all, list.pools.freeId, list.pools.rollover
    ensures AtNode(list, other, it, s, t, choices + [choice], all)
  {
    ghost var before, joined, i := list.nodes, other.nodes, |StayedOf(s, choices)|;
    assert before[i] == s[|choices|];
    Settle(list, other, it.current, choice, at, i, all);
    SettledNext(list, other, s, t, choices, choice, before, joined);
    StepAfter(list, other, it, s, t, choices + [choice]);
  }

  method StepAfter(list: LinkedList, other: LinkedList, it: Iterator, ghost s: seq<Node>, ghost t: seq<Node>,
                   ghost choices: seq<Choice>)
    requires list.Linked() && choices != [] && Settled(list, other, s, t, choices)
    requires it.direction == Forward && it.current == s[|choices| - 1] && it.next == Nth(s, |choices|)
    modifies it`current, it`next, it`prev
    ensures it.direction == Forward && it.current == Nth(s, |choices|) && it.next == Nth(s, |choices| + 1)
  {
    ghost var n, i := |choices|, |StayedOf(s, choices)|;
    assert n < |s| ==> list.nodes[i] == s[n] && Nth(list.nodes, i + 1) == Nth(s, n + 1);
    var _ := it.Next();
  }

  lemma Begin(list: LinkedList, other: LinkedList, it: Iterator, all: set<Node>)
    requires Going(list, other, all)
    requires it.direction == Forward && it.current == Nth(list.nodes, 0) && it.next == Nth(list.nodes, 1)
    ensures AtNode(list, other, it, list.nodes, other.nodes, [], all)
  {
    assert list.nodes[0..] == list.nodes;
  }

  lemma WhereItStands(list: LinkedList, other: LinkedList, it: Iterator, s: seq<Node>, t: seq<Node>,
                      choices: seq<Choice>, all: set<Node>)
    requires AtNode(list, other, it, s, t, choices, all)
    ensures |choices| <= |s| && (it.current == null <==> |choices| == |s|)
    ensures it.current != null ==> it.current == s[|choices|]
    ensures it.current == null ==> Going(list, other, all) && list.nodes == StayedOf(s, choices)
                                   && other.nodes == JoinedBy(t, s, choices)
  {
    assert s[|s|..] == [];
  }

  /** One turn, for a place given by its number. */
  method TurnTo(list: LinkedList, other: LinkedList, it: Iterator, choice: Choice,
                ghost s: seq<Node>, ghost t: seq<Node>, ghost choices: seq<Choice>, ghost all: set<Node>)
    requires AtNode(list, other, it, s, t, choices, all) && it.current != null
    modifies it, list, other, all, list.pools.freeId, list.pools.rollover
    ensures AtNode(list, other, it, s, t, choices + [choice], all)
  {
    var at: Node? := null;
    if choice.MoveTo? {
      at := WalkTo(other, choice.k);
      assert Going(list, other, all);
    }
    Turn(list, other, it, choice, at, s, t, choices, all);
  }

  method VisitNode(list: LinkedList, other: LinkedList, it: Iterator, choices: seq<Choice>, n: nat,
                   ghost s: seq<Node>, ghost t: seq<Node>, ghost made: seq<Choice>, ghost visited: seq<Node>,
                   ghost all: set<Node>)
    returns (ghost made': seq<Choice>, ghost visited': seq<Node>)
    requires AtNode(list, other, it, s, t, made, all) && it.current != null
    requires Made(choices, made, s, visited) && n == |made| < |s|
    modifies it, list, other, all, list.pools.freeId, list.pools.rollover
    ensures |made'| == n + 1 && Made(choices, made', s, visited') && visited' == visited + [old(it.current)]
    ensures AtNode(list, other, it, s, t, made', all) && (it.current == null <==> |made'| == |s|)
  {
    WhereItStands(list, other, it, s, t, made, all);
    OneMade(choices, made, s, visited);
    made', visited' := made + [choices[n]], visited + [s[n]];
    TurnTo(list, other, it, choices[n], s, t, made, all);
    WhereItStands(list, other, it, s, t, made', all);
  }

  /** A forward iteration during which each node stays, is removed, or moves anywhere into another list. Every node of
      the initial sequence is visited once, in order, and what is left of both lists is what was chosen. */
  method VisitAll(list: LinkedList, other: LinkedList, choices: seq<Choice>, ghost all: set<Node>)
    returns (ghost visited: seq<Node>)
    requires Going(list, other, all) && |list.nodes| == |choices|
    modifies list, other, all, list.pools.freeId, list.pools.rollover
    ensures Going(list, other, all)
    ensures visited == old(list.nodes)
    ensures list.nodes == StayedOf(old(list.nodes), choices)
    ensures other.nodes == JoinedBy(old(other.nodes), old(list.nodes), choices)
  {
    ghost var s, t := list.nodes, other.nodes;
    var it := new Iterator();
    var _ := it.Init(list, Forward);
    Begin(list, other, it, all);
    ghost var made;
    made, visited := VisitNodes(list, other, it, choices, s, t, all);
    WhereItStands(list, other, it, s, t, made, all);
    AllMade(choices, made, s, visited);
  }

  method VisitNodes(list: LinkedList, other: LinkedList, it: Iterator, choices: seq<Choice>,
                    ghost s: seq<Node>, ghost t: seq<Node>, ghost all: set<Node>)
    returns (ghost made: seq<Choice>, ghost visited: seq<Node>)
    requires AtNode(list, other, it, s, t, [], all) && |s| == |choices|
    modifies it, list, other, all, list.pools.freeId, list.pools.rollover
    ensures Made(choices, made, s, visited) && AtNode(list, other, it, s, t, made, all) && it.current == null
  {
    WhereItStands(list, other, it, s, t, [], all);
    made, visited := [], [];
    var n: nat := 0;
    while it.current != null
      invariant n == |made|
      invariant Made(choices, made, s, visited) && AtNode(list, other, it, s, t, made, all)
      invariant it.current == null <==> |made| == |s|
      decreases |s| - |made|
    {
      made, visited := VisitNode(list, other, it, choices, n, s, t, made, visited, all);
      n := n + 1;
    }
  }

  /** The choices made so far, and the nodes visited. */
  ghost predicate Made(choices: seq<Choice>, made: seq<Choice>, s: seq<Node>, visited: seq<Node>) {
    |made| <= |choices| && |choices| == |s| && made == choices[..|made|] && visited == s[..|made|]
  }

  lemma OneMade(choices: seq<Choice>, made: seq<Choice>, s: seq<Node>, visited: seq<Node>)
    requires Made(choices, made, s, visited) && |made| < |s|
    ensures Made(choices, made + [choices[|made|]], s, visited + [s[|made|]])
  {}

  lemma AllMade(choices: seq<Choice>, made: seq<Choice>, s: seq<Node>, visited: seq<Node>)
    requires Made(choices, made, s, visited) && |made| == |s|
    ensures made == choices && visited == s
  {}
}
