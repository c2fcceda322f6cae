/** Sorted insertion and moving of nodes (source/kernel/src/List.c). */
module ListSorted {
  import opened Base
  import opened RwLock
  import opened IdType
  import opened LinkedList
  import opened ListIterator

  /** Position p splits the nodes into smaller and larger identifiers; there is none if the identifier occurs. */
  ghost predicate IsPlace(s: seq<Node>, id: U32, p: nat)
    reads s`id
  {
    && p <= |s|
    && (forall m :: 0 <= m < p ==> s[m].id < id)
    && (forall m :: p <= m < |s| ==> id < s[m].id)
  }

  ghost predicate Occurs(s: seq<Node>, id: U32)
    reads s`id
  {
    exists m :: 0 <= m < |s| && s[m].id == id
  }

  lemma InsertedAscending(s: seq<Node>, y: Node, p: nat)
    requires Ascending(s) && IsPlace(s, y.id, p)
    ensures Ascending(Inserted(s, p, y))
  {}

  /** An identifier has a place in an ascending list exactly if it does not occur, and only one. */
  lemma PlaceIff(s: seq<Node>, id: U32)
    requires Ascending(s)
    ensures (exists p: nat :: IsPlace(s, id, p)) <==> !Occurs(s, id)
    ensures forall p, q :: IsPlace(s, id, p) && IsPlace(s, id, q) ==> p == q
  {
    if !Occurs(s, id) {
      var p := PlaceIn(s, id);
      assert IsPlace(s, id, p);
    }
    forall p: nat | IsPlace(s, id, p)
      ensures !Occurs(s, id)
    {
      NoPlaceIfTaken(s, id, p);
    }
    forall p, q | IsPlace(s, id, p) && IsPlace(s, id, q)
      ensures p == q
    {
      OnlyPlace(s, id, p, q);
    }
  }

  lemma OnlyPlace(s: seq<Node>, id: U32, p: nat, q: nat)
    requires IsPlace(s, id, p) && IsPlace(s, id, q)
    ensures p == q
  {
    if p < |s| {
      assert id < s[p].id;
    }
    if q < |s| {
      assert id < s[q].id;
    }
  }

  lemma {:induction false} PlaceIn(s: seq<Node>, id: U32) returns (p: nat)
    requires Ascending(s) && !Occurs(s, id)
    ensures IsPlace(s, id, p)
    decreases |s|
  {
    if s == [] {
      p := 0;
    } else {
      var n := |s| - 1;
      p := PlaceIn(s[..n], id);
      if s[n].id < id {
        p := |s|;
      }
      forall m | 0 <= m < n
        ensures if m < p then s[m].id < id else id < s[m].id
      {
        assert s[m] == s[..n][m];
      }
    }
  }

  lemma NoPlaceIfTaken(s: seq<Node>, id: U32, p: nat)
    ensures IsPlace(s, id, p) ==> !Occurs(s, id)
  {}

  /** A new node with the identifier goes to the given side of 'at', to the given place; null tells that the node there
      has the identifier. */
  ghost predicate Slot(s: seq<Node>, id: U32, at: Node?, side: Side, place: nat)
    reads s`id
  {
    if at == null then place < |s| && s[place].id == id
    else IsPlace(s, id, place)
         && if side == Before then place < |s| && s[place] == at else place > 0 && s[place - 1] == at
  }

  /** The iteration of ListNodeAddSorted over a sorted list that is not empty: where the source calls ListNodeAddAtNode
      and leaves the loop, or finds the identifier taken. */
  method FindSlot(list: LinkedList, it: Iterator, id: U32) returns (at: Node?, side: Side, ghost place: nat)
    requires list.Linked() && list.nodes != [] && Ascending(list.nodes)
    requires it.direction == Forward && it.current == list.nodes[0] && it.next == Nth(list.nodes, 1)
    modifies it`current, it`next, it`prev
    ensures Slot(list.nodes, id, at, side, place)
  {
    ghost var k := 0;
    while true
      invariant 0 <= k < |list.nodes| && it.direction == Forward
      invariant it.current == list.nodes[k] && it.next == Nth(list.nodes, k + 1)
      invariant forall m :: 0 <= m < k ==> list.nodes[m].id < id
      invariant k > 0 ==> list.nodes[k].id <= id
      decreases |list.nodes| - k
    {
      if id > it.current.id {
        if it.next != null {
          if id < it.next.id {
            return it.current, After, k + 1;
          }
        } else {
          return it.current, After, k + 1;
        }
      } else if id < it.current.id {
        return it.current, Before, 0;
      } else {
        return null, Before, k;
      }
      k := k + 1;
      var _ := it.Next();
    }
  }

  ghost predicate SlotOrNull(s: seq<Node>, id: U32, at: Node?, side: Side, place: nat)
    reads s`id
  {
    if s == [] then at == null else Slot(s, id, at, side, place)
  }

  /** The same for any list: 'at' is null for an empty list and for an identifier that is taken. */
  method SlotFrom(list: LinkedList, it: Iterator, id: U32) returns (at: Node?, side: Side, ghost place: nat)
    requires list.Linked() && Ascending(list.nodes)
    requires it.direction == Forward && it.current == Nth(list.nodes, 0) && it.next == Nth(list.nodes, 1)
    modifies it`current, it`next, it`prev
    ensures SlotOrNull(list.nodes, id, at, side, place) && (old(list.Valid()) ==> list.Valid())
  {
    if it.current == null {
      return null, Before, 0;
    }
    at, side, place := FindSlot(list, it, id);
  }

  /** The iteration, with its start. */
  method Locate(list: LinkedList, id: U32) returns (started: bool, at: Node?, side: Side, ghost place: nat)
    requires list.Valid() && (ReadLockable(list.lock) ==> Ascending(list.nodes))
    modifies list`lock
    ensures list.Valid() && list.lock == old(list.lock)
    ensures started <==> ReadLockable(list.lock)
    ensures if started then SlotOrNull(list.nodes, id, at, side, place) else at == null
  {
    var it := new Iterator();
    var result := it.Init(list, Forward);
    if result != Ok {
      return false, null, Before, 0;
    }
    started := true;
    at, side, place := SlotFrom(list, it, id);
  }

  ghost function IdsOf(s: seq<Node>): (ids: seq<U32>)
    reads s`id
    ensures |ids| == |s| && forall i :: 0 <= i < |s| ==> ids[i] == s[i].id
    decreases |s|
  {
    if s == [] then [] else IdsOf(s[..|s| - 1]) + [s[|s| - 1].id]
  }

  ghost predicate PlaceAmong(ids: seq<U32>, id: U32, place: nat) {
    && place <= |ids| && (forall i, j :: 0 <= i < j < |ids| ==> ids[i] < ids[j])
    && (forall m :: 0 <= m < place ==> ids[m] < id) && (forall m :: place <= m < |ids| ==> id < ids[m])
  }

  lemma PlaceByIds(s: seq<Node>, ids: seq<U32>, node: Node, place: nat)
    requires IdsOf(s) == ids && PlaceAmong(ids, node.id, place)
    ensures Ascending(s) && IsPlace(s, node.id, place) && Ascending(Inserted(s, place, node))
  {
    InsertedAscending(s, node, place);
  }

  /** ListNodeAddAtNode changes the identifier of no node in the list. */
  method AddBeside(list: LinkedList, node: Node, at: Node, side: Side, ghost k: nat) returns (result: OsResult)
    requires list.Valid() && |list.nodes| < SIZE_MAX && node !in list.nodes && node.id != ID_INVALID
    requires k < |list.nodes| && list.nodes[k] == at
    modifies list`head, list`tail, list`size, list`lock, list`sorted, list`nodes, list`middle,
             list.nodes`prev, list.nodes`next, node`id, node`prev, node`next, list.pools.freeId, list.pools.rollover
    ensures list.Valid() && node.id == old(node.id) && IdsOf(old(list.nodes)) == old(IdsOf(list.nodes))
    ensures result == if old(list.lock) == Free then Ok else Error
    ensures result != Ok ==> list.nodes == old(list.nodes) && list.lock == old(list.lock)
                             && list.sorted == old(list.sorted)
    ensures result == Ok ==> list.nodes == Inserted(old(list.nodes), if side == Before then k else k + 1, node)
                             && list.lock == AfterVerify(Free, |list.nodes|)
  {
    result := list.NodeAddAtNode(node, at, side, k);
  }

  method InsertBeside(list: LinkedList, node: Node, at: Node, side: Side, ghost place: nat) returns (result: OsResult)
    requires list.Valid() && Ascending(list.nodes) && |list.nodes| < SIZE_MAX
    requires node !in list.nodes && node.id != ID_INVALID && IsPlace(list.nodes, node.id, place)
    requires side == Before ==> place < |list.nodes| && list.nodes[place] == at
    requires side == After ==> place > 0 && list.nodes[place - 1] == at
    modifies list`head, list`tail, list`size, list`lock, list`sorted, list`nodes, list`middle,
             list.nodes`prev, list.nodes`next, node`id, node`prev, node`next, list.pools.freeId, list.pools.rollover
    ensures list.Valid() && node.id == old(node.id)
    ensures result == if old(list.lock) == Free then Ok else Error
    ensures IsPlace(old(list.nodes), node.id, place)
    ensures result != Ok ==> list.nodes == old(list.nodes) && list.lock == old(list.lock)
                             && list.sorted == old(list.sorted)
    ensures result == Ok ==> list.nodes == Inserted(old(list.nodes), place, node) && Ascending(list.nodes)
                             && list.lock == AfterVerify(Free, |list.nodes|)
  {
    ghost var s, ids := list.nodes, IdsOf(list.nodes);
    result := AddBeside(list, node, at, side, if side == Before then place else place - 1);
    PlaceByIds(s, ids, node, place);
  }

  method InsertOnly(list: LinkedList, node: Node) returns (result: OsResult)
    requires list.Valid() && list.nodes == [] && node.id != ID_INVALID
    modifies list`head, list`tail, list`size, list`lock, list`sorted, list`nodes, list`middle, node`id, node`prev,
             node`next,
             list.pools.freeId, list.pools.rollover
    ensures list.Valid() && node.id == old(node.id)
    ensures result == if old(list.lock) == Free then Ok else OsResult.Locked
    ensures list.lock == old(list.lock)
    ensures list.nodes == if result == Ok then [node] else []
    ensures result != Ok ==> list.sorted == old(list.sorted)
  {
    result := list.NodeAddAtPosition(node, Head);
    if result == Ok {
      list.middle := node;
    }
  }

  /** ListNodeAddSorted once the node has its identifier, for a list that is sorted or empty. */
  method InsertInOrder(list: LinkedList, node: Node) returns (result: OsResult, ghost place: nat)
    requires list.Valid() && (ReadLockable(list.lock) ==> Ascending(list.nodes) && |list.nodes| < SIZE_MAX)
    requires node !in list.nodes && node.id != ID_INVALID
    modifies list`head, list`tail, list`size, list`lock, list`sorted, list`nodes, list`middle,
             list.nodes`prev, list.nodes`next, node`id, node`prev, node`next, list.pools.freeId, list.pools.rollover
    ensures list.Valid() && node.id == old(node.id)
    ensures old(list.lock) != Free ==> result != Ok
    ensures old(list.lock) == Free && result != Ok ==>
              place < |list.nodes| && list.nodes[place].id == node.id
    ensures result != Ok ==> list.nodes == old(list.nodes) && list.lock == old(list.lock)
                             && list.sorted == old(list.sorted)
    ensures result == Ok ==> IsPlace(old(list.nodes), node.id, place)
                             && list.nodes == Inserted(old(list.nodes), place, node) && Ascending(list.nodes)
                             && list.lock == AfterVerify(Free, |list.nodes|)
  {
    var started, at, side;
    started, at, side, place := Locate(list, node.id);
    if !started {
      return OsResult.Locked, 0;
    }
    if at != null {
      result := InsertBeside(list, node, at, side, place);
    } else if list.size == 0 {
      place := 0;
      result := InsertOnly(list, node);
    } else {
      result := Error;
    }
  }

  /** The hint is moved one node towards the insertion when the new size is odd. */
  method MoveMiddle(list: LinkedList, node: Node)
    requires list.Valid()
    modifies list`middle, list`lock
    ensures list.Valid() && list.lock == old(list.lock)
  {
    if list.middle != null {
      var n := list.SizeGet();
      if node.id > list.middle.id && n % 2 == 1 {
        list.middle := list.middle.next;
      } else if node.id < list.middle.id && n % 2 == 1 {
        list.middle := list.middle.prev;
      }
    }
  }

  method MarkSorted(list: LinkedList, node: Node)
    requires list.Valid() && Ascending(list.nodes)
    modifies list`middle, list`lock, list`sorted
    ensures list.Valid() && list.lock == old(list.lock) && list.sorted
  {
    MoveMiddle(list, node);
    list.sorted := true;
  }

  /** Whether ListNodeAddSorted gives up on order: the list is readable, not empty and not marked sorted. */
  ghost predicate AddsAtTail(list: LinkedList)
    reads list
  {
    !list.sorted && list.nodes != [] && ReadLockable(list.lock)
  }

  /** The insertion, after which the list counts as sorted. */
  method InsertAndMark(list: LinkedList, node: Node) returns (result: OsResult, ghost place: nat)
    requires list.Valid() && (ReadLockable(list.lock) ==> Ascending(list.nodes) && |list.nodes| < SIZE_MAX)
    requires node !in list.nodes && node.id != ID_INVALID
    modifies list`head, list`tail, list`size, list`lock, list`sorted, list`nodes, list`middle,
             list.nodes`prev, list.nodes`next, node`id, node`prev, node`next, list.pools.freeId, list.pools.rollover
    ensures list.Valid() && node.id == old(node.id)
    ensures old(list.lock) != Free ==> result != Ok
    ensures old(list.lock) == Free && result != Ok ==> Occurs(old(list.nodes), node.id)
    ensures result != Ok ==> list.nodes == old(list.nodes) && list.lock == old(list.lock)
                             && list.sorted == old(list.sorted)
    ensures result == Ok ==> list.sorted && IsPlace(old(list.nodes), node.id, place)
                             && list.nodes == Inserted(old(list.nodes), place, node)
                             && list.lock == AfterVerify(Free, |list.nodes|)
  {
    ghost var s, id := list.nodes, node.id;
    result, place := InsertInOrder(list, node);
    if result == Ok {
      MarkSorted(list, node);
      assert IsPlace(s, id, place);
    }
  }

  /** ListNodeAddSorted from the request for an identifier on. */
  method AddInOrder(list: LinkedList, node: Node) returns (result: OsResult, ghost place: nat)
    requires list.Valid() && (ReadLockable(list.lock) ==> Ascending(list.nodes) && |list.nodes| < SIZE_MAX)
    requires node !in list.nodes
    modifies list`head, list`tail, list`size, list`lock, list`sorted, list`nodes, list`middle,
             list.nodes`prev, list.nodes`next, node`id, node`prev, node`next, list.pools.freeId, list.pools.rollover
    ensures list.Valid()
    ensures old(node.id) != ID_INVALID ==> node.id == old(node.id)
    ensures result == Ok <==>
              old(list.lock) == Free && node.id != ID_INVALID && !Occurs(old(list.nodes), node.id)
    ensures result != Ok ==> list.nodes == old(list.nodes) && list.lock == old(list.lock)
                             && list.sorted == old(list.sorted)
    ensures result == Ok ==> list.sorted && IsPlace(old(list.nodes), node.id, place)
                             && list.nodes == Inserted(old(list.nodes), place, node)
                             && list.lock == AfterVerify(Free, |list.nodes|)
  {
    list.AcquireId(node);
    if node.id == ID_INVALID {
      return InvalidId, 0;
    }
    ghost var s, id := list.nodes, node.id;
    result, place := InsertAndMark(list, node);
    NoPlaceIfTaken(s, id, place);
  }

  /** ListNodeAddSorted. On a list that is readable, not empty and not marked sorted the answer is Ok whatever becomes
      of the node; otherwise it is Ok exactly when the node was put at its place. */
  method NodeAddSorted(list: LinkedList, node: Node) returns (result: OsResult, ghost place: nat)
    requires list.Valid() && node !in list.nodes
    modifies list`head, list`tail, list`size, list`lock, list`sorted, list`nodes, list`middle,
             list.nodes`prev, list.nodes`next, node`id, node`prev, node`next, list.pools.freeId, list.pools.rollover
    ensures list.Valid()
    ensures old(node.id) != ID_INVALID ==> node.id == old(node.id)
    ensures ReadLockable(old(list.lock)) && |old(list.nodes)| == SIZE_MAX ==> result == Fail
    ensures result == Fail ==> list.nodes == old(list.nodes) && list.lock == old(list.lock)
    ensures old(AddsAtTail(list)) && |old(list.nodes)| < SIZE_MAX ==>
              && result == Ok && !list.sorted && list.lock == AfterVerify(old(list.lock), |list.nodes|)
              && list.nodes == if old(list.lock) == Free && node.id != ID_INVALID
                               then Inserted(old(list.nodes), |old(list.nodes)|, node) else old(list.nodes)
    ensures !old(AddsAtTail(list)) ==>
              && (result == Ok <==> old(list.lock) == Free && |old(list.nodes)| < SIZE_MAX
                                    && node.id != ID_INVALID && !Occurs(old(list.nodes), node.id))
              && (result != Ok ==> list.nodes == old(list.nodes) && list.lock == old(list.lock)
                                   && list.sorted == old(list.sorted))
              && (result == Ok ==> list.sorted && IsPlace(old(list.nodes), node.id, place)
                                   && list.nodes == Inserted(old(list.nodes), place, node)
                                   && list.lock == AfterVerify(Free, |list.nodes|))
  {
    place := 0;
    var n := list.SizeGet();
    if n == SIZE_MAX {
      return Fail, 0;
    }
    n := list.SizeGet();
    if !list.sorted && n != 0 {
      var _ := list.NodeAddAtPosition(node, Tail);
      return Ok, 0;
    }
    result, place := AddInOrder(list, node);
  }
}
