/** The intrusive doubly linked list of source/kernel/src/List.c. The ghost field 'nodes' is the sequence the pointers
    represent; every operation is specified by what it does to that sequence. */
module LinkedList {
  import opened Base
  import opened RwLock
  import opened IdType

  const SIZE_MAX := 0xFFFF

  class Node {
    var id: U32
    var next: Node?
    var prev: Node?

    /** ListNodeInit. */
    constructor ()
      ensures id == ID_INVALID && next == null && prev == null
    {
      id, next, prev := ID_INVALID, null, null;
    }
  }

  datatype Position = Head | Tail
  datatype Side = Before | After
  datatype Integrity = Intact | NoElements | IsLocked | CorruptNavFw | CorruptNavBw | CorruptNavBoth | CorruptHead
                     | CorruptTail

  // ----- sequences of nodes -----

  ghost predicate Distinct(s: seq<Node>) { forall i, j :: 0 <= i < j < |s| ==> s[i] != s[j] }

  /** Following next from the head and prev from the tail passes exactly these nodes. */
  ghost predicate Chain(s: seq<Node>)
    reads s`next, s`prev
  {
    && (forall i {:trigger s[i].next} :: 0 <= i < |s| - 1 ==> s[i].next == s[i + 1])
    && (forall i {:trigger s[i].prev} :: 0 < i < |s| ==> s[i].prev == s[i - 1])
    && (s != [] ==> s[0].prev == null && s[|s| - 1].next == null)
  }

  ghost predicate Ascending(s: seq<Node>)
    reads s`id
  {
    forall i, j :: 0 <= i < j < |s| ==> s[i].id < s[j].id
  }

  // ----- following links -----

  ghost function NodeSet(s: seq<Node>): set<Node> { set n | n in s }

  /** Links lead from these nodes to these nodes only. */
  ghost predicate Closed(all: set<Node>)
    reads all`next, all`prev
  {
    && (forall n {:trigger n.next} :: n in all && n.next != null ==> n.next in all)
    && (forall n {:trigger n.prev} :: n in all && n.prev != null ==> n.prev in all)
  }

  /** The node k steps of next away. */
  ghost function Ahead(n: Node?, k: nat, all: set<Node>): (m: Node?)
    requires Closed(all) && (n != null ==> n in all)
    reads all`next, all`prev
    ensures m != null ==> m in all
  {
    if k == 0 || n == null then n else Ahead(n.next, k - 1, all)
  }

  /** The node k steps of prev away. */
  ghost function Behind(n: Node?, k: nat, all: set<Node>): (m: Node?)
    requires Closed(all) && (n != null ==> n in all)
    reads all`next, all`prev
    ensures m != null ==> m in all
  {
    if k == 0 || n == null then n else Behind(n.prev, k - 1, all)
  }

  lemma {:induction false} AheadNext(n: Node?, k: nat, all: set<Node>)
    requires Closed(all) && (n != null ==> n in all)
    ensures var m := Ahead(n, k, all); Ahead(n, k + 1, all) == if m == null then null else m.next
    decreases k
  {
    if k > 0 && n != null {
      AheadNext(n.next, k - 1, all);
    }
  }

  lemma {:induction false} AheadEnded(n: Node?, k: nat, j: nat, all: set<Node>)
    requires Closed(all) && (n != null ==> n in all) && Ahead(n, k, all) == null && k <= j
    ensures Ahead(n, j, all) == null
    decreases j
  {
    if k < j {
      AheadEnded(n, k, j - 1, all);
      AheadNext(n, j - 1, all);
    }
  }

  lemma {:induction false} BehindNext(n: Node?, k: nat, all: set<Node>)
    requires Closed(all) && (n != null ==> n in all)
    ensures var m := Behind(n, k, all); Behind(n, k + 1, all) == if m == null then null else m.prev
    decreases k
  {
    if k > 0 && n != null {
      BehindNext(n.prev, k - 1, all);
    }
  }

  lemma {:induction false} BehindEnded(n: Node?, k: nat, j: nat, all: set<Node>)
    requires Closed(all) && (n != null ==> n in all) && Behind(n, k, all) == null && k <= j
    ensures Behind(n, j, all) == null
    decreases j
  {
    if k < j {
      BehindEnded(n, k, j - 1, all);
      BehindNext(n, j - 1, all);
    }
  }

  /** These nodes all lead on to one another, with next. */
  ghost predicate LeadAhead(s: seq<Node>, all: set<Node>)
    reads s`next
  {
    forall n {:trigger n.next} :: n in s ==> n in all && n.next != null && n.next in s
  }

  ghost predicate LeadBack(s: seq<Node>, all: set<Node>)
    reads s`prev
  {
    forall n {:trigger n.prev} :: n in s ==> n in all && n.prev != null && n.prev in s
  }

  /** Among such nodes there is no end. */
  lemma {:induction false} AheadForEver(n: Node?, k: nat, all: set<Node>, s: seq<Node>)
    requires Closed(all) && n != null && n in s && n in all && LeadAhead(s, all)
    ensures Ahead(n, k, all) != null
    decreases k
  {
    if k > 0 {
      AheadForEver(n.next, k - 1, all, s);
    }
  }

  lemma {:induction false} BehindForEver(n: Node?, k: nat, all: set<Node>, s: seq<Node>)
    requires Closed(all) && n != null && n in s && n in all && LeadBack(s, all)
    ensures Behind(n, k, all) != null
    decreases k
  {
    if k > 0 {
      BehindForEver(n.prev, k - 1, all, s);
    }
  }

  lemma ChainClosed(s: seq<Node>)
    requires Chain(s)
    ensures Closed(NodeSet(s))
  {
    forall n | n in NodeSet(s)
      ensures (n.next != null ==> n.next in NodeSet(s)) && (n.prev != null ==> n.prev in NodeSet(s))
    {
      var i :| 0 <= i < |s| && s[i] == n;
      assert i < |s| - 1 ==> s[i].next == s[i + 1];
      assert i > 0 ==> s[i].prev == s[i - 1];
    }
  }

  lemma {:induction false} ChainAhead(s: seq<Node>, i: nat, k: nat)
    requires Chain(s) && Closed(NodeSet(s)) && i + k < |s|
    ensures Ahead(s[i], k, NodeSet(s)) == s[i + k]
    decreases k
  {
    if k > 0 {
      assert s[i].next == s[i + 1];
      ChainAhead(s, i + 1, k - 1);
    }
  }

  lemma {:induction false} ChainBehind(s: seq<Node>, i: nat, k: nat)
    requires Chain(s) && Closed(NodeSet(s)) && k <= i < |s|
    ensures Behind(s[i], k, NodeSet(s)) == s[i - k]
    decreases k
  {
    if k > 0 {
      assert s[i].prev == s[i - 1];
      ChainBehind(s, i - 1, k - 1);
    }
  }

  lemma InsertedDistinct(s: seq<Node>, k: nat, y: Node)
    requires Distinct(s) && y !in s && k <= |s|
    ensures Distinct(Inserted(s, k, y))
    ensures forall i :: 0 <= i < k ==> Inserted(s, k, y)[i] == s[i]
    ensures forall i :: k < i <= |s| ==> Inserted(s, k, y)[i] == s[i - 1]
  {}

  lemma RemovedDistinct(s: seq<Node>, k: nat)
    requires Distinct(s) && k < |s|
    ensures Distinct(Without(s, k)) && s[k] !in Without(s, k)
    ensures forall i :: 0 <= i < k ==> Without(s, k)[i] == s[i]
    ensures forall i :: k <= i < |s| - 1 ==> Without(s, k)[i] == s[i + 1]
  {}

  lemma ExchangedDistinct(s: seq<Node>, i: nat, j: nat)
    requires Distinct(s) && i < |s| && j < |s|
    ensures Distinct(Exchanged(s, i, j))
  {}

  lemma AscendingWithout(s: seq<Node>, k: nat)
    requires k < |s|
    ensures Ascending(s) ==> Ascending(Without(s, k))
  {}

  /** ListIntegrityVerify leaves a list of more than 255 nodes read-locked: it counts nodes in a U8_t. */
  function AfterVerify(lock: State, n: nat): State { if lock == Free && n > 255 then Readers(1) else lock }

  predicate ReadLockable(lock: State) { lock == Free || (lock.Readers? && lock.n < READ_COUNT_MAX) }

  /** States that a lock byte encodes. */
  predicate WellFormed(lock: State) { lock.Readers? ==> 1 <= lock.n <= READ_COUNT_MAX }

  class LinkedList {
    var head: Node?
    var tail: Node?
    var middle: Node?
    var size: U16
    var lock: State    // the lock byte, through the states it encodes (RwLock.LockRefines)
    var sorted: bool
    const idGroup: U8
    const pools: IdPools
    ghost var nodes: seq<Node>

    /** Head, tail, size and links represent the sequence. */
    ghost predicate Represents(s: seq<Node>)
      reads `head, `tail, `size, s`next, s`prev
    {
      && size == |s|
      && Distinct(s)
      && head == (if s == [] then null else s[0])
      && tail == (if s == [] then null else s[|s| - 1])
      && Chain(s)
    }

    ghost predicate Linked()
      reads `head, `tail, `size, `nodes, nodes`next, nodes`prev
    {
      Represents(nodes)
    }

    ghost predicate Valid()
      reads `head, `tail, `size, `lock, `sorted, `nodes, nodes, pools, pools.freeId, pools.rollover
    {
      && Linked()
      && WellFormed(lock)
      && pools.Valid()
      && (sorted ==> Ascending(nodes))
    }

    /** ListInit. */
    constructor (pools: IdPools, idGroup: U8)
      requires pools.Valid()
      ensures Valid() && nodes == [] && lock == Free && this.pools == pools && this.idGroup == idGroup
    {
      this.pools, this.idGroup := pools, idGroup;
      head, tail, middle, size, lock, sorted := null, null, null, 0, Free, false;
      nodes := [];
    }

    // ----- locking -----

    /** ListLock. */
    method LockList(mode: U8) returns (result: OsResult)
      modifies `lock
      ensures old(Valid()) ==> Valid()
      ensures (result, lock) == LockState(old(lock), mode)
    {
      var (r, l) := LockState(lock, mode);
      result, lock := r, l;
    }

    /** ListUnlock. */
    method UnlockList() returns (result: OsResult)
      modifies `lock
      ensures old(Valid()) ==> Valid()
      ensures (result, lock) == UnlockState(old(lock))
    {
      var (r, l) := UnlockState(lock);
      result, lock := r, l;
    }

    /** ListSizeGet: 0 when the list cannot be read-locked. */
    method SizeGet() returns (n: U16)
      requires WellFormed(lock)
      modifies `lock
      ensures old(Valid()) ==> Valid()
      ensures lock == old(lock)
      ensures n == if ReadLockable(lock) then size else 0
    {
      n := 0;
      var result := LockList(MODE_READ);
      if result == Ok {
        n := size;
        var _ := UnlockList();
      }
    }

    // ----- integrity -----

    /** The forward navigation of ListIntegrityVerify. Its counter is a U8_t that starts again at 0 after 255, so that
        above 255 nodes it only ends at the end of the links. */
    method NavigateForward(listSize: U16, ghost all: set<Node>, ghost far: nat) returns (intact: bool)
      requires head != null && head in all && Closed(all) && listSize > 0
      requires listSize <= 255 || Ahead(head, far, all) == null
      ensures intact <==> listSize <= 255 && Ahead(head, listSize - 1, all) != null
    {
      var node := head;
      ghost var k: nat := 0;
      var i: U8 := 1;
      while i < listSize
        invariant node in all && node == Ahead(head, k, all)
        invariant if listSize <= 255 then i == k + 1 <= listSize else k <= far
        decreases if listSize <= 255 then listSize - i else far - k
      {
        AheadNext(head, k, all);
        node := node.next;
        k := k + 1;
        if node == null {
          if listSize <= 255 {
            AheadEnded(head, k, listSize - 1, all);
          }
          return false;
        }
        i := (i + 1) % 0x100;
      }
      return true;
    }

    /** Its backward navigation. */
    method NavigateBackward(listSize: U16, ghost all: set<Node>, ghost far: nat) returns (intact: bool)
      requires tail != null && tail in all && Closed(all) && listSize > 0
      requires listSize <= 255 || Behind(tail, far, all) == null
      ensures intact <==> listSize <= 255 && Behind(tail, listSize - 1, all) != null
    {
      var node := tail;
      ghost var k: nat := 0;
      var i: U8 := 1;
      while i < listSize
        invariant node in all && node == Behind(tail, k, all)
        invariant if listSize <= 255 then i == k + 1 <= listSize else k <= far
        decreases if listSize <= 255 then listSize - i else far - k
      {
        BehindNext(tail, k, all);
        node := node.prev;
        k := k + 1;
        if node == null {
          if listSize <= 255 {
            BehindEnded(tail, k, listSize - 1, all);
          }
          return false;
        }
        i := (i + 1) % 0x100;
      }
      return true;
    }

    /** What can be told from the ends of a list that is not empty. */
    ghost function EndsVerdict(): Integrity
      requires head != null && tail != null
      reads `head, `tail, `size, head`next, head`prev, tail`next, tail`prev
    {
      if head.prev != null || (head.next == null && size > 1) then CorruptHead
      else if tail.next != null || (tail.prev == null && size > 1) then CorruptTail
      else Intact
    }

    /** What ListIntegrityVerify finds, whatever the links are: it asks for proper ends and for as many steps as the
        size says in both directions. */
    ghost function Verdict(all: set<Node>): Integrity
      requires head != null && tail != null && head in all && tail in all && Closed(all) && size > 0
      reads `head, `tail, `size, all`next, all`prev
    {
      if EndsVerdict() != Intact then EndsVerdict()
      else
        var forward, backward := Ahead(head, size - 1, all) != null, Behind(tail, size - 1, all) != null;
        if size > 255 || (!forward && !backward) then CorruptNavBoth
        else if !forward then CorruptNavFw else if !backward then CorruptNavBw else Intact
    }

    /** ListIntegrityVerify, for any links among some nodes. With a size above 255 it ends only if the links do, within
        any number of steps. */
    method Inspect(ghost all: set<Node>, ghost far: nat) returns (result: Integrity)
      requires WellFormed(lock)
      requires size != 0 ==> head != null && tail != null && head in all && tail in all && Closed(all)
      requires size > 255 ==> Ahead(head, far, all) == null && Behind(tail, far, all) == null
      modifies `lock
      ensures result == if old(lock) != Free then IsLocked else if size == 0 then NoElements else Verdict(all)
      ensures lock == if result in {IsLocked, NoElements, Intact} then old(lock) else Readers(1)
    {
      if lock != Free {
        return IsLocked;
      }
      var locked := LockList(MODE_READ);
      if locked != Ok {
        return IsLocked;
      }
      result := Intact;
      var listSize := SizeGet();
      if listSize == 0 {
        result := NoElements;
        var _ := UnlockList();
        return;
      }
      result := InspectLinks(listSize, all, far);
      if result == Intact {
        var _ := UnlockList();
      }
    }

    /** The part of ListIntegrityVerify that looks at links. */
    method InspectLinks(listSize: U16, ghost all: set<Node>, ghost far: nat) returns (result: Integrity)
      requires listSize == size > 0 && head != null && tail != null && head in all && tail in all && Closed(all)
      requires size > 255 ==> Ahead(head, far, all) == null && Behind(tail, far, all) == null
      ensures result == Verdict(all)
    {
      result := Intact;
      if head.prev != null || (head.next == null && size > 1) {
        return CorruptHead;
      }
      if tail.next != null || (tail.prev == null && size > 1) {
        return CorruptTail;
      }
      var forward := NavigateForward(listSize, all, far);
      if !forward {
        result := CorruptNavFw;
      }
      var backward := NavigateBackward(listSize, all, far);
      if !backward {
        result := if result == CorruptNavFw then CorruptNavBoth else CorruptNavBw;
      }
    }

    /** A list whose links are intact passes if it has at most 255 nodes. */
    lemma IntactVerdict(s: seq<Node>, all: set<Node>)
      requires Represents(s) && s != [] && all == NodeSet(s)
      ensures head in all && tail in all && Closed(all)
      ensures Ahead(head, |s|, all) == null && Behind(tail, |s|, all) == null
      ensures Verdict(all) == if |s| <= 255 then Intact else CorruptNavBoth
    {
      ChainClosed(s);
      ChainAhead(s, 0, |s| - 1);
      ChainBehind(s, |s| - 1, |s| - 1);
      AheadNext(head, |s| - 1, all);
      BehindNext(tail, |s| - 1, all);
    }

    /** ListIntegrityVerify on a list whose links are intact. */
    method IntegrityVerify() returns (result: Integrity)
      requires Valid()
      modifies `lock
      ensures Valid() && lock == AfterVerify(old(lock), |nodes|)
      ensures result == if old(lock) != Free then IsLocked else if nodes == [] then NoElements
                        else if |nodes| <= 255 then Intact else CorruptNavBoth
    {
      ghost var all := NodeSet(nodes);
      if nodes != [] {
        IntactVerdict(nodes, all);
      }
      result := Inspect(all, |nodes|);
    }

    // ----- insertion: the four ways to link a node in -----

    /** insert_first. */
    method LinkFirst(y: Node)
      requires Linked() && nodes == []
      modifies this`head, this`tail, this`size, this`sorted, this`nodes, y`next, y`prev
      ensures Linked() && nodes == [y] && !sorted
    {
      head, tail := y, y;
      y.prev := null;
      y.next := null;
      size := size + 1;
      sorted := false;
      nodes := [y];
    }

    /** insert_head, before the head. */
    method LinkHead(y: Node)
      requires Linked() && 0 < |nodes| < SIZE_MAX && y !in nodes
      modifies this`head, this`size, this`sorted, this`nodes, nodes`prev, y`next, y`prev
      ensures Linked() && nodes == Inserted(old(nodes), 0, y) && !sorted
    {
      head.prev := y;
      y.next := head;
      head := y;
      y.prev := null;
      size := size + 1;
      sorted := false;
      nodes := [y] + nodes;
    }

    /** insert_tail, after the tail. */
    method LinkTail(y: Node)
      requires Linked() && 0 < |nodes| < SIZE_MAX && y !in nodes
      modifies this`tail, this`size, this`sorted, this`nodes, nodes`next, y`next, y`prev
      ensures Linked() && nodes == Inserted(old(nodes), |old(nodes)|, y) && !sorted
    {
      tail.next := y;
      y.prev := tail;
      tail := y;
      y.next := null;
      size := size + 1;
      sorted := false;
      nodes := nodes + [y];
    }

    /** insert_before: y goes to position k, in front of x. */
    method LinkBefore(x: Node, y: Node, ghost k: nat)
      requires Linked() && 0 < k < |nodes| < SIZE_MAX && y !in nodes && x == nodes[k]
      modifies this`size, this`sorted, this`nodes, nodes`prev, nodes`next, y`next, y`prev
      ensures Linked() && nodes == Inserted(old(nodes), k, y) && !sorted
    {
      var z := x.prev;
      x.prev := y;
      if z != null {
        z.next := y;
      }
      y.next := x;
      y.prev := z;
      size := size + 1;
      sorted := false;
      nodes := Inserted(nodes, k, y);
      InsertedDistinct(old(nodes), k, y);
    }

    /** insert_after: y goes to position k, behind x. */
    method LinkAfter(x: Node, y: Node, ghost k: nat)
      requires Linked() && 0 < k < |nodes| < SIZE_MAX && y !in nodes && x == nodes[k - 1]
      modifies this`size, this`sorted, this`nodes, nodes`prev, nodes`next, y`next, y`prev
      ensures Linked() && nodes == Inserted(old(nodes), k, y) && !sorted
    {
      var z := x.next;
      x.next := y;
      if z != null {
        z.prev := y;
      }
      y.next := z;
      y.prev := x;
      size := size + 1;
      sorted := false;
      nodes := Inserted(nodes, k, y);
      InsertedDistinct(old(nodes), k, y);
    }

    /** IListIdRequest, made only for a node that has no identifier yet. */
    method AcquireId(node: Node)
      requires pools.Valid()
      modifies node`id, pools.freeId, pools.rollover
      ensures pools.Valid()
      ensures old(node.id) != ID_INVALID ==> node.id == old(node.id) && pools.Issued() == old(pools.Issued())
      ensures old(node.id) == ID_INVALID ==> (pools.Issued(), node.id) == Issue(old(pools.Issued()), idGroup)
    {
      if node.id == ID_INVALID {
        node.id := pools.Request(idGroup);
      }
    }

    /** The three ways to link in at a position. */
    method LinkAtPosition(node: Node, position: Position)
      requires Linked() && |nodes| < SIZE_MAX && node !in nodes
      modifies this`head, this`tail, this`size, this`sorted, this`nodes, nodes`prev, nodes`next, node`next, node`prev
      ensures Linked() && nodes == Inserted(old(nodes), if position == Head then 0 else |old(nodes)|, node) && !sorted
    {
      if size == 0 {
        LinkFirst(node);
      } else if position == Head {
        LinkHead(node);
      } else {
        LinkTail(node);
      }
    }

    /** ListNodeAddAtPosition while the list is locked. */
    method AddAtPositionLocked(node: Node, position: Position) returns (result: OsResult)
      requires Valid() && node !in nodes
      modifies this`head, this`tail, this`size, this`sorted, this`nodes, nodes`prev, nodes`next, node`id, node`prev,
               node`next,
               pools.freeId, pools.rollover
      ensures Valid()
      ensures result == if |old(nodes)| == SIZE_MAX then Fail else if node.id == ID_INVALID then InvalidId else Ok
      ensures nodes == if result != Ok then old(nodes)
                       else Inserted(old(nodes), if position == Head then 0 else |old(nodes)|, node)
      ensures sorted == (old(sorted) && result != Ok)
      ensures old(node.id) != ID_INVALID ==> node.id == old(node.id)
    {
      if size >= SIZE_MAX {
        return Fail;
      }
      AcquireId(node);
      if node.id == ID_INVALID {
        return InvalidId;
      }
      LinkAtPosition(node, position);
      return Ok;
    }

    /** ListNodeAddAtPosition. */
    method NodeAddAtPosition(node: Node, position: Position) returns (result: OsResult)
      requires Valid() && node !in nodes
      modifies `head, `tail, `size, `lock, `sorted, `nodes,
               nodes`prev, nodes`next, node`id, node`prev, node`next, pools.freeId, pools.rollover
      ensures Valid()
      ensures result == if old(lock) != Free then Locked else if |old(nodes)| == SIZE_MAX then Fail
                        else if node.id == ID_INVALID then InvalidId else Ok
      ensures nodes == if result != Ok then old(nodes)
                       else Inserted(old(nodes), if position == Head then 0 else |old(nodes)|, node)
      ensures sorted == (old(sorted) && result != Ok)
      ensures lock == AfterVerify(old(lock), |nodes|)
      ensures old(node.id) != ID_INVALID ==> node.id == old(node.id)
    {
      result := AddAtPositionUnchecked(node, position);
      var _ := IntegrityVerify();
    }

    /** The same without the integrity check. */
    method AddAtPositionUnchecked(node: Node, position: Position) returns (result: OsResult)
      requires Valid() && node !in nodes
      modifies `head, `tail, `size, `lock, `sorted, `nodes,
               nodes`prev, nodes`next, node`id, node`prev, node`next, pools.freeId, pools.rollover
      ensures Valid() && lock == old(lock)
      ensures result == if old(lock) != Free then Locked else if |old(nodes)| == SIZE_MAX then Fail
                        else if node.id == ID_INVALID then InvalidId else Ok
      ensures nodes == if result != Ok then old(nodes)
                       else Inserted(old(nodes), if position == Head then 0 else |old(nodes)|, node)
      ensures sorted == (old(sorted) && result != Ok)
      ensures old(node.id) != ID_INVALID ==> node.id == old(node.id)
    {
      result := LockList(MODE_WRITE);
      if result == Ok {
        result := AddAtPositionLocked(node, position);
        var _ := UnlockList();
      }
    }

    /** The jumps of ListNodeAddAtNode. */
    method LinkAtNode(y: Node, x: Node?, side: Side, ghost k: nat)
      requires Linked() && |nodes| < SIZE_MAX && y !in nodes
      requires if x == null then k == 0 && (nodes == [] || side == Before) else k < |nodes| && x == nodes[k]
      modifies this`head, this`tail, this`size, this`sorted, this`nodes, nodes`prev, nodes`next, y`next, y`prev
      ensures Linked() && !sorted
      ensures nodes == Inserted(old(nodes), if x == null || side == Before then k else k + 1, y)
    {
      if x == null {
        if size == 0 {
          LinkFirst(y);
        } else {
          LinkHead(y);
        }
      } else {
        if x == head && side == Before {
          LinkHead(y);
        } else if x == tail && side == After {
          LinkTail(y);
        } else if side == Before {
          LinkBefore(x, y, k);
        } else {
          LinkAfter(x, y, k + 1);
        }
      }
    }

    /** ListNodeAddAtNode while the list is locked. */
    method AddAtNodeLocked(y: Node, x: Node?, side: Side, ghost k: nat) returns (result: OsResult)
      requires Valid() && |nodes| < SIZE_MAX && y !in nodes
      requires if x == null then k == 0 && (nodes == [] || side == Before) else k < |nodes| && x == nodes[k]
      modifies this`head, this`tail, this`size, this`sorted, this`nodes, nodes`prev, nodes`next, y`id, y`prev, y`next,
               pools.freeId, pools.rollover
      ensures Valid()
      ensures result == if y.id == ID_INVALID then InvalidId else Ok
      ensures result != Ok ==> nodes == old(nodes)
      ensures result == Ok ==> nodes == Inserted(old(nodes), if x == null || side == Before then k else k + 1, y)
      ensures sorted == (old(sorted) && result != Ok)
      ensures old(y.id) != ID_INVALID ==> y.id == old(y.id)
    {
      AcquireId(y);
      if y.id == ID_INVALID {
        return InvalidId;
      }
      LinkAtNode(y, x, side, k);
      return Ok;
    }

    /** ListNodeAddAtNode: node y goes before or after node x, the k-th, or becomes the head when x is null. The source
        follows a null x when asked to add after it, so that is for callers to avoid. */
    method NodeAddAtNode(y: Node, x: Node?, side: Side, ghost k: nat) returns (result: OsResult)
      requires Valid() && y !in nodes
      requires if x == null then k == 0 && (nodes == [] || side == Before) else k < |nodes| && x == nodes[k]
      modifies `head, `tail, `size, `lock, `sorted, `nodes,
               nodes`prev, nodes`next, y`id, y`prev, y`next, pools.freeId, pools.rollover
      ensures Valid()
      ensures result == if |old(nodes)| == SIZE_MAX && ReadLockable(old(lock)) then Fail
                        else if old(lock) != Free then Error else if y.id == ID_INVALID then InvalidId else Ok
      ensures result != Ok ==> nodes == old(nodes)
      ensures result == Ok ==> nodes == Inserted(old(nodes), if x == null || side == Before then k else k + 1, y)
      ensures sorted == (old(sorted) && result != Ok)
      ensures lock == if result == Fail then old(lock) else AfterVerify(old(lock), |nodes|)
      ensures old(y.id) != ID_INVALID ==> y.id == old(y.id)
    {
      var n := SizeGet();
      if n == SIZE_MAX {
        return Fail;
      }
      result := AddAtNodeUnchecked(y, x, side, k);
      var _ := IntegrityVerify();
    }

    /** The same without the checks of size and integrity. */
    method AddAtNodeUnchecked(y: Node, x: Node?, side: Side, ghost k: nat) returns (result: OsResult)
      requires Valid() && y !in nodes && (lock == Free ==> |nodes| < SIZE_MAX)
      requires if x == null then k == 0 && (nodes == [] || side == Before) else k < |nodes| && x == nodes[k]
      modifies `head, `tail, `size, `lock, `sorted, `nodes,
               nodes`prev, nodes`next, y`id, y`prev, y`next, pools.freeId, pools.rollover
      ensures Valid() && lock == old(lock)
      ensures result == if old(lock) != Free then Error else if y.id == ID_INVALID then InvalidId else Ok
      ensures nodes == if result != Ok then old(nodes)
                       else Inserted(old(nodes), if x == null || side == Before then k else k + 1, y)
      ensures sorted == (old(sorted) && result != Ok)
      ensures old(y.id) != ID_INVALID ==> y.id == old(y.id)
    {
      result := Error;
      var locked := LockList(MODE_WRITE);
      if locked == Ok {
        result := AddAtNodeLocked(y, x, side, k);
        var _ := UnlockList();
      }
    }

    // ----- removal -----

    method UnlinkOnly(y: Node)
      requires Linked() && nodes == [y]
      modifies `head, `tail, `size, `nodes, nodes`prev, nodes`next
      ensures Linked() && nodes == []
      ensures y.prev == null && y.next == null
    {
      head, tail, size := null, null, 0;
      y.prev := null;
      y.next := null;
      nodes := [];
    }

    method UnlinkOfTwo(y: Node, ghost k: nat)
      requires Linked() && |nodes| == 2 && k < 2 && y == nodes[k]
      modifies `head, `tail, `size, `nodes, nodes`prev, nodes`next
      ensures Linked() && nodes == Without(old(nodes), k)
      ensures y.prev == null && y.next == null
    {
      var x, z := y.prev, y.next;
      if x != null {
        head, tail := x, x;
        x.next := null;
        x.prev := null;
      } else {
        head, tail := z, z;
        z.next := null;
        z.prev := null;
      }
      size := size - 1;
      y.prev := null;
      y.next := null;
      nodes := Without(nodes, k);
    }

    /** The end of an unlinking: the size and the node's own links. */
    method Forget(y: Node, ghost s: seq<Node>)
      requires size > 0 && y !in s
      modifies `size, `nodes, y`prev, y`next
      ensures size == old(size) - 1 && nodes == s && y.prev == null && y.next == null
    {
      size := size - 1;
      y.prev := null;
      y.next := null;
      nodes := s;
    }

    /** The unlinking at an end. */
    method UnlinkEnd(y: Node, ghost k: nat)
      requires Linked() && |nodes| > 2 && k < |nodes| && y == nodes[k] && (y == head || y == tail)
      modifies `head, `tail, `size, `nodes, nodes`prev, nodes`next
      ensures Linked() && nodes == Without(old(nodes), k)
      ensures y.prev == null && y.next == null
    {
      RemovedDistinct(nodes, k);
      if y == head {
        head := y.next;
        y.next.prev := null;
      } else {
        tail := y.prev;
        y.prev.next := null;
      }
      Forget(y, Without(nodes, k));
    }

    method UnlinkInner(y: Node, ghost k: nat)
      requires Linked() && 0 < k < |nodes| - 1 && y == nodes[k]
      modifies `size, `nodes, nodes`prev, nodes`next
      ensures Linked() && nodes == Without(old(nodes), k)
      ensures y.prev == null && y.next == null
    {
      RemovedDistinct(nodes, k);
      var x, z := y.prev, y.next;
      x.next := z;
      z.prev := x;
      Forget(y, Without(nodes, k));
    }

    method UnlinkOfMany(y: Node, ghost k: nat)
      requires Linked() && |nodes| > 2 && k < |nodes| && y == nodes[k]
      modifies `head, `tail, `size, `nodes, nodes`prev, nodes`next
      ensures Linked() && nodes == Without(old(nodes), k)
      ensures y.prev == null && y.next == null
    {
      if y == head || y == tail {
        UnlinkEnd(y, k);
      } else {
        UnlinkInner(y, k);
      }
    }

    /** The unlinking of ListNodeRemove, by the size of the list and the place of the node. */
    method Unlink(y: Node, ghost k: nat)
      requires Linked() && k < |nodes| && y == nodes[k]
      modifies `head, `tail, `size, `nodes, nodes`prev, nodes`next
      ensures Linked() && nodes == Without(old(nodes), k)
      ensures y.prev == null && y.next == null
    {
      if size == 2 {
        UnlinkOfTwo(y, k);
      } else if size == 1 {
        UnlinkOnly(y);
      } else {
        UnlinkOfMany(y, k);
      }
    }

    /** The end of ListNodeRemove for a removed middle node: under the write lock the size reads 0, which is even, so
        'middle' goes on pointing to the removed node. */
    method RefreshMiddle(y: Node, z: Node?)
      requires Valid()
      modifies `middle, `lock
      ensures Valid() && lock == old(lock)
      ensures middle == if old(middle) == y && ReadLockable(lock) && size % 2 == 1 then z else old(middle)
    {
      if middle == y {
        var n := SizeGet();
        if n % 2 == 1 {
          middle := z;
        }
      }
    }

    method UnlinkLocked(y: Node, ghost k: nat)
      requires Valid() && k < |nodes| && y == nodes[k]
      modifies `head, `tail, `size, `nodes, nodes`prev, nodes`next
      ensures Valid() && nodes == Without(old(nodes), k) && y.prev == null && y.next == null
    {
      AscendingWithout(nodes, k);
      Unlink(y, k);
    }

    /** ListNodeRemove while the list is locked. */
    method RemoveLocked(y: Node, ghost k: nat)
      requires Valid() && lock == Writer && k < |nodes| && y == nodes[k]
      modifies `head, `tail, `size, `nodes, `middle, `lock, nodes`prev, nodes`next
      ensures Valid() && lock == Writer && nodes == Without(old(nodes), k)
      ensures y.prev == null && y.next == null && middle == old(middle)
    {
      var z := y.next;
      UnlinkLocked(y, k);
      RefreshMiddle(y, z);
    }

    /** ListNodeRemove on an unlocked list. */
    method RemoveUnlocked(node: Node, ghost k: nat)
      requires Valid() && lock == Free && k < |nodes| && node == nodes[k]
      modifies `head, `tail, `size, `nodes, `middle, `lock, nodes`prev, nodes`next
      ensures Valid() && nodes == Without(old(nodes), k) && lock == AfterVerify(Free, |nodes|)
      ensures node.prev == null && node.next == null && middle == old(middle)
    {
      var locked := LockList(MODE_WRITE);
      if locked == Ok {
        RemoveLocked(node, k);
        var _ := UnlockList();
      }
      var _ := IntegrityVerify();
    }

    /** ListNodeRemove. */
    method NodeRemove(node: Node?) returns (removed: Node?)
      requires Valid() && (node != null ==> node in nodes)
      modifies `head, `tail, `size, `nodes, `middle, `lock, nodes`prev, nodes`next
      ensures Valid()
      ensures removed == if old(lock) == Free then node else null
      ensures removed == null ==> nodes == old(nodes) && lock == old(lock)
      ensures removed != null ==> removed.prev == null && removed.next == null && lock == AfterVerify(Free, |nodes|)
      ensures removed != null ==> removed !in nodes && forall k :: 0 <= k < |old(nodes)| && old(nodes)[k] == node ==>
                nodes == Without(old(nodes), k)
      ensures middle == old(middle)
    {
      if lock != Free || node == null {
        return null;
      }
      ghost var k :| 0 <= k < |nodes| && nodes[k] == node;
      RemovedDistinct(nodes, k);
      RemoveUnlocked(node, k);
      return node;
    }

    /** ListNodeRemoveFromHead. */
    method NodeRemoveFromHead() returns (removed: Node?)
      requires Valid()
      modifies `head, `tail, `size, `nodes, `middle, `lock, nodes`prev, nodes`next
      ensures Valid()
      ensures if old(nodes) == [] || old(lock) != Free then removed == null && nodes == old(nodes)
              else removed == old(nodes)[0] && nodes == old(nodes)[1..]
      ensures middle == old(middle)
    {
      removed := NodeRemove(head);
    }

    // ----- exchange -----

    /** One half of the pointer updates of ListNodeSwap: y takes the place between xp and xn. */
    method TakePlace(y: Node, xp: Node?, xn: Node?)
      modifies `head, `tail, Only(xp)`next, Only(xn)`prev, y`next, y`prev
      ensures y.prev == xp && y.next == xn
      ensures xp != null && xp != y ==> xp.next == y
      ensures xn != null && xn != y ==> xn.prev == y
      ensures head == if xp == null then y else old(head)
      ensures tail == if xn == null then y else old(tail)
    {
      if xp != null {
        xp.next := y;
      } else {
        head := y;
      }
      if xn != null {
        xn.prev := y;
      } else {
        tail := y;
      }
      y.prev := xp;
      y.next := xn;
    }

    /** The pointer updates of ListNodeSwap, in their order. */
    method ExchangeFields(x: Node, y: Node)
      requires x in nodes && y in nodes && (x.prev != null ==> x.prev in nodes) && (x.next != null ==> x.next in nodes)
      requires (y.prev != null ==> y.prev in nodes) && (y.next != null ==> y.next in nodes)
      modifies `head, `tail, nodes`prev, nodes`next
      ensures head == if old(y.prev) == null then x else if old(x.prev) == null then y else old(head)
      ensures tail == if old(y.next) == null then x else if old(x.next) == null then y else old(tail)
      ensures forall p {:trigger nodes[p].next} :: 0 <= p < |nodes| ==>
                nodes[p].next == if nodes[p] == x then old(y.next) else if nodes[p] == old(y.prev) then x
                                 else if nodes[p] == y then old(x.next) else if nodes[p] == old(x.prev) then y
                                 else old(nodes[p].next)
      ensures forall p {:trigger nodes[p].prev} :: 0 <= p < |nodes| ==>
                nodes[p].prev == if nodes[p] == x then old(y.prev) else if nodes[p] == old(y.next) then x
                                 else if nodes[p] == y then old(x.prev) else if nodes[p] == old(x.next) then y
                                 else old(nodes[p].prev)
    {
      var xp, xn := x.prev, x.next;
      var yp, yn := y.prev, y.next;
      TakePlace(y, xp, xn);
      TakePlace(x, yp, yn);
    }

    /** The same, by position. */
    method ExchangeLinks(x: Node, y: Node, ghost i: nat, ghost j: nat)
      requires Linked() && i < |nodes| && j < |nodes| && x == nodes[i] && y == nodes[j]
      modifies `head, `tail, nodes`prev, nodes`next
      ensures EndsExchanged(nodes, i, j) && NextExchanged(nodes, i, j) && PrevExchanged(nodes, i, j)
    {
      assert x.prev == Nth(nodes, i - 1) && x.next == Nth(nodes, i + 1);
      assert y.prev == Nth(nodes, j - 1) && y.next == Nth(nodes, j + 1);
      ExchangeFields(x, y);
      assert forall p {:trigger nodes[p].next} :: 0 <= p < |nodes| ==> nodes[p].next == NextByNode(nodes, i, j, p);
      assert forall p {:trigger nodes[p].prev} :: 0 <= p < |nodes| ==> nodes[p].prev == PrevByNode(nodes, i, j, p);
      NextByPosition(nodes, i, j);
      PrevByPosition(nodes, i, j);
    }

    ghost predicate EndsExchanged(s: seq<Node>, i: nat, j: nat)
      requires i < |s| && j < |s|
      reads `head, `tail
    {
      && head == s[if j == 0 then i else if i == 0 then j else 0]
      && tail == s[if j == |s| - 1 then i else if i == |s| - 1 then j else |s| - 1]
    }

    /** The links of the sequence s after the pointer updates for its nodes i and j. */
    ghost predicate LinksExchanged(s: seq<Node>, i: nat, j: nat)
      requires i < |s| && j < |s|
      reads `head, `tail, s`next, s`prev
    {
      EndsExchanged(s, i, j) && NextExchanged(s, i, j) && PrevExchanged(s, i, j)
    }

    /** The links are those of the exchanged sequence if and only if the nodes are not neighbours. A node exchanged with
        itself stays; of neighbours each is left pointing to itself. */
    lemma ExchangeRightIff(s: seq<Node>, i: nat, j: nat)
      requires |s| == size && Distinct(s) && i < |s| && j < |s| && LinksExchanged(s, i, j)
      ensures Represents(Exchanged(s, i, j)) <==> !Neighbours(i, j)
      ensures i + 1 == j ==> s[j].next == s[j] && s[i].prev == s[i]
      ensures j + 1 == i ==> s[i].next == s[i] && s[j].prev == s[j]
    {
      ExchangedDistinct(s, i, j);
      var r := Exchanged(s, i, j);
      if Neighbours(i, j) {
        var k := if i < j then i else j;
        assert r[k] == s[k + 1] && r[k + 1] == s[k] && r[k].next == s[k + 1];
      } else {
        ExchangedChain(s, i, j);
        assert EndsExchanged(s, i, j);
      }
    }

    /** No number of steps from the ends meets an end. */
    ghost predicate Endless(all: set<Node>)
      requires head != null && tail != null && head in all && tail in all && Closed(all)
      reads `head, `tail, all`next, all`prev
    {
      forall k: nat :: Ahead(head, k, all) != null && Behind(tail, k, all) != null
    }

    /** After an exchange of neighbours no navigation ever meets an end: ListIntegrityVerify finds nothing wrong, or,
        with more than 255 nodes, does not come to an end itself. */
    lemma RuinPasses(s: seq<Node>, i: nat, j: nat, all: set<Node>)
      requires i < |s| && j < |s| && Neighbours(i, j) && LinksExchanged(s, i, j)
      requires |s| == size && all == NodeSet(s)
      ensures head in all && tail in all && Closed(all) && Endless(all)
      ensures size <= 255 ==> Verdict(all) == Intact
    {
      var k := if i < j then i else j;
      RuinLinks(s, i, j, k);
      RuinClosed(s, k);
      RuinEnds(s, k);
      RuinLeads(s, k);
      NeverEnds(s[..k] + [s[k + 1]], [s[k]] + s[k + 2..], all);
    }

    lemma NeverEnds(s: seq<Node>, t: seq<Node>, all: set<Node>)
      requires Closed(all) && head != null && tail != null && head in all && tail in all
      requires head in s && tail in t && LeadAhead(s, all) && LeadBack(t, all)
      ensures Endless(all)
    {
      forall k: nat
        ensures Ahead(head, k, all) != null && Behind(tail, k, all) != null
      {
        AheadForEver(head, k, all, s);
        BehindForEver(tail, k, all, t);
      }
    }

    /** Node k and the next were exchanged. */
    ghost predicate Ruined(s: seq<Node>, k: nat)
      requires k + 1 < |s|
      reads `head, `tail, s`next, s`prev
    {
      && head == (if k == 0 then s[1] else s[0])
      && tail == (if k + 2 == |s| then s[k] else s[|s| - 1])
      && RuinedLinks(s, k)
    }

    lemma RuinLinks(s: seq<Node>, i: nat, j: nat, k: nat)
      requires i < |s| && j < |s| && LinksExchanged(s, i, j) && k + 1 < |s|
      requires (i == k && j == k + 1) || (i == k + 1 && j == k)
      ensures Ruined(s, k)
    {}

    lemma RuinEnds(s: seq<Node>, k: nat)
      requires k + 1 < |s| == size && Ruined(s, k)
      ensures head != null && tail != null && EndsVerdict() == Intact && head in NodeSet(s) && tail in NodeSet(s)
      ensures head in s[..k] + [s[k + 1]] && tail in [s[k]] + s[k + 2..]
    {
      var h, t := if k == 0 then 1 else 0, if k + 2 == |s| then k else |s| - 1;
      assert head == s[h] && s[h].prev == null && s[h].next != null;
      assert tail == s[t] && s[t].next == null && s[t].prev != null;
      assert head == (s[..k] + [s[k + 1]])[0];
      var back := [s[k]] + s[k + 2..];
      assert tail == back[|back| - 1];
    }

    /** ListNodeSwap while it holds the lock. */
    method SwapLocked(x: Node, y: Node, ghost i: nat, ghost j: nat)
      requires Valid() && lock == Free && i < |nodes| && j < |nodes| && x == nodes[i] && y == nodes[j]
      modifies `head, `tail, `nodes, `sorted, `lock, nodes`prev, nodes`next
      ensures nodes == Exchanged(old(nodes), i, j) && !sorted && lock == Free && LinksExchanged(old(nodes), i, j)
    {
      var _ := LockList(MODE_WRITE);
      ExchangeLinks(x, y, i, j);
      nodes := Exchanged(nodes, i, j);
      sorted := false;
      var _ := UnlockList();
    }

    lemma ExchangeVerdict(s: seq<Node>, i: nat, j: nat, all: set<Node>)
      requires |s| == size && Distinct(s) && i < |s| && j < |s| && LinksExchanged(s, i, j)
      requires (Neighbours(i, j) ==> |s| <= 255) && all == NodeSet(s)
      ensures Represents(Exchanged(s, i, j)) <==> !Neighbours(i, j)
      ensures head != null && tail != null && head in all && tail in all && Closed(all)
      ensures |s| > 255 ==> Ahead(head, |s|, all) == null && Behind(tail, |s|, all) == null
      ensures Verdict(all) == if |s| <= 255 then Intact else CorruptNavBoth
    {
      ExchangeRightIff(s, i, j);
      if Neighbours(i, j) {
        RuinPasses(s, i, j, all);
      } else {
        ExchangedSet(s, i, j);
        IntactVerdict(Exchanged(s, i, j), all);
      }
    }

    method SwapAndInspect(x: Node, y: Node, ghost i: nat, ghost j: nat)
      requires Valid() && lock == Free && i < |nodes| && j < |nodes| && x == nodes[i] && y == nodes[j]
      requires Neighbours(i, j) ==> |nodes| <= 255
      modifies `head, `tail, `nodes, `sorted, `lock, nodes`prev, nodes`next
      ensures nodes == Exchanged(old(nodes), i, j) && !sorted && lock == AfterVerify(Free, |nodes|)
      ensures pools.Valid() && (Linked() <==> !Neighbours(i, j))
    {
      ghost var s, all := nodes, NodeSet(nodes);
      SwapLocked(x, y, i, j);
      ExchangeVerdict(s, i, j, all);
      var _ := Inspect(all, |nodes|);
    }

    /** ListNodeSwap, for any two nodes of the list, or the same one twice. Neighbours are ruined, and the integrity
        check that follows lets it pass; on more than 255 nodes it does not come to an end then. */
    method NodeSwap(x: Node?, y: Node?, ghost i: nat, ghost j: nat) returns (result: OsResult)
      requires Valid()
      requires x != null && y != null && lock == Free && |nodes| >= 2 ==>
                 && i < |nodes| && j < |nodes| && x == nodes[i] && y == nodes[j]
                 && (Neighbours(i, j) ==> |nodes| <= 255)
      modifies `head, `tail, `nodes, `sorted, `lock, nodes`prev, nodes`next
      ensures result == if x == null || y == null then InvalidArgument else if old(lock) != Free then Locked
                        else if |old(nodes)| < 2 then Fail else Ok
      ensures Valid() <==> result != Ok || !Neighbours(i, j)
      ensures result != Ok ==> nodes == old(nodes) && sorted == old(sorted) && lock == old(lock)
      ensures result == Ok ==> nodes == Exchanged(old(nodes), i, j) && !sorted && lock == AfterVerify(Free, |nodes|)
    {
      if x == null || y == null {
        return InvalidArgument;
      }
      if lock != Free {
        return Locked;
      }
      if size < 2 {
        return Fail;
      }
      SwapAndInspect(x, y, i, j);
      return Ok;
    }
  }

  // ----- the links of exchanged nodes -----

  ghost predicate NextExchanged(s: seq<Node>, i: nat, j: nat)
    requires i < |s| && j < |s|
    reads s`next
  {
    forall p {:trigger s[p].next} :: 0 <= p < |s| ==>
      s[p].next == if p == i then Nth(s, j + 1) else if p + 1 == j then s[i] else if p == j then Nth(s, i + 1)
                   else if p + 1 == i then s[j] else Nth(s, p + 1)
  }

  ghost predicate PrevExchanged(s: seq<Node>, i: nat, j: nat)
    requires i < |s| && j < |s|
    reads s`prev
  {
    forall p {:trigger s[p].prev} :: 0 <= p < |s| ==>
      s[p].prev == if p == i then Nth(s, j - 1) else if p == j + 1 then s[i] else if p == j then Nth(s, i - 1)
                   else if p == i + 1 then s[j] else Nth(s, p - 1)
  }

  /** The same links, told by the nodes that the updates compare. */
  ghost function NextByNode(s: seq<Node>, i: nat, j: nat, p: nat): Node?
    requires i < |s| && j < |s| && p < |s|
  {
    if s[p] == s[i] then Nth(s, j + 1) else if s[p] == Nth(s, j - 1) then s[i]
    else if s[p] == s[j] then Nth(s, i + 1) else if s[p] == Nth(s, i - 1) then s[j] else Nth(s, p + 1)
  }

  ghost function PrevByNode(s: seq<Node>, i: nat, j: nat, p: nat): Node?
    requires i < |s| && j < |s| && p < |s|
  {
    if s[p] == s[i] then Nth(s, j - 1) else if s[p] == Nth(s, j + 1) then s[i]
    else if s[p] == s[j] then Nth(s, i - 1) else if s[p] == Nth(s, i + 1) then s[j] else Nth(s, p - 1)
  }

  lemma NextByPosition(s: seq<Node>, i: nat, j: nat)
    requires Distinct(s) && i < |s| && j < |s|
    requires forall p {:trigger s[p].next} :: 0 <= p < |s| ==> s[p].next == NextByNode(s, i, j, p)
    ensures NextExchanged(s, i, j)
  {}

  lemma PrevByPosition(s: seq<Node>, i: nat, j: nat)
    requires Distinct(s) && i < |s| && j < |s|
    requires forall p {:trigger s[p].prev} :: 0 <= p < |s| ==> s[p].prev == PrevByNode(s, i, j, p)
    ensures PrevExchanged(s, i, j)
  {}

  lemma ExchangedChain(s: seq<Node>, i: nat, j: nat)
    requires Distinct(s) && i < |s| && j < |s| && NextExchanged(s, i, j) && PrevExchanged(s, i, j) && !Neighbours(i, j)
    ensures Chain(Exchanged(s, i, j))
  {
    var r := Exchanged(s, i, j);
    forall p | 0 <= p < |s|
      ensures r[p].next == Nth(r, p + 1) && r[p].prev == Nth(r, p - 1)
    {
      assert r[p] == s[if p == i then j else if p == j then i else p];
      assert p + 1 < |r| ==> r[p + 1] == s[if p + 1 == i then j else if p + 1 == j then i else p + 1];
      assert p > 0 ==> r[p - 1] == s[if p - 1 == i then j else if p - 1 == j then i else p - 1];
    }
  }

  /** The links after node k and the next were exchanged: the second one, now reached from the left, points ahead to
      itself, and the first one, now reached from the right, back to itself. */
  ghost predicate RuinedLinks(s: seq<Node>, k: nat)
    requires k + 1 < |s|
    reads s`next, s`prev
  {
    && (forall p {:trigger s[p].next} :: 0 <= p < |s| ==>
         s[p].next == if p == k then Nth(s, k + 2) else if p + 1 == k || p == k + 1 then s[k + 1] else Nth(s, p + 1))
    && (forall p {:trigger s[p].prev} :: 0 <= p < |s| ==>
         s[p].prev == if p == k + 1 then Nth(s, k - 1) else if p == k || p == k + 2 then s[k] else Nth(s, p - 1))
  }

  lemma RuinClosed(s: seq<Node>, k: nat)
    requires k + 1 < |s| && RuinedLinks(s, k)
    ensures Closed(NodeSet(s))
  {
    forall n | n in NodeSet(s)
      ensures (n.next != null ==> n.next in NodeSet(s)) && (n.prev != null ==> n.prev in NodeSet(s))
    {
      var p :| 0 <= p < |s| && s[p] == n;
      assert s[p].next == null || s[p].next in s;
      assert s[p].prev == null || s[p].prev in s;
    }
  }

  lemma RuinLeads(s: seq<Node>, k: nat)
    requires k + 1 < |s| && RuinedLinks(s, k)
    ensures LeadAhead(s[..k] + [s[k + 1]], NodeSet(s)) && LeadBack([s[k]] + s[k + 2..], NodeSet(s))
  {
    var ahead, back := s[..k] + [s[k + 1]], [s[k]] + s[k + 2..];
    forall n | n in ahead
      ensures n in NodeSet(s) && n.next != null && n.next in ahead
    {
      RuinAhead(s, k, n);
    }
    forall n | n in back
      ensures n in NodeSet(s) && n.prev != null && n.prev in back
    {
      RuinBehind(s, k, n);
    }
  }

  lemma RuinAhead(s: seq<Node>, k: nat, n: Node)
    requires k + 1 < |s| && RuinedLinks(s, k) && n in s[..k] + [s[k + 1]]
    ensures n in s && n.next != null && n.next in s[..k] + [s[k + 1]]
  {
    var r := s[..k] + [s[k + 1]];
    var p :| 0 <= p < |r| && r[p] == n;
    if p < k {
      assert s[p].next == r[p + 1];
    } else {
      assert s[k + 1].next == r[k];
    }
  }

  lemma RuinBehind(s: seq<Node>, k: nat, n: Node)
    requires k + 1 < |s| && RuinedLinks(s, k) && n in [s[k]] + s[k + 2..]
    ensures n in s && n.prev != null && n.prev in [s[k]] + s[k + 2..]
  {
    var r := [s[k]] + s[k + 2..];
    var p :| 0 <= p < |r| && r[p] == n;
    if p > 0 {
      assert s[p + k + 1] == n && s[p + k + 1].prev == r[p - 1];
    } else {
      assert s[k].prev == r[0];
    }
  }

  ghost function Exchanged(s: seq<Node>, i: nat, j: nat): seq<Node>
    requires i < |s| && j < |s|
  {
    s[i := s[j]][j := s[i]]
  }

  lemma ExchangedSet(s: seq<Node>, i: nat, j: nat)
    requires i < |s| && j < |s|
    ensures NodeSet(Exchanged(s, i, j)) == NodeSet(s)
  {
    var r := Exchanged(s, i, j);
    forall n | n in s
      ensures n in r
    {
      var p :| 0 <= p < |s| && s[p] == n;
      assert r[if p == i then j else if p == j then i else p] == n;
    }
  }

  ghost function Nth(s: seq<Node>, k: int): Node? { if 0 <= k < |s| then s[k] else null }

  ghost function Only(n: Node?): set<Node> { if n == null then {} else {n} }

  predicate Apart(i: int, j: int) { i + 1 < j || j + 1 < i }

  predicate Neighbours(i: int, j: int) { i + 1 == j || j + 1 == i }
}
