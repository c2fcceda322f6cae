/** Searching linked lists (source/kernel/src/List.c): the direction-choosing search against a plain scan. */
module ListSearch {
  import opened Base
  import opened RwLock
  import opened LinkedList
  import opened ListIterator

  /** The first node with the identifier, by scanning from the head. */
  ghost function First(s: seq<Node>, id: U32): Node?
    reads s`id
    decreases |s|
  {
    if s == [] then null else if s[0].id == id then s[0] else First(s[1..], id)
  }

  ghost predicate NoneIn(s: seq<Node>, id: U32, lo: int, hi: int)
    reads s`id
  {
    forall m :: 0 <= m < |s| && lo <= m < hi ==> s[m].id != id
  }

  lemma {:induction false} FirstIs(s: seq<Node>, id: U32, k: nat)
    requires k <= |s| && NoneIn(s, id, 0, k) && (k < |s| ==> s[k].id == id)
    ensures First(s, id) == Nth(s, k)
    decreases |s|
  {
    if k > 0 {
      FirstIs(s[1..], id, k - 1);
    }
  }

  /** The search locks the list for reading and so does its iterator; with 62 readers it finds nothing. */
  predicate Searchable(lock: State) { lock == Free || (lock.Readers? && lock.n + 1 < READ_COUNT_MAX) }

  /** The loop of ListSearchLinear. */
  method ScanLinear(list: LinkedList, it: Iterator, id: U32) returns (node: Node?)
    requires list.Linked() && list.nodes != []
    requires it.direction == Forward && it.current == list.nodes[0] && it.next == Nth(list.nodes, 1)
    modifies it`current, it`next, it`prev
    ensures node == First(list.nodes, id)
    ensures old(list.Valid()) ==> list.Valid()
  {
    ghost var k := 0;
    while true
      invariant 0 <= k < |list.nodes| && NoneIn(list.nodes, id, 0, k)
      invariant it.direction == Forward && it.current == list.nodes[k] && it.next == Nth(list.nodes, k + 1)
      decreases |list.nodes| - k
    {
      if it.current.id == id {
        FirstIs(list.nodes, id, k);
        return it.current;
      }
      k := k + 1;
      var next := it.Next();
      if next == null {
        break;
      }
    }
    FirstIs(list.nodes, id, |list.nodes|);
    return null;
  }

  /** The part of ListSearchLinear that holds the lock. */
  method LinearLocked(list: LinkedList, id: U32) returns (node: Node?)
    requires list.Valid() && (list.nodes != [] || !ReadLockable(list.lock))
    modifies list`lock
    ensures list.Valid() && list.lock == old(list.lock)
    ensures node == if ReadLockable(list.lock) then First(list.nodes, id) else null
  {
    var it := new Iterator();
    var started := it.Init(list, Forward);
    if started != Ok {
      return null;
    }
    node := ScanLinear(list, it, id);
  }

  /** ListSearchLinear; it follows the head without testing it, so lists that can be locked must not be empty. */
  method SearchLinear(list: LinkedList, id: U32) returns (node: Node?)
    requires list.Valid() && (list.nodes != [] || !Searchable(list.lock))
    modifies list`lock
    ensures list.Valid() && list.lock == old(list.lock)
    ensures node == if Searchable(list.lock) then First(list.nodes, id) else null
  {
    node := null;
    var locked := list.LockList(MODE_READ);
    if locked == Ok {
      node := LinearLocked(list, id);
      var _ := list.UnlockList();
    }
  }

  /** An early exit in the forward direction: the next identifier is already past the one searched for. */
  lemma PastForward(s: seq<Node>, id: U32, k: nat)
    requires Ascending(s) && k + 1 < |s| && NoneIn(s, id, 0, k) && s[k].id != id && id < s[k + 1].id
    ensures NoneIn(s, id, 0, |s|)
  {}

  lemma PastReverse(s: seq<Node>, id: U32, k: nat)
    requires Ascending(s) && 0 < k < |s| && NoneIn(s, id, k + 1, |s|) && s[k].id != id && s[k - 1].id < id
    ensures NoneIn(s, id, 0, |s|)
  {}

  lemma OnlyOne(s: seq<Node>, id: U32, k: nat)
    requires Ascending(s) && k < |s| && s[k].id == id
    ensures NoneIn(s, id, 0, k)
  {}

  /** The loop of ListSearch, in either direction. */
  method Scan(list: LinkedList, it: Iterator, id: U32) returns (node: Node?)
    requires list.Linked() && (list.sorted ==> Ascending(list.nodes)) && (it.direction == Reverse ==> list.sorted)
    requires var start := if it.direction == Forward then 0 else |list.nodes| - 1;
             it.current == Nth(list.nodes, start) && it.next == Following(list.nodes, start, it.direction)
    modifies it`current, it`next, it`prev
    ensures node == First(list.nodes, id)
  {
    ghost var n := |list.nodes|;
    ghost var k := if it.direction == Forward then 0 else n - 1;
    while true
      invariant it.direction == old(it.direction)
      invariant n != 0 ==> 0 <= k < n
      invariant it.current == Nth(list.nodes, k) && it.next == Following(list.nodes, k, it.direction)
      invariant if it.direction == Forward then NoneIn(list.nodes, id, 0, k) else NoneIn(list.nodes, id, k + 1, n)
      decreases if it.direction == Forward then n - k else k
    {
      if it.current == null {
        break;
      }
      if it.current.id == id {
        if it.direction == Reverse {
          OnlyOne(list.nodes, id, k);
        }
        FirstIs(list.nodes, id, k);
        return it.current;
      }
      if list.sorted && list.middle != null && it.next != null {
        if id < it.next.id && it.direction == Forward {
          PastForward(list.nodes, id, k);
          break;
        } else if id > it.next.id && it.direction == Reverse {
          PastReverse(list.nodes, id, k);
          break;
        }
      }
      var next := it.Next();
      if next == null {
        break;
      }
      k := if it.direction == Forward then k + 1 else k - 1;
    }
    assert NoneIn(list.nodes, id, 0, n);
    FirstIs(list.nodes, id, n);
    return null;
  }

  /** The loop only moves the iterator. */
  method ScanFrom(list: LinkedList, it: Iterator, id: U32) returns (node: Node?)
    requires list.Valid() && (it.direction == Reverse ==> list.sorted)
    requires var start := if it.direction == Forward then 0 else |list.nodes| - 1;
             it.current == Nth(list.nodes, start) && it.next == Following(list.nodes, start, it.direction)
    modifies it`current, it`next, it`prev
    ensures list.Valid() && node == First(list.nodes, id)
  {
    node := Scan(list, it, id);
  }

  /** The part of ListSearch that holds the lock. */
  method SearchLocked(list: LinkedList, id: U32) returns (node: Node?)
    requires list.Valid()
    modifies list`lock
    ensures list.Valid() && list.lock == old(list.lock)
    ensures node == if ReadLockable(list.lock) then First(list.nodes, id) else null
  {
    var it := new Iterator();
    var direction := Forward;
    if list.sorted && list.middle != null {
      if id >= list.middle.id {
        direction := Reverse;
      }
    }
    var started := it.Init(list, direction);
    if started != Ok {
      return null;
    }
    node := ScanFrom(list, it, id);
  }

  /** ListSearch: whatever 'middle' points to and whichever direction it suggests, the result is that of the scan. */
  method Search(list: LinkedList, id: U32) returns (node: Node?)
    requires list.Valid()
    modifies list`lock
    ensures list.Valid() && list.lock == old(list.lock)
    ensures node == if Searchable(list.lock) then First(list.nodes, id) else null
  {
    node := null;
    var locked := list.LockList(MODE_READ);
    if locked == Ok {
      node := SearchLocked(list, id);
      var _ := list.UnlockList();
    }
  }
}
