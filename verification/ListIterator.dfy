/** Iteration over linked lists (source/kernel/src/List.c): the iterator, and its use while nodes are being removed. */
module ListIterator {
  import opened Base
  import opened RwLock
  import opened LinkedList

  datatype Direction = Forward | Reverse

  /** The node that comes after position k in the given direction. */
  ghost function Following(s: seq<Node>, k: int, direction: Direction): Node? {
    Nth(s, if direction == Forward then k + 1 else k - 1)
  }

  /** struct ListIterator. */
  class Iterator {
    var direction: Direction
    var current: Node?
    var next: Node?
    var prev: Node?

    constructor ()
    {
      direction, current, next, prev := Forward, null, null, null;
    }

    /** ListIteratorInit. */
    method Init(list: LinkedList, direction: Direction) returns (result: OsResult)
      requires list.Valid()
      modifies `direction, `current, `next, `prev, list`lock
      ensures list.Valid() && list.lock == old(list.lock)
      ensures result == if ReadLockable(list.lock) then Ok else OsResult.Locked
      ensures result == Ok ==> this.direction == direction
      ensures result == Ok && direction == Forward ==>
                current == Nth(list.nodes, 0) && next == Following(list.nodes, 0, Forward)
      ensures result == Ok && direction == Reverse ==>
                current == Nth(list.nodes, |list.nodes| - 1) && next == Following(list.nodes, |list.nodes| - 1, Reverse)
    {
      result := OsResult.Locked;
      var locked := list.LockList(MODE_READ);
      if locked == Ok {
        result := Ok;
        Place(list, direction);
        var _ := list.UnlockList();
      }
    }

    /** The iterator at the first node in the given direction. */
    method Place(list: LinkedList, direction: Direction)
      requires list.Linked()
      modifies `direction, `current, `next, `prev
      ensures this.direction == direction
      ensures direction == Forward ==> current == Nth(list.nodes, 0) && next == Following(list.nodes, 0, Forward)
      ensures direction == Reverse ==>
                current == Nth(list.nodes, |list.nodes| - 1) && next == Following(list.nodes, |list.nodes| - 1, Reverse)
    {
      this.direction := direction;
      if direction == Forward {
        current := list.head;
        if current != null {
          next := current.next;
          prev := current.prev;
        } else {
          next := null;
          prev := null;
        }
      } else {
        current := list.tail;
        if current != null {
          next := current.prev;
          prev := current.next;
        } else {
          next := null;
          prev := null;
        }
      }
    }

    /** ListIteratorNext: the node it moves to was chosen by the call before; only then is the one after it read. */
    method Next() returns (node: Node?)
      modifies `current, `next, `prev
      ensures direction == old(direction)
      ensures old(current) == null ==> node == null && current == null
      ensures old(current) != null ==> node == current && current == old(next) && prev == old(current)
      ensures old(current) != null ==>
                next == if current == null then null else if direction == Forward then current.next else current.prev
    {
      node := null;
      if current != null {
        prev := current;
        current := next;
        if direction == Forward {
          next := if current != null then current.next else null;
        } else {
          next := if current != null then current.prev else null;
        }
        node := current;
      }
    }
  }
}
