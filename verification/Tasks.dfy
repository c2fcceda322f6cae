/** Task control blocks and the lists they move between (source/kernel/src/Task.c, source/kernel/src/Scheduler.c). */
module Tasks {
  import opened Base
  import opened Events

  const CAT_LOW := 0
  const CAT_OS := 4
  const PRIO_LIMIT_LOW := 1
  const PRIO_LIMIT_HIGH := 5

  datatype TaskState = Idle | Waiting | Active | Running

  /** Tcb_t: what the scheduler looks at. */
  datatype Task = Task(id: U32, category: U8, priority: U8, state: TaskState, delete: bool, events: seq<Event>)

  /** KTaskCalculatePriority, a sum of U8_t. */
  function CalculatePriority(category: U8, level: U8): U8 { (category * 5 + level - 1) % 0x100 }

  predicate ValidPriority(category: U8, level: U8) {
    category <= CAT_OS && PRIO_LIMIT_LOW <= level <= PRIO_LIMIT_HIGH
  }

  /** The combined priority orders tasks by category first and by level second. */
  lemma PriorityIsLexicographic(c: U8, m: U8, c': U8, m': U8)
    requires ValidPriority(c, m) && ValidPriority(c', m')
    ensures CalculatePriority(c, m) < CalculatePriority(c', m') <==> c < c' || (c == c' && m < m')
    ensures CalculatePriority(c, m) == CalculatePriority(c', m') <==> c == c' && m == m'
    ensures CalculatePriority(c, m) < 25
  {
    PriorityDoesNotWrap(c, m);
    PriorityDoesNotWrap(c', m');
  }

  lemma PriorityDoesNotWrap(c: U8, m: U8)
    requires ValidPriority(c, m)
    ensures CalculatePriority(c, m) == c * 5 + (m - 1) < 25
  {}

  // ----- how often an identifier occurs -----

  function Count(l: seq<Task>, id: U32): nat
    decreases |l|
  {
    if l == [] then 0 else Count(l[..|l| - 1], id) + if l[|l| - 1].id == id then 1 else 0
  }

  lemma {:induction false} CountConcat(a: seq<Task>, b: seq<Task>, id: U32)
    ensures Count(a + b, id) == Count(a, id) + Count(b, id)
    decreases |b|
  {
    if b == [] {
      assert a + b == a;
    } else {
      assert (a + b)[..|a + b| - 1] == a + b[..|b| - 1];
      CountConcat(a, b[..|b| - 1], id);
    }
  }

  lemma CountOne(t: Task, id: U32)
    ensures Count([t], id) == if t.id == id then 1 else 0
  {
    assert [t][..0] == [];
  }

  lemma CountInserted(l: seq<Task>, k: nat, t: Task, id: U32)
    requires k <= |l|
    ensures Count(Inserted(l, k, t), id) == Count(l, id) + if t.id == id then 1 else 0
  {
    CountConcat(l[..k] + [t], l[k..], id);
    CountConcat(l[..k], [t], id);
    CountConcat(l[..k], l[k..], id);
    assert l[..k] + l[k..] == l;
    CountOne(t, id);
  }

  /** The same identifiers in the same places occur equally often. */
  lemma {:induction false} CountSame(a: seq<Task>, b: seq<Task>, id: U32)
    requires |a| == |b| && forall i :: 0 <= i < |a| ==> a[i].id == b[i].id
    ensures Count(a, id) == Count(b, id)
    decreases |a|
  {
    if a != [] {
      CountSame(a[..|a| - 1], b[..|b| - 1], id);
    }
  }

  lemma {:induction false} CountPositive(l: seq<Task>, id: U32)
    ensures Count(l, id) > 0 <==> exists i :: 0 <= i < |l| && l[i].id == id
    decreases |l|
  {
    if l != [] {
      var m := l[..|l| - 1];
      CountPositive(m, id);
      assert l == m + [l[|l| - 1]];
    }
  }

  /** Where the task with an identifier is: ListSearch. */
  function Find(l: seq<Task>, id: U32): (i: nat)
    ensures i <= |l| && (i < |l| ==> l[i].id == id) && forall k :: 0 <= k < i ==> l[k].id != id
    decreases |l|
  {
    if l == [] || l[0].id == id then 0 else 1 + Find(l[1..], id)
  }

  lemma CountWithout(l: seq<Task>, i: nat, id: U32)
    requires i < |l|
    ensures Count(l, id) == Count(Without(l, i), id) + if l[i].id == id then 1 else 0
  {
    CountInserted(Without(l, i), i, l[i], id);
    assert Inserted(Without(l, i), i, l[i]) == l;
  }

  // ----- lists kept in ascending order of identifiers -----

  predicate Ascending(l: seq<Task>) { forall i, j :: 0 <= i < j < |l| ==> l[i].id < l[j].id }

  /** The place of an identifier in an ascending list. */
  function SortedPlace(l: seq<Task>, id: U32): (k: nat)
    ensures k <= |l| && (k < |l| ==> id <= l[k].id) && forall i :: 0 <= i < k ==> l[i].id < id
    decreases |l|
  {
    if l == [] || id <= l[0].id then 0 else 1 + SortedPlace(l[1..], id)
  }

  /** ListNodeAddSorted on an unlocked list. */
  function AddSorted(l: seq<Task>, t: Task): seq<Task> {
    var k := SortedPlace(l, t.id);
    if k < |l| && l[k].id == t.id then l else Inserted(l, k, t)
  }

  lemma AddSortedKeeps(l: seq<Task>, t: Task, id: U32)
    requires Ascending(l) && Count(l, t.id) == 0
    ensures Count(AddSorted(l, t), id) == Count(l, id) + if t.id == id then 1 else 0
    ensures Ascending(AddSorted(l, t)) && forall x :: x in AddSorted(l, t) <==> x in l || x == t
  {
    var k := SortedPlace(l, t.id);
    CountPositive(l, t.id);
    CountInserted(l, k, t, id);
    InsertedMembers(l, k, t);
    InsertedAscends(l, k, t);
  }

  lemma InsertedMembers(l: seq<Task>, k: nat, t: Task)
    requires k <= |l|
    ensures forall x :: x in Inserted(l, k, t) <==> x in l || x == t
  {
    assert l == l[..k] + l[k..];
  }

  lemma InsertedAscends(l: seq<Task>, k: nat, t: Task)
    requires Ascending(l) && k <= |l|
    requires (forall i :: 0 <= i < k ==> l[i].id < t.id) && (k < |l| ==> t.id < l[k].id)
    ensures Ascending(Inserted(l, k, t))
  {}

  // ----- the execution queue -----

  datatype Key = Key(id: U32, priority: U8)

  function KeyOf(t: Task): Key { Key(t.id, t.priority) }

  function Keys(l: seq<Task>): (ks: seq<Key>)
    ensures |ks| == |l| && forall i :: 0 <= i < |l| ==> ks[i] == KeyOf(l[i])
  {
    seq(|l|, i requires 0 <= i < |l| => KeyOf(l[i]))
  }

  /** Before the first entry of lower priority. */
  function Place(ks: seq<Key>, p: U8): (k: nat)
    ensures k <= |ks| && (k < |ks| ==> ks[k].priority < p) && forall i :: 0 <= i < k ==> p <= ks[i].priority
    decreases |ks|
  {
    if ks == [] || p > ks[0].priority then 0 else 1 + Place(ks[1..], p)
  }

  lemma PlaceIs(ks: seq<Key>, p: U8, k: nat)
    requires k <= |ks| && (k < |ks| ==> ks[k].priority < p) && forall j :: 0 <= j < k ==> p <= ks[j].priority
    ensures Place(ks, p) == k
  {}

  function InsertKey(ks: seq<Key>, x: Key): seq<Key> {
    Inserted(ks, Place(ks, x.priority), x)
  }

  /** Where ISchedulerTaskAddDescendingPriority puts a task. */
  function Insert(q: seq<Task>, t: Task): seq<Task> {
    Inserted(q, Place(Keys(q), t.priority), t)
  }

  lemma KeysOfInsert(q: seq<Task>, t: Task)
    ensures Keys(Insert(q, t)) == InsertKey(Keys(q), KeyOf(t))
  {}

  /** The queue that arrivals in this order give. */
  function Ordered(arrivals: seq<Key>): seq<Key>
    decreases |arrivals|
  {
    if arrivals == [] then []
    else InsertKey(Ordered(arrivals[..|arrivals| - 1]), arrivals[|arrivals| - 1])
  }

  /** The earliest arrival of maximal priority: what a simple queue would serve next. */
  function Next(arrivals: seq<Key>): (i: nat)
    requires arrivals != []
    ensures i < |arrivals|
    ensures forall j :: 0 <= j < |arrivals| ==> arrivals[j].priority <= arrivals[i].priority
    ensures forall j :: 0 <= j < i ==> arrivals[j].priority < arrivals[i].priority
    decreases |arrivals|
  {
    var n := |arrivals| - 1;
    if n == 0 then 0
    else
      var i := Next(arrivals[..n]);
      assert forall j :: 0 <= j < n ==> arrivals[j] == arrivals[..n][j];
      if arrivals[n].priority > arrivals[i].priority then n else i
  }

  function Served(arrivals: seq<Key>): seq<Key>
    requires arrivals != []
  {
    Without(arrivals, Next(arrivals))
  }

  predicate Descending(ks: seq<Key>) { forall i, j :: 0 <= i < j < |ks| ==> ks[i].priority >= ks[j].priority }

  lemma {:induction false} OrderedDescends(arrivals: seq<Key>)
    ensures Descending(Ordered(arrivals)) && |Ordered(arrivals)| == |arrivals|
    decreases |arrivals|
  {
    if arrivals != [] {
      OrderedDescends(arrivals[..|arrivals| - 1]);
      InsertDescends(Ordered(arrivals[..|arrivals| - 1]), arrivals[|arrivals| - 1]);
    }
  }

  lemma InsertDescends(ks: seq<Key>, x: Key)
    requires Descending(ks)
    ensures Descending(InsertKey(ks, x)) && |InsertKey(ks, x)| == |ks| + 1
  {}

  /** Inserting below the head is inserting in the tail. */
  lemma InsertBelowHead(ks: seq<Key>, x: Key)
    requires ks != [] && x.priority <= ks[0].priority
    ensures InsertKey(ks, x) == [ks[0]] + InsertKey(ks[1..], x)
  {
    var k := Place(ks[1..], x.priority);
    assert ks[1..][..k] == ks[1..k + 1] && ks[1..][k..] == ks[k + 1..];
  }

  lemma OrderedSnoc(before: seq<Key>, x: Key)
    ensures Ordered(before + [x]) == InsertKey(Ordered(before), x)
  {
    assert (before + [x])[..|before|] == before;
  }

  lemma NextSnoc(before: seq<Key>, x: Key)
    requires before != []
    ensures Next(before + [x]) == if x.priority > before[Next(before)].priority then |before| else Next(before)
  {
    assert (before + [x])[..|before|] == before;
  }

  lemma ServedSnoc(before: seq<Key>, x: Key)
    requires before != []
    ensures Served(before + [x]) == if x.priority > before[Next(before)].priority then before else Served(before) + [x]
  {
    NextSnoc(before, x);
    ExceptSnoc(before, x, Next(before));
  }

  lemma ExceptSnoc(ks: seq<Key>, x: Key, i: nat)
    requires i < |ks|
    ensures Without(ks + [x], i) == Without(ks, i) + [x] && Without(ks + [x], |ks|) == ks
  {}

  /** The head of the queue is the earliest arrival of maximal priority, and what is left is the queue of the others. */
  lemma {:induction false} PopServesNext(arrivals: seq<Key>)
    requires arrivals != []
    ensures Ordered(arrivals) != [] && Ordered(arrivals)[0] == arrivals[Next(arrivals)]
    ensures Ordered(arrivals)[1..] == Ordered(Served(arrivals))
    decreases |arrivals|
  {
    var n := |arrivals| - 1;
    var before, x := arrivals[..n], arrivals[n];
    assert arrivals == before + [x];
    if n == 0 {
      assert Ordered(before) == [] && Served(arrivals) == [];
    } else {
      PopServesNext(before);
      PopAfter(before, x);
    }
  }

  lemma PopAfter(before: seq<Key>, x: Key)
    requires before != [] && Ordered(before) != [] && Ordered(before)[0] == before[Next(before)]
    requires Ordered(before)[1..] == Ordered(Served(before))
    ensures Ordered(before + [x]) != [] && Ordered(before + [x])[0] == (before + [x])[Next(before + [x])]
    ensures Ordered(before + [x])[1..] == Ordered(Served(before + [x]))
  {
    OrderedSnoc(before, x);
    NextSnoc(before, x);
    ServedSnoc(before, x);
    if x.priority <= before[Next(before)].priority {
      InsertBelowHead(Ordered(before), x);
      OrderedSnoc(Served(before), x);
    }
  }
}
