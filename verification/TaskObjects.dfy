/** Task control blocks as objects, and the lists that hold them by reference. */
module TaskObjects {
  import opened Base
  import opened Events
  import opened Tasks

  /** Tcb_t. */
  class Tcb {
    const id: U32
    const category: U8
    var priority: U8
    var state: TaskState
    var delete: bool
    var events: seq<Event>

    constructor (id: U32, category: U8, priority: U8)
      ensures Value() == Task(id, category, priority, Idle, false, [])
    {
      this.id, this.category, this.priority := id, category, priority;
      state, delete, events := Idle, false, [];
    }

    function Value(): Task
      reads this
    {
      Task(id, category, priority, state, delete, events)
    }
  }

  /** A LinkedList_t of tasks; 'values' is what its tasks hold. */
  class TaskList {
    var tasks: seq<Tcb>
    ghost var values: seq<Task>

    ghost predicate Valid()
      reads this, tasks
    {
      |tasks| == |values| && forall i :: 0 <= i < |tasks| ==> tasks[i].Value() == values[i]
    }

    constructor ()
      ensures Valid() && tasks == [] && values == []
    {
      tasks, values := [], [];
    }

    /** ListNodeRemove. */
    method NodeRemove(task: Tcb, ghost i: nat)
      requires Valid() && NoDup(tasks) && i < |tasks| && tasks[i] == task
      modifies this`tasks, this`values
      ensures Valid() && tasks == Without(old(tasks), i) && values == Without(old(values), i)
    {
      OnlyThere(tasks, i);
      var k := 0;
      while tasks[k] != task
        invariant k <= i
        decreases i - k
      {
        k := k + 1;
      }
      tasks := Without(tasks, k);
      values := Without(values, k);
    }

    /** Adding a task in front of the k-th, or at the end. */
    method NodeAdd(k: nat, task: Tcb)
      requires Valid() && k <= |tasks|
      modifies this`tasks, this`values
      ensures Valid() && tasks == Inserted(old(tasks), k, task)
      ensures values == Inserted(old(values), k, task.Value())
    {
      tasks := Inserted(tasks, k, task);
      values := Inserted(values, k, task.Value());
    }

    /** ListSearch for a task: the first with the identifier. */
    method Search(id: U32) returns (task: Tcb?, ghost i: nat)
      requires Valid()
      ensures i == Find(values, id)
      ensures if i < |values| then i < |tasks| && task == tasks[i] && task.id == id else task == null
    {
      i := 0;
      var k := 0;
      while k < |tasks|
        invariant k == i <= |tasks| && Find(values, id) == k + Find(values[k..], id)
      {
        if tasks[k].id == id {
          return tasks[k], i;
        }
        assert values[k..][1..] == values[k + 1..];
        k, i := k + 1, i + 1;
      }
      task := null;
    }

    /** ListNodeAddSorted on an unlocked list whose nodes ascend. */
    method NodeAddSorted(task: Tcb)
      requires Valid() && Count(values, task.id) == 0
      modifies this`tasks, this`values
      ensures Valid() && values == AddSorted(old(values), task.Value())
      ensures exists k :: 0 <= k <= |old(tasks)| && tasks == Inserted(old(tasks), k, task)
    {
      var k: nat := 0;
      while k < |tasks| && tasks[k].id < task.id
        invariant k <= |tasks|
        invariant SortedPlace(values, task.id) == k + SortedPlace(values[k..], task.id)
      {
        assert values[k..][1..] == values[k + 1..];
        k := k + 1;
      }
      CountPositive(values, task.id);
      NodeAdd(k, task);
    }

    /** After a change of the i-th task. */
    ghost method Refresh(i: nat)
      requires |tasks| == |values| && i < |tasks|
      requires forall k :: 0 <= k < |tasks| && k != i ==> tasks[k].Value() == values[k]
      modifies this`values
      ensures Valid() && values == old(values)[i := tasks[i].Value()]
    {
      values := values[i := tasks[i].Value()];
    }
  }

  /** No task is twice in the list. */
  ghost predicate NoDup(s: seq<Tcb>) { forall x {:trigger multiset(s)[x]} :: x in s ==> multiset(s)[x] <= 1 }

  /** No task is twice in the three lists. */
  ghost predicate Apart3(a: seq<Tcb>, b: seq<Tcb>, q: seq<Tcb>) {
    var all := multiset(a) + multiset(b) + multiset(q);
    forall x {:trigger all[x]} :: x in all ==> all[x] <= 1
  }

  /** The tasks of s are among those of a and b. */
  predicate Within(s: seq<Tcb>, a: seq<Tcb>, b: seq<Tcb>) { forall t :: t in s ==> t in a || t in b }

  /** Tasks moved from a0 to q0 at most: what is left is a, the queue is q. */
  predicate Inside(a: seq<Tcb>, q: seq<Tcb>, a0: seq<Tcb>, q0: seq<Tcb>) {
    Within(a, a0, []) && Within(q, q0, a0)
  }

  lemma InsideTrans(a: seq<Tcb>, q: seq<Tcb>, a1: seq<Tcb>, q1: seq<Tcb>, a0: seq<Tcb>, q0: seq<Tcb>)
    requires Inside(a, q, a1, q1) && Inside(a1, q1, a0, q0)
    ensures Inside(a, q, a0, q0)
  {}

  lemma InsideMember(a: seq<Tcb>, q: seq<Tcb>, a0: seq<Tcb>, q0: seq<Tcb>, i: nat)
    requires Inside(a, q, a0, q0) && i < |a|
    ensures a[i] in a0
  {
    assert a[i] in a;
  }

  ghost function Members(s: seq<Tcb>): set<Tcb> { set t | t in s }

  lemma InsideMembers(a: seq<Tcb>, q: seq<Tcb>, a0: seq<Tcb>, q0: seq<Tcb>, b: seq<Tcb>)
    requires Inside(a, q, a0, q0)
    ensures Members(a) + Members(b) + Members(q) <= Members(a0) + Members(b) + Members(q0)
    ensures Members(b) + Members(a) + Members(q) <= Members(b) + Members(a0) + Members(q0)
  {}

  lemma RemoveMultiset(s: seq<Tcb>, i: nat)
    requires i < |s|
    ensures multiset(s) == multiset(Without(s, i)) + multiset{s[i]} && Within(Without(s, i), s, [])
  {
    assert s == s[..i] + [s[i]] + s[i + 1..];
  }

  lemma InsertMultiset(s: seq<Tcb>, k: nat, t: Tcb)
    requires k <= |s|
    ensures multiset(Inserted(s, k, t)) == multiset(s) + multiset{t} && Within(Inserted(s, k, t), s, [t])
  {
    assert s == s[..k] + s[k..];
  }

  /** A task without a double is nowhere else in its list. */
  lemma OnlyThere(s: seq<Tcb>, i: nat)
    requires NoDup(s) && i < |s|
    ensures s[i] !in Without(s, i) && forall k :: 0 <= k < |s| && k != i ==> s[k] != s[i]
  {
    RemoveMultiset(s, i);
    assert multiset(s)[s[i]] <= 1;
    forall k | 0 <= k < |s| && k != i
      ensures s[k] != s[i]
    {
      assert s[k] == Without(s, i)[if k < i then k else k - 1];
    }
  }

  lemma ApartParts(a: seq<Tcb>, b: seq<Tcb>, q: seq<Tcb>)
    requires Apart3(a, b, q)
    ensures NoDup(a) && NoDup(b) && NoDup(q)
    ensures Apart3(b, a, q) && Apart3(q, a, b)
  {
    var all := multiset(a) + multiset(b) + multiset(q);
    assert multiset(b) + multiset(a) + multiset(q) == all == multiset(q) + multiset(a) + multiset(b);
    forall x | x in a || x in b || x in q
      ensures multiset(a)[x] + multiset(b)[x] + multiset(q)[x] <= 1
    {
      assert all[x] <= 1;
    }
  }

  /** A task from outside may join the first list. */
  lemma JoinKeepsApart(a: seq<Tcb>, b: seq<Tcb>, q: seq<Tcb>, k: nat, t: Tcb)
    requires Apart3(a, b, q) && k <= |a| && t !in a && t !in b && t !in q
    ensures Apart3(Inserted(a, k, t), b, q) && Apart3(b, Inserted(a, k, t), q)
    ensures Members(Inserted(a, k, t)) == Members(a) + {t}
  {
    InsertMultiset(a, k, t);
    var all := multiset(a) + multiset(b) + multiset(q);
    assert multiset(Inserted(a, k, t)) + multiset(b) + multiset(q) == all + multiset{t};
    assert multiset(b) + multiset(Inserted(a, k, t)) + multiset(q) == all + multiset{t};
  }

  /** A task may leave the first list. */
  lemma LeaveKeepsApart(a: seq<Tcb>, b: seq<Tcb>, q: seq<Tcb>, i: nat)
    requires Apart3(a, b, q) && i < |a|
    ensures Apart3(Without(a, i), b, q) && Apart3(b, Without(a, i), q) && Apart3(b, q, Without(a, i))
    ensures a[i] !in Without(a, i) && a[i] !in b && a[i] !in q
    ensures Members(Without(a, i)) + {a[i]} == Members(a)
  {
    RemoveMultiset(a, i);
    ApartParts(a, b, q);
    OnlyThere(a, i);
    OnlyInOne(a, b, q, i);
    var all, rest := multiset(a) + multiset(b) + multiset(q), multiset(Without(a, i)) + multiset(b) + multiset(q);
    assert all == rest + multiset{a[i]};
    forall x | x in rest
      ensures rest[x] <= 1
    {
      assert all[x] <= 1;
    }
    assert multiset(b) + multiset(Without(a, i)) + multiset(q) == rest
           == multiset(b) + multiset(q) + multiset(Without(a, i));
  }

  lemma OnlyInOne(a: seq<Tcb>, b: seq<Tcb>, q: seq<Tcb>, i: nat)
    requires Apart3(a, b, q) && i < |a|
    ensures a[i] !in b && a[i] !in q
  {
    assert a[i] in multiset(a);
    assert (multiset(a) + multiset(b) + multiset(q))[a[i]] <= 1;
  }

  /** Moving a task from the first list to the third. */
  lemma MoveKeepsApart(a: seq<Tcb>, b: seq<Tcb>, q: seq<Tcb>, i: nat, k: nat)
    requires Apart3(a, b, q) && i < |a| && k <= |q|
    ensures Apart3(Without(a, i), b, Inserted(q, k, a[i]))
    ensures Within(Without(a, i), a, []) && Within(Inserted(q, k, a[i]), q, [a[i]])
  {
    RemoveMultiset(a, i);
    InsertMultiset(q, k, a[i]);
    assert multiset(Without(a, i)) + multiset(b) + multiset(Inserted(q, k, a[i]))
           == multiset(a) + multiset(b) + multiset(q);
  }
}
