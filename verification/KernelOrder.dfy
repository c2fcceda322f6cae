/** The order of service over runs of the kernel: how long a task of the execution queue waits until it runs. */
module KernelOrder {
  import opened Base
  import opened Events
  import opened Tasks
  import opened Broker
  import opened BrokerOrder
  import opened Kernel
  import opened KernelRuns

  // ----- the place of a task in the queue -----

  /** The task is at place k of the queue, with this priority. */
  predicate At(q: seq<Key>, x: Key, k: nat) { k < |q| && q[k] == x }

  /** How many of the arrivals have a higher priority. */
  function Above(arrivals: seq<Key>, p: U8): nat
    decreases |arrivals|
  {
    if arrivals == [] then 0
    else Above(arrivals[..|arrivals| - 1], p) + if arrivals[|arrivals| - 1].priority > p then 1 else 0
  }

  /** Arrivals of higher priority go in front of a queued task, all others behind it. */
  lemma {:induction false} ArrivalsShift(before: seq<Key>, arrivals: seq<Key>, x: Key, k: nat)
    requires At(Ordered(before), x, k)
    ensures At(Ordered(before + arrivals), x, k + Above(arrivals, x.priority))
    decreases |arrivals|
  {
    if arrivals == [] {
      assert before + arrivals == before;
    } else {
      var m, y := arrivals[..|arrivals| - 1], arrivals[|arrivals| - 1];
      assert arrivals == m + [y];
      ArrivalsShift(before, m, x, k);
      Regroup(before, m, y, arrivals);
      ArrivalShifts(before + m, y, x, k + Above(m, x.priority));
    }
  }

  lemma Regroup(before: seq<Key>, m: seq<Key>, y: Key, arrivals: seq<Key>)
    requires arrivals == m + [y]
    ensures before + m + [y] == before + arrivals
  {}

  lemma ArrivalShifts(before: seq<Key>, y: Key, x: Key, k: nat)
    requires At(Ordered(before), x, k)
    ensures At(Ordered(before + [y]), x, if y.priority > x.priority then k + 1 else k)
  {
    OrderedSnoc(before, y);
    OrderedDescends(before);
    InsertShifts(Ordered(before), y, x, k);
  }

  lemma InsertShifts(q: seq<Key>, y: Key, x: Key, k: nat)
    requires Descending(q) && At(q, x, k)
    ensures At(InsertKey(q, y), x, if y.priority > x.priority then k + 1 else k)
  {}

  // ----- one action -----

  /** A tick that switches tasks. */
  predicate Dispatches(a: Action) { a.Ticks? && a.dispatch }

  function AfterSwitch(s: Sys, dispatch: bool): Sys { if dispatch then SwitchTask(s) else s }

  /** What the cycle of a tick brings into the queue. */
  function ArrivedBy(s: Sys, unlocked: bool, delta: U32): seq<Key> {
    if unlocked then Since(SchedulerCycle(s, delta).lists.entered, |s.lists.entered|) else []
  }

  /** What comes into the queue by an action: only a tick brings tasks there. */
  function Arrivals(s: Sys, a: Action): seq<Key> {
    if a.Ticks? && s.running.Holds? then ArrivedBy(AfterSwitch(s, a.dispatch), a.unlocked, a.delta) else []
  }

  predicate Runs(s: Sys, x: Key) { s.running.Holds? && KeyOf(s.running.value) == x }

  /** The entries that came after the first n. */
  function Since(entered: seq<Key>, n: nat): seq<Key> { if n <= |entered| then entered[n..] else [] }

  lemma QueueShifts(l: Lists, l': Lists, x: Key, k: nat)
    requires InOrder(l) && InOrder(l') && l.entered <= l'.entered && At(Keys(l.queue), x, k)
    ensures At(Keys(l'.queue), x, k + Above(Since(l'.entered, |l.entered|), x.priority))
  {
    assert l.entered + Since(l'.entered, |l.entered|) == l'.entered;
    ArrivalsShift(l.entered, Since(l'.entered, |l.entered|), x, k);
  }

  lemma SwitchShifts(s: Sys, x: Key, k: nat)
    requires Inv(s) && At(Keys(s.lists.queue), x, k)
    ensures s.running.Holds? && InOrder(SwitchTask(s).lists)
    ensures if k == 0 then Runs(SwitchTask(s), x) else At(Keys(SwitchTask(s).lists.queue), x, k - 1)
  {
    SwitchKeeps(s);
  }

  /** Changes of listed tasks leave the queue alone. */
  lemma OthersKeepQueue(s: Sys, a: Action)
    requires Allowed(s, a) && !a.Ticks?
    ensures Do(s, a).lists.queue == s.lists.queue
  {
    if a.RegisterEvent? || a.Handle? || a.Remove? {
      OnRunning(s, a);
    }
  }

  /** A queued task at the head runs when a tick dispatches. Otherwise it comes one place closer by such a tick, and one
      place is lost for each arrival of higher priority. */
  predicate Shifted(dispatch: bool, arrivals: seq<Key>, x: Key, k: nat, s': Sys) {
    if dispatch && k == 0 then Runs(s', x)
    else At(Keys(s'.lists.queue), x, (if dispatch then k - 1 else k) + Above(arrivals, x.priority))
  }

  lemma ActionShifts(s: Sys, a: Action, x: Key, k: nat)
    requires Inv(s) && Allowed(s, a) && At(Keys(s.lists.queue), x, k)
    ensures Shifted(Dispatches(a), Arrivals(s, a), x, k, Do(s, a))
  {
    if a.Ticks? {
      TickShifts(s, a.dispatch, a.unlocked, a.delta, x, k);
    } else {
      OthersKeepQueue(s, a);
    }
  }

  lemma TickShifts(s: Sys, dispatch: bool, unlocked: bool, delta: U32, x: Key, k: nat)
    requires Inv(s) && At(Keys(s.lists.queue), x, k)
    ensures var a := Ticks(dispatch, unlocked, delta); Shifted(dispatch, Arrivals(s, a), x, k, Do(s, a))
  {
    SwitchShifts(s, x, k);
    var s1 := AfterSwitch(s, dispatch);
    var came, s' := TickIs(s, dispatch, unlocked, delta, s1);
    OnwardShifts(s1, s', came, dispatch, x, k);
  }

  /** What a tick brings into the queue, and the state it leaves, from the state after the switch. */
  lemma TickIs(s: Sys, dispatch: bool, unlocked: bool, delta: U32, s1: Sys) returns (came: seq<Key>, s': Sys)
    requires s.running.Holds? && s1 == AfterSwitch(s, dispatch) && InOrder(s1.lists)
    ensures var a := Ticks(dispatch, unlocked, delta); came == Arrivals(s, a) && s' == Do(s, a)
    ensures s'.running == s1.running && InOrder(s'.lists) && s1.lists.entered <= s'.lists.entered
    ensures came == Since(s'.lists.entered, |s1.lists.entered|)
  {
    came, s' := Arrivals(s, Ticks(dispatch, unlocked, delta)), Do(s, Ticks(dispatch, unlocked, delta));
    if unlocked {
      CycleInOrder(s1.lists, s1.events, delta);
    }
  }

  /** The part of a tick after the switch. */
  lemma OnwardShifts(s1: Sys, s': Sys, came: seq<Key>, dispatch: bool, x: Key, k: nat)
    requires InOrder(s1.lists) && InOrder(s'.lists) && s1.lists.entered <= s'.lists.entered
    requires if dispatch && k == 0 then Runs(s1, x) else At(Keys(s1.lists.queue), x, if dispatch then k - 1 else k)
    requires s'.running == s1.running && came == Since(s'.lists.entered, |s1.lists.entered|)
    ensures Shifted(dispatch, came, x, k, s')
  {
    if !(dispatch && k == 0) {
      QueueShifts(s1.lists, s'.lists, x, if dispatch then k - 1 else k);
    }
  }

  // ----- runs -----

  /** The states of a run, and what each of its actions brings into the queue. */
  ghost predicate IsTrace(states: seq<Sys>, actions: seq<Action>, came: seq<seq<Key>>) {
    && |states| == |actions| + 1 && |came| == |actions|
    && forall i {:trigger StepAt(states, actions, came, i)} ::
         0 <= i < |actions| ==> StepAt(states, actions, came, i)
  }

  ghost predicate StepAt(states: seq<Sys>, actions: seq<Action>, came: seq<seq<Key>>, i: nat)
    requires i < |actions| == |came| && |states| == |actions| + 1
  {
    && Allowed(states[i], actions[i]) && states[i + 1] == Do(states[i], actions[i])
    && came[i] == Arrivals(states[i], actions[i])
  }

  /** Every allowed run has them. */
  lemma {:induction false} Trace(s: Sys, actions: seq<Action>) returns (states: seq<Sys>, came: seq<seq<Key>>)
    requires AllowedRun(s, actions)
    ensures IsTrace(states, actions, came) && states[0] == s && states[|actions|] == Run(s, actions)
    decreases |actions|
  {
    states, came := [s], [];
    if actions != [] {
      var rest, later := Trace(Do(s, actions[0]), actions[1..]);
      states, came := [s] + rest, [Arrivals(s, actions[0])] + later;
      forall i | 0 <= i < |actions|
        ensures StepAt(states, actions, came, i)
      {
        if i > 0 {
          assert StepAt(rest, actions[1..], later, i - 1);
          LaterStep(states, actions, came, rest, later, i);
        }
      }
    }
  }

  lemma LaterStep(states: seq<Sys>, actions: seq<Action>, came: seq<seq<Key>>, rest: seq<Sys>, later: seq<seq<Key>>,
                  i: nat)
    requires 0 < i < |actions| == |came| && |states| == |actions| + 1 && rest == states[1..] && later == came[1..]
    requires StepAt(rest, actions[1..], later, i - 1)
    ensures StepAt(states, actions, came, i)
  {
    assert rest[i - 1] == states[i] && rest[i - 1 + 1] == states[i + 1] && later[i - 1] == came[i];
    assert actions[1..][i - 1] == actions[i];
  }

  lemma {:induction false} TraceKeeps(states: seq<Sys>, actions: seq<Action>, came: seq<seq<Key>>, n: nat)
    requires IsTrace(states, actions, came) && Inv(states[0]) && n < |states|
    ensures Inv(states[n])
    decreases n
  {
    if n > 0 {
      TraceKeeps(states, actions, came, n - 1);
      assert StepAt(states, actions, came, n - 1);
      ActionKeeps(states[n - 1], actions[n - 1]);
    }
  }

  function Spent(a: Action): nat { if Dispatches(a) then 1 else 0 }

  /** The dispatching ticks among the first n actions. */
  function Switches(actions: seq<Action>, n: nat): nat
    requires n <= |actions|
    decreases n
  {
    if n == 0 then 0 else Switches(actions, n - 1) + Spent(actions[n - 1])
  }

  /** The arrivals of higher priority during the first n actions. */
  function Overtakers(came: seq<seq<Key>>, n: nat, p: U8): nat
    requires n <= |came|
    decreases n
  {
    if n == 0 then 0 else Overtakers(came, n - 1, p) + Above(came[n - 1], p)
  }

  /** By action n there have been enough dispatching ticks for the tasks in front and those that came in front. */
  predicate Due(actions: seq<Action>, came: seq<seq<Key>>, p: U8, k: nat, n: nat)
    requires n < |actions| == |came|
  {
    Switches(actions, n + 1) > k + Overtakers(came, n, p)
  }

  lemma StepShifts(states: seq<Sys>, actions: seq<Action>, came: seq<seq<Key>>, x: Key, k: nat, n: nat)
    requires IsTrace(states, actions, came) && Inv(states[0]) && n < |actions| && At(Keys(states[n].lists.queue), x, k)
    ensures Shifted(Dispatches(actions[n]), came[n], x, k, states[n + 1])
  {
    TraceKeeps(states, actions, came, n);
    assert StepAt(states, actions, came, n);
    ActionShifts(states[n], actions[n], x, k);
  }

  lemma StillQueued(states: seq<Sys>, actions: seq<Action>, came: seq<seq<Key>>, x: Key, k: nat, n: nat)
    requires IsTrace(states, actions, came) && Inv(states[0]) && n < |actions| && At(Keys(states[n].lists.queue), x, k)
    requires Spent(actions[n]) <= k
    ensures At(Keys(states[n + 1].lists.queue), x, k - Spent(actions[n]) + Above(came[n], x.priority))
  {
    StepShifts(states, actions, came, x, k, n);
  }

  lemma OneMore(actions: seq<Action>, came: seq<seq<Key>>, p: U8, k: nat, m: nat)
    requires m < |actions| == |came| && !Due(actions, came, p, k, m)
    ensures Switches(actions, m + 1) == Switches(actions, m) + Spent(actions[m]) <= k + Overtakers(came, m, p)
    ensures Overtakers(came, m + 1, p) == Overtakers(came, m, p) + Above(came[m], p)
  {}

  /** Until it is due, a task stays in the queue, and its place tells how many dispatching ticks it has to wait for. */
  lemma {:induction false} QueuedUntilDue(states: seq<Sys>, actions: seq<Action>, came: seq<seq<Key>>, x: Key, k: nat,
                                          n: nat)
    requires IsTrace(states, actions, came) && Inv(states[0]) && n <= |actions| && At(Keys(states[0].lists.queue), x, k)
    requires forall i :: 0 <= i < n ==> !Due(actions, came, x.priority, k, i)
    ensures Switches(actions, n) <= k + Overtakers(came, n, x.priority)
    ensures At(Keys(states[n].lists.queue), x, k + Overtakers(came, n, x.priority) - Switches(actions, n))
    decreases n
  {
    if n > 0 {
      var m := n - 1;
      QueuedUntilDue(states, actions, came, x, k, m);
      assert !Due(actions, came, x.priority, k, m);
      OneMore(actions, came, x.priority, k, m);
      StillQueued(states, actions, came, x, k + Overtakers(came, m, x.priority) - Switches(actions, m), m);
    }
  }

  /** Once it is due, it runs. */
  lemma RunsWhenDue(states: seq<Sys>, actions: seq<Action>, came: seq<seq<Key>>, x: Key, k: nat, n: nat)
    requires IsTrace(states, actions, came) && Inv(states[0]) && n < |actions| && At(Keys(states[0].lists.queue), x, k)
    requires Due(actions, came, x.priority, k, n) && forall i :: 0 <= i < n ==> !Due(actions, came, x.priority, k, i)
    ensures Runs(states[n + 1], x) && Switches(actions, n + 1) == k + 1 + Overtakers(came, n, x.priority)
  {
    QueuedUntilDue(states, actions, came, x, k, n);
    StepShifts(states, actions, came, x, 0, n);
  }

  lemma {:induction false} FirstDue(actions: seq<Action>, came: seq<seq<Key>>, p: U8, k: nat, n: nat) returns (i: nat)
    requires n < |actions| == |came| && Due(actions, came, p, k, n)
    ensures i <= n && Due(actions, came, p, k, i) && forall j :: 0 <= j < i ==> !Due(actions, came, p, k, j)
    decreases n
  {
    if j :| 0 <= j < n && Due(actions, came, p, k, j) {
      i := FirstDue(actions, came, p, k, j);
    } else {
      i := n;
    }
  }

  lemma {:induction false} OvertakersGrow(came: seq<seq<Key>>, i: nat, n: nat, p: U8)
    requires i <= n <= |came|
    ensures Overtakers(came, i, p) <= Overtakers(came, n, p)
    decreases n
  {
    if i < n {
      OvertakersGrow(came, i, n - 1, p);
    }
  }

  /** The task runs after action n, at the dispatching tick that comes after one for each of the k tasks in front of it
      and of the tasks of higher priority that arrived since; until then it is in the queue. */
  ghost predicate RunsAt(states: seq<Sys>, actions: seq<Action>, came: seq<seq<Key>>, x: Key, k: nat, n: nat)
    requires IsTrace(states, actions, came) && n < |actions|
  {
    && Runs(states[n + 1], x) && (forall i :: 0 <= i <= n ==> Queues(states[i], x))
    && Switches(actions, n + 1) == k + 1 + Overtakers(came, n, x.priority)
  }

  /** A queued task with k tasks in front of it runs at the (k + 1)-th dispatching tick of a run, and m arrivals of
      higher priority delay it by at most m such ticks: nothing else can make it wait. */
  lemma ServedInTurn(states: seq<Sys>, actions: seq<Action>, came: seq<seq<Key>>, x: Key, k: nat)
    requires IsTrace(states, actions, came) && Inv(states[0]) && At(Keys(states[0].lists.queue), x, k)
    requires Switches(actions, |actions|) > k + Overtakers(came, |actions|, x.priority)
    ensures exists n :: 0 <= n < |actions| && RunsAt(states, actions, came, x, k, n)
                        && Switches(actions, n + 1) <= k + 1 + Overtakers(came, |actions|, x.priority)
  {
    var last := |actions| - 1;
    OvertakersGrow(came, last, |actions|, x.priority);
    var n := FirstDue(actions, came, x.priority, k, last);
    RunsWhenDue(states, actions, came, x, k, n);
    OvertakersGrow(came, n, |actions|, x.priority);
    forall i | 0 <= i <= n
      ensures Queues(states[i], x)
    {
      QueuedUntilDue(states, actions, came, x, k, i);
    }
    assert RunsAt(states, actions, came, x, k, n);
  }

  predicate Queues(s: Sys, x: Key) { x in Keys(s.lists.queue) }
}
