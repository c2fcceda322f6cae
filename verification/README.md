# Prior RTOS in Dafny

Prior RTOS is a small cooperative kernel. This project models its core and proves what it promises:

* **the event broker, the scheduler and the kernel core** (`Events`, `Tasks`, `Broker`, `BrokerExact`, `BrokerOrder`,
  `BrokerTasks`, `BrokerArrivals`, `Kernel`, `KernelRuns`, `KernelTimes`, `KernelOrder`, `KernelEffects`, `KernelTasks`;
  imperatively `TaskObjects`, `Scheduler`, `Core`): on every tick all emitted events are compared with the registered
  events of all tasks, tasks move between the waiting list, the idle list, the execution queue and running, timeouts
  advance and expired events go;
* **the pool and block allocator** (`PoolTiles`, `PoolTable`, `PoolGaps`, `PoolLive`, `PoolSpace`, `PoolLimits`,
  `PoolRuns`; imperatively `Memory`): first fit of pools in
  the heap and of allocations in pools, with size headers among the data;
* **the intrusive doubly linked list** (`LinkedList`, `ListIterator`, `ListSearch`, `ListSorted`, `ListTraversal`), its
  one-byte reader/writer lock (`RwLock`), and the loops of the broker over it (`BrokerLoops`, and `BrokerLists` for what
  its nodes carry);
* **the checksums and identifiers** (`Crc32`, `CrcStream`, `Fletcher`, `IdType`).

Code that changes state step by step is modelled by classes and loops, each proved against a specification on values:
`Scheduler.Scheduler` and `Core.Core` against the functions of `Broker` and `Kernel`, `Memory.Memory` against the tiles of
`PoolTiles` and `PoolTable`, `LinkedList.LinkedList` against its ghost sequence `nodes`. The properties are lemmas about
those specifications. `Base` holds the fixed-width integers; sums and differences of `U32_t` wrap around explicitly.

Parameters stand for what the code reads from elsewhere: the time between two cycles (`delta`), the dispatch flag and the
interrupt nesting (`dispatch`), the locks that hold a cycle back (`unlocked`), and the kernel-mode flag (`kernelMode`).
Addresses in the heap are indices of it.

A run (`Kernel.Run`) is any sequence of operations that keep to `Kernel.Allowed`: the idle task is not flagged for deletion
and registers no event, OsStart comes once, and events are handled and removed by a running task.

Where the code does less than it seems to promise, it is modelled as it is, and a row below states when it is right:

* The deletion guard at `source/kernel/src/Core.c:800` never protects the idle task, and its freed TCB can become the
  running one (`KernelTimes.IdleIsNotProtected`).
* The free-space counter of a pool starts at the unrounded size but is reduced by rounded ones. It is exact for multiples of
  16 only (`PoolLimits.CountersExactIff`), turns satisfiable requests down for remainders 1 to 11 (`PoolLimits.TurnsDownIff`),
  and lets a wrapped request through for remainders 12 to 15 (`PoolLimits.AdmitsWrapIff`), which breaks the heap
  (`PoolLimits.GrantedKeepsIff`, `PoolLimits.WrappedRequest`).
* Pools stay inside the heap only if its size leaves a remainder of 0 or 1 modulo 16 (`PoolGaps.ScanStaysInsideIff`).
* Event identifiers collide (`Fletcher.HashCollides`), and then an emission is lost (`Events.EmitLost`).
* The 32-bit sum in the lifetime test can wrap (`Events.IncrementRightIff`).
* A task that the last emitted event wakes is compared with it again in the queue, so that the time of the cycle is added
  twice to its other registrations and the match is counted twice (`BrokerTasks.ListedTime`,
  `BrokerTasks.ListedOccurrences`); they can time out too early (`BrokerTasks.TimesOutEarly`).
* ListIntegrityVerify counts in a byte: above 255 nodes it reports an intact list as corrupt and leaves it read-locked.
* ListNodeSwap ruins neighbours and nothing else (`LinkedList.LinkedList.ExchangeRightIff`), and its integrity check lets
  that pass (`LinkedList.LinkedList.RuinPasses`); ListNodeMove can leave a node in neither list;
  ListNodeAddSorted answers OK on an unsorted list even if it added nothing; ListSearch needs two free reader slots, so with
  62 readers it finds nothing.

## Model

| member | source | states |
|---|---|---|
| BrokerExact.WokenIffQueued | source/kernel/src/Scheduler.c:74-228 | No lost and no spurious wake-up: after a cycle a waiting or idle task is in the execution queue if and only if an emitted event was addressed to it, or one of its registered events was flagged before, matched a compared event, or timed out; otherwise it is still in its list |
| BrokerExact.CycleRemains | source/kernel/src/Scheduler.c:93-146 | What a cycle leaves in the waiting and in the idle list: exactly the tasks that do not wake, in their order, with nothing but the counters of events that may time out advanced |
| BrokerExact.CycleConserves | source/kernel/src/Scheduler.c:105-129 | A cycle loses and doubles no task: every identifier is in as many of waiting list, idle list and queue as before |
| BrokerExact.EarlyTurn | source/kernel/src/Scheduler.c:104-129 | Before the last emitted event a task either leaves its list, and then rightly, or is untouched |
| BrokerExact.LastTurn | source/kernel/src/Scheduler.c:180-228 | With the last emitted event a task leaves if and only if it wakes; only then do timeouts advance |
| BrokerOrder.CycleInOrder | source/kernel/src/Scheduler.c:231-285 | After a cycle the queue is still what its arrivals, in their order, give, and the arrivals of the cycle come after all earlier ones |
| BrokerOrder.QueuedTaskCompared | source/kernel/src/Scheduler.c:128-129 | A task that is in the queue when a cycle begins stays there, and each of its events is compared once with each event that is compared at all |
| BrokerOrder.OccurrencesCounted | source/kernel/src/Scheduler.c:199-203 | Over a cycle such an event counts exactly its matches, up to 255, and is flagged as occurred exactly if it was before or has a match |
| BrokerOrder.RunSame | source/kernel/src/Scheduler.c:199-214 | Comparisons leave a registration the same: identifier, source, code, lifetime and all flags but those for occurred and timed out, the permanent flag among them |
| BrokerTasks.CycleOfTask | source/kernel/src/Scheduler.c:74-228 | What a cycle makes of a waiting or idle task: if it does not wake, only counters advance; if it does, it is in the queue as the same task (category, priority, deletion flag, registrations), each registration with its matches counted and the time of the cycle added |
| BrokerTasks.CycleKeepsTask | source/kernel/src/Scheduler.c:74-228 | Every task of the three lists is afterwards in its list or in the queue, with the same identifier, category, priority, deletion flag and registrations |
| BrokerTasks.ListedOccurrences | source/kernel/src/Scheduler.c:128-129 | A waiting or idle task counts each match once, but twice the match with the event that moves it to the queue, which is compared after its list |
| BrokerTasks.ListedTime | source/kernel/src/Scheduler.c:128-129 | The time of a cycle is added once to an unmatched registration, but twice if and only if the comparison with the last event alone wakes the task |
| BrokerTasks.TimesOutEarly | source/kernel/src/Scheduler.c:128-129 | Counterexample: then another registration of the task times out although it has more time left than the cycle took |
| BrokerArrivals.CycleArrivals | source/kernel/src/Scheduler.c:93-129 | The order in which a cycle brings tasks into the queue, told from the lists before it: by the emitted event that first wakes a task, and for one event its addressee first, then tasks that waited, then tasks that rested, both in the order of their list |
| BrokerArrivals.WokenIffArrives | source/kernel/src/Scheduler.c:105-129 | A task wakes if and only if some emitted event wakes it in this sense, so that exactly the tasks that wake arrive |
| BrokerOrder.EventsAfterExact | source/kernel/src/Scheduler.c:131-140 | The emitted events that survive a cycle are exactly those whose lifetime has not run out, and the mock event; identifiers stay distinct |
| BrokerTasks.SurvivorsSame | source/kernel/src/Scheduler.c:131-140 | The survivors keep their order and differ from what they were in their counters only |
| BrokerLoops.MoveActive | source/kernel/src/Scheduler.c:155-176 | The comparing loop over the linked list itself, with its iterator: every task is visited once, in order, although active ones leave; the others stay in order, and the queue is the one its earlier arrivals and the active tasks, in the order of the list, give |
| BrokerLoops.MovedInOrder | source/kernel/src/Scheduler.c:231-285 | Moving active tasks one by one in front of the first of lower priority makes the queue that they give as arrivals |
| BrokerLoops.FindLower | source/kernel/src/Scheduler.c:250-283 | The search through the linked queue ends at the first task of lower priority, or behind the tail |
| BrokerLoops.DropExpired | source/kernel/src/Scheduler.c:93-146 | The loop over the linked event list, with its iterator: every event is visited once, in order, although expired ones are removed without any insertion, and exactly the others stay, in order |
| BrokerLists.CompareList | source/kernel/src/Scheduler.c:155-176 | With the tasks that the nodes carry: the loop over the linked list leaves in the list and in the queue the tasks that the functional comparison keeps and enqueues, compared, in the same order |
| BrokerLists.ComparedLists | source/kernel/src/Scheduler.c:155-228 | The nodes that stay and the queue that the moved ones make carry what the comparison of the tasks keeps and enqueues |
| BrokerLists.AgeList | source/kernel/src/Scheduler.c:131-140 | With the events that the nodes carry: the loop over the linked event list leaves the events that survive the cycle, with their counters advanced |
| BrokerLists.StayersAreAged | source/kernel/src/Scheduler.c:131-140 | The nodes whose events do not expire carry exactly the events that survive the cycle |
| Tasks.PopServesNext | source/kernel/src/Scheduler.c:55-64 | The head of the queue is the earliest arrival of maximal priority, and the rest is the queue of the other arrivals: the sorted queue refines a plain list of arrivals |
| Tasks.OrderedDescends | source/kernel/src/Scheduler.c:231-285 | The queue is always in non-increasing priority and holds as many entries as arrived |
| Tasks.PriorityIsLexicographic | source/kernel/src/Task.c:603-606 | The combined priority orders tasks by category first and by level 1 to 5 second, is different for different pairs, and does not wrap |
| Tasks.AddSortedKeeps | source/kernel/src/List.c:487-585 | Sorted insertion of a new identifier keeps the list strictly ascending and adds exactly that task |
| KernelRuns.EveryRun | source/kernel/src/Core.c:781-821 | In every run from the start: state fields match places, the two lists ascend, the queue is in order, every task is in at most one place, the idle task is in exactly one and waits for nothing, the mock event stays first and event identifiers differ |
| KernelRuns.ActionKeeps | source/kernel/src/Core.c:707-752 | Every operation (create, delete, priority, register, handle, remove, emit, start, tick) keeps that invariant |
| KernelRuns.ActionCounts | source/kernel/src/Core.c:781-821 | An operation changes the number of places a task is in only for the one it creates and for the one it destroys |
| KernelRuns.ExistsInOnePlace | source/kernel/src/Core.c:781-821 | In every run a task that was created and not destroyed since is in exactly one of waiting list, idle list, queue and running, and any other identifier in none |
| KernelRuns.TakesNextArrival | source/kernel/src/Scheduler.c:55-64 | What the queue hands out is the earliest arrival of maximal priority among all that came in and were not taken |
| KernelRuns.IdleIsReady | source/kernel/src/Core.c:814-818 | Whenever the queue is empty and the idle task does not run, the idle task is in the idle list |
| KernelRuns.InitialInv | source/kernel/src/Task.c:85-120 | The state after initialisation satisfies the invariant |
| KernelRuns.NextIsNew | source/kernel/src/Task.c:149-167 | The identifier a new task gets belongs to no task in any list |
| KernelTasks.ActionOnTask | source/kernel/src/Core.c:707-821 | What any operation, tick included, may do to any task: unless destroyed it is in some place afterwards, with its category; its priority changes and its deletion flag is set exactly when TaskPrioritySet or TaskDelete reaches it; its registrations change only by what the running task does with its own and, in source, code, lifetime and other flags unchanged, by the progress of a cycle |
| KernelTasks.DeletionLasts | source/kernel/src/Core.c:781-821 | A deletion flag stays through every run in which the task is not destroyed |
| KernelTasks.DeletedEventually | source/kernel/src/Task.c:195-223 | A task that TaskDelete has reached is flagged through every run until it is destroyed, and the first switch that finds it running without registrations destroys it |
| KernelTasks.EveryRunDistinct | source/kernel/src/Event.c:82-132 | In every run from the start the registrations of each task have different identifiers |
| KernelEffects.InitialEffect | source/kernel/src/Core.c:249-292 | At the start there are exactly the idle task, at rest under the first task identifier with the lowest priority there is, and the mock event |
| KernelTimes.TickWakes | source/kernel/src/Core.c:725-739 | In every reachable state a tick moves a task to the queue if and only if it wakes by the events emitted so far, and leaves it in its list otherwise; the switch comes first |
| KernelTimes.SwitchTakes | source/kernel/src/Core.c:814-820 | A switch runs the earliest arrival of maximal priority, or the idle task when the queue is empty |
| KernelEffects.SwitchEffect | source/kernel/src/Core.c:781-821 | A switch changes states only: the running task, otherwise as it was, deletion flag included, joins the waiting list if it has registrations, the idle list if it has none and is not flagged, and nothing otherwise; the next task, otherwise as it was, leaves its list and runs; all other tasks stay as and where they are |
| KernelOrder.ServedInTurn | source/kernel/src/Core.c:725-739 | Over every run of states that satisfy the invariant: a queued task with k tasks in front of it runs at the (k + 1)-th dispatching tick if no task of higher priority arrives before, and m such arrivals delay it by exactly as many ticks as of them came in time, so by at most m; until then it is queued |
| KernelOrder.QueuedUntilDue | source/kernel/src/Scheduler.c:231-285 | Until then its place in the queue is k and the arrivals of higher priority so far less the dispatching ticks so far |
| KernelOrder.ArrivalsShift | source/kernel/src/Scheduler.c:231-285 | Arrivals of higher priority go in front of a queued task, all others behind it |
| KernelOrder.Trace | source/kernel/src/Core.c:707-752 | Every allowed run has such states, from its first to its last |
| KernelTimes.DestroyedIff | source/kernel/src/Core.c:791-812 | In reachable states a switched task is destroyed if and only if it is flagged for deletion and has no registered event left |
| KernelEffects.DeleteIff | source/kernel/src/Task.c:195-223 | TaskDelete succeeds if and only if its target is the running task or in one of the two lists; then that task, wherever it is, is flagged and nothing else changes; otherwise nothing changes at all |
| KernelEffects.DeletedIsGone | source/kernel/src/Core.c:795-812 | A task that deletes itself and has no registrations is in no place after the next tick that dispatches |
| KernelTimes.IdleIsNotProtected | source/kernel/src/Core.c:799-820 | The guard of the deletion branch spares only an idle task of the OS category; the idle task is of the low category, so once it is flagged its next switch destroys it, and exactly when the queue is empty the TCB just freed becomes the running one |
| KernelTimes.RunAges | source/kernel/src/Event.c:219-234 | In every run whose ticks are short enough for the 32-bit sum, the counter of each emitted event is the time since its last emission, and below its lifetime |
| KernelTimes.CycleAges | source/kernel/src/Scheduler.c:131-140 | Provided that the time of the cycle and the lifetime do not wrap when added: an emitted event is destroyed in the first cycle in which the time since its last emission reaches its lifetime, and in none before |
| KernelTimes.TimesOutOnTime | source/kernel/src/Scheduler.c:204-214 | Over every allowed run through which a task stays in the waiting list, with ticks short enough for the 32-bit sum of time and lifetime: an unmatched registered event with a timeout wakes it in the next tick if and only if its counter at the start, the time of all cycles of the run and that of the tick reach its lifetime; the task is then in the queue, and if nothing else can wake it only then |
| KernelTimes.WaitingCounts | source/kernel/src/Scheduler.c:204-214 | Over every such run, with ticks as short, whatever the actions in between, the counter of the event is the one at the start and the time of all cycles since, and below its lifetime |
| KernelTimes.QueuedIsOutOfReach | source/kernel/src/Task.c:415-442 | A queued task is not reached by TaskPrioritySet, which fails and changes nothing, so it cannot disturb the order of the queue |
| KernelTimes.PrioritySetIff | source/kernel/src/Task.c:415-442 | TaskPrioritySet succeeds exactly for the running task (ID_INVALID) or one that rests or waits, gives that one, wherever it is, the combined priority of its category and the level and nothing else, and changes nothing when it fails |
| KernelTimes.ChangesOnlyFound | source/kernel/src/Task.c:626-637 | A change through KTcbFromId reaches the resting or waiting task with the identifier and no other |
| KernelTimes.StartRuns | source/kernel/src/Core.c:374-388 | OsStart runs the wanted task if it exists and otherwise the idle task |
| KernelEffects.StartEffect | source/kernel/src/Core.c:374-388 | The started task leaves the idle list with only its state changed; nothing else changes |
| Events.IncrementRightIff | source/kernel/src/Event.c:219-229 | Adding a time to a counter below its lifetime is right if and only if the 32-bit sum does not wrap back below the lifetime; it never does when time plus lifetime are at most 2^32 |
| Events.EmitKeeps | source/kernel/src/Event.c:135-160 | Emission keeps event identifiers distinct and is refused exactly if a live event has the hash, whose lifetime then starts anew; otherwise a fresh event with exactly the flags asked for is last; no other event changes |
| Events.NewEventIs | source/kernel/src/Event.c:51-66 | A new event has each of the eight flags if and only if it is set in the flags given or in the top byte of the code |
| KernelEffects.EmitEffect | source/kernel/src/Event.c:135-160 | An emission changes nothing but the list of emitted events |
| KernelEffects.EmissionWakes | source/kernel/src/Event.c:135-160 | An accepted emission without address queues, at the next tick, every waiting or idle task that is registered for its source and code, and none besides that would not wake anyway |
| Events.RegisterKeeps | source/kernel/src/Event.c:82-132 | The same for registration in a task, but an event without timeout is not touched, and an infinite timeout makes one: the flags are exactly those asked for and this one |
| Events.MockIff | source/kernel/src/Event.c:390-393 | An event passes for the mock event if and only if it was made with its source, its whole code and no flags |
| BrokerOrder.TimeoutsDecided | source/kernel/src/Scheduler.c:199-214 | For a task queued throughout: a match clears a timeout and resets the counter; unless the last event matches, the time is added once, and the event times out exactly if that reaches its lifetime |
| KernelTimes.ResumeWakesIff | source/kernel/src/Task.c:546-552 | A resumed task that rests or waits is in the queue after the next tick, with or without a dispatch (but the idle task may run at once), if and only if the request is accepted or the task wakes without it |
| KernelTimes.ResumeWakes | source/kernel/src/Task.c:546-552 | In particular it is if the request is accepted, or refused because an event addressed to the task is emitted already |
| KernelTimes.CreatedTask | source/kernel/src/Task.c:149-167 | A created task rests without events or flags, with the combined priority of its arguments, under an identifier nobody has; nothing else changes in the lists |
| KernelEffects.StartedIsQueued | source/kernel/src/Task.c:184-186 | A task created with the start parameter is in the queue after the next tick, unless an event with the hash of its activation is emitted already |
| KernelTimes.HandledEvent | source/kernel/src/Task.c:520-544 | A handled event is reset, with its identifier, source, code, lifetime and permanent flag, if permanent and gone otherwise; the other registrations stay |
| KernelEffects.HandleEffect | source/kernel/src/Task.c:520-544 | Handling changes nothing but the registrations of the running task: a permanent one is as new, with its identifier, lifetime and other flags, any other is gone, the rest stay |
| KernelEffects.RemoveEffect | source/kernel/src/Task.c:323-332 | TaskPollRemove takes out one registration with the hash, leaves the others in order, and reports an error exactly if there is none; nothing else changes |
| KernelEffects.RegisterEffect | source/kernel/src/Event.c:82-132 | Registering leaves in the running task its old registrations and, at the tail, a fresh one with exactly the flags asked for; if the hash is registered already, that one starts its lifetime anew, unless it has none, and the answer is a failure; nothing else of the state changes |
| Events.EmitLost | source/kernel/src/Event.c:135-142 | Counterexample: an event is refused, and only refreshes another one, when it hashes to a live different event |
| Scheduler.Scheduler.EventBrokerCycle | source/kernel/src/Scheduler.c:74-149 | The nested loops over lists that change underneath leave exactly the lists and events of the functional cycle |
| Scheduler.Scheduler.TaskListCompare | source/kernel/src/Scheduler.c:155-176 | Comparing one list while tasks leave it: who stays, who moves and in which order they arrive |
| Scheduler.Scheduler.TaskEventsCompare | source/kernel/src/Scheduler.c:180-228 | Comparing one task: its new events and state, and its move exactly when it became active |
| Scheduler.Scheduler.TaskCompare | source/kernel/src/Scheduler.c:192-223 | The loop over the registered events of a task updates each of them and activates the task if any is flagged |
| Scheduler.Scheduler.QueueCompare | source/kernel/src/Scheduler.c:128-129 | Comparing the queue moves nothing |
| Scheduler.Scheduler.TaskAddDescendingPriority | source/kernel/src/Scheduler.c:231-285 | The task leaves one list and enters the other in front of the first task of lower priority, behind its equals |
| Scheduler.Scheduler.TaskAddress | source/kernel/src/Scheduler.c:105-114 | An addressed task of the idle or waiting list becomes active and joins the queue; any other address changes nothing |
| Scheduler.Scheduler.TcbFromId | source/kernel/src/Task.c:626-637 | The task of the idle list with the identifier, or else of the waiting list, or null |
| Scheduler.Scheduler.TcbLocationGet | source/kernel/src/Task.c:609-623 | The list that holds the identifier, idle list first, or null |
| Scheduler.Scheduler.QueueTaskPop | source/kernel/src/Scheduler.c:55-64 | Takes the head of the queue, or answers null and changes nothing |
| Scheduler.Scheduler.EventAge | source/kernel/src/Scheduler.c:131-140 | The emitted event is aged, or removed when its lifetime is reached; the mock event is left alone |
| Scheduler.Scheduler.EventEmit | source/kernel/src/Event.c:135-160 | Refuses and refreshes when the hash is live, appends at the tail otherwise |
| Core.OsInit | source/kernel/src/Core.c:249-292 | After initialisation: the idle task alone in the idle list, the mock event alone in the event list, and the invariant of the runs |
| Core.Core.Perform | source/kernel/src/Core.c:707-821 | Whatever the state machine allows can be done on the fields from every state of a run, does what the state machine says and keeps the invariant: the runs of the class are the runs of the state machine |
| Core.Core.SwitchTask | source/kernel/src/Core.c:781-821 | The fields after the switch are those of the state machine: the running task put away, the next one running |
| Core.Core.Tick | source/kernel/src/Core.c:707-752 | Switch on dispatch first, then a broker cycle if nothing is locked |
| Core.Core.OsStart | source/kernel/src/Core.c:374-388 | The wanted task, or the idle task, leaves the idle list and runs |
| Core.Core.TaskCreate | source/kernel/src/Task.c:122-193 | Rejects bad level, category or mode; otherwise the new task is in the idle list with its combined priority, and with the start parameter an activation event is addressed to it |
| Core.Core.TaskDelete | source/kernel/src/Task.c:195-223 | Flags the running task, or the one found, and nothing else |
| Core.Core.TaskPrioritySet | source/kernel/src/Task.c:415-442 | New priority for the running task or the one found; error cases change nothing |
| Core.Core.EventRegister | source/kernel/src/Event.c:82-132 | Refreshes a live registration (unless it has no timeout), appends a new one otherwise |
| Core.Core.EventHandle | source/kernel/src/Task.c:520-544 | A permanent event is reset, any other removed |
| Core.Core.PollRemove | source/kernel/src/Task.c:323-332 | Removes the registration with the hash, or reports an error |
| Memory.Memory.KMemInit | source/kernel/src/Memory.c:76-111 | For every heap size the heap is zeroed and the object pool, at index 0, takes what the user heap leaves; critical error exactly when nothing is left, there is no table entry, or the whole of a heap is asked for whose last byte alone is in its last block; in a heap of whole blocks pools and heap are consistent |
| Memory.Memory.MemPoolCreate | source/kernel/src/Memory.c:114-175 | For every heap size it succeeds if and only if the pool size is valid, an entry is unused and the scan accepts a place; takes the first unused entry and the lowest place; in a heap of whole blocks that is the lowest gap, none is missed, and pools stay disjoint, 16-aligned and inside the heap |
| Memory.Memory.FindGap | source/kernel/src/Memory.c:144-154 | For every heap size the scan with its skip to end_index + 1 ends, and finds the lowest place where enough blocks start in no pool and before the last byte of the heap, or there is none |
| PoolGaps.GapIsApart | source/kernel/src/Memory.c:494-506 | Testing the block starts is enough: a gap whose block starts are in no pool shares no byte with one |
| PoolGaps.ScanStaysInsideIff | source/kernel/src/Memory.c:139-157 | What that scan accepts lies inside the heap, for every pool table and every pool size, if and only if the heap size leaves a remainder of 0 or 1 modulo 16: otherwise a pool as large as the heap reaches beyond its end; no gap is ever missed |
| PoolGaps.CreateKeeps | source/kernel/src/Memory.c:155-160 | A pool in a gap is tiled by free blocks, apart from all others |
| PoolGaps.DeleteKeeps | source/kernel/src/Memory.c:177-194 | After formatting, which leaves the last byte, every aligned header of the deleted pool outside other pools reads zero |
| Memory.Memory.MemPoolFormat | source/kernel/src/Memory.c:196-217 | All blocks free, counters reset, all other pools untouched; restricted outside kernel mode for the object pool; it is a step of the runs |
| Memory.Memory.MemPoolDelete | source/kernel/src/Memory.c:177-194 | The bytes of the pool but the last are zero, nothing else in the heap changes and the entry is unused again; invalid and restricted identifiers change nothing; it is a step of the runs |
| Memory.Memory.MemAlloc | source/kernel/src/Memory.c:266-328 | First fit, sound and complete: an admitted request succeeds if and only if enough contiguous free blocks exist, takes the lowest, writes only the header word and holds the bytes asked for; the heap stays consistent if and only if the size did not wrap to no blocks, and no tiling describes it otherwise |
| Memory.Memory.FindFit | source/kernel/src/Memory.c:298-313 | The header walk ends, and finds the first fit or none exists |
| PoolLive.WalkEnds | source/kernel/src/Memory.c:302-313 | A header walk lands exactly on end_index + 1 |
| PoolLive.AllocatesKeeps | source/kernel/src/Memory.c:315-319 | The tiling, the counters and all other pools survive an allocation, whose data address is then live |
| PoolLive.AllocatesKeepsOthers | source/kernel/src/Memory.c:315-319 | An allocation changes no byte and no place of any other live allocation, and overlaps none |
| PoolLive.FreesKeepsLive | source/kernel/src/Memory.c:429-462 | Freeing one allocation leaves every other live at its address |
| PoolLive.FreesKeepsBytes | source/kernel/src/Memory.c:452-454 | Freeing one allocation changes no byte of any other |
| PoolLive.LiveAreApart | source/kernel/src/Memory.c:298-317 | Two live allocations, of one pool or of two, share no byte |
| PoolLive.AllocThenFree | source/kernel/src/Memory.c:429-462 | Allocating and freeing again restores the pool table and the tiling of all pools |
| Memory.Memory.MemFree | source/kernel/src/Memory.c:429-462 | NULL reference, no pool, restricted pool and success are told apart exactly; on success the allocation becomes zeroed free blocks, the counters follow and the caller's pointer becomes NULL |
| Memory.Memory.PoolIdFromIndex | source/kernel/src/Memory.c:494-506 | A pool that owns the index, or ID_INVALID when none does |
| Memory.Memory.PoolIdFromPointer | source/kernel/src/Memory.c:508-526 | A pool that contains the pointer, or ID_INVALID when none does |
| Memory.Memory.Write | source/kernel/src/Memory.c:315-319 | A program that writes into the data of a live allocation disturbs no tiling |
| Memory.Memory.MemPoolUsedSpaceGet | source/kernel/src/Memory.c:235-248 | For every pool size the sum of the live sizes, although the counters wrap |
| Memory.Memory.MemPoolFreeSpaceGet | source/kernel/src/Memory.c:220-233 | For pools of whole blocks the pool size less the live sizes |
| Memory.Memory.MemOsHeapFreeSpaceGet | source/kernel/src/Memory.c:250-263 | The heap size less all live sizes, without wrap-around |
| PoolRuns.RunKeeps | source/kernel/src/Memory.c:114-217 | In every run of create, delete, format, alloc, free and writes each pool stays tiled exactly by free blocks and allocations, pools stay apart, and every aligned header outside all pools is zero |
| PoolRuns.RunConserves | source/kernel/src/Memory.c:315-319 | In every run pool_size = mem_left + live sizes for pools of whole blocks, N counts the live allocations, and all live sizes fit the heap |
| PoolRuns.AllocationLasts | source/kernel/src/Memory.c:266-462 | In every run an allocation that is not freed, and whose pool is not formatted or deleted, stays at its address with its size, and its bytes, header included, are changed by nothing but writing its own data |
| PoolRuns.NeverHandedOutTwice | source/kernel/src/Memory.c:266-462 | In every run what a later allocation gets is apart from what an earlier one got, headers included, unless that was released in between |
| PoolRuns.PoolStays | source/kernel/src/Memory.c:114-218 | In every run a pool keeps its place and size until it is deleted |
| PoolSpace.AllUsedFits | source/kernel/src/Memory.c:250-263 | All allocations of all pools together fit the heap |
| PoolSpace.Conserved | source/kernel/src/Memory.c:315-319 | In pools of whole blocks pool_size = mem_left + live sizes and N = number of live allocations, with no wrap |
| PoolLimits.CountersExactIff | source/kernel/src/Memory.c:158 | No sequence of requests and releases makes the free-space counter wrap if and only if the pool size is a multiple of 16 |
| PoolLimits.TurnsDownIff | source/kernel/src/Memory.c:274-276 | A pool can come, from its creation on, to turn a satisfiable request down by the early test of mem_left if and only if its size leaves a remainder of 1 to 11 modulo 16 |
| PoolSpace.SatisfiableIsAdmitted | source/kernel/src/Memory.c:274-276 | In pools of whole blocks it never does |
| PoolSpace.AdmittedDoesNotWrap | source/kernel/src/Memory.c:294-296 | In pools of whole blocks an admitted size plus header does not wrap |
| PoolLimits.AdmitsWrapIff | source/kernel/src/Memory.c:274-296 | A pool can come to let the request pass whose size with the header wraps to no blocks if and only if its size leaves a remainder of 12 to 15 modulo 16 |
| PoolLimits.GrantedKeepsIff | source/kernel/src/Memory.c:294-319 | A granted request leaves a heap and a pool table that some tiling describes if and only if its size does not wrap to no blocks |
| PoolLimits.GrantedHolds | source/kernel/src/Memory.c:274-319 | An admitted request that gets blocks gets as many bytes as it asked for besides the header, in pools of every size |
| PoolLimits.WrappedRequest | source/kernel/src/Memory.c:274-319 | Counterexample on a 28-byte pool: full, its counter reads 2^32 - 4, and a request of that size passes the test, wraps to no blocks and is granted the start of a live allocation; no tiling describes what is left |
| PoolLimits.WrappedExample | source/kernel/src/Memory.c:274-319 | Such a pool exists: a heap of 32 bytes with it is consistent, and what the request makes of that heap is not |
| LinkedList.LinkedList.NodeAddAtPosition | source/kernel/src/List.c:326-386 | The pointer list holds the node at the head or the tail of the sequence, sorted is cleared, and each failure leaves the sequence alone |
| LinkedList.LinkedList.NodeAddAtNode | source/kernel/src/List.c:388-484 | The jumps insert exactly before or after the given node; failures change nothing |
| LinkedList.LinkedList.NodeRemove | source/kernel/src/List.c:587-648 | Links, head, tail and size represent the sequence without the node, for size 1, 2 and larger; a locked list is left alone; middle keeps pointing where it did |
| LinkedList.LinkedList.NodeRemoveFromHead | source/kernel/src/List.c:650-653 | The first node, if there is one and the list is unlocked |
| LinkedList.LinkedList.NodeSwap | source/kernel/src/List.c:683-754 | Any two nodes, or one twice, are exchanged in the sequence and sorted is cleared; the links represent it, and the list stays valid, if and only if the two are not neighbours; each failure changes nothing |
| LinkedList.LinkedList.ExchangeLinks | source/kernel/src/List.c:698-741 | What the pointer updates make of every link, of the head and of the tail, for any two positions, equal ones included |
| LinkedList.LinkedList.ExchangeRightIff | source/kernel/src/List.c:698-741 | Those links are the chain of the exchanged sequence if and only if the nodes are not neighbours; of neighbours each is left pointing to itself |
| LinkedList.LinkedList.RuinPasses | source/kernel/src/List.c:837-920 | The integrity check finds nothing wrong with the links that an exchange of neighbours leaves, or, above 255 nodes, meets no end in any number of steps, so that it does not come back |
| LinkedList.LinkedList.IntegrityVerify | source/kernel/src/List.c:837-920 | An intact list is reported intact and unlocked if it has at most 255 nodes; a longer one is reported corrupt and stays read-locked |
| LinkedList.LinkedList.Inspect | source/kernel/src/List.c:837-920 | On any links, corrupt ones too, the verdict says which end is wrong and in which direction the navigation meets an end before it has made size - 1 steps; a list found corrupt stays read-locked |
| ListIterator.Iterator.Init | source/kernel/src/List.c:928-969 | The iterator stands at the head or tail with the next node chosen; the lock byte is as before |
| ListIterator.Iterator.Next | source/kernel/src/List.c:971-1000 | It moves to the node chosen before and only then reads the one after |
| ListTraversal.VisitAll | source/kernel/src/List.c:928-1000 | A forward iteration visits the initial sequence exactly once and in order whatever the body does with each node: leave it, remove it, or move it in front of any node of another list; both lists are what these choices make of them |
| ListTraversal.NodeMove | source/kernel/src/List.c:661-671 | The node leaves one list and is at its place in the other if that is sorted or empty, and at its tail otherwise; a failed insertion leaves it in neither |
| ListSearch.SearchLinear | source/kernel/src/List.c:197-214 | The first node with the identifier, or null; the lock byte is as before |
| ListSearch.Search | source/kernel/src/List.c:216-255 | The same answer as a plain scan, whatever middle points to, in both directions and with both early exits |
| ListSorted.NodeAddSorted | source/kernel/src/List.c:487-585 | On an empty or sorted list: at its unique place, or unchanged when the identifier occurs; on another list: at the tail, answering OK whatever happened |
| ListSorted.PlaceIff | source/kernel/src/List.c:536-543 | There is a place for an identifier in an ascending list if and only if it does not occur, and then only one |
| RwLock.LockRefines | source/kernel/src/List.c:1112-1143 | On every byte that encodes a state the byte operation does what a reader/writer lock does |
| RwLock.UnlockRefines | source/kernel/src/List.c:1145-1161 | The same for unlocking |
| RwLock.EveryRunIsSafe | source/kernel/src/List.c:1112-1161 | In every interleaving of clients that unlock only what they hold: a writer excludes everyone, at most 63 readers, bit 6 never set, write mode means a count of 1 |
| RwLock.GrantedWhenAllowed | source/kernel/src/List.c:1112-1143 | A lock is granted if and only if the reader/writer discipline allows it |
| RwLock.LockThenUnlock | source/kernel/src/List.c:1112-1161 | Unlocking after a granted lock brings the byte back |
| CrcStream.Compute | source/kernel/src/Crc32.c:78-90 | The table-driven loop computes the bit-by-bit register with generator 0x04C11DB7, for every start value and buffer |
| Crc32.TableStepIsBitwise | source/kernel/src/Crc32.c:85 | One table step is eight steps of the bitwise register |
| Crc32.TableIsClocks | source/kernel/src/Crc32.c:10-76 | Each of the 256 table entries is its index put through eight clocks of the register |
| CrcStream.Chunks | source/kernel/src/Crc32.c:78-90 | The checksum of a concatenation is the checksum of the second part started from that of the first |
| CrcStream.SameChecksum | source/kernel/src/Crc32.c:78-90 | Two buffers of one length share a checksum, from any start, if and only if the checksum of their difference from 0 is 0 |
| CrcStream.BurstDetected | source/kernel/src/Crc32.c:78-90 | Every change confined to four neighbouring bytes changes the checksum |
| CrcStream.Residue | source/kernel/src/Crc32.c:78-90 | Appending the checksum, most significant byte first, makes the checksum 0 |
| Fletcher.Generate | source/kernel/src/Fletcher.c:3-21 | The running sums are the plain and the position-weighted sum modulo 255, and the result their check bytes |
| Fletcher.Verify | source/kernel/src/Fletcher.c:23-34 | True if and only if the data are not empty and their checksum is the given one |
| Fletcher.AppendedSumsVanish | source/kernel/src/Fletcher.c:16-19 | With the upper and then the lower byte of their checksum appended, data have both sums 0 modulo 255 |
| Fletcher.SameChecksum | source/kernel/src/Fletcher.c:3-21 | Two inputs share a checksum if and only if both sums agree modulo 255 |
| Fletcher.OneByteChange | source/kernel/src/Fletcher.c:3-21 | A change of one byte goes unnoticed if and only if it is between 0 and 255 |
| Fletcher.NeighboursSwapped | source/kernel/src/Fletcher.c:3-21 | Neighbours that change places go unnoticed if and only if they are equal or 0 and 255 |
| Fletcher.NeverZero | source/kernel/src/Fletcher.c:3-21 | The checksum of non-empty data is never 0 |
| Fletcher.EventBytesTell | source/kernel/src/Event.c:374-380 | The eight bytes that are hashed are the code and then the source, each lowest byte first, and tell both |
| Fletcher.HashEqual | source/kernel/src/Event.c:374-380 | Two events have one identifier exactly when both sums of their eight bytes agree modulo 255 |
| Fletcher.HashCollides | source/kernel/src/Event.c:374-380 | Counterexample: specifiers that differ in a low byte of 0x00 and 0xFF give one identifier |
| IdType.IdPools.constructor | source/kernel/src/IdType.c:29-35 | Nothing has been handed out in any group |
| IdType.IdPools.Request | source/kernel/src/IdType.c:37-60 | The answer and the new counts are those of the specification of a request |
| IdType.AnswerIsCount | source/kernel/src/IdType.c:37-60 | The n-th request for a group is answered by its group and number, 2^24 - 1 times, and by ID_INVALID ever after |
| IdType.NeverTwice | source/kernel/src/IdType.c:37-60 | Over any run no identifier is handed out twice, across all groups |
| IdType.Decodes | source/kernel/src/IdType.c:62-77 | An identifier tells its group and its sequence number |

## Left out

- Ports, HAL, UART, watchdog, logger and shell: hardware, I/O and text.
- Ring buffers, event groups, mailboxes, semaphores, recursive locks and timers: separate modules built on the ones modelled here.
- Pre-emptive scheduling: not implemented by the repository. Task handlers are any sequence of allowed operations.
- Wall-clock conversion and the run-time counters of tasks: the time between cycles is an arbitrary number.
- ListDestroy, ListMerge, ListIteratorPrev, MemReAlloc, MemAllocSizeGet: leave their structures broken or unchanged in ways no caller can rely on.
- KMemAllocObject and KMemFreeObject: pairs of calls of the modelled functions; a failed object allocation hangs the system, so creating tasks and events is taken to find memory.
- The rest of TaskPoll, TaskWait and the result codes of a poll: easy case distinctions over the operations modelled.
- Core.Core: the task lists are sequences of task objects whose operations succeed, as those of unlocked lists of at most 255 nodes do; the list modules state when they do not. Events belong to one list each and are modelled on values, so the address of an event object is not captured.
- Core.Core.TaskCreate: the identifier is requested before the object is made, not within the sorted insertion; name, stack, arguments and deadline of a task are not modelled.
- Core.Core.TaskDelete: events for creation and deletion of tasks, which a build can switch on, are not emitted; that the caller's variable is set to ID_INVALID is not modelled.
- Scheduler.Scheduler.TaskListCompare: the loop over the queue, where nothing moves, is the separate method QueueCompare.
- Scheduler.Scheduler.EventBrokerCycle: the iterator is a cursor into a sequence of task objects; the same loops over the linked lists, with the iterator of the list, are BrokerLists.CompareList and BrokerLists.AgeList. The trap for an empty event list is a precondition.
- BrokerTasks.ListedTime: for registrations that no compared event matches and a cycle so short that twice its time and the lifetime do not wrap; a match resets the counter, which Broker.CompareEvent and BrokerOrder.TimeoutsDecided state.
- BrokerLoops.MoveActive: which tasks are active is given beforehand, as one comparison decides it from that task alone; BrokerLists.CompareList takes it from the comparison. The place in the queue is searched before the task leaves its list, not after; the queue is another list.
- BrokerLoops.DropExpired: which events expire is given beforehand; BrokerLists.AgeList takes it from the ageing.
- BrokerLists.CompareList: the tasks that the nodes carry are a map from nodes to values, not objects.
- LinkedList.LinkedList.NodeSwap: on more than 255 nodes an exchange of neighbours, after which the integrity check does not end (LinkedList.LinkedList.RuinPasses), is excluded; so is a node of another list.
- LinkedList.LinkedList.Inspect: a list with nodes has a head and a tail, whose absence the code does not test, and above 255 nodes the links come to an end, as the loop, whose counter wraps, does not otherwise.
- LinkedList.LinkedList.NodeAddAtNode: adding after NULL, which the code would follow, is excluded.
- LinkedList.LinkedList.NodeRemove: a node of another list, which the code would not notice, is excluded; child pointers and node locks are not modelled, nor that middle may point to freed memory.
- ListIterator.Iterator.Next: iterating in reverse while nodes leave is not stated; the kernel only iterates forward then.
- ListSearch.SearchLinear: an empty list, whose missing head the code follows, is excluded.
- Memory.Memory.MemPoolCreate: the scan for an unused entry tests the bound before it reads, where the code reads first.
- Memory.Memory.KMemInit: heaps of more than 0xFFFF_FFF0 bytes, where the indices of the scan wrap, are excluded; NULL arguments are not modelled; memory protection padding is compiled out.
- Memory.Memory.MemAlloc: allocating, freeing, formatting and deleting are for heaps of whole blocks, since pools can reach beyond other heaps (PoolGaps.ScanStaysInsideIff).
- Memory.Memory.MemOsHeapFreeSpaceGet: at most 255 pools, the range of its loop counter.
- Memory.Memory.MemFree: a pointer into a pool is one that MemAlloc returned and that has not been freed since.
