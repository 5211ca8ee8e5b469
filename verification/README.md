# Scheduling core of a C++ thread pool, modelled in Dafny

The pool keeps a list of task records (`tasks_`) and a set of running serial tags (`running_serial_tags_`). Workers take the lock, ask the selector (`__PickOutTaskFasterThan`) for the task to run, wait until it is due (`__ComputeWaitTime`), dispatch it and, after running it, do the completion bookkeeping. Callers submit work through `Execute`, the tagged `Execute`, `ExecuteAfter` and `ExecutePeriodic`. This model strips away the threads, the lock and the condition variable. What is left is a set of pure steps on a `seq<Task>` queue and a `set<int>` of running tags, with the current time `now` passed in as a parameter.

Modules:

- `Wrappers` (`wrappers.dfy`): `Option`, which stands in for a pointer that may be NULL.
- `TaskProfiles` (`task_profile.dfy`): the `TaskProfile` record with its `Timing` class. Also the constants `NoSerialTag = -1` and `InvalidSeq = 0`, the sequence counter `MakeSeq`, and the record constructor `NewProfile`. A queued `Task` pairs a profile with an opaque payload id, as the source's `std::pair` does.
- `Waiting` (`wait_time.dfy`): `WaitTime`, the number of milliseconds until a record is due.
- `Selector` (`selector.dfy`): the selector. `Scan` follows the source's loop step by step. `IsSelection` is an independent reference characterisation of the choice, and `Scan` is proved to meet it. `IsSelectionUnique` shows the characterisation admits only one answer. `Pick` removes the chosen record and puts the held task back at the end of the queue.
- `ThreadPool` (`pool.dfy`): the lock-protected state `PoolState`, the four submission entry points, and the dispatch and completion bookkeeping of the worker loop. It also holds the queue invariant `Valid`. The submissions keep it. Taken over the queue plus the task a worker holds, selection and dispatch keep it too.

Where the header's doc comment and the code disagree, the model follows the code. The comment on `__PickOutTaskFasterThan` (threadpool.h:92-108) says an Immediate task is preferred over any timed task. The code returns the first task in list order that is due and whose tag is free, whatever its class (threadpool.cc:105-114). A due After or Periodic record listed before an Immediate one therefore wins. `PickTakesFirstReady` states this behaviour.

Line threadpool.cc:126 dereferences the iterator that line 122 has just erased. That is undefined behaviour in C++. The evident intent is to return the record that was removed, and `Pick` does exactly that.

The selector compares tags against the literal `-1` (threadpool.cc:110). `kNoSerialTag` is only declared (threadpool.h:143), not defined, so the model uses `-1` for it.

## Model

| member | source | states |
|---|---|---|
| TaskProfiles.MakeSeq | threadpool.h:22-25 | each sequence number handed out is above the previous one and above `kInvalidSeq = 0` |
| TaskProfiles.NewProfile | threadpool.cc:11-17 | a new record carries the given class, tag, after and period, and a fresh sequence number above the counter; a timed record is stamped with the current time |
| Waiting.WaitTime | threadpool.cc:131-143 | the wait is never negative; it is 0 exactly when the record is due (always for Immediate, otherwise when `now` has reached `record + after` or `record + period`); a positive wait is the exact distance from `now` to that deadline |
| Waiting.WaitTimeByClass | threadpool.cc:137-142 | per class: 0 for Immediate, `max(0, record + after - now)` for After, `max(0, record + period - now)` for Periodic |
| Waiting.WaitTimeElapses | threadpool.cc:134-142 | after `d` more milliseconds the wait has shrunk by `d`, down to 0 |
| Waiting.WaitingMakesDue | threadpool.cc:57-65 | a worker that sleeps for the reported wait finds the record due |
| Selector.Scan | threadpool.cc:100-120 | the list scan returns the first due task with a free tag; otherwise the earliest-listed task with the smallest positive wait below the bound; otherwise nothing |
| Selector.IsSelectionUnique | threadpool.cc:105-120 | the selector's choice is uniquely determined by the queue, running tags, time and bound |
| Selector.PickIndex | threadpool.cc:89-120 | a held task that is already due (Immediate in particular) means nothing is picked; otherwise the choice meets the characterisation, with the bound taken from the held task's wait or `kUInt64MaxValue` |
| Selector.RemoveAt | threadpool.cc:122 | erasing one record keeps the others in order and removes exactly that record from the multiset |
| Selector.Pick | threadpool.cc:121-128 | with no pick the queue is unchanged; with a pick, the queue plus the held task is a permutation of the new queue plus the picked task |
| Selector.PickFollowsSelection | threadpool.cc:89-128 | for a characterised choice `i`, the result is `tasks[i]` together with the queue without position `i`, other records in order, held task appended |
| Selector.PickTakesFirstReady | threadpool.cc:105-114 | when some queued task is due with a free tag, the first such task in list order is picked, whatever its class |
| Selector.PickSkipsBlocked | threadpool.cc:108-114 | a due task whose tag is running is never picked |
| Selector.PickTakesFastest | threadpool.cc:92-118 | with no ready task, the pick is the earliest-listed task with the least positive wait, only if that wait is strictly below the held task's wait (or `kUInt64MaxValue`); nothing is picked exactly when no task beats the bound |
| ThreadPool.Init | threadpool.cc:21-26 | a new pool has an empty queue and no running tags, is valid, and has nothing to pick |
| ThreadPool.AddTask | threadpool.h:121-136 | a submission appends one record with a fresh, larger sequence number and leaves the queued records and running tags alone |
| ThreadPool.AddTaskKeepsValid | threadpool.h:22-32 | submissions keep sequence numbers issued and unique, and keep timed records untagged while only Immediate records carry tags |
| ThreadPool.Execute | threadpool.h:52-56 | appends an untagged Immediate record with after = period = 0, ready at any time whatever tags are running |
| ThreadPool.ExecuteSerial | threadpool.h:61-65 | appends an Immediate record carrying exactly the given tag, ready exactly when that tag is free |
| ThreadPool.ExecuteAfter | threadpool.h:67-71 | appends an untagged After record with after = ms, period = 0, which is not due before ms have elapsed |
| ThreadPool.ExecutePeriodic | threadpool.h:73-82 | appends an untagged Periodic record with after = 0, period = ms, whose first wait is ms |
| ThreadPool.Dispatch | threadpool.cc:71-76 | dispatch adds the tag to the running tags; a Periodic record is restamped with `now` and re-appended, so its wait is its period; other records leave the queue |
| ThreadPool.Complete | threadpool.cc:79-83 | completion removes the tag from the running tags and puts nothing back |
| ThreadPool.PickRespectsExclusion | threadpool.cc:105-118 | while timed records are untagged, every picked task has a free tag |
| ThreadPool.PickKeepsRecords | threadpool.cc:121-126 | the selector keeps every queued record's sequence number issued and timed records untagged |
| ThreadPool.PickKeepsSeqsDistinct | threadpool.cc:121-126 | the selector neither duplicates nor loses a record: sequence numbers distinct over queue plus held task stay distinct over new queue plus picked task |
| ThreadPool.DispatchKeepsValid | threadpool.cc:71-76 | dispatching the task a worker holds keeps the invariant: a restamped Periodic record goes back with its sequence number, class and tag, and no sequence number is duplicated |
| ThreadPool.PickThenDispatchKeepsValid | threadpool.cc:47-76 | a worker's poll with no held task, followed by dispatch of the picked task, turns a valid state into a valid state |
| ThreadPool.DispatchClaimsTag | threadpool.cc:71 | dispatching a ready tagged task claims a tag that was free, so no task with that tag is ready until completion |
| ThreadPool.RunCycle | threadpool.cc:71-83 | a dispatch followed by completion restores the running tags; only a Periodic record comes back to the queue, restamped |

## Left out

- Threads, the mutex, the condition variable and the `wait_for` retry loop of the worker (threadpool.cc:28-69). The lock-protected steps are modelled as atomic functions. Timed blocking and wake-ups are concurrency, not sequential logic.
- The clock `gettickcount` (threadpool.cc:4-9). `now` is a parameter everywhere. The `_now == 0` default of `__ComputeWaitTime`, which reads the clock, becomes a `now` that is always supplied.
- `__ComputeWaitTime` on a NULL profile, which returns `(uint64_t)-1` (threadpool.cc:132). The selector never calls it that way.
- Waiting.WaitTime: uses mathematical integers. It does not model the uint64 wrap-around of `record + after - now` or the int64 cast that follows (threadpool.cc:138-140). Timestamps are natural numbers and `after`/`period` are unbounded signed integers.
- Selector.PickIndex: without a held task the bound is the literal `kUInt64MaxValue`. In the source a wait never reaches that value, because it passes through an `int64_t`. In the model a wait at or above it is not picked.
- `std::packaged_task`, `std::future`, `std::bind` and the payload call (threadpool.h:121-136, threadpool.cc:78). A payload is an opaque `JobId`, and the result handle is not modelled.
- Raw `new`/`delete` ownership (threadpool.cc:82, 154-158). Removing a record from the queue stands in for freeing it.
- The singleton `Instance()`, the undefined `Init()` and the destructor's stop/join/free sequence (threadpool.h:41-50, threadpool.cc:145-160). Shutdown, and the fact that a queued Periodic record keeps workers from ever returning, are questions of termination and concurrency.
- TaskProfiles.MakeSeq: does not model wrap-around of the `uint64_t` counter (threadpool.h:23-24). It would take 2^64 submissions, and the model's counter is unbounded.
- The sequence counter in `__MakeSeq` is a function-local static, so it is shared across the whole process. The model keeps its last value in `PoolState.lastSeq`.
- The record timestamp of an Immediate task is never initialised by the constructor (threadpool.cc:14-16) and never read. The model sets it to 0.
- An untagged task adds `-1` to the running tags, and its completion erases `-1` even while another untagged task still runs (threadpool.cc:71, 81). This is harmless because the selector never looks `-1` up. `Dispatch` and `Complete` model it as written.
- Nothing checks that a tag passed to the tagged `Execute` is positive or that a period is positive. The model accepts any integer, as the source does.
