/**
  The selector: given the queue, the set of running serial tags, the time and the
  task a worker may already hold, pick out the task the worker should take instead.
 */
module Selector {
  import opened Wrappers
  import opened TaskProfiles
  import opened Waiting

  /** The bound a candidate must beat when the worker holds no task. */
  const UInt64Max: int := 0xffff_ffff_ffff_ffff

  /** The wait of a queued task at time `now`: WaitTime of the profile half of the (profile, payload) pair. */
  function Wait(t: Task, now: nat): nat
  {
    WaitTime(t.profile, now)
  }

  /** A tag blocks nobody when it is the no-tag value or no task carrying it runs. */
  predicate TagFree(tag: int, running: set<int>)
  {
    tag == NoSerialTag || tag !in running
  }

  /** A task can be dispatched right now: it is due and its tag is free. */
  predicate Ready(t: Task, running: set<int>, now: nat)
  {
    Wait(t, now) == 0 && TagFree(t.profile.serialTag, running)
  }

  /** No task among the first `n` is ready. */
  predicate NoneReadyBefore(tasks: seq<Task>, running: set<int>, now: nat, n: nat)
    requires n <= |tasks|
  {
    forall j :: 0 <= j < n ==> !Ready(tasks[j], running, now)
  }

  /** `i` is the first ready task in list order. */
  predicate FirstReady(tasks: seq<Task>, running: set<int>, now: nat, i: nat)
  {
    i < |tasks| && Ready(tasks[i], running, now) && NoneReadyBefore(tasks, running, now, i)
  }

  /** No task among the first `n` has a positive wait below `bound`. */
  predicate NoneFaster(tasks: seq<Task>, now: nat, bound: int, n: nat)
    requires n <= |tasks|
  {
    forall j :: 0 <= j < n ==> Wait(tasks[j], now) == 0 || Wait(tasks[j], now) >= bound
  }

  /**
    Among the first `n` tasks, `i` has the least positive wait, that wait is below
    `bound`, and no earlier task has a positive wait as small (ties go to the
    earliest listed).
   */
  predicate EarliestFastest(tasks: seq<Task>, now: nat, bound: int, i: nat, n: nat)
    requires n <= |tasks|
  {
    && i < n
    && 0 < Wait(tasks[i], now) < bound
    && (forall j :: 0 <= j < i ==> Wait(tasks[j], now) == 0 || Wait(tasks[j], now) > Wait(tasks[i], now))
    && (forall j :: i < j < n ==> Wait(tasks[j], now) == 0 || Wait(tasks[j], now) >= Wait(tasks[i], now))
  }

  /**
    The reference characterisation of the selector's choice with bound `bound`:
    the first ready task if there is one; otherwise the earliest-listed task with
    the least positive wait, provided it beats `bound`; otherwise nothing.
   */
  predicate IsSelection(tasks: seq<Task>, running: set<int>, now: nat, bound: int, r: Option<nat>)
  {
    match r
    case Some(i) =>
      || FirstReady(tasks, running, now, i)
      || (NoneReadyBefore(tasks, running, now, |tasks|) && EarliestFastest(tasks, now, bound, i, |tasks|))
    case None =>
      NoneReadyBefore(tasks, running, now, |tasks|) && NoneFaster(tasks, now, bound, |tasks|)
  }

  /** At most one answer meets the characterisation. */
  lemma IsSelectionUnique(tasks: seq<Task>, running: set<int>, now: nat, bound: int, r1: Option<nat>, r2: Option<nat>)
    requires IsSelection(tasks, running, now, bound, r1)
    requires IsSelection(tasks, running, now, bound, r2)
    ensures r1 == r2
  {
  }

  /**
    The selector's scan from position `i`, with `best` the candidate found so far
    (its wait is the running minimum, `bound` while there is none). A due task
    whose tag is free ends the scan; a due task whose tag is running is skipped;
    a task with a positive wait replaces the candidate only when strictly faster.
    The requires clauses are the scan's invariant over the prefix already seen.
   */
  function Scan(tasks: seq<Task>, running: set<int>, now: nat, bound: int, i: nat, best: Option<nat>): (r: Option<nat>)
    requires i <= |tasks|
    requires NoneReadyBefore(tasks, running, now, i)
    requires best.None? ==> NoneFaster(tasks, now, bound, i)
    requires best.Some? ==> EarliestFastest(tasks, now, bound, best.value, i)
    ensures IsSelection(tasks, running, now, bound, r)
    decreases |tasks| - i
  {
    if i == |tasks| then
      best
    else
      var wait := Wait(tasks[i], now);
      var minWait := if best.Some? then Wait(tasks[best.value], now) else bound;
      if wait == 0 then
        if TagFree(tasks[i].profile.serialTag, running) then Some(i)
        else Scan(tasks, running, now, bound, i + 1, best)
      else if wait < minWait then
        Scan(tasks, running, now, bound, i + 1, Some(i))
      else
        Scan(tasks, running, now, bound, i + 1, best)
  }

  /** The wait a candidate must beat: that of the held task, or UInt64Max without one. */
  function Bound(held: Option<Task>, now: nat): int
  {
    if held.Some? then Wait(held.value, now) else UInt64Max
  }

  /** The held task is already due, so nothing can be faster. */
  predicate OldDue(held: Option<Task>, now: nat)
  {
    held.Some? && Wait(held.value, now) == 0
  }

  /**
    The position the selector picks out of `tasks`, or None. A held task that is
    already due (in particular a held Immediate task) makes the answer None;
    otherwise the answer is the unique one the reference characterisation admits.
   */
  function PickIndex(tasks: seq<Task>, running: set<int>, now: nat, held: Option<Task>): (r: Option<nat>)
    ensures r.Some? ==> r.value < |tasks|
    ensures OldDue(held, now) ==> r.None?
    ensures !OldDue(held, now) ==> IsSelection(tasks, running, now, Bound(held, now), r)
  {
    if OldDue(held, now) then None
    else Scan(tasks, running, now, Bound(held, now), 0, None)
  }

  /** What the selector hands back: the picked task, if any, and the queue afterwards. */
  datatype Selection = Selection(picked: Option<Task>, queue: seq<Task>)

  /** `tasks` without its element at position `i`, the others in order. */
  function RemoveAt(tasks: seq<Task>, i: nat): (s: seq<Task>)
    requires i < |tasks|
    ensures |s| == |tasks| - 1
    ensures forall j :: 0 <= j < i ==> s[j] == tasks[j]
    ensures forall j :: i <= j < |s| ==> s[j] == tasks[j + 1]
    ensures multiset(s) + multiset{tasks[i]} == multiset(tasks)
  {
    assert tasks == tasks[..i] + [tasks[i]] + tasks[i + 1..];
    tasks[..i] + tasks[i + 1..]
  }

  /**
    The selector: pick out the task chosen by PickIndex, remove it from the
    queue and put the held task, if any, at the back. When nothing is picked
    the queue is untouched; when something is, the queue plus the held task is
    a permutation of the new queue plus the picked task.
   */
  function Pick(tasks: seq<Task>, running: set<int>, now: nat, held: Option<Task>): (s: Selection)
    ensures OldDue(held, now) ==> s == Selection(None, tasks)
    ensures s.picked.None? ==> s.queue == tasks
    ensures s.picked.Some? ==> s.picked.value in tasks
    ensures s.picked.Some? ==> multiset(tasks) + multiset(ToSeq(held)) == multiset(s.queue) + multiset{s.picked.value}
    ensures s.picked.Some? ==> |s.queue| == |tasks| - 1 + |ToSeq(held)|
  {
    match PickIndex(tasks, running, now, held)
    case None => Selection(None, tasks)
    case Some(i) => Selection(Some(tasks[i]), RemoveAt(tasks, i) + ToSeq(held))
  }

  /**
    Whatever answer the reference characterisation admits is the one Pick acts
    on: the task at that position is picked out, the rest keep their order and
    the held task goes to the back; with no answer the queue is untouched.
   */
  lemma PickFollowsSelection(tasks: seq<Task>, running: set<int>, now: nat, held: Option<Task>, r: Option<nat>)
    requires !OldDue(held, now)
    requires IsSelection(tasks, running, now, Bound(held, now), r)
    ensures r.None? ==> Pick(tasks, running, now, held) == Selection(None, tasks)
    ensures r.Some? ==> r.value < |tasks|
    ensures r.Some? ==>
              Pick(tasks, running, now, held)
              == Selection(Some(tasks[r.value]), tasks[..r.value] + tasks[r.value + 1..] + ToSeq(held))
  {
    IsSelectionUnique(tasks, running, now, Bound(held, now), r, PickIndex(tasks, running, now, held));
  }

  /**
    When the held task is not yet due and some queued task is due with a free
    tag, the first such task in list order is picked, whatever its class.
   */
  lemma PickTakesFirstReady(tasks: seq<Task>, running: set<int>, now: nat, held: Option<Task>, k: nat)
    requires !OldDue(held, now)
    requires k < |tasks| && Ready(tasks[k], running, now)
    requires forall j :: 0 <= j < k ==> !Ready(tasks[j], running, now)
    ensures Pick(tasks, running, now, held).picked == Some(tasks[k])
    ensures Pick(tasks, running, now, held).queue == tasks[..k] + tasks[k + 1..] + ToSeq(held)
  {
    assert FirstReady(tasks, running, now, k);
    PickFollowsSelection(tasks, running, now, held, Some(k));
  }

  /** A due task whose tag is running is never picked out. */
  lemma PickSkipsBlocked(tasks: seq<Task>, running: set<int>, now: nat, held: Option<Task>)
    ensures var s := Pick(tasks, running, now, held);
      s.picked.Some? && Wait(s.picked.value, now) == 0 ==> TagFree(s.picked.value.profile.serialTag, running)
  {
  }

  /**
    When no queued task is ready, the task picked is the earliest-listed one
    with the least positive wait, and only if that wait is strictly below the
    held task's wait (below UInt64Max without a held task); otherwise nothing.
   */
  lemma PickTakesFastest(tasks: seq<Task>, running: set<int>, now: nat, held: Option<Task>)
    requires !OldDue(held, now)
    requires forall j :: 0 <= j < |tasks| ==> !Ready(tasks[j], running, now)
    ensures var s := Pick(tasks, running, now, held);
      s.picked.None? <==>
        forall j :: 0 <= j < |tasks| ==> Wait(tasks[j], now) == 0 || Wait(tasks[j], now) >= Bound(held, now)
    ensures var s := Pick(tasks, running, now, held);
      s.picked.Some? ==>
        exists k :: 0 <= k < |tasks| && EarliestFastest(tasks, now, Bound(held, now), k, |tasks|)
          && s.picked.value == tasks[k]
          && s.queue == tasks[..k] + tasks[k + 1..] + ToSeq(held)
  {
    var r := PickIndex(tasks, running, now, held);
    assert IsSelection(tasks, running, now, Bound(held, now), r);
    PickFollowsSelection(tasks, running, now, held, r);
    if r.Some? {
      var k := r.value;
      assert !FirstReady(tasks, running, now, k);
      assert EarliestFastest(tasks, now, Bound(held, now), k, |tasks|);
    }
  }
}
