/**
  The lock-protected state of the thread pool and the atomic steps that change
  it: the four submission entry points, and the bookkeeping a worker does when it
  dispatches a task and when the task completes.
 */
module ThreadPool {
  import opened Wrappers
  import opened TaskProfiles
  import opened Waiting
  import opened Selector

  /**
    The queue, the serial tags of running tasks (the no-tag value included when
    an untagged task runs) and the last value of the sequence counter.
   */
  datatype PoolState = PoolState(tasks: seq<Task>, running: set<int>, lastSeq: nat)

  /** Every record carries a sequence number handed out so far. */
  predicate SeqsIssued(tasks: seq<Task>, lastSeq: nat)
  {
    forall t :: t in tasks ==> InvalidSeq < t.profile.sequence <= lastSeq
  }

  /** No two queued records share a sequence number. */
  predicate SeqsDistinct(tasks: seq<Task>)
  {
    forall i, j :: 0 <= i < j < |tasks| ==> tasks[i].profile.sequence != tasks[j].profile.sequence
  }

  /** Only Immediate records carry a serial tag; timed records are untagged. */
  predicate TimersUntagged(tasks: seq<Task>)
  {
    forall t :: t in tasks ==> t.profile.timing == Immediate || t.profile.serialTag == NoSerialTag
  }

  /**
    The invariant of the queue, kept by the submission entry points and, taken
    over the queue plus the task a worker holds, by selection and dispatch.
   */
  predicate Valid(p: PoolState)
  {
    SeqsIssued(p.tasks, p.lastSeq) && SeqsDistinct(p.tasks) && TimersUntagged(p.tasks)
  }

  /** The pool as constructed: nothing queued, nothing running. */
  function Init(): (p: PoolState)
    ensures p.tasks == [] && p.running == {}
    ensures Valid(p)
    ensures forall running: set<int>, now: nat, held: Option<Task> ::
      Pick(p.tasks, running, now, held).picked.None?
  {
    PoolState([], {}, 0)
  }

  /**
    Enqueue one new record: it goes at the back with a fresh sequence number,
    above every number handed out before; the records already queued and the
    running tags stay as they were.
   */
  function AddTask(p: PoolState, timing: Timing, serialTag: int, after: int, period: int, job: JobId, now: nat): (q: PoolState)
    ensures q.running == p.running
    ensures |q.tasks| == |p.tasks| + 1 && q.tasks[..|p.tasks|] == p.tasks
    ensures q.lastSeq > p.lastSeq
    ensures q.tasks[|p.tasks|].job == job
    ensures q.tasks[|p.tasks|].profile.sequence == q.lastSeq
    ensures q.tasks[|p.tasks|].profile == NewProfile(timing, serialTag, after, period, now, p.lastSeq)
  {
    var profile := NewProfile(timing, serialTag, after, period, now, p.lastSeq);
    PoolState(p.tasks + [Task(profile, job)], p.running, profile.sequence)
  }

  /**
    A submission keeps sequence numbers issued and pairwise distinct, and keeps
    timed records untagged as long as only Immediate records come with a tag.
   */
  lemma AddTaskKeepsValid(p: PoolState, timing: Timing, serialTag: int, after: int, period: int, job: JobId, now: nat)
    ensures Valid(p) && (timing == Immediate || serialTag == NoSerialTag) ==>
              Valid(AddTask(p, timing, serialTag, after, period, job, now))
  {
  }

  /** Execute(f): an untagged Immediate record with no delay, ready at once. */
  function Execute(p: PoolState, job: JobId, now: nat): (q: PoolState)
    ensures q.running == p.running && q.lastSeq > p.lastSeq
    ensures |q.tasks| == |p.tasks| + 1 && q.tasks[..|p.tasks|] == p.tasks
    ensures var t := q.tasks[|p.tasks|];
      && t.job == job
      && t.profile.timing == Immediate && t.profile.serialTag == NoSerialTag
      && t.profile.after == 0 && t.profile.period == 0
      && t.profile.sequence == q.lastSeq
    ensures forall running: set<int>, later: nat :: Ready(q.tasks[|p.tasks|], running, later)
    ensures Valid(p) ==> Valid(q)
  {
    AddTaskKeepsValid(p, Immediate, NoSerialTag, 0, 0, job, now);
    AddTask(p, Immediate, NoSerialTag, 0, 0, job, now)
  }

  /** Execute(tag, f): an Immediate record carrying exactly `serialTag`, ready whenever that tag is free. */
  function ExecuteSerial(p: PoolState, serialTag: int, job: JobId, now: nat): (q: PoolState)
    ensures q.running == p.running && q.lastSeq > p.lastSeq
    ensures |q.tasks| == |p.tasks| + 1 && q.tasks[..|p.tasks|] == p.tasks
    ensures var t := q.tasks[|p.tasks|];
      && t.job == job
      && t.profile.timing == Immediate && t.profile.serialTag == serialTag
      && t.profile.after == 0 && t.profile.period == 0
      && t.profile.sequence == q.lastSeq
    ensures forall running: set<int>, later: nat ::
      Ready(q.tasks[|p.tasks|], running, later) <==> TagFree(serialTag, running)
    ensures Valid(p) ==> Valid(q)
  {
    AddTaskKeepsValid(p, Immediate, serialTag, 0, 0, job, now);
    AddTask(p, Immediate, serialTag, 0, 0, job, now)
  }

  /**
    ExecuteAfter(ms, f): an untagged After record stamped `now`; at any later
    time it still has to wait max(0, ms - elapsed), so it is not due before ms elapse.
   */
  function ExecuteAfter(p: PoolState, afterMillis: int, job: JobId, now: nat): (q: PoolState)
    ensures q.running == p.running && q.lastSeq > p.lastSeq
    ensures |q.tasks| == |p.tasks| + 1 && q.tasks[..|p.tasks|] == p.tasks
    ensures var t := q.tasks[|p.tasks|];
      && t.job == job
      && t.profile.timing == After && t.profile.serialTag == NoSerialTag
      && t.profile.after == afterMillis && t.profile.period == 0
      && t.profile.sequence == q.lastSeq
    ensures forall later: nat :: later >= now ==>
              Wait(q.tasks[|p.tasks|], later) == Max0(afterMillis - (later - now))
    ensures Valid(p) ==> Valid(q)
  {
    AddTaskKeepsValid(p, After, NoSerialTag, afterMillis, 0, job, now);
    AddTask(p, After, NoSerialTag, afterMillis, 0, job, now)
  }

  /**
    ExecutePeriodic(ms, f): an untagged Periodic record stamped `now`; at any
    later time it still has to wait max(0, ms - elapsed).
   */
  function ExecutePeriodic(p: PoolState, periodMillis: int, job: JobId, now: nat): (q: PoolState)
    ensures q.running == p.running && q.lastSeq > p.lastSeq
    ensures |q.tasks| == |p.tasks| + 1 && q.tasks[..|p.tasks|] == p.tasks
    ensures var t := q.tasks[|p.tasks|];
      && t.job == job
      && t.profile.timing == Periodic && t.profile.serialTag == NoSerialTag
      && t.profile.after == 0 && t.profile.period == periodMillis
      && t.profile.sequence == q.lastSeq
    ensures forall later: nat :: later >= now ==>
              Wait(q.tasks[|p.tasks|], later) == Max0(periodMillis - (later - now))
    ensures Valid(p) ==> Valid(q)
  {
    AddTaskKeepsValid(p, Periodic, NoSerialTag, 0, periodMillis, job, now);
    AddTask(p, Periodic, NoSerialTag, 0, periodMillis, job, now)
  }

  /** What a dispatch leaves behind: the new state and the task the worker runs. */
  datatype Dispatched = Dispatched(pool: PoolState, task: Task)

  /**
    Dispatch of `t` at `now`, under the lock: its tag joins the running tags; a
    Periodic record is restamped with `now` and goes back at the end of the
    queue, so its next wait is its period; other records leave the queue for good.
   */
  function Dispatch(p: PoolState, t: Task, now: nat): (d: Dispatched)
    ensures d.pool.running == p.running + {t.profile.serialTag}
    ensures d.pool.lastSeq == p.lastSeq
    ensures d.task.job == t.job
    ensures d.task.profile.(record := t.profile.record) == t.profile
    ensures t.profile.timing != Periodic ==> d.task == t && d.pool.tasks == p.tasks
    ensures t.profile.timing == Periodic ==>
              && d.task.profile.record == now
              && d.pool.tasks == p.tasks + [d.task]
              && Wait(d.task, now) == Max0(t.profile.period)
  {
    var running := p.running + {t.profile.serialTag};
    if t.profile.timing == Periodic then
      var refreshed := Task(t.profile.(record := now), t.job);
      Dispatched(PoolState(p.tasks + [refreshed], running, p.lastSeq), refreshed)
    else
      Dispatched(PoolState(p.tasks, running, p.lastSeq), t)
  }

  /**
    Completion of `t`, under the lock: its tag leaves the running tags and
    nothing is put back in the queue (a Periodic record is already there again).
   */
  function Complete(p: PoolState, t: Task): (q: PoolState)
    ensures q.running == p.running - {t.profile.serialTag}
    ensures q.tasks == p.tasks && q.lastSeq == p.lastSeq
  {
    PoolState(p.tasks, p.running - {t.profile.serialTag}, p.lastSeq)
  }

  /**
    Tag exclusion at selection time: while timed records are untagged (as the
    submission entry points guarantee), every task the selector picks out has a
    free tag. A due pick is free by the selector's own test; a pick with a
    positive wait is a timed record, hence untagged.
   */
  lemma PickRespectsExclusion(tasks: seq<Task>, running: set<int>, now: nat, held: Option<Task>)
    requires TimersUntagged(tasks)
    ensures var s := Pick(tasks, running, now, held);
      s.picked.Some? ==> TagFree(s.picked.value.profile.serialTag, running)
  {
  }

  /** The selector keeps the queue's records issued and timed records untagged. */
  lemma PickKeepsRecords(tasks: seq<Task>, running: set<int>, now: nat, held: Option<Task>, lastSeq: nat)
    requires SeqsIssued(tasks + ToSeq(held), lastSeq)
    requires TimersUntagged(tasks + ToSeq(held))
    ensures SeqsIssued(Pick(tasks, running, now, held).queue, lastSeq)
    ensures TimersUntagged(Pick(tasks, running, now, held).queue)
  {
  }

  /** Where position `i` of `a` with its element `k` moved to the back came from in `a`. */
  function MovedFrom(k: nat, n: nat, i: nat): nat
  {
    if i < k then i else if i + 1 < n then i + 1 else k
  }

  /** Moving one record to the back of a queue keeps sequence numbers distinct. */
  lemma MoveToBackKeepsSeqsDistinct(a: seq<Task>, k: nat)
    requires k < |a|
    requires SeqsDistinct(a)
    ensures SeqsDistinct(a[..k] + a[k + 1..] + [a[k]])
  {
    var c := a[..k] + a[k + 1..] + [a[k]];
    forall i | 0 <= i < |c|
      ensures MovedFrom(k, |a|, i) < |a| && c[i] == a[MovedFrom(k, |a|, i)]
    {
    }
    forall i, j | 0 <= i < j < |c|
      ensures c[i].profile.sequence != c[j].profile.sequence
    {
      var si, sj := MovedFrom(k, |a|, i), MovedFrom(k, |a|, j);
      assert c[i] == a[si] && c[j] == a[sj];
      if si < sj {
        assert a[si].profile.sequence != a[sj].profile.sequence;
      } else {
        assert a[sj].profile.sequence != a[si].profile.sequence;
      }
    }
  }

  /**
    The selector neither duplicates nor loses a record: if the sequence numbers
    of the queue and the held task are pairwise distinct, so are those of the
    new queue and the picked task.
   */
  lemma PickKeepsSeqsDistinct(tasks: seq<Task>, running: set<int>, now: nat, held: Option<Task>)
    requires SeqsDistinct(tasks + ToSeq(held))
    ensures var s := Pick(tasks, running, now, held);
      SeqsDistinct(s.queue + ToSeq(s.picked))
  {
    var a := tasks + ToSeq(held);
    var r := PickIndex(tasks, running, now, held);
    if r.None? {
      assert Pick(tasks, running, now, held).queue + [] == tasks == a[..|tasks|];
    } else {
      var k := r.value;
      assert a[..k] == tasks[..k] && a[k + 1..] == tasks[k + 1..] + ToSeq(held) && a[k] == tasks[k];
      MoveToBackKeepsSeqsDistinct(a, k);
      assert Pick(tasks, running, now, held).queue + [tasks[k]] == a[..k] + a[k + 1..] + [a[k]];
    }
  }

  /**
    Dispatch keeps the invariant of the queue together with the task the worker
    holds (which the selector took out of the queue): a restamped Periodic
    record keeps its sequence number, class and tag, so putting it back does
    not duplicate any sequence number.
   */
  lemma DispatchKeepsValid(p: PoolState, t: Task, now: nat)
    requires Valid(PoolState(p.tasks + [t], p.running, p.lastSeq))
    ensures Valid(Dispatch(p, t, now).pool)
  {
    var a := p.tasks + [t];
    var q := Dispatch(p, t, now).pool;
    if t.profile.timing == Periodic {
      var t' := Dispatch(p, t, now).task;
      assert q.tasks == p.tasks + [t'];
      forall i | 0 <= i < |q.tasks|
        ensures q.tasks[i].profile.sequence == a[i].profile.sequence
        ensures q.tasks[i].profile.timing == a[i].profile.timing
        ensures q.tasks[i].profile.serialTag == a[i].profile.serialTag
      {
      }
      forall u | u in q.tasks
        ensures InvalidSeq < u.profile.sequence <= q.lastSeq
        ensures u.profile.timing == Immediate || u.profile.serialTag == NoSerialTag
      {
        var i :| 0 <= i < |q.tasks| && q.tasks[i] == u;
        assert a[i] in a;
      }
    } else {
      assert q.tasks == a[..|p.tasks|];
      forall u | u in q.tasks
        ensures u in a
      {
      }
    }
  }

  /**
    One selection followed by the dispatch of the picked task keeps the
    invariant: the held-free poll of a worker, then the bookkeeping under the
    same lock.
   */
  lemma PickThenDispatchKeepsValid(p: PoolState, now: nat)
    requires Valid(p)
    ensures var s := Pick(p.tasks, p.running, now, None);
      s.picked.Some? ==>
        Valid(Dispatch(PoolState(s.queue, p.running, p.lastSeq), s.picked.value, now).pool)
  {
    var s := Pick(p.tasks, p.running, now, None);
    assert p.tasks + ToSeq(None) == p.tasks;
    if s.picked.Some? {
      var t := s.picked.value;
      PickKeepsRecords(p.tasks, p.running, now, None, p.lastSeq);
      PickKeepsSeqsDistinct(p.tasks, p.running, now, None);
      var a := s.queue + [t];
      assert a == s.queue + ToSeq(s.picked);
      forall u | u in a
        ensures InvalidSeq < u.profile.sequence <= p.lastSeq
        ensures u.profile.timing == Immediate || u.profile.serialTag == NoSerialTag
      {
        if u != t {
          assert u in s.queue;
        }
      }
      DispatchKeepsValid(PoolState(s.queue, p.running, p.lastSeq), t, now);
    }
  }

  /**
    Dispatching a ready tagged task claims its tag: the tag was not running and
    is running afterwards, so no second task with that tag is ready until the
    first completes.
   */
  lemma DispatchClaimsTag(p: PoolState, t: Task, now: nat)
    requires Ready(t, p.running, now)
    requires t.profile.serialTag != NoSerialTag
    ensures t.profile.serialTag !in p.running
    ensures var q := Dispatch(p, t, now).pool;
      forall u: Task :: u.profile.serialTag == t.profile.serialTag ==> !Ready(u, q.running, now)
  {
  }

  /**
    A full dispatch-and-complete cycle of a task whose tag was not running
    restores the running tags; the queue gains the restamped record when the
    task is Periodic and nothing otherwise.
   */
  lemma RunCycle(p: PoolState, t: Task, now: nat)
    requires t.profile.serialTag !in p.running
    ensures var d := Dispatch(p, t, now);
      var q := Complete(d.pool, d.task);
      && q.running == p.running
      && q.lastSeq == p.lastSeq
      && (t.profile.timing == Periodic ==> q.tasks == p.tasks + [Task(t.profile.(record := now), t.job)])
      && (t.profile.timing != Periodic ==> q.tasks == p.tasks)
  {
  }
}
