/**
  Task records of the thread pool: the timing class, the serial tag, the timing
  parameters, the "last fired" timestamp and the creation sequence number, paired
  with an opaque payload.
 */
module TaskProfiles {

  /** The three timing classes of a task. */
  datatype Timing = Immediate | After | Periodic

  /** The tag value meaning "no mutual exclusion". */
  const NoSerialTag: int := -1

  /** A sequence number that no record ever carries. */
  const InvalidSeq: nat := 0

  /** The payload is opaque to the scheduler: it is known only by an identifier. */
  type JobId = nat

  /**
    The scheduling part of a task record. `after` and `period` are the source's
    signed milliseconds; `record` is the creation time (After), the last dispatch
    time (Periodic), and unused for Immediate; `seq` is the creation counter.
   */
  datatype TaskProfile = TaskProfile(
    timing: Timing,
    serialTag: int,
    after: int,
    period: int,
    record: nat,
    sequence: nat)

  /** A queued task: its profile paired with its payload. */
  datatype Task = Task(profile: TaskProfile, job: JobId)

  /**
    The next value of the process-wide sequence counter whose previous value is
    `last`: every value handed out lies above all earlier ones and above InvalidSeq.
   */
  function MakeSeq(last: nat): (s: nat)
    ensures s > last
    ensures s > InvalidSeq
  {
    last + 1
  }

  /**
    The profile built for a submission at time `now` when the sequence counter
    stands at `last`. Only the non-Immediate classes read the clock; an Immediate
    record's timestamp is never consulted and is left at 0.
   */
  function NewProfile(timing: Timing, serialTag: int, after: int, period: int, now: nat, last: nat): (p: TaskProfile)
    ensures p.timing == timing && p.serialTag == serialTag
    ensures p.after == after && p.period == period
    ensures p.sequence > last && p.sequence > InvalidSeq
    ensures timing != Immediate ==> p.record == now
  {
    TaskProfile(timing, serialTag, after, period, if timing == Immediate then 0 else now, MakeSeq(last))
  }
}
