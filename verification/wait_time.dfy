/** How long a task record still has to wait before it becomes due. */
module Waiting {
  import opened TaskProfiles

  /** The delay a record's class adds to its timestamp. */
  function Delay(p: TaskProfile): int
  {
    match p.timing
    case Immediate => 0
    case After => p.after
    case Periodic => p.period
  }

  /**
    A record is due at `now` when it is Immediate, or when `now` has reached its
    deadline: creation time plus `after`, or last dispatch plus `period`.
   */
  predicate Due(p: TaskProfile, now: nat)
  {
    p.timing == Immediate || p.record + Delay(p) <= now
  }

  /**
    Milliseconds until `p` becomes due at time `now`, never negative: zero exactly
    when the record is due, and otherwise the distance from `now` to its deadline.
   */
  function WaitTime(p: TaskProfile, now: nat): (w: nat)
    ensures w == 0 <==> Due(p, now)
    ensures w > 0 ==> now + w == p.record + Delay(p)
    ensures p.timing == Immediate ==> w == 0
  {
    // The body follows threadpool.cc:134-142 branch by branch; Delay and Max0
    // give the closed form the contracts and lemmas are stated in.
    var ret :=
      match p.timing
      case Immediate => 0
      case After => p.record + p.after - now
      case Periodic => p.record + p.period - now;
    if ret > 0 then ret else 0
  }

  /** Per class: 0 for Immediate, the clamped remaining delay for After and Periodic. */
  lemma WaitTimeByClass(p: TaskProfile, now: nat)
    ensures p.timing == Immediate ==> WaitTime(p, now) == 0
    ensures p.timing == After ==> WaitTime(p, now) == Max0(p.record + p.after - now)
    ensures p.timing == Periodic ==> WaitTime(p, now) == Max0(p.record + p.period - now)
  {
  }

  /** The clamp at zero. */
  function Max0(x: int): (r: nat)
    ensures r >= x
    ensures r == 0 || r == x
  {
    if x > 0 then x else 0
  }

  /** Letting `d` milliseconds pass takes `d` off the wait, down to zero. */
  lemma WaitTimeElapses(p: TaskProfile, now: nat, d: nat)
    ensures WaitTime(p, now + d) == Max0(WaitTime(p, now) - d)
  {
  }

  /** Waiting exactly the reported time makes a record due. */
  lemma WaitingMakesDue(p: TaskProfile, now: nat)
    ensures Due(p, now + WaitTime(p, now))
    ensures WaitTime(p, now + WaitTime(p, now)) == 0
  {
  }
}
