/** The optional value used wherever the scheduler works with a pointer that may be NULL. */
module Wrappers {

  /** Some(value) for a present value, None for NULL. */
  datatype Option<+T> = None | Some(value: T)

  /** The zero-or-one element sequence holding the value of `o`, if any. */
  function ToSeq<T>(o: Option<T>): (s: seq<T>)
    ensures |s| <= 1
    ensures o.None? <==> s == []
    ensures o.Some? ==> s == [o.value]
  {
    match o
    case None => []
    case Some(v) => [v]
  }
}
