/** Failure-carrying return types used in place of NULL pointers and `exit(1)`. */
module Wrappers {

  /** A possibly-absent value: `None` plays the part of a NULL pointer. */
  datatype Option<+T> = None | Some(value: T)

  /** The outcome of an operation that can fail with an error of type `E`. */
  datatype Result<+T, +E> = Success(value: T) | Failure(error: E)

  /** The values an `Option` holds, as a multiset (empty for `None`). */
  function Bag<T>(o: Option<T>): (b: multiset<T>)
    ensures o.None? <==> |b| == 0
    ensures o.Some? ==> b == multiset{o.value}
  {
    match o
    case None => multiset{}
    case Some(v) => multiset{v}
  }

  /** The values an `Option` holds, as a list of at most one element. */
  function ToSeq<T>(o: Option<T>): (s: seq<T>)
    ensures |s| <= 1
    ensures multiset(s) == Bag(o)
    ensures o.Some? ==> s == [o.value]
  {
    match o
    case None => []
    case Some(v) => [v]
  }
}
