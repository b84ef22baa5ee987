/** Failure-carrying values shared by the engine and the players. */
module Wrappers {

  /** A slot that may still be empty (Python's `X | None`). */
  datatype Option<+T> = None | Some(value: T)

  /** The outcome of an operation that can fail (a raised exception in the source). */
  datatype Result<+T, +E> = Ok(value: T) | Err(error: E)

  /** The values of a sequence of slots that are all filled, in order. */
  function Values<T>(s: seq<Option<T>>): (r: seq<T>)
    requires forall k :: 0 <= k < |s| ==> s[k].Some?
    ensures |r| == |s|
    ensures forall k :: 0 <= k < |s| ==> s[k] == Some(r[k])
  {
    if s == [] then [] else [s[0].value] + Values(s[1..])
  }
}
