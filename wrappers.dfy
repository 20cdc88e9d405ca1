/** Failure-carrying datatypes, and the notion of a list without repeats, shared by the models of the three release-engineering components. */
module Wrappers {

  datatype Option<+T> = None | Some(value: T)

  /** The outcome of an operation that either yields a value or raises an error. */
  datatype Result<+R, +E> = Success(value: R) | Failure(error: E)

  /** The outcome of an operation that yields nothing but may raise an error. */
  datatype Outcome<+E> = Pass | Fail(error: E)

  /** A list that holds each value at most once, as a Python `set` does. */
  ghost predicate NoRepeats<T(!new)>(s: seq<T>) {
    forall v :: multiset(s)[v] <= 1
  }
}
