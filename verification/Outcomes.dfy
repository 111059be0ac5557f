/** How a Swift call can end. */
module Outcomes {

  datatype Option<+T> = None | Some(value: T)

  /** A call that either returns or stops the process: an out-of-range index, a `removeFirst`
      past the end, an integer conversion that does not fit, a failed `precondition`. */
  datatype Outcome<+T> = Traps | Returns(value: T) {
    predicate IsFailure() { Traps? }
    function PropagateFailure<U>(): Outcome<U> requires Traps? { Traps }
    function Extract(): T requires Returns? { value }
  }

  /** A call that either returns or throws an error. */
  datatype Result<+T, +E> = Success(value: T) | Failure(error: E) {
    predicate IsFailure() { Failure? }
    function PropagateFailure<U>(): Result<U, E> requires Failure? { Failure(error) }
    function Extract(): T requires Success? { value }
  }

  /** The largest value of Swift's 64-bit `Int`; every `count` is at most this. */
  const MAX_INT: nat := 0x7FFF_FFFF_FFFF_FFFF
}
