/** Failure-compatible wrappers and the error taxonomy shared by every component.
    Java's `null` returns become `None`; Java's exceptions become `Failure(e)` or an
    `Option<Error>` beside the state a step had already mutated when it threw. */
module Wrappers {

  /** A value that may be absent (Java's nullable reference). */
  datatype Option<+T> = None | Some(value: T)

  /** A value or the reason it could not be produced. */
  datatype Result<+T, +E> = Success(value: T) | Failure(error: E) {

    predicate IsFailure() {
      Failure?
    }

    function PropagateFailure<U>(): Result<U, E>
      requires Failure?
    {
      Failure(error)
    }

    function Extract(): T
      requires Success?
    {
      value
    }
  }

  /** Every way an operation of the model can fail. */
  datatype Error =
    | TruncatedInput              // a read past the end of the buffer (IndexOutOfBoundsException)
    | UnknownReliability          // a reliability code with no variant (a null lookup)
    | UnknownAddressVersion       // an address whose version is neither 4 nor 6 (UnknownHostException)
    | SplitLimitExceeded          // a split count over MAX_SPLIT_COUNT (IllegalArgumentException)
    | SplitMismatch               // a fragment routed to the wrong assembly (IllegalArgumentException)
    | MissingFragment(index: int) // a hole in the fragment indices while joining (NullPointerException)
    | InvalidChannel              // the explicit channel-limit check on send (IllegalArgumentException)
    | ChannelOutOfRange           // an index into a per-channel array outside 0..31 (ArrayIndexOutOfBoundsException)
    | InvalidChunkSize            // a non-positive fragment size handed to the array splitter
    | MissingFrame(sequence: int) // an ACK or NACK for a frame not in the table (NullPointerException)
}
