/** Value wrappers shared by every module of the model. */
module Wrappers {

  /** A value that may be absent; stands for JavaScript's `null`. */
  datatype Option<+T> = None | Some(value: T)

  /** How one network request settled: the promise resolved with a response
      value, or it rejected. The cause of a rejection is never inspected by the
      front end, so it carries no payload. */
  datatype Response<+T> = Success(value: T) | Failure
}
