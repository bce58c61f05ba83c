/** Absent-or-present values and success-or-failure outcomes.
    `Option` stands both for a Java reference that may be null and for
    `java.util.Optional`; `Result` stands for a call that may throw. */
module Wrappers {

  datatype Option<+T> = None | Some(value: T)

  datatype Result<+R, +E> = Success(value: R) | Failure(error: E)
}
