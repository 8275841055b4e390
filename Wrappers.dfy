/** Optional values and pass/fail outcomes, standing in for C#'s null and
    for thrown exceptions. */
module Wrappers {

  datatype Option<+T> = None | Some(value: T)

  datatype Outcome<+E> = Pass | Fail(error: E)
}
