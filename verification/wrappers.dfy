/** Failure-carrying datatypes shared by the timetable model. */
module Wrappers {

  /** A value that may be absent: a nil reference or a "not found" result of the Go code. */
  datatype Option<+T> = None | Some(value: T)

  /** The result of a computation that the Go code may end with `log.Fatal`. */
  datatype Outcome<+T> = Ok(value: T) | Fatal(reason: string)
}
