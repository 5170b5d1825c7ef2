/** Failure-compatible wrappers used across the model.

    `Option` stands for the C functions that return `false` (or NULL) on bad
    input, `Result` for the SQL-callable functions that raise an error. */
module Wrappers {

  datatype Option<+T> = None | Some(value: T) {

    predicate IsFailure() {
      None?
    }

    function PropagateFailure<U>(): Option<U>
      requires None?
    {
      None
    }

    function Extract(): T
      requires Some?
    {
      value
    }
  }

  datatype Result<+R, +E> = Success(value: R) | Failure(error: E) {

    predicate IsFailure() {
      Failure?
    }

    function PropagateFailure<U>(): Result<U, E>
      requires Failure?
    {
      Failure(error)
    }

    function Extract(): R
      requires Success?
    {
      value
    }
  }

  /** The error reports raised by the SQL-level functions, one per message family. */
  datatype Error =
    | InvalidValue        // "invalid IP value", "invalid IPR value", ...
    | InvalidNetmask      // "invalid netmask"
    | PrefixOutOfRange    // "prefix length out of range"
    | AddressOutOfRange   // "ip address out of range" (wrapping + / -)
    | InvalidWindowSize   // "invalid preceding or following size in window function"
    | FamilyMismatch      // "invalid mixing of IP address families"
    | InternalError       // iprange_internal_error / ipaddr_internal_error
}
