/** Result types shared by the containers. Go signals failures with an `error`
    value and absent elements with `nil`; the model uses these datatypes instead. */
module Wrappers {

  /** An element, or the Go `nil` that the containers return when there is none. */
  datatype Option<T> = None | Some(value: T)

  /** The error conditions the containers report. */
  datatype Error =
    | ItemExists       // Add of an element that is already stored
    | ItemNotFound     // Remove of an element that is not stored
    | ListEmpty        // RemoveFirst/RemoveLast on an empty list
    | IndexOutOfBound  // Get/Set/getNode beyond the end of a list

  /** A Go `error` result: `nil` (Pass) or an error value (Fail). */
  datatype Outcome = Pass | Fail(error: Error)
}
