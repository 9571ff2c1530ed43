/** Optional values and the two ways a Python call can end: by returning a
    value or by raising an exception whose `str()` is the carried message. */
module Outcomes {

  datatype Option<+T> = None | Some(value: T)

  /** How a call into Python code (or a foreign library) completed. */
  datatype Completion<+T> = Returned(value: T) | Raised(error: string)
}
