/** The optional value used for results that Python produces or raises on. */
module Wrappers {
  datatype Option<+T> = None | Some(value: T)
}
