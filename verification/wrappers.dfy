/** Option, for results that may be absent (a JSON parse that throws, a missing key). */
module Wrappers {
  datatype Option<+T> = None | Some(value: T)
}
