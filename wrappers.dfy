/** Option, used for the "no element matched" results of DOM lookups. */
module Wrappers {
  datatype Option<+T> = None | Some(value: T)
}
