/** Option, used for the nullable parent reference of a cache layout entry and for parse results. */
module Wrappers {

  datatype Option<+T> = None | Some(value: T)
}
