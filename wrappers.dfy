/** Optional values, used where a step of the parser may produce nothing. */
module Wrappers {

  datatype Option<+T> = None | Some(value: T)
}
