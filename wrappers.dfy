/** Optional values, used for what a tool writes and for the exceptions of the source. */
module Wrappers {

  datatype Option<+T> = None | Some(value: T)
}
