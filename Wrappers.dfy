/** Optional values, used for the places where the source raises an exception
    that its caller catches, or reads a key that may be absent. */
module Wrappers {
  datatype Option<+T> = None | Some(value: T)
}
