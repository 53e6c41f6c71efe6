/** Optional values, used where main.py raises an exception that its caller swallows. */
module Wrappers {
  datatype Option<+T> = None | Some(value: T)
}
