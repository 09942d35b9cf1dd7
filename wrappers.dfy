/** Optional values, for a session key that may be unset and a response
    field that may be absent. */
module Wrappers {

  datatype Option<+T> = None | Some(value: T)
}
