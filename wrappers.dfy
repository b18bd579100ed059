/** Optional values, for "no pending update" and "no timer id stored yet". */
module Wrappers {

  datatype Option<+T> = None | Some(value: T)

}
