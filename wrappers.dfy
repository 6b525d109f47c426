/** Optional values, used for converter results. */
module Wrappers {

  datatype Option<+T> = None | Some(value: T)

}
