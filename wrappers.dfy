/** Optional values, used for a lookup that may find nothing and for an error that may be absent. */
module Wrappers {

  datatype Option<+T> = None | Some(value: T)

}
