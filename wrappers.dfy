/** Optional values, used where the source has "absent" (a missing store entry, a failed match). */
module Wrappers {
  datatype Option<+T> = None | Some(value: T)
}
