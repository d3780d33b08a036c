/** Optional values, used for null pointers, missing lookups and absent capabilities. */
module Wrappers {

  datatype Option<+T> = None | Some(value: T)
}
