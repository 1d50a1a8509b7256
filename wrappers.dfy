/** Optional values: a missing header, a missing query parameter, an unset
    environment variable or a storage call that reports no error. */
module Wrappers {

  datatype Option<+T> = None | Some(value: T)
}
