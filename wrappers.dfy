/** Optional values: a lookup that may find nothing, or a pandas cell that may be missing (NaN). */
module Wrappers {

  datatype Option<+T> = None | Some(value: T)
}
