/** Optional values, shared by the allocator, page-cache, tar-index and shell models. */
module Wrappers {
  datatype Option<+T> = None | Some(value: T)
}
