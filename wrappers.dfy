/** Optional values, standing in for the nullable pointers of the kernel sources. */
module Wrappers {
  datatype Option<T> = None | Some(value: T)
}
