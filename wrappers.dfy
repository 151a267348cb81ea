/** Optional values, used where the kernel returns NULL for "nothing". */
module Wrappers {
  datatype Option<+T> = None | Some(value: T)
}
