/** Optional values, used where the C code returns NULL or a key may be absent. */
module Wrappers {

  datatype Option<+T> = None | Some(value: T)
}
