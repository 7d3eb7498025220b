/** Optional values: Java's nullable references and "may throw" results. */
module Wrappers {

  datatype Option<+T> = None | Some(value: T)
}
