/** Optional values: the resolver's "no companion file" answer is `None`. */
module Wrappers {

  /** A value that may be absent, used where the source returns `null` or a failed match. */
  datatype Option<+T> = None | Some(value: T)
}
