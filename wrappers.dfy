/** Optional values: `None` stands for JavaScript's `undefined`/`null` and for a thrown error. */
module Wrappers {
  datatype Option<+T> = None | Some(value: T)
}
