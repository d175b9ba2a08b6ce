/** Optional values: JavaScript's `null`/`undefined` next to a real value. */
module Wrappers {

  /** `None` stands for `null` (or an unmounted ref), `Some(v)` for a present value. */
  datatype Option<+T> = None | Some(value: T)
}
