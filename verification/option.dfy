/** Optional values: `None` stands for a value pandas marks as missing
    (a `NaT` timestamp) and for a selection that raises on an empty frame. */
module Wrappers {

  datatype Option<+T> = None | Some(value: T)
}
