/** Optional values: `None` stands for a missing cell (NaN) or a missing result. */
module Wrappers {

  datatype Option<+T> = None | Some(value: T)
}
