/** Optional values: stands for Go's nil slices, nil errors and the
    two-valued returns of parsing functions. */
module Wrappers {

  datatype Option<+T> = None | Some(value: T)

}
