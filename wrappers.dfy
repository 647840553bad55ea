/** Optional values: the optional tax rate, the nullable break-even month,
    and results that the source leaves non-finite. */
module Wrappers {

  datatype Option<+T> = None | Some(value: T)
}
