/** Optional values, used wherever the source returns nothing or raises. */
module Wrappers {

  datatype Option<+T> = None | Some(value: T)
}

/** Octets, as Python `bytes` elements. */
module Bytes {

  type byte = b: int | 0 <= b < 256
}
