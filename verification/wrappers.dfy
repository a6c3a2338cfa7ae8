/** Optional values, standing in for the source's nullable references and
    for the `bool Try…(out …)` delegate pattern. */
module Wrappers {

  datatype Option<+T> = None | Some(value: T)
}
