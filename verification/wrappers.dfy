/** Optional values, used for the source's `bool TryGet...(…, T &out)` lookups. */
module Wrappers {

  datatype Option<+T> = None | Some(value: T)

}
