/** Optional values: JavaScript's `null` / `undefined` for a field or a lookup that found nothing. */
module Wrappers {

  datatype Option<+T> = None | Some(value: T)
}
