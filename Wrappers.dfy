/** Optional values, standing for JavaScript's `null` / `undefined`. */
module Wrappers {

  datatype Option<+T> = None | Some(value: T)

  /** JavaScript truthiness of a nullable string: neither null nor "". */
  predicate Present(o: Option<string>)
  {
    o.Some? && o.value != ""
  }
}
