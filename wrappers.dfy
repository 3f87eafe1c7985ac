/** Optional values, standing for PHP's null / "no XPath match" and for the
    missing parts of a parsed URL. */
module Wrappers {

  datatype Option<+T> = None | Some(value: T)

  /** The value held, or `default` when there is none (PHP's `??`). */
  function GetOr<T>(o: Option<T>, default: T): (r: T)
    ensures o.Some? ==> r == o.value
    ensures o.None? ==> r == default
  {
    match o
    case Some(v) => v
    case None => default
  }
}
