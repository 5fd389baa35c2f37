/** Optional values, for the places where the source has `undefined` or `null`. */
module Wrappers {
  datatype Option<+T> = None | Some(value: T)
  {
    /** `x || fallback` for a value that is either absent or truthy. */
    function GetOr(fallback: T): (v: T)
    {
      if Some? then value else fallback
    }
  }
}
